/**
 * The load-once data source (model/Database.php). The file system and
 * json_decode are abstracted as a given outcome per path; the static
 * instance is a field of a Registry object that outlives the calls.
 */
module Database {
  import opened Wrappers
  import opened RawRecord

  /** The four exceptions the loader throws, in the order it checks for them. */
  datatype LoadError =
    | FileNotFound(path: string)
    | OpenFailed(path: string)
    | DecodeFailed
    | ReportEntryMissing
  {
    /** The exception message. */
    function Message(): (m: string)
      ensures this.FileNotFound? ==> m == "File not found: " + this.path
      ensures this.OpenFailed? ==> m == "Failed to open file: " + this.path
      ensures this.DecodeFailed? ==> m == "Failed to decode JSON data."
      ensures this.ReportEntryMissing? ==> m == "'Report_Entry' key not found in JSON data."
    {
      match this
      case FileNotFound(p) => "File not found: " + p
      case OpenFailed(p) => "Failed to open file: " + p
      case DecodeFailed => "Failed to decode JSON data."
      case ReportEntryMissing => "'Report_Entry' key not found in JSON data."
    }
  }

  /**
   * What json_decode($contents, true) gives: null (malformed text, or the
   * JSON literal null), a scalar (number, string or boolean), or an object,
   * whose members map to a list of records or to null.
   */
  datatype Decoded =
    | Null
    | Scalar
    | Object(members: map<string, Option<seq<Record>>>)

  /** An existing file: file_get_contents fails on it, or it reads and decodes to some value. */
  datatype FileEntry = Unreadable | Readable(decoded: Decoded)

  /** The files that exist, by path: a path outside the map does not exist. */
  type FileSystem = map<string, FileEntry>

  /** isset($decodedJson['Report_Entry']): the key is present on an object and its value is not null. */
  predicate HasReportEntry(d: Decoded) {
    d.Object? && "Report_Entry" in d.members && d.members["Report_Entry"].Some?
  }

  /** The outcome of the constructor's load: the Report_Entry records, or the first check that fails. */
  function Load(fs: FileSystem, path: string): Result<seq<Record>, LoadError> {
    if path !in fs then Failure(FileNotFound(path))
    else if fs[path].Unreadable? then Failure(OpenFailed(path))
    else if fs[path].decoded.Null? then Failure(DecodeFailed)
    else if !HasReportEntry(fs[path].decoded) then Failure(ReportEntryMissing)
    else Success(fs[path].decoded.members["Report_Entry"].value)
  }

  /**
   * Each failure names the first check that fails, each check runs only
   * after the earlier ones passed, and a load succeeds exactly when all
   * four pass, with the Report_Entry value as the data.
   */
  lemma LoadOutcomes(fs: FileSystem, path: string)
    ensures Load(fs, path) == Failure(FileNotFound(path)) <==> path !in fs
    ensures Load(fs, path) == Failure(OpenFailed(path)) <==> path in fs && fs[path].Unreadable?
    ensures Load(fs, path) == Failure(DecodeFailed) <==>
      path in fs && fs[path].Readable? && fs[path].decoded.Null?
    ensures Load(fs, path) == Failure(ReportEntryMissing) <==>
      path in fs && fs[path].Readable? && !fs[path].decoded.Null? && !HasReportEntry(fs[path].decoded)
    ensures Load(fs, path).Success? <==> path in fs && fs[path].Readable? && HasReportEntry(fs[path].decoded)
    ensures Load(fs, path).Success? ==> Load(fs, path).value == fs[path].decoded.members["Report_Entry"].value
    ensures Load(fs, path).Failure? ==> Load(fs, path).error.FileNotFound? || Load(fs, path).error.OpenFailed? ==>
      Load(fs, path).error.path == path
  {
  }

  /** The exception a failed load throws carries the message of the check that failed. */
  lemma LoadFailureMessage(fs: FileSystem, path: string)
    ensures path !in fs ==> Load(fs, path).Failure? && Load(fs, path).error.Message() == "File not found: " + path
    ensures path in fs && fs[path].Unreadable? ==>
      Load(fs, path).Failure? && Load(fs, path).error.Message() == "Failed to open file: " + path
    ensures path in fs && fs[path].Readable? && fs[path].decoded.Null? ==>
      Load(fs, path).Failure? && Load(fs, path).error.Message() == "Failed to decode JSON data."
    ensures path in fs && fs[path].Readable? && !fs[path].decoded.Null? && !HasReportEntry(fs[path].decoded) ==>
      Load(fs, path).Failure? && Load(fs, path).error.Message() == "'Report_Entry' key not found in JSON data."
  {
  }

  /** A Report_Entry that is present but null is reported as missing, not as a decode failure. */
  lemma NullReportEntryIsMissing(fs: FileSystem, path: string, members: map<string, Option<seq<Record>>>)
    requires path in fs && fs[path] == Readable(Object(members))
    requires "Report_Entry" in members && members["Report_Entry"] == None
    ensures Load(fs, path) == Failure(ReportEntryMissing)
  {
  }

  /** Content that decodes to null, or to a scalar, fails as the text says: decode error and missing key. */
  lemma NonObjectContent(fs: FileSystem, path: string)
    requires path in fs && fs[path].Readable? && !fs[path].decoded.Object?
    ensures fs[path].decoded.Null? ==> Load(fs, path) == Failure(DecodeFailed)
    ensures fs[path].decoded.Scalar? ==> Load(fs, path) == Failure(ReportEntryMissing)
  {
  }

  /** The loader depends only on the entry of its own path. */
  lemma LoadReadsOnlyItsPath(fs: FileSystem, path: string, other: string, e: FileEntry)
    requires other != path
    ensures Load(fs[other := e], path) == Load(fs, path)
  {
  }

  /** A loaded database: the Report_Entry records, set once by the loader. */
  class Database {
    var db: seq<Record>

    constructor (entries: seq<Record>)
      ensures db == entries
    {
      db := entries;
    }

    /**
     * The private constructor: the four guard checks in their order, each
     * ending the load with its exception, and a fresh database holding the
     * Report_Entry value when all pass.
     */
    static method Open(fs: FileSystem, path: string) returns (r: Result<Database, LoadError>)
      ensures r.Failure? <==> Load(fs, path).Failure?
      ensures r.Failure? ==> r.error == Load(fs, path).error
      ensures r.Success? ==> fresh(r.value) && r.value.db == Load(fs, path).value
    {
      if path !in fs {
        return Failure(FileNotFound(path));
      }
      var entry := fs[path];
      if entry.Unreadable? {
        return Failure(OpenFailed(path));
      }
      var decoded := entry.decoded;
      if decoded.Null? {
        return Failure(DecodeFailed);
      }
      if !HasReportEntry(decoded) {
        return Failure(ReportEntryMissing);
      }
      var d := new Database(decoded.members["Report_Entry"].value);
      return Success(d);
    }

    /** getDB: the loaded records; nothing changes. */
    method GetDB() returns (entries: seq<Record>)
      ensures entries == db
    {
      entries := db;
    }
  }

  /** Holder of the static $instance: unset until the first successful load. */
  class Registry {
    var instance: Database?

    constructor ()
      ensures instance == null
    {
      instance := null;
    }

    /**
     * getInstance: while unset, load from `path` and keep the result only on
     * success; once set, return the same instance whatever path is given.
     */
    method GetInstance(fs: FileSystem, path: string) returns (r: Result<Database, LoadError>)
      modifies this
      ensures old(instance) != null ==> r == Success(old(instance)) && instance == old(instance)
      ensures old(instance) == null && Load(fs, path).Failure? ==>
        r == Failure(Load(fs, path).error) && instance == null
      ensures old(instance) == null && Load(fs, path).Success? ==>
        r.Success? && fresh(r.value) && instance == r.value && r.value.db == Load(fs, path).value
      ensures r.Success? ==> instance == r.value
    {
      if instance == null {
        var loaded := Database.Open(fs, path);
        if loaded.Failure? {
          return Failure(loaded.error);
        }
        instance := loaded.value;
      }
      return Success(instance);
    }
  }

  /**
   * Two getInstance calls on a fresh registry, within one script run, with
   * arbitrary paths and file systems: once the first load succeeds, the second
   * call gets the same database and its records, without reading its own
   * path.
   */
  method FirstLoadWins(fs1: FileSystem, p1: string, fs2: FileSystem, p2: string)
    returns (first: Result<Database, LoadError>, second: Result<Database, LoadError>)
    ensures Load(fs1, p1).Success? ==> first.Success? && second == first
    ensures Load(fs1, p1).Success? ==> second.value.db == Load(fs1, p1).value
    ensures Load(fs1, p1).Failure? ==> first == Failure(Load(fs1, p1).error)
  {
    var registry := new Registry();
    first := registry.GetInstance(fs1, p1);
    second := registry.GetInstance(fs2, p2);
  }

  /** A failed load leaves the instance unset, so the next call loads again and may succeed. */
  method RetryAfterFailure(fs1: FileSystem, p1: string, fs2: FileSystem, p2: string)
    returns (first: Result<Database, LoadError>, second: Result<Database, LoadError>)
    requires Load(fs1, p1).Failure?
    ensures first == Failure(Load(fs1, p1).error)
    ensures second.Success? <==> Load(fs2, p2).Success?
    ensures second.Success? ==> second.value.db == Load(fs2, p2).value
    ensures second.Failure? ==> second.error == Load(fs2, p2).error
  {
    var registry := new Registry();
    first := registry.GetInstance(fs1, p1);
    second := registry.GetInstance(fs2, p2);
  }
}
