/**
 * The search filter of the directory page (index.php): the query is trimmed
 * and lower-cased, a falsy query shows everyone, and otherwise a record is
 * kept when one of eleven fields contains the query, ignoring case.
 */
module Index {
  import opened Wrappers
  import opened PhpStrings
  import opened RawRecord
  import opened Sequences
  import Employee
  import Database

  /** The data file the page loads. */
  const DataFile: string := "./faculty.json"

  /** `isset($_GET['search']) ? strtolower(trim($_GET['search'])) : ''`. */
  function NormalizeQuery(search: Option<string>): string {
    match search
    case None => ""
    case Some(s) => Lower(Trim(s))
  }

  /** A normalised query has no surrounding whitespace and no upper-case letter, so normalising again changes nothing. */
  lemma NormalizeIdempotent(search: Option<string>)
    ensures NormalizeQuery(Some(NormalizeQuery(search))) == NormalizeQuery(search)
  {
    if search.Some? {
      var s := search.value;
      TrimLower(Trim(s));
      TrimIdempotent(s);
      LowerFixed(Lower(Trim(s)));
    }
  }

  /** Queries that differ only in letter case are normalised alike. */
  lemma NormalizeCaseInsensitive(a: string, b: string)
    requires Lower(a) == Lower(b)
    ensures NormalizeQuery(Some(a)) == NormalizeQuery(Some(b))
  {
    TrimLower(a);
    TrimLower(b);
  }

  /** Leading and trailing whitespace does not reach the normalised query. */
  lemma NormalizeWhitespaceInsensitive(w1: string, s: string, w2: string)
    requires AllTrimChars(w1) && AllTrimChars(w2)
    ensures NormalizeQuery(Some(w1 + s + w2)) == NormalizeQuery(Some(s))
  {
    TrimIgnoresSurrounding(w1, s, w2);
  }

  /** The eleven fields the filter searches, in the order of the $fields array. */
  function SearchableFields(e: Employee.Employee): seq<string> {
    var d := e.job.jobDetails;
    [e.preferredName, e.legalName, e.workPhones, e.job.jobTitle,
     d.jobFamily, d.employeeType, d.businessTitle, d.activeStatus,
     d.timeType, d.academicUnits, d.primaryWorkSpace]
  }

  /** The record keys behind the eleven searched fields, in the same order. */
  const SearchedKeys: seq<string> :=
    ["Preferred_Name", "Legal_Name", "Work_Phones", "Job_Title",
     "Job_Family", "Employee_Type", "Business_Title", "Active_Status",
     "Time_Type", "Academic_Units", "Primary_Work_Space"]

  /** Each searched field is the `??` lookup of its key. */
  lemma SearchableFieldsAreLookups(r: Record)
    ensures |SearchableFields(Employee.FromRecord(r))| == |SearchedKeys|
    ensures forall i :: 0 <= i < |SearchedKeys| ==> SearchableFields(Employee.FromRecord(r))[i] == Lookup(r, SearchedKeys[i])
  {
  }

  /** Some searched field, lower-cased, contains the query. */
  predicate Keep(record: Record, query: string) {
    var fields := SearchableFields(Employee.FromRecord(record));
    exists i :: 0 <= i < |fields| && Contains(Lower(fields[i]), query)
  }

  /**
   * The array_filter callback: build the employee, then scan the fields in
   * order and answer true at the first one that contains the query.
   */
  method KeepRecord(record: Record, query: string) returns (keep: bool)
    ensures keep == Keep(record, query)
  {
    var employee := Employee.FromRecord(record);
    var fields := SearchableFields(employee);
    var i := 0;
    while i < |fields|
      invariant 0 <= i <= |fields|
      invariant forall j :: 0 <= j < i ==> !Contains(Lower(fields[j]), query)
    {
      if Contains(Lower(fields[i]), query) {
        return true;
      }
      i := i + 1;
    }
    return false;
  }

  /** A record is kept exactly when the query occurs at some position of some lower-cased searched field. */
  lemma KeepIffOccurs(record: Record, query: string)
    ensures Keep(record, query) <==>
      exists i, j :: 0 <= i < |SearchedKeys| && OccursAt(Lower(Lookup(record, SearchedKeys[i])), query, j)
  {
    SearchableFieldsAreLookups(record);
    var fields := SearchableFields(Employee.FromRecord(record));
    if Keep(record, query) {
      var i :| 0 <= i < |fields| && Contains(Lower(fields[i]), query);
      ContainsIffOccurs(Lower(fields[i]), query);
      var j :| OccursAt(Lower(fields[i]), query, j);
      assert OccursAt(Lower(Lookup(record, SearchedKeys[i])), query, j);
    } else {
      forall i, j | 0 <= i < |SearchedKeys| && OccursAt(Lower(Lookup(record, SearchedKeys[i])), query, j)
        ensures false
      {
        ContainsIffOccurs(Lower(fields[i]), query);
      }
    }
  }

  /**
   * The employee list after lines 10-37: unchanged under a falsy query,
   * otherwise the records kept by the callback, in their order.
   */
  function Search(records: seq<Record>, search: Option<string>): (result: seq<Record>)
    ensures !IsTruthy(NormalizeQuery(search)) ==> result == records
    ensures IsSubsequence(result, records)
    ensures forall x :: x in result ==> x in records
    ensures IsTruthy(NormalizeQuery(search)) ==>
      forall x :: x in records ==> (x in result <==> Keep(x, NormalizeQuery(search)))
  {
    var query := NormalizeQuery(search);
    if !IsTruthy(query) then
      SubsequenceRefl(records);
      records
    else
      FilterIsSubsequence((x: Record) => Keep(x, query), records);
      Filter((x: Record) => Keep(x, query), records)
  }

  /** The filter is applied to each record on its own: searching a concatenation concatenates the searches. */
  lemma SearchConcat(a: seq<Record>, b: seq<Record>, search: Option<string>)
    ensures Search(a + b, search) == Search(a, search) + Search(b, search)
  {
    var query := NormalizeQuery(search);
    if IsTruthy(query) {
      FilterConcat((x: Record) => Keep(x, query), a, b);
    }
  }

  /** Searching the result again with the same query changes nothing. */
  lemma SearchIdempotent(records: seq<Record>, search: Option<string>)
    ensures Search(Search(records, search), search) == Search(records, search)
  {
    var query := NormalizeQuery(search);
    if IsTruthy(query) {
      FilterIdempotent((x: Record) => Keep(x, query), records);
    }
  }

  /** Searching with the normalised query gives the same list as searching with the raw one. */
  lemma SearchNormalized(records: seq<Record>, search: Option<string>)
    ensures Search(records, Some(NormalizeQuery(search))) == Search(records, search)
  {
    NormalizeIdempotent(search);
  }

  /** Letter case in the query does not matter. */
  lemma SearchCaseInsensitive(records: seq<Record>, a: string, b: string)
    requires Lower(a) == Lower(b)
    ensures Search(records, Some(a)) == Search(records, Some(b))
  {
    NormalizeCaseInsensitive(a, b);
  }

  /** Whitespace around the query does not matter. */
  lemma SearchWhitespaceInsensitive(records: seq<Record>, w1: string, s: string, w2: string)
    requires AllTrimChars(w1) && AllTrimChars(w2)
    ensures Search(records, Some(w1 + s + w2)) == Search(records, Some(s))
  {
    NormalizeWhitespaceInsensitive(w1, s, w2);
  }

  /** The query "0" is falsy: the full list is shown. */
  lemma ZeroQueryShowsEveryone(records: seq<Record>)
    ensures Search(records, Some("0")) == records
    ensures Search(records, None) == records
  {
    assert Trim("0") == "0";
  }

  /** The keys behind the other three values: the organisation, the classifications and the email are never searched. */
  predicate IsUnsearchedKey(key: string) {
    key == "Supervisory_Organization" || key == "Job_Classifications" || key == "Primary_Work_Email"
  }

  /** Whatever an unsearched key holds, the record is kept or dropped as before. */
  lemma UnsearchedKeysIgnored(record: Record, key: string, v: Option<string>, query: string)
    requires IsUnsearchedKey(key)
    ensures Keep(record[key := v], query) == Keep(record, query)
  {
    var r' := record[key := v];
    UnsearchedNotSearched(key);
    forall i | 0 <= i < |SearchedKeys|
      ensures Lookup(r', SearchedKeys[i]) == Lookup(record, SearchedKeys[i])
    {
      assert SearchedKeys[i] in SearchedKeys;
      LookupOtherKey(record, key, v, SearchedKeys[i]);
    }
    KeepBySearchedKeys(r', record, query);
  }

  /** Records that agree on the eleven searched keys are kept or dropped together. */
  lemma KeepBySearchedKeys(r1: Record, r2: Record, query: string)
    requires forall i :: 0 <= i < |SearchedKeys| ==> Lookup(r1, SearchedKeys[i]) == Lookup(r2, SearchedKeys[i])
    ensures Keep(r1, query) == Keep(r2, query)
  {
    SearchableFieldsAreLookups(r1);
    SearchableFieldsAreLookups(r2);
    assert SearchableFields(Employee.FromRecord(r1)) == SearchableFields(Employee.FromRecord(r2));
  }

  lemma UnsearchedNotSearched(key: string)
    requires IsUnsearchedKey(key)
    ensures key !in SearchedKeys
  {
  }

  /**
   * A record that lacks a searched key shows "N/A" there, which lower-cases to
   * "n/a": every query that occurs in "n/a" ("n", "/", "a/", ...) keeps it.
   */
  lemma MissingFieldMatchesNA(record: Record, i: nat, query: string)
    requires i < |SearchedKeys| && SearchedKeys[i] !in record
    requires Contains("n/a", query)
    ensures Keep(record, query)
  {
    SearchableFieldsAreLookups(record);
    assert Lower(NA) == "n/a";
    assert Contains(Lower(SearchableFields(Employee.FromRecord(record))[i]), query);
  }

  /** A record whose only value is an email matching the query is still dropped when the query is not in "n/a". */
  lemma EmailOnlyMatchDropped(email: string, query: string)
    requires !Contains("n/a", query)
    ensures !Keep(map["Primary_Work_Email" := Some(email)], query)
  {
    var record := map["Primary_Work_Email" := Some(email)];
    SearchableFieldsAreLookups(record);
    assert Lower(NA) == "n/a";
    forall i | 0 <= i < |SearchedKeys|
      ensures Lookup(record, SearchedKeys[i]) == NA
    {
      assert SearchedKeys[i] != "Primary_Work_Email";
    }
  }

  /** array_filter with the callback: a pass over the records keeping those the callback accepts. */
  method FilterRecords(records: seq<Record>, query: string) returns (kept: seq<Record>)
    ensures kept == Filter((x: Record) => Keep(x, query), records)
  {
    ghost var keep := (x: Record) => Keep(x, query);
    kept := [];
    var i := 0;
    while i < |records|
      invariant 0 <= i <= |records|
      invariant kept == Filter(keep, records[..i])
    {
      var k := KeepRecord(records[i], query);
      FilterPrefixStep(keep, records, i);
      if k {
        kept := kept + [records[i]];
      }
      i := i + 1;
    }
    assert records[..|records|] == records;
  }

  /**
   * Lines 7-37: fetch the single database for the data file, read its
   * records, and run the filter over them when the query is truthy; a
   * failed load ends the page with its exception.
   */
  method ListEmployees(registry: Database.Registry, fs: Database.FileSystem, search: Option<string>)
    returns (result: Result<seq<Record>, Database.LoadError>)
    modifies registry
    ensures old(registry.instance) != null ==> result == Success(Search(old(registry.instance.db), search))
    ensures old(registry.instance) == null ==> match Database.Load(fs, DataFile)
      case Failure(err) => result == Failure(err)
      case Success(records) => result == Success(Search(records, search))
    ensures old(registry.instance) != null ==> registry.instance == old(registry.instance)
    ensures old(registry.instance) == null && Database.Load(fs, DataFile).Failure? ==> registry.instance == null
    ensures old(registry.instance) == null && Database.Load(fs, DataFile).Success? ==>
      registry.instance != null && fresh(registry.instance) && registry.instance.db == Database.Load(fs, DataFile).value
  {
    var db := registry.GetInstance(fs, DataFile);
    if db.Failure? {
      return Failure(db.error);
    }
    var employees := db.value.GetDB();
    var query := NormalizeQuery(search);
    if IsTruthy(query) {
      employees := FilterRecords(employees, query);
    }
    return Success(employees);
  }

  /**
   * Two passes of the page's data flow over one registry, within one script
   * run: once the first load succeeds, the second pass lists the same records
   * whatever the file system now holds.
   */
  method SecondPassUsesFirstLoad(fs1: Database.FileSystem, fs2: Database.FileSystem, search: Option<string>)
    returns (first: Result<seq<Record>, Database.LoadError>, second: Result<seq<Record>, Database.LoadError>)
    ensures Database.Load(fs1, DataFile).Success? ==> first.Success? && second == first
    ensures Database.Load(fs1, DataFile).Failure? ==> first == Failure(Database.Load(fs1, DataFile).error)
  {
    var registry := new Database.Registry();
    first := ListEmployees(registry, fs1, search);
    second := ListEmployees(registry, fs2, search);
  }
}
