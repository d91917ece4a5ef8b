/**
 * An employee (model/Employee.php): three identity fields and the Job built
 * from the same record, the element ID derived from the preferred name, and
 * the rule that chooses which details the card shows. The card's markup is
 * not part of this model; the details come out as a list of entries.
 */
module Employee {
  import opened Wrappers
  import opened PhpStrings
  import opened RawRecord
  import opened Sequences
  import JobDetails
  import Job

  datatype Employee = Employee(preferredName: string, legalName: string, workPhones: string, job: Job.Job)

  /** The constructor: the three identity fields with the "N/A" default, and a Job from the same record. */
  function FromRecord(r: Record): (e: Employee)
    ensures e.preferredName == Lookup(r, "Preferred_Name")
    ensures e.legalName == Lookup(r, "Legal_Name")
    ensures e.workPhones == Lookup(r, "Work_Phones")
    ensures e.job == Job.FromRecord(r)
  {
    Employee(Lookup(r, "Preferred_Name"), Lookup(r, "Legal_Name"), Lookup(r, "Work_Phones"), Job.FromRecord(r))
  }

  /** The keys read by the Employee constructor itself. */
  predicate IsEmployeeKey(key: string) {
    key == "Preferred_Name" || key == "Legal_Name" || key == "Work_Phones"
  }

  /** The job does not depend on the employee-level keys. */
  lemma JobIgnoresEmployeeKeys(r: Record, key: string, v: Option<string>)
    requires IsEmployeeKey(key)
    ensures FromRecord(r[key := v]).job == FromRecord(r).job
  {
    var r' := r[key := v];
    forall k | k in Job.Keys
      ensures Lookup(r', k) == Lookup(r, k)
    {
      assert k != key;
      LookupOtherKey(r, key, v, k);
    }
    Job.DependsOnlyOnKeys(r', r);
  }

  // ---------------------------------------------------------------------
  // setPreferredNameID

  /** The characters the pattern `[^A-Za-z0-9\-]` does not match. */
  predicate IsIdChar(c: char) {
    'A' <= c <= 'Z' || 'a' <= c <= 'z' || '0' <= c <= '9' || c == '-'
  }

  /** preg_replace('/[^A-Za-z0-9\-]/', '', s): every other character is deleted. */
  function StripNonIdChars(s: string): string {
    Filter(IsIdChar, s)
  }

  /** Lower-casing keeps the ID characters and keeps out the others. */
  lemma IdCharLower(c: char)
    ensures IsIdChar(LowerChar(c)) == IsIdChar(c)
  {
  }

  /** Only ID characters survive the stripping, and none of them is a space. */
  lemma LowerStripNoSpace(s: string)
    ensures !Contains(Lower(StripNonIdChars(s)), " ")
  {
    var t := Lower(StripNonIdChars(s));
    ContainsChar(t, ' ');
    assert forall i :: 0 <= i < |t| ==> IsIdChar(t[i]) by {
      forall i | 0 <= i < |t|
        ensures IsIdChar(t[i])
      {
        assert StripNonIdChars(s)[i] in StripNonIdChars(s);
        IdCharLower(StripNonIdChars(s)[i]);
      }
    }
  }

  /**
   * setPreferredNameID: strip the characters outside [A-Za-z0-9-], lower-case,
   * then replace spaces with underscores, a step that finds no space left to
   * replace.
   */
  function PreferredNameId(name: string): (id: string)
    ensures id == Lower(StripNonIdChars(name))
    ensures forall i :: 0 <= i < |id| ==> 'a' <= id[i] <= 'z' || '0' <= id[i] <= '9' || id[i] == '-'
    ensures ' ' !in id && '_' !in id
    ensures |id| <= |name|
  {
    LowerStripNoSpace(name);
    StrReplaceAbsent(" ", "_", Lower(StripNonIdChars(name)));
    var id := StrReplace(" ", "_", Lower(StripNonIdChars(name)));
    assert forall i :: 0 <= i < |id| ==> IsIdChar(id[i]) && !IsAsciiUpper(id[i]) by {
      forall i | 0 <= i < |id|
        ensures IsIdChar(id[i]) && !IsAsciiUpper(id[i])
      {
        assert StripNonIdChars(name)[i] in StripNonIdChars(name);
        IdCharLower(StripNonIdChars(name)[i]);
      }
    }
    id
  }

  /** The ID of a concatenation is the concatenation of the IDs: each character is handled on its own. */
  lemma PreferredNameIdConcat(a: string, b: string)
    ensures PreferredNameId(a + b) == PreferredNameId(a) + PreferredNameId(b)
  {
    FilterConcat(IsIdChar, a, b);
    LowerConcat(StripNonIdChars(a), StripNonIdChars(b));
  }

  /** One character: kept and lower-cased when it is in [A-Za-z0-9-], dropped otherwise. */
  lemma PreferredNameIdChar(c: char)
    ensures PreferredNameId([c]) == if IsIdChar(c) then [LowerChar(c)] else []
  {
    FilterSingleton(IsIdChar, c);
  }

  /** The ID is the lower-cased name with characters deleted, the rest in their original order. */
  lemma PreferredNameIdIsSubsequence(name: string)
    ensures IsSubsequence(PreferredNameId(name), Lower(name))
  {
    LowerStripCommute(name);
    FilterIsSubsequence(IsIdChar, Lower(name));
  }

  lemma {:induction false} LowerStripCommute(s: string)
    ensures Lower(StripNonIdChars(s)) == Filter(IsIdChar, Lower(s))
    decreases |s|
  {
    if s != [] {
      LowerStripCommute(s[1..]);
      IdCharLower(s[0]);
      assert s == [s[0]] + s[1..];
      FilterConcat(IsIdChar, [s[0]], s[1..]);
      FilterSingleton(IsIdChar, s[0]);
      LowerConcat([s[0]], s[1..]);
      LowerConcat(Filter(IsIdChar, [s[0]]), Filter(IsIdChar, s[1..]));
      assert Lower(s) == [LowerChar(s[0])] + Lower(s[1..]);
      FilterConcat(IsIdChar, [LowerChar(s[0])], Lower(s[1..]));
      FilterSingleton(IsIdChar, LowerChar(s[0]));
    }
  }

  /** Deriving the ID from an ID changes nothing. */
  lemma PreferredNameIdIdempotent(name: string)
    ensures PreferredNameId(PreferredNameId(name)) == PreferredNameId(name)
  {
    var id := PreferredNameId(name);
    FilterAll(IsIdChar, id);
    LowerFixed(id);
  }

  // ---------------------------------------------------------------------
  // displayDetail / displayDetails

  /** One line of the card body: displayDetail's label, value and isLink arguments. */
  datatype Detail = Detail(caption: string, value: string, isLink: bool)

  /** displayDetail prints a line when `$value && $value !== 'N/A'`: not "", not "0", not "N/A". */
  predicate IsShown(value: string) {
    IsTruthy(value) && value != NA
  }

  predicate IsShownDetail(x: Detail) {
    IsShown(x.value)
  }

  /** The eight displayDetail calls of displayDetails, in their order. */
  function Candidates(e: Employee): seq<Detail> {
    var d := e.job.jobDetails;
    [Detail("Legal Name", e.legalName, false),
     Detail("Title", d.businessTitle, false),
     Detail("Work Phone(s)", e.workPhones, false),
     Detail("Primary Work Email", d.primaryWorkEmail, true),
     Detail("Job Classifications", JobDetails.GetJobClassifications(d), false),
     Detail("Division", d.academicUnits, false),
     Detail("Primary Work Space", d.primaryWorkSpace, false),
     Detail("Supervisor", JobDetails.GetSupervisor(d), false)]
  }

  const DetailLabels: seq<string> :=
    ["Legal Name", "Title", "Work Phone(s)", "Primary Work Email", "Job Classifications",
     "Division", "Primary Work Space", "Supervisor"]

  function LabelsOf(ds: seq<Detail>): seq<string> {
    seq(|ds|, i requires 0 <= i < |ds| => ds[i].caption)
  }

  lemma {:induction false} LabelsOfSubsequence(a: seq<Detail>, b: seq<Detail>)
    requires IsSubsequence(a, b)
    ensures IsSubsequence(LabelsOf(a), LabelsOf(b))
    decreases |b|
  {
    if a != [] {
      assert LabelsOf(b)[1..] == LabelsOf(b[1..]);
      if a[0] == b[0] && IsSubsequence(a[1..], b[1..]) {
        assert LabelsOf(a)[1..] == LabelsOf(a[1..]);
        LabelsOfSubsequence(a[1..], b[1..]);
      } else {
        LabelsOfSubsequence(a, b[1..]);
      }
    }
  }

  /** The captions of the candidates are the fixed list, and only the email is a link. */
  lemma CandidatesShape(e: Employee)
    ensures LabelsOf(Candidates(e)) == DetailLabels
    ensures forall x :: x in Candidates(e) ==> (x.isLink <==> x.caption == "Primary Work Email")
  {
    var c := Candidates(e);
    assert LabelsOf(c) == DetailLabels;
    forall x | x in c
      ensures x.isLink <==> x.caption == "Primary Work Email"
    {
      var k :| 0 <= k < |c| && c[k] == x;
      assert k == 3 <==> LabelsOf(c)[k] == "Primary Work Email";
    }
  }

  /**
   * The details the card shows: the eight candidates in their fixed order,
   * keeping exactly those whose value is shown; only the email is a link.
   */
  function Details(e: Employee): (ds: seq<Detail>)
    ensures forall k :: 0 <= k < |Candidates(e)| ==> (Candidates(e)[k] in ds <==> IsShown(Candidates(e)[k].value))
    ensures forall x :: x in ds ==> x in Candidates(e) && IsShown(x.value)
    ensures forall x :: x in ds ==> (x.isLink <==> x.caption == "Primary Work Email")
    ensures IsSubsequence(LabelsOf(ds), DetailLabels)
  {
    var c := Candidates(e);
    var ds := Filter(IsShownDetail, c);
    FilterIsSubsequence(IsShownDetail, c);
    LabelsOfSubsequence(ds, c);
    CandidatesShape(e);
    ds
  }

  /** Division shows the raw academic units, semicolons and all. */
  lemma DivisionShowsRawUnits(e: Employee)
    requires IsShown(e.job.jobDetails.academicUnits)
    ensures Detail("Division", e.job.jobDetails.academicUnits, false) in Details(e)
  {
    assert Candidates(e)[5] == Detail("Division", e.job.jobDetails.academicUnits, false);
  }

  /** Job Classifications and Supervisor show the derived getters. */
  lemma DerivedDetailsShown(e: Employee)
    ensures IsShown(JobDetails.GetJobClassifications(e.job.jobDetails)) ==>
      Detail("Job Classifications", JobDetails.GetJobClassifications(e.job.jobDetails), false) in Details(e)
    ensures IsShown(JobDetails.GetSupervisor(e.job.jobDetails)) ==>
      Detail("Supervisor", JobDetails.GetSupervisor(e.job.jobDetails), false) in Details(e)
  {
    assert Candidates(e)[4].value == JobDetails.GetJobClassifications(e.job.jobDetails);
    assert Candidates(e)[7].value == JobDetails.GetSupervisor(e.job.jobDetails);
  }

  /** When none of the eight values is shown, the card body lists nothing. */
  lemma NothingShown(e: Employee)
    requires !IsShown(e.legalName) && !IsShown(e.workPhones)
    requires !IsShown(e.job.jobDetails.businessTitle) && !IsShown(e.job.jobDetails.primaryWorkEmail)
    requires !IsShown(e.job.jobDetails.academicUnits) && !IsShown(e.job.jobDetails.primaryWorkSpace)
    requires !IsShown(JobDetails.GetJobClassifications(e.job.jobDetails))
    requires !IsShown(JobDetails.GetSupervisor(e.job.jobDetails))
    ensures Details(e) == []
  {
    var c := Candidates(e);
    assert forall x :: x in c ==> !IsShownDetail(x);
    FilterNone(IsShownDetail, c);
  }

  /** A record with none of the detail keys shows no details: every value is "N/A". */
  lemma EmptyRecordShowsNothing()
    ensures Details(FromRecord(map[])) == []
  {
    var e := FromRecord(map[]);
    JobDetails.MissingOrganization();
    assert JobDetails.GetJobClassifications(e.job.jobDetails) == NA;
    NothingShown(e);
  }
}
