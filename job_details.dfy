/**
 * The details of an employee's job (model/JobDetails.php): ten fields read
 * from the raw record with the "N/A" default, and four derived getters.
 * The PHP object is never changed after its constructor, so it is a value
 * here and the getters are functions of it.
 */
module JobDetails {
  import opened Wrappers
  import opened PhpStrings
  import opened RawRecord

  datatype JobDetails = JobDetails(
    jobFamily: string,
    employeeType: string,
    businessTitle: string,
    activeStatus: string,
    supervisoryOrganization: string,
    timeType: string,
    jobClassifications: string,
    academicUnits: string,
    primaryWorkSpace: string,
    primaryWorkEmail: string)

  /** The constructor: each field is its key's value, or "N/A" when the key is missing or null. */
  function FromRecord(r: Record): (d: JobDetails)
    ensures d.jobFamily == Lookup(r, "Job_Family")
    ensures d.employeeType == Lookup(r, "Employee_Type")
    ensures d.businessTitle == Lookup(r, "Business_Title")
    ensures d.activeStatus == Lookup(r, "Active_Status")
    ensures d.supervisoryOrganization == Lookup(r, "Supervisory_Organization")
    ensures d.timeType == Lookup(r, "Time_Type")
    ensures d.jobClassifications == Lookup(r, "Job_Classifications")
    ensures d.academicUnits == Lookup(r, "Academic_Units")
    ensures d.primaryWorkSpace == Lookup(r, "Primary_Work_Space")
    ensures d.primaryWorkEmail == Lookup(r, "Primary_Work_Email")
  {
    JobDetails(
      Lookup(r, "Job_Family"),
      Lookup(r, "Employee_Type"),
      Lookup(r, "Business_Title"),
      Lookup(r, "Active_Status"),
      Lookup(r, "Supervisory_Organization"),
      Lookup(r, "Time_Type"),
      Lookup(r, "Job_Classifications"),
      Lookup(r, "Academic_Units"),
      Lookup(r, "Primary_Work_Space"),
      Lookup(r, "Primary_Work_Email"))
  }

  /** The ten fields in declaration order, and the keys they are read from. */
  function Fields(d: JobDetails): seq<string> {
    [d.jobFamily, d.employeeType, d.businessTitle, d.activeStatus, d.supervisoryOrganization,
     d.timeType, d.jobClassifications, d.academicUnits, d.primaryWorkSpace, d.primaryWorkEmail]
  }

  const Keys: seq<string> :=
    ["Job_Family", "Employee_Type", "Business_Title", "Active_Status", "Supervisory_Organization",
     "Time_Type", "Job_Classifications", "Academic_Units", "Primary_Work_Space", "Primary_Work_Email"]

  /**
   * Every field holds its key's value verbatim when the key is present and not
   * null (an empty string stays empty), and "N/A" otherwise.
   */
  lemma FieldsDefaulted(r: Record, k: nat)
    requires k < |Keys|
    ensures Keys[k] in r && r[Keys[k]].Some? ==> Fields(FromRecord(r))[k] == r[Keys[k]].value
    ensures Keys[k] !in r || r[Keys[k]].None? ==> Fields(FromRecord(r))[k] == NA
  {
  }

  /** The details are a function of the ten keys alone: records that agree on them give the same details. */
  lemma DependsOnlyOnKeys(r1: Record, r2: Record)
    requires forall k :: k in Keys ==> AgreeOn(r1, r2, k)
    ensures FromRecord(r1) == FromRecord(r2)
  {
    assert AgreeOn(r1, r2, Keys[0]) && AgreeOn(r1, r2, Keys[1]) && AgreeOn(r1, r2, Keys[2]);
    assert AgreeOn(r1, r2, Keys[3]) && AgreeOn(r1, r2, Keys[4]) && AgreeOn(r1, r2, Keys[5]);
    assert AgreeOn(r1, r2, Keys[6]) && AgreeOn(r1, r2, Keys[7]) && AgreeOn(r1, r2, Keys[8]);
    assert AgreeOn(r1, r2, Keys[9]);
  }

  // ---------------------------------------------------------------------
  // getSupervisor: preg_match('/\((.*?)\)/', ...) and the "(Private" removal

  /**
   * The pattern `\((.*?)\)` can match with its parentheses at i and j: PCRE's
   * '.' matches anything but a line feed.
   */
  ghost predicate GroupAt(s: string, i: int, j: int) {
    0 <= i < j < |s| && s[i] == '(' && s[j] == ')' && forall k :: i < k < j ==> s[k] != '\n'
  }

  lemma NoGroupAt(s: string, i: nat, stop: nat)
    requires i < |s| && s[i] == '('
    requires stop == i + 1 + IndexOfAny(s[i + 1..], {')', '\n'})
    requires stop < |s| ==> s[stop] != ')'
    ensures forall j :: !GroupAt(s, i, j)
  {
    forall j | i < j < |s| && s[j] == ')'
      ensures exists k :: i < k < j && s[k] == '\n'
    {
      assert s[i + 1..][j - i - 1] == s[j];
      assert stop < j;
      assert s[i + 1..][stop - i - 1] == s[stop];
    }
  }

  /**
   * The leftmost match of `\((.*?)\)` that starts at or after `from`: the first
   * '(' from which a ')' is reached before any line feed, and the first ')'
   * after it (the lazy quantifier).
   */
  function FindGroup(s: string, from: nat): (m: Option<(nat, nat)>)
    ensures m.Some? ==> from <= m.value.0 && GroupAt(s, m.value.0, m.value.1)
    ensures m.Some? ==> forall k :: m.value.0 < k < m.value.1 ==> s[k] != ')'
    ensures m.Some? ==> forall i, j :: from <= i < m.value.0 ==> !GroupAt(s, i, j)
    ensures m.None? ==> forall i, j :: from <= i ==> !GroupAt(s, i, j)
    decreases |s| - from
  {
    if from >= |s| then None
    else if s[from] == '(' then
      var stop := from + 1 + IndexOfAny(s[from + 1..], {')', '\n'});
      if stop < |s| && s[stop] == ')' then
        assert forall k :: from < k < stop ==> s[from + 1..][k - from - 1] == s[k];
        Some((from, stop))
      else
        NoGroupAt(s, from, stop);
        FindGroup(s, from + 1)
    else FindGroup(s, from + 1)
  }

  const PrivateMarker: string := "(Private"

  /**
   * getSupervisor: the text inside the first parenthesised group, with every
   * "(Private" removed; "N/A" when the pattern does not match (then
   * $matches[1] is unset, strpos finds nothing in it, and `??` applies).
   */
  function GetSupervisor(d: JobDetails): (r: string)
    ensures (forall i, j :: !GroupAt(d.supervisoryOrganization, i, j)) ==> r == NA
    ensures ')' !in r && '\n' !in r
  {
    var s := d.supervisoryOrganization;
    match FindGroup(s, 0)
    case None => NA
    case Some((i, j)) =>
      var captured := s[i + 1..j];
      assert forall k :: 0 <= k < |captured| ==> captured[k] == s[i + 1 + k];
      StrReplaceKeepsOut(PrivateMarker, "", captured, ')');
      StrReplaceKeepsOut(PrivateMarker, "", captured, '\n');
      if Contains(captured, PrivateMarker) then StrReplace(PrivateMarker, "", captured) else captured
  }

  /**
   * Given the match of `\((.*?)\)` (leftmost, and lazy up to the first ')'),
   * the supervisor is the captured text with every "(Private" removed; a
   * capture without the marker is returned as it is.
   */
  lemma GetSupervisorOfMatch(d: JobDetails, i: nat, j: nat)
    requires GroupAt(d.supervisoryOrganization, i, j)
    requires forall k :: i < k < j ==> d.supervisoryOrganization[k] != ')'
    requires forall i', j' :: 0 <= i' < i ==> !GroupAt(d.supervisoryOrganization, i', j')
    ensures GetSupervisor(d) == StrReplace(PrivateMarker, "", d.supervisoryOrganization[i + 1..j])
  {
    var s := d.supervisoryOrganization;
    var m := FindGroup(s, 0);
    assert m.Some? && m.value.0 == i && m.value.1 == j by {
      assert !m.None?;
      var (i0, j0) := m.value;
      assert !(i0 < i) && !(i < i0);
      assert !(j0 < j) && !(j < j0);
    }
    if !Contains(s[i + 1..j], PrivateMarker) {
      StrReplaceAbsent(PrivateMarker, "", s[i + 1..j]);
    }
  }

  /**
   * For a value without line breaks: the capture runs from just after the
   * first '(' to just before the first ')' after it.
   */
  lemma GetSupervisorSingleLine(d: JobDetails, i: nat, j: nat)
    requires '\n' !in d.supervisoryOrganization
    requires i < j < |d.supervisoryOrganization|
    requires d.supervisoryOrganization[i] == '(' && d.supervisoryOrganization[j] == ')'
    requires forall k :: 0 <= k < i ==> d.supervisoryOrganization[k] != '('
    requires forall k :: i < k < j ==> d.supervisoryOrganization[k] != ')'
    ensures GetSupervisor(d) == StrReplace(PrivateMarker, "", d.supervisoryOrganization[i + 1..j])
  {
    GetSupervisorOfMatch(d, i, j);
  }

  /** Without a '(' that has a ')' somewhere after it, the supervisor is "N/A". */
  lemma GetSupervisorNoGroup(d: JobDetails)
    requires forall i, j :: 0 <= i < j < |d.supervisoryOrganization| && d.supervisoryOrganization[i] == '(' ==> d.supervisoryOrganization[j] != ')'
    ensures GetSupervisor(d) == NA
  {
  }

  // ---------------------------------------------------------------------
  // getSupervisoryOrganization: preg_match('/(.*?)\(/', ...)

  /** The pattern `(.*?)\(` can match from p with its '(' at q: no line feed in between. */
  ghost predicate PrefixAt(s: string, p: int, q: int) {
    0 <= p <= q < |s| && s[q] == '(' && forall k :: p <= k < q ==> s[k] != '\n'
  }

  /** Start of the line holding index q: just after the last line feed before q. */
  function LineStart(s: string, q: nat): (p: nat)
    requires q <= |s|
    ensures p <= q
    ensures forall k :: p <= k < q ==> s[k] != '\n'
    ensures p > 0 ==> s[p - 1] == '\n'
  {
    if q == 0 || s[q - 1] == '\n' then q else LineStart(s, q - 1)
  }

  /**
   * The leftmost match of `(.*?)\(`: it ends at the first '(' of the string and
   * starts at the beginning of that character's line.
   */
  function FindPrefix(s: string): (m: Option<(nat, nat)>)
    ensures m.Some? ==> PrefixAt(s, m.value.0, m.value.1)
    ensures m.Some? ==> forall k :: m.value.0 <= k < m.value.1 ==> s[k] != '('
    ensures m.Some? ==> forall p, q :: 0 <= p < m.value.0 ==> !PrefixAt(s, p, q)
    ensures m.None? ==> forall p, q :: !PrefixAt(s, p, q)
  {
    var q := IndexOfAny(s, {'('});
    if q == |s| then None
    else
      var p := LineStart(s, q);
      assert forall p', q' :: 0 <= p' < p && PrefixAt(s, p', q') ==> p' <= p - 1 < q';
      Some((p, q))
  }

  /**
   * getSupervisoryOrganization: the text before the first '(' on its line;
   * "N/A" when the value has no '('. The try/catch of the source never fires:
   * preg_match raises nothing here.
   */
  function GetSupervisoryOrganization(d: JobDetails): (r: string)
    ensures '(' !in d.supervisoryOrganization ==> r == NA
    ensures '(' in d.supervisoryOrganization ==> '(' !in r && '\n' !in r
  {
    var s := d.supervisoryOrganization;
    match FindPrefix(s)
    case None =>
      assert forall q :: 0 <= q < |s| ==> !PrefixAt(s, q, q);
      NA
    case Some((p, q)) =>
      assert forall k :: 0 <= k < q - p ==> s[p..q][k] == s[p + k];
      s[p..q]
  }

  /** For a value without line breaks: the organisation is everything before the first '('. */
  lemma GetSupervisoryOrganizationSingleLine(d: JobDetails, q: nat)
    requires '\n' !in d.supervisoryOrganization
    requires q < |d.supervisoryOrganization| && d.supervisoryOrganization[q] == '('
    requires forall k :: 0 <= k < q ==> d.supervisoryOrganization[k] != '('
    ensures GetSupervisoryOrganization(d) == d.supervisoryOrganization[..q]
  {
    var s := d.supervisoryOrganization;
    var m := FindPrefix(s);
    assert PrefixAt(s, 0, q);
    assert m.Some? && m.value == (0, q) by {
      assert !m.None?;
      var (p0, q0) := m.value;
      assert !(q0 < q) && !(q < q0);
    }
  }

  // ---------------------------------------------------------------------
  // getJobClassifications and getAcademicUnits: implode(', ', explode(';', ...))

  /** implode(', ', explode(';', raw)). */
  function SemicolonsToCommas(raw: string): (r: string)
    ensures r == StrReplace(";", ", ", raw)
    ensures ';' !in r
    ensures |r| == |raw| + multiset(raw)[';']
    ensures ';' !in raw ==> r == raw
  {
    ImplodeExplode(';', ", ", raw);
    SemicolonReplacement(raw);
    Implode(", ", Explode(';', raw))
  }

  lemma SemicolonReplacement(raw: string)
    ensures ';' !in StrReplace(";", ", ", raw)
    ensures |StrReplace(";", ", ", raw)| == |raw| + multiset(raw)[';']
    ensures ';' !in raw ==> StrReplace(";", ", ", raw) == raw
  {
    StrReplaceCharRemoves(';', ", ", raw);
    StrReplaceCharLength(';', ", ", raw);
    if ';' !in raw {
      ContainsChar(raw, ';');
      StrReplaceAbsent(";", ", ", raw);
    }
  }

  /** getJobClassifications: each ';' of the raw list becomes ", ". */
  function GetJobClassifications(d: JobDetails): (r: string)
    ensures r == StrReplace(";", ", ", d.jobClassifications)
    ensures ';' !in r
    ensures |r| == |d.jobClassifications| + multiset(d.jobClassifications)[';']
    ensures ';' !in d.jobClassifications ==> r == d.jobClassifications
  {
    SemicolonsToCommas(d.jobClassifications)
  }

  /** getAcademicUnits: each ';' of the raw list becomes ", ". */
  function GetAcademicUnits(d: JobDetails): (r: string)
    ensures r == StrReplace(";", ", ", d.academicUnits)
    ensures ';' !in r
    ensures |r| == |d.academicUnits| + multiset(d.academicUnits)[';']
    ensures ';' !in d.academicUnits ==> r == d.academicUnits
  {
    SemicolonsToCommas(d.academicUnits)
  }

  // ---------------------------------------------------------------------
  // The documented shapes "<org>(<supervisor>)" and "<org>(<supervisor> (Private))"

  /** Where the parentheses of "<org>(<inner>)<tail>" sit, and what lies between them. */
  lemma GroupLayout(s: string, org: string, inner: string, tail: string)
    requires s == org + "(" + inner + ")" + tail
    requires '(' !in org && ')' !in inner
    requires '\n' !in org && '\n' !in inner && '\n' !in tail
    ensures '\n' !in s
    ensures |org| < |org| + 1 + |inner| < |s|
    ensures s[|org|] == '(' && s[|org| + 1 + |inner|] == ')'
    ensures s[..|org|] == org && s[|org| + 1..|org| + 1 + |inner|] == inner
    ensures forall k :: 0 <= k < |org| ==> s[k] != '('
    ensures forall k :: |org| < k < |org| + 1 + |inner| ==> s[k] != ')'
  {
    var i, j := |org|, |org| + 1 + |inner|;
    assert s[..i] == org;
    assert s[i + 1..j] == inner;
    forall k | 0 <= k < i
      ensures s[k] != '('
    {
      assert s[k] == s[..i][k];
    }
    forall k | i < k < j
      ensures s[k] != ')'
    {
      assert s[k] == s[i + 1..j][k - i - 1];
    }
  }

  /** The shape "<org>(<name>)": the organisation is <org> and the supervisor <name>. */
  lemma PlainShape(d: JobDetails, org: string, name: string)
    requires d.supervisoryOrganization == org + "(" + name + ")"
    requires '(' !in org && '(' !in name && ')' !in name
    requires '\n' !in org && '\n' !in name
    ensures GetSupervisoryOrganization(d) == org
    ensures GetSupervisor(d) == name
  {
    assert d.supervisoryOrganization == org + "(" + name + ")" + "";
    GroupLayout(d.supervisoryOrganization, org, name, "");
    GetSupervisoryOrganizationSingleLine(d, |org|);
    GetSupervisorSingleLine(d, |org|, |org| + 1 + |name|);
    ContainsNeedsFirst(name, PrivateMarker);
    StrReplaceAbsent(PrivateMarker, "", name);
  }

  /** Removing a trailing "(Private" from text without '(' leaves the text. */
  lemma RemoveTrailingMarker(a: string)
    requires '(' !in a
    ensures StrReplace(PrivateMarker, "", a + PrivateMarker) == a
  {
    forall k | 0 <= k < |a|
      ensures !OccursAt(a + PrivateMarker + "", PrivateMarker, k)
    {
      assert (a + PrivateMarker + "")[k] == a[k];
    }
    assert a + PrivateMarker == a + PrivateMarker + "";
    StrReplaceFirst(PrivateMarker, "", a, "");
  }

  /**
   * The shape "<org>(<name> (Private))": the capture stops at the first ')', so
   * it is "<name> (Private", and the supervisor keeps the space before the marker.
   */
  lemma PrivateShape(d: JobDetails, org: string, name: string)
    requires d.supervisoryOrganization == org + "(" + name + " (Private))"
    requires '(' !in org && '(' !in name && ')' !in name
    requires '\n' !in org && '\n' !in name
    ensures GetSupervisoryOrganization(d) == org
    ensures GetSupervisor(d) == name + " "
  {
    var inner := name + " " + PrivateMarker;
    assert d.supervisoryOrganization == org + "(" + inner + ")" + ")";
    assert ')' !in inner && '\n' !in inner;
    GroupLayout(d.supervisoryOrganization, org, inner, ")");
    GetSupervisoryOrganizationSingleLine(d, |org|);
    GetSupervisorSingleLine(d, |org|, |org| + 1 + |inner|);
    RemoveTrailingMarker(name + " ");
  }

  // ---------------------------------------------------------------------
  // Worked examples

  /** The sample names hold no parenthesis and no line feed. */
  lemma SpecialFree(s: string)
    requires s in {"Org", "Jane Doe", "Division of X"}
    ensures '(' !in s && ')' !in s && '\n' !in s
  {
  }

  lemma PlainExample(d: JobDetails)
    requires d.supervisoryOrganization == "Division of X(Jane Doe)"
    ensures GetSupervisor(d) == "Jane Doe"
    ensures GetSupervisoryOrganization(d) == "Division of X"
  {
    assert d.supervisoryOrganization == "Division of X" + "(" + "Jane Doe" + ")";
    PlainShape(d, "Division of X", "Jane Doe");
  }

  lemma PrivateExample(d: JobDetails)
    requires d.supervisoryOrganization == "Org(Jane Doe (Private))"
    ensures GetSupervisor(d) == "Jane Doe "
  {
    var org, name := "Org", "Jane Doe";
    SpecialFree(org);
    SpecialFree(name);
    assert name + " " == "Jane Doe ";
    assert d.supervisoryOrganization == org + "(" + name + " (Private))";
    PrivateShape(d, org, name);
  }

  /** An empty group gives an empty supervisor, not "N/A". */
  lemma EmptyGroupExample(d: JobDetails)
    requires d.supervisoryOrganization == "Org()"
    ensures GetSupervisor(d) == ""
  {
    assert d.supervisoryOrganization == "Org" + "(" + "" + ")";
    PlainShape(d, "Org", "");
  }

  /** A leading '(' gives an empty organisation. */
  lemma LeadingParenExample(d: JobDetails)
    requires d.supervisoryOrganization == "(Jane Doe)"
    ensures GetSupervisoryOrganization(d) == ""
  {
    assert d.supervisoryOrganization == "" + "(" + "Jane Doe" + ")";
    PlainShape(d, "", "Jane Doe");
  }

  /** A missing Supervisory_Organization defaults to "N/A", which has no parentheses. */
  lemma MissingOrganization()
    ensures GetSupervisor(FromRecord(map[])) == NA
    ensures GetSupervisoryOrganization(FromRecord(map[])) == NA
  {
  }

  lemma SemicolonExample(s: string)
    requires s == "A;B;C"
    ensures StrReplace(";", ", ", s) == "A, B, C"
  {
    var a, b, c := "A", "B", "C";
    assert s == a + ";" + (b + ";" + c);
    assert (a + ";" + (b + ";" + c))[0..1] == a;
    StrReplaceFirst(";", ", ", a, b + ";" + c);
    assert (b + ";" + c)[0..1] == b;
    StrReplaceFirst(";", ", ", b, c);
    ContainsChar(c, ';');
    StrReplaceAbsent(";", ", ", c);
  }

  lemma ListExample(d: JobDetails)
    requires d.jobClassifications == "A;B;C"
    ensures GetJobClassifications(d) == "A, B, C"
  {
    SemicolonExample(d.jobClassifications);
  }
}
