/** A job (model/Job.php): the title and the details built from the same record. */
module Job {
  import opened Wrappers
  import opened RawRecord
  import JobDetails

  datatype Job = Job(jobTitle: string, jobDetails: JobDetails.JobDetails)

  /** The constructor: `Job_Title ?? 'N/A'`, and a JobDetails from the same record. */
  function FromRecord(r: Record): (j: Job)
    ensures j.jobTitle == Lookup(r, "Job_Title")
    ensures j.jobDetails == JobDetails.FromRecord(r)
  {
    Job(Lookup(r, "Job_Title"), JobDetails.FromRecord(r))
  }

  /** The title is the Job_Title value when present (an empty one stays empty), "N/A" otherwise. */
  lemma TitleDefault(r: Record)
    ensures "Job_Title" in r && r["Job_Title"].Some? ==> FromRecord(r).jobTitle == r["Job_Title"].value
    ensures "Job_Title" !in r || r["Job_Title"].None? ==> FromRecord(r).jobTitle == NA
    ensures "Job_Title" in r && r["Job_Title"] == Some("") ==> FromRecord(r).jobTitle == ""
  {
  }

  /** The title depends on the Job_Title key alone. */
  lemma TitleOnlyFromItsKey(r: Record, key: string, v: Option<string>)
    requires key != "Job_Title"
    ensures FromRecord(r[key := v]).jobTitle == FromRecord(r).jobTitle
  {
    LookupOtherKey(r, key, v, "Job_Title");
  }

  /** The keys a Job reads: its title and the ten details. */
  const Keys: seq<string> := ["Job_Title"] + JobDetails.Keys

  /** A job is a function of its keys alone: records that agree on them give the same job. */
  lemma DependsOnlyOnKeys(r1: Record, r2: Record)
    requires forall k :: k in Keys ==> AgreeOn(r1, r2, k)
    ensures FromRecord(r1) == FromRecord(r2)
  {
    assert AgreeOn(r1, r2, Keys[0]);
    forall k | k in JobDetails.Keys
      ensures AgreeOn(r1, r2, k)
    {
      assert k in Keys;
    }
    JobDetails.DependsOnlyOnKeys(r1, r2);
  }
}
