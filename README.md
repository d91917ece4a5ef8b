# Faculty and staff directory: a verified model

The directory is a read-only PHP page. It loads the `Report_Entry` list of a
JSON export once (`Database`) and wraps each record in an `Employee`, which
holds a `Job`, which in turn holds its `JobDetails`. The page can narrow the
list with a search query, and each card shows a fixed set of labelled details.
This project models the following in Dafny and proves what each promises:

- the defaulting constructors (`$data[key] ?? 'N/A'`);
- the derived fields of `JobDetails`: the supervisor and organisation regular
  expressions, and the `;` to `", "` list rewriting;
- the element ID and the detail-selection rule of `Employee`;
- the search filter of `index.php`;
- the load-once `Database` singleton with its four ordered failure checks.

Files, one module each:

- `wrappers.dfy`: `Option` and `Result`.
- `php_strings.dfy`: the PHP built-ins used here, as functions on character
  sequences, each with its characterising lemmas. These are `strtolower`,
  `trim`, `strpos … !== false`, `str_replace`, `explode` and `implode`, plus
  PHP string truthiness.
- `sequences.dfy`: stable filtering (`array_filter`) and subsequences.
- `raw_record.dfy`: a record as `map<string, Option<string>>`, where `None` is
  JSON null, and `??` as `Lookup`.
- `job_details.dfy`, `job.dfy`, `employee.dfy`: the three model classes, as
  datatypes built by functions. Their constructors assign the fields once and
  nothing writes them afterwards, so every getter is read-only by construction.
- `database.dfy`: the loader as a class. The static `$instance` is the field of
  a `Registry` object. The file system and `json_decode` are a map from a path
  to its outcome.
- `index.php` is modelled in `index.dfy`: query normalisation, the
  `array_filter` callback as a loop with early exit, and the page's data flow.

Where the comments in the PHP and its code disagree, the model follows the code:

- An empty-string value is kept as `""`. `??` replaces only missing and null
  values.
- `setPreferredNameID` removes spaces before it replaces spaces with
  underscores, so an ID never contains `_`. Its doc comment says the opposite.
- A query of `"0"` is falsy in PHP, so it shows every employee, like an empty
  query.
- The doc comments of `getJobClassifications` and `getAcademicUnits` promise
  `'N/A'` when the value is not found. Only a missing or null key yields
  `"N/A"`, through the constructor's `??`. An empty value stays empty.
- `getSupervisor` removes every `"(Private"` in the captured text, not only a
  trailing one. The capture stops at the first `)`, so `"X(Jane (Private))"`
  yields `"Jane "` with its space.
- The `try`/`catch` of `getSupervisoryOrganization` never fires. The model has
  no exception path for it.

The two patterns are modelled with PCRE's own semantics. The match is
leftmost. The group is lazy. `.` matches no line feed, so a value with line
breaks is handled as PCRE would handle it. For single-line values, corollary
lemmas give the simple reading: "the text between the first `(` and the next
`)`" and "the text before the first `(`".

## Model

| member | source | states |
|---|---|---|
| RawRecord.Lookup | model/JobDetails.php:53 | `$data[key] ?? 'N/A'`: the value when the key is present and not null, "N/A" when the key is missing or null |
| RawRecord.LookupOtherKey | model/Job.php:33 | updating one key leaves the lookup of every other key unchanged |
| JobDetails.FromRecord | model/JobDetails.php:51-63 | each of the ten fields is the `??` lookup of its own key |
| JobDetails.FieldsDefaulted | model/JobDetails.php:53-62 | field k is the record's value for key k when it is present and not null (so `""` stays `""`), and "N/A" otherwise |
| JobDetails.DependsOnlyOnKeys | model/JobDetails.php:53-62 | records that agree on the ten keys give equal details |
| JobDetails.FindGroup | model/JobDetails.php:76-77 | the leftmost match of `\((.*?)\)`: a `(` with a `)` after it and no line feed between, ending at the first `)`; no match starts earlier; `None` exactly when no position matches |
| JobDetails.GetSupervisor | model/JobDetails.php:74-82 | "N/A" when the pattern never matches; the result never contains `)` or a line feed |
| JobDetails.GetSupervisorOfMatch | model/JobDetails.php:76-81 | given the leftmost lazy match, the supervisor is the captured text with every "(Private" removed (a capture without the marker is returned as captured) |
| JobDetails.GetSupervisorSingleLine | model/JobDetails.php:76-79 | for a value without line breaks, the capture runs from just after the first `(` to just before the next `)` |
| JobDetails.GetSupervisorNoGroup | model/JobDetails.php:81 | without a `(` followed later by `)` the supervisor is "N/A" |
| JobDetails.FindPrefix | model/JobDetails.php:96-97 | the leftmost match of `(.*?)\(`: it ends at the first `(` and starts at the beginning of that character's line |
| JobDetails.LineStart | model/JobDetails.php:96 | the start of the line that holds a position: no line feed between them, and a line feed just before it |
| JobDetails.GetSupervisoryOrganization | model/JobDetails.php:93-102 | "N/A" when the value has no `(`; otherwise the result contains no `(` and no line feed |
| JobDetails.GetSupervisoryOrganizationSingleLine | model/JobDetails.php:96-98 | for a value without line breaks, the organisation is the prefix before the first `(` |
| JobDetails.SemicolonsToCommas | model/JobDetails.php:115-116 | implode(', ', explode(';', s)) equals replacing each `;` by ", "; the result has no `;`, its length is the input's plus one per `;`, and a `;`-free input is returned as it is |
| JobDetails.SemicolonReplacement | model/JobDetails.php:115-116 | replacing `;` by ", " removes every `;`, adds one character per `;`, and changes nothing without a `;` |
| JobDetails.GetJobClassifications | model/JobDetails.php:113-117 | the raw classifications with each `;` replaced by ", ": no `;` left, length grows by one per `;`, unchanged without `;` |
| JobDetails.GetAcademicUnits | model/JobDetails.php:128-132 | the raw academic units with each `;` replaced by ", ": no `;` left, length grows by one per `;`, unchanged without `;` |
| JobDetails.NoGroupAt | model/JobDetails.php:76 | a `(` whose scan reaches a line feed or the end before any `)` starts no match |
| JobDetails.GroupLayout | model/JobDetails.php:76-96 | in "org(inner)tail" the first `(` is right after org and the next `)` right after inner, with no line feed anywhere |
| JobDetails.PlainShape | model/JobDetails.php:74-98 | for "org(name)" the organisation is org and the supervisor is name |
| JobDetails.RemoveTrailingMarker | model/JobDetails.php:79 | removing a trailing "(Private" from text without `(` leaves the text |
| JobDetails.PrivateShape | model/JobDetails.php:74-98 | for "org(name (Private))" the organisation is org and the supervisor is name followed by a space |
| JobDetails.PlainExample | model/JobDetails.php:74-98 | "Division of X(Jane Doe)" gives the supervisor "Jane Doe" and the organisation "Division of X" |
| JobDetails.PrivateExample | model/JobDetails.php:76-79 | "Org(Jane Doe (Private))" gives "Jane Doe " |
| JobDetails.EmptyGroupExample | model/JobDetails.php:76-81 | "Org()" gives the supervisor "", not "N/A" |
| JobDetails.LeadingParenExample | model/JobDetails.php:96-98 | "(Jane Doe)" gives the organisation "" |
| JobDetails.MissingOrganization | model/JobDetails.php:57 | a missing Supervisory_Organization gives "N/A" for both the supervisor and the organisation |
| JobDetails.SemicolonExample | model/JobDetails.php:115-116 | "A;B;C" becomes "A, B, C" |
| JobDetails.ListExample | model/JobDetails.php:113-117 | the classifications "A;B;C" are shown as "A, B, C" |
| Job.FromRecord | model/Job.php:31-35 | the title is the `??` lookup of Job_Title, and the details are JobDetails built from the same record |
| Job.TitleDefault | model/Job.php:33 | Job_Title's value when present (an empty one stays ""), "N/A" when missing or null |
| Job.TitleOnlyFromItsKey | model/Job.php:33 | changing any other key leaves the title unchanged |
| Job.DependsOnlyOnKeys | model/Job.php:31-35 | records that agree on Job_Title and the ten detail keys give equal jobs |
| Employee.FromRecord | model/Employee.php:44-50 | preferred name, legal name and work phones are `??` lookups of their keys, and the job is the Job of the same record |
| Employee.JobIgnoresEmployeeKeys | model/Employee.php:49 | the job does not change when Preferred_Name, Legal_Name or Work_Phones change |
| Employee.StripNonIdChars | model/Employee.php:65 | definition of the preg_replace step, characterised by PreferredNameIdChar and PreferredNameIdIsSubsequence |
| Employee.IdCharLower | model/Employee.php:65 | lower-casing keeps a character inside `[A-Za-z0-9-]` or outside it |
| Employee.LowerStripNoSpace | model/Employee.php:65 | after the stripping no space is left, so the space-to-underscore step finds nothing |
| Employee.PreferredNameId | model/Employee.php:63-66 | the ID is the stripped name lower-cased, holds only a-z, 0-9 and '-', never a space or '_', and is no longer than the name |
| Employee.PreferredNameIdConcat | model/Employee.php:65 | the ID of a concatenation is the concatenation of the IDs |
| Employee.PreferredNameIdChar | model/Employee.php:65 | one character is kept lower-cased when it is in `[A-Za-z0-9-]` and dropped otherwise |
| Employee.PreferredNameIdIsSubsequence | model/Employee.php:65 | the ID is a subsequence of the lower-cased name, in the original order |
| Employee.LowerStripCommute | model/Employee.php:65 | stripping then lower-casing equals lower-casing then stripping |
| Employee.PreferredNameIdIdempotent | model/Employee.php:65 | the ID of an ID is itself |
| Employee.IsShown | model/Employee.php:126 | definition of displayDetail's show test, characterised by Details and NothingShown |
| Employee.Candidates | model/Employee.php:148-155 | definition of the eight displayDetail calls, characterised by CandidatesShape |
| Employee.LabelsOfSubsequence | model/Employee.php:146-156 | the captions of a subsequence of details are a subsequence of the captions |
| Employee.CandidatesShape | model/Employee.php:148-155 | the eight captions come in the fixed order, and only Primary Work Email is a link |
| Employee.Details | model/Employee.php:124-156 | candidate k is shown exactly when its value is neither "", "0" nor "N/A"; every shown entry is a candidate; only the email is a link; the captions keep the fixed order |
| Employee.DivisionShowsRawUnits | model/Employee.php:153 | Division shows the raw academic units, semicolons kept |
| Employee.DerivedDetailsShown | model/Employee.php:152-155 | Job Classifications and Supervisor show the derived getters' values |
| Employee.NothingShown | model/Employee.php:126-155 | when none of the eight values passes the show test, the card body lists nothing |
| Employee.EmptyRecordShowsNothing | model/Employee.php:126-155 | a record with no keys shows no details |
| Database.LoadError.Message | model/Database.php:44-60 | the four exception messages, word for word |
| Database.Load | model/Database.php:43-63 | definition of the constructor's checks and result, characterised by LoadOutcomes |
| Database.HasReportEntry | model/Database.php:59 | definition of `isset($decodedJson['Report_Entry'])`, characterised by NullReportEntryIsMissing and NonObjectContent |
| Database.LoadOutcomes | model/Database.php:43-63 | a missing file fails first, then an unreadable one, then null decoding, then a missing or null Report_Entry; success exactly when all four checks pass, with the Report_Entry value as the data |
| Database.LoadFailureMessage | model/Database.php:43-61 | a failed load carries the exception message of the check that failed, word for word |
| Database.NullReportEntryIsMissing | model/Database.php:59 | a Report_Entry that is present but null counts as missing |
| Database.NonObjectContent | model/Database.php:55-59 | content decoding to null is a decode failure; a scalar passes that check and fails as a missing key |
| Database.LoadReadsOnlyItsPath | model/Database.php:43-53 | the outcome depends only on the file at the given path |
| Database.Database.constructor | model/Database.php:63 | the database holds the given records |
| Database.Database.Open | model/Database.php:41-64 | the guard checks with early exits agree with Load: the same error, or a fresh database whose data is exactly the Report_Entry value |
| Database.Database.GetDB | model/Database.php:92-95 | returns the loaded records and changes nothing |
| Database.Registry.constructor | model/Database.php:27 | the instance starts unset |
| Database.Registry.GetInstance | model/Database.php:76-82 | while unset, loads from the path and keeps the instance only on success; once set, returns that same instance whatever path is passed |
| Database.FirstLoadWins | model/Database.php:78-81 | within one script run, after a successful first call, a second `getInstance` call with any path gets the same database and its records |
| Database.RetryAfterFailure | model/Database.php:78-79 | within one script run, after a failed load the instance is still unset, so the next `getInstance` call loads again and reports its own outcome |
| Index.NormalizeQuery | index.php:10 | definition of the query normalisation, characterised by NormalizeIdempotent, NormalizeCaseInsensitive and NormalizeWhitespaceInsensitive |
| Index.SearchableFields | index.php:15-27 | definition of the eleven searched fields, characterised by SearchableFieldsAreLookups |
| Index.Keep | index.php:29-35 | definition of the callback's answer, characterised by KeepIffOccurs and implemented by KeepRecord |
| Index.NormalizeIdempotent | index.php:10 | the normalised query (trimmed, then lower-cased; "" when absent) normalises to itself |
| Index.NormalizeCaseInsensitive | index.php:10 | queries equal up to letter case normalise alike |
| Index.NormalizeWhitespaceInsensitive | index.php:10 | surrounding whitespace does not reach the normalised query |
| Index.SearchableFieldsAreLookups | index.php:14-27 | the eleven searched fields are the `??` lookups of their eleven keys |
| Index.KeepRecord | index.php:13-36 | the callback's loop with early return answers true exactly when some searched field, lower-cased, contains the query |
| Index.KeepIffOccurs | index.php:29-33 | a record is kept exactly when the query occurs at some position of some lower-cased searched field |
| Index.Search | index.php:10-37 | a falsy query ("" or "0") leaves the list unchanged; the result is a subsequence of the input; under a truthy query a record is in the result exactly when the callback keeps it |
| Index.SearchConcat | index.php:13-36 | searching a concatenation concatenates the searches, so the filter is stable |
| Index.SearchIdempotent | index.php:13-36 | searching the result again with the same query changes nothing |
| Index.SearchNormalized | index.php:10 | searching with the normalised query is searching with the raw one |
| Index.SearchCaseInsensitive | index.php:10-30 | queries equal up to letter case give the same result |
| Index.SearchWhitespaceInsensitive | index.php:10 | surrounding whitespace in the query does not change the result |
| Index.ZeroQueryShowsEveryone | index.php:10-12 | the query "0", and an absent query, leave the list unchanged |
| Index.UnsearchedNotSearched | index.php:15-27 | Supervisory_Organization, Job_Classifications and Primary_Work_Email are not among the searched keys |
| Index.UnsearchedKeysIgnored | index.php:15-27 | changing one of those three keys never changes whether a record is kept |
| Index.KeepBySearchedKeys | index.php:14-33 | records that agree on the eleven searched keys are kept or dropped together |
| Index.MissingFieldMatchesNA | index.php:15-33 | a record missing a searched key shows "N/A" there, so every query inside "n/a" keeps it |
| Index.EmailOnlyMatchDropped | index.php:15-33 | a record whose only value is an email is dropped by every query that is not inside "n/a", even one that the email contains |
| Index.FilterRecords | index.php:13 | array_filter with the callback keeps exactly the accepted records, in order |
| Index.ListEmployees | index.php:7-37 | fetches the single database for ./faculty.json; a failed first load ends with its error; otherwise the result is Search over the loaded records; afterwards the registry keeps an instance that was already set, stays unset after a failed load, and holds a fresh database with the loaded records after a first successful load |
| Index.SecondPassUsesFirstLoad | index.php:7-8 | two passes of lines 7-8 over one registry, within one script run (or under a runtime that keeps statics alive): once the first load succeeds, the second pass lists the same records whatever the file system holds then |
| PhpStrings.IsTruthy | index.php:12 | definition of a string's truthiness (not "" and not "0"), characterised by ZeroQueryShowsEveryone |
| PhpStrings.Trim | index.php:10 | definition of trim as TrimEnd after TrimStart, characterised by TrimIgnoresSurrounding and TrimIdempotent |
| PhpStrings.Contains | index.php:30 | definition of `strpos(...) !== false`, characterised by ContainsIffOccurs |
| PhpStrings.StrReplace | model/JobDetails.php:79 | definition of str_replace as one left-to-right pass, characterised by StrReplaceAbsent and StrReplaceFirst |
| PhpStrings.Implode | model/JobDetails.php:116 | definition of implode, characterised by ExplodeRoundTrip and ImplodeExplode |
| PhpStrings.LowerChar | index.php:30 | strtolower on one character changes only A-Z, to a-z |
| PhpStrings.Lower | index.php:30 | strtolower keeps the length and lower-cases each character |
| PhpStrings.LowerConcat | index.php:30 | strtolower distributes over concatenation |
| PhpStrings.LowerFixed | index.php:30 | a string without upper-case letters is its own lower-case form |
| PhpStrings.TrimStart | index.php:10 | removes exactly the leading run of trim characters |
| PhpStrings.TrimEnd | index.php:10 | removes exactly the trailing run of trim characters |
| PhpStrings.TrimStartLeading | index.php:10 | leading trim characters do not affect the left trim |
| PhpStrings.TrimEndTrailing | index.php:10 | trailing trim characters do not affect the right trim |
| PhpStrings.TrimStartConcat | index.php:10 | the left trim of a concatenation |
| PhpStrings.TrimIgnoresSurrounding | index.php:10 | trim ignores whitespace added on either side |
| PhpStrings.TrimIdempotent | index.php:10 | trimming twice is trimming once |
| PhpStrings.LowerCharTrim | index.php:10 | lower-casing maps whitespace to whitespace and other characters to others |
| PhpStrings.TrimStartLower | index.php:10 | the left trim commutes with strtolower |
| PhpStrings.TrimEndLower | index.php:10 | the right trim commutes with strtolower |
| PhpStrings.TrimLower | index.php:10 | trim and strtolower commute |
| PhpStrings.OccursAtShift | index.php:30 | an occurrence in the tail is an occurrence one place later in the whole |
| PhpStrings.ContainsIffOccurs | index.php:30 | strpos finds the needle exactly when it occurs at some index |
| PhpStrings.ContainsNeedsFirst | model/JobDetails.php:78 | a needle whose first character is absent is not found |
| PhpStrings.ContainsChar | model/JobDetails.php:115 | a one-character needle is found exactly when the character is in the string |
| PhpStrings.IndexOfAny | model/JobDetails.php:115 | the first position holding one of the given characters, or the length when there is none |
| PhpStrings.StrReplaceAbsent | model/JobDetails.php:79 | str_replace without an occurrence returns the subject |
| PhpStrings.StrReplaceFirst | model/JobDetails.php:79 | str_replace replaces the leftmost occurrence and resumes right after it |
| PhpStrings.StrReplaceChars | model/JobDetails.php:79 | every character of the result comes from the subject or the replacement |
| PhpStrings.StrReplaceKeepsOut | model/JobDetails.php:79 | a character in neither the subject nor the replacement is not in the result |
| PhpStrings.StrReplaceCharRemoves | model/JobDetails.php:115-116 | replacing a character by text without it leaves no occurrence of that character |
| PhpStrings.StrReplaceCharStep | model/JobDetails.php:115-116 | replacing a single character handles the first character on its own: replaced when it is the character, kept otherwise, then the rest |
| PhpStrings.CountStep | model/JobDetails.php:115 | the occurrences of a character are those in the first position plus those in the rest |
| PhpStrings.StrReplaceCharLength | model/JobDetails.php:115-116 | replacing a character changes the length by the replacement length less one, per occurrence |
| PhpStrings.Explode | model/JobDetails.php:115 | explode gives at least one piece, and no piece holds the delimiter |
| PhpStrings.ExplodeRoundTrip | model/JobDetails.php:115-116 | imploding the pieces with the delimiter gives back the string |
| PhpStrings.ImplodeExplode | model/JobDetails.php:115-116 | imploding the pieces with other glue is str_replace of the delimiter by the glue |
| Sequences.Filter | index.php:13 | array_filter keeps a subset of the elements: exactly those satisfying the predicate |
| Sequences.FilterConcat | index.php:13 | filtering distributes over concatenation |
| Sequences.FilterSingleton | index.php:13 | filtering one element keeps it exactly when it satisfies the predicate |
| Sequences.FilterPrefixStep | index.php:13 | filtering one more element of a prefix appends it exactly when it passes |
| Sequences.FilterAll | index.php:13 | filtering keeps a list whose elements all satisfy the predicate |
| Sequences.FilterNone | index.php:13 | filtering a list none of whose elements passes gives the empty list |
| Sequences.FilterIdempotent | index.php:13 | filtering twice is filtering once |
| Sequences.FilterIsSubsequence | index.php:13 | the filtered list is a subsequence of the input |
| Sequences.SubsequenceRefl | index.php:12 | a list is a subsequence of itself, the unfiltered case |

## Left out

- Markup: `displayEmployee` (model/Employee.php:79-109), the HTML that `displayDetail` echoes, and the page template after index.php:37. Only which details are shown, in what order, and which one is a link are modelled.
- util/main.php is not part of this model. It only reads server variables into asset paths.
- Real file access and JSON parsing (`file_exists`, `file_get_contents`, `json_decode`): each path has a given outcome, which is missing, unreadable, decodes to null, decodes to a scalar, or decodes to an object.
- Non-string JSON values inside records, and a `Report_Entry` that is not a list of records: record values are strings or null.
- `array_filter` keeps the original array keys. The model returns a plain list in the same order. The page only iterates over it.
- The PHP warning that the unguarded `$matches[1]` raises when `getSupervisor`'s pattern does not match: only the returned "N/A" is modelled.
- Bytes versus UTF-8: strings are character sequences, and `strtolower` lower-cases A-Z only.
- `explode` is modelled for the one-character delimiter the source uses.
- Concurrency, and the lifetime of PHP's static variable: the `Registry` object stands for the static state of one script run. PHP resets static properties at the end of every request, and index.php:7 calls `getInstance` once per run, so every real page request starts with the instance unset and reads ./faculty.json afresh. The load-once behaviour the model proves holds between calls within one run.
