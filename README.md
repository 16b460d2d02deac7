# Job finder core, modelled in Dafny

This project models the logic of a React Native job-finder app. The app fetches job postings, lets the user search, filter and sort them, keeps a list of saved jobs, shows a job's description and validates an application form. Four parts are modelled:

- **Form validators** (`Validation.dfy`): `validateRequired`, `validateEmail`, `validateContactNumber`, `validateMinLength` and `validateApplicationForm`. Each validator returns `None` for "no error" (the app's `null`) or a `ValidationError`. The two regular expressions become character predicates:
  - `[^\s@]` becomes `EmailChar`;
  - `\d` becomes `IsDigit`.
- **Search hook** (`Search.dfy`): the `filteredJobs` memo of `useSearch`. It is a pure function of the jobs, the query and the `FilterState`, and runs three stages:
  - a text stage;
  - three category stages;
  - an optional stable sort on `salaryMin || 0`.

  The hook's `searchQuery` and `filters` state, `setSearchQuery`, `setFilters` and `removeFilter` live in the class `SearchState`. All lists are values, so the input list can never be changed by the sort: the sort works on a copy.
- **Saved-job providers**:
  - `SavedJobList.dfy` holds the list updates both providers share.
  - `JobContext.dfy` is the provider without persistence. Its `Valid()` predicate (no two saved entries share an id) is an invariant kept for callers: the constructor establishes it and both mutations preserve it, although the provider's own operations do not need it.
  - `PersistentJobContext.dfy` is the provider that keeps the list under the storage key `@my_saved_jobs`. The storage is a ghost field `stored`, written after every mutation that writes. Loading on start takes the outcome of the storage read as a parameter.
  - `isJobSaved` is a function that reads the state, so it changes nothing.
- **Job details screen** (`JobDetails.dfy`):
  - `formatDescription`: each global `replace` becomes a left-to-right scanner over a small pattern type, followed by `trim`.
  - `handleSaveToggle`: a method on the in-memory provider, and the same method on the persistent provider.

Shared pieces:

- `Types.dfy`: the `Job` and `ValidationError` records.
- `Strings.dfy`: the JavaScript string operations the app uses. These are `trim`, `\s`, `toLowerCase`, `includes`, and the decimal rendering of a template literal.
- `Lists.dfy`: `Array.prototype.filter` and the subsequence relation.

Points where the code fixes a choice the model follows:

- **Contact number length.** Contact numbers of 10 to 15 digits are accepted (src/utils/validation.ts:59).
- **The `location` field.** The search hook reads `job.location` (src/hooks/useSearch.ts:51), although the `Job` interface does not declare it. It is modelled as an optional string.
- **Which provider the screen uses.** The details screen imports the extensionless path `../../contexts/JobContext` (src/screens/JobDetailsScreen/JobDetailsScreen.tsx:6). Under TypeScript's default extension order, and Metro's default `sourceExts` as Expo sets them, `.ts` is tried before `.tsx`. So the path selects `JobContext.ts`, the provider that keeps the list in memory only. The sources modelled hold no resolver configuration that changes this order. `HandleSaveToggle` is therefore stated against `JobContext.JobStore`. `HandleSaveTogglePersistent` states the same toggle against the persistent provider of `JobContext.tsx`, which differs only by its storage write.

## Model

| member | source | states |
|---|---|---|
| Strings.Trim | src/utils/validation.ts:7 | `trim` removes exactly a whitespace prefix and suffix. The result neither starts nor ends with whitespace, and it is empty iff the input is all whitespace. |
| Strings.Includes | src/hooks/useSearch.ts:49-51 | `includes` holds iff the query occurs at some index of the string. |
| Strings.ToLowerLowers | src/hooks/useSearch.ts:46-51 | `ToLower` models `toLowerCase` on ASCII letters: the length is kept, no upper-case letter is left, each upper-case letter becomes its lower-case letter, every other character is kept, and lower-casing twice equals lower-casing once. |
| Strings.DecimalText | src/utils/validation.ts:87 | The rendered number is a non-empty string of digits with no leading zero, and its decimal value is the number. |
| Validation.ValidateRequired | src/utils/validation.ts:6-14 | Returns no error iff the value has a non-whitespace character. Otherwise the error is for `fieldName`, with the message "`<fieldName>` is required". |
| Validation.MatchesEmailPattern | src/utils/validation.ts:20 | The regex `^[^\s@]+@[^\s@]+\.[^\s@]+$`: an '@' and a later '.' split the string into three non-empty runs without whitespace or '@'. It has no contract of its own. `Validation.EmailAcceptedIffWellFormed` ties it in both directions to a local part, an '@' and a dotted domain. |
| Validation.ValidateEmail | src/utils/validation.ts:19-37 | A blank address gives "Email is required". A non-blank address that does not match `^[^\s@]+@[^\s@]+\.[^\s@]+$` gives "Please enter a valid email address". No error iff the untrimmed string matches. The field is always `email`. |
| Validation.EmailAcceptedIffWellFormed | src/utils/validation.ts:20-36 | The email validator accepts exactly the strings with no whitespace, exactly one '@' with text before it, and a '.' inside the part after the '@' that is neither its first nor its last character. |
| Validation.EmailWithoutDomainExample | src/utils/validation.ts:29-34 | "a@b" is rejected as invalid. |
| Validation.EmailWithDomainExample | src/utils/validation.ts:29-36 | "a@b.com" is accepted. |
| Validation.BlankEmailExample | src/utils/validation.ts:22-27 | A whitespace-only address gives "Email is required". |
| Validation.AllDigits | src/utils/validation.ts:43 | The regex `^\d+$`: at least one character, all ASCII digits. It has no contract of its own. `ValidateContactNumber`'s contract and `SpacedContactExample` pin it down. |
| Validation.ValidateContactNumber | src/utils/validation.ts:42-67 | The checks run in order: blank gives "required", any non-digit gives "only digits", and a length outside 10..15 gives the range message. No error iff the input is 10 to 15 ASCII digits. |
| Validation.ShortContactExample | src/utils/validation.ts:59-64 | "12345" fails the length check. |
| Validation.ElevenDigitContactExample | src/utils/validation.ts:43-66 | An 11-digit number is accepted. |
| Validation.SpacedContactExample | src/utils/validation.ts:52-57 | A number containing spaces fails the digits check. |
| Validation.ValidateMinLength | src/utils/validation.ts:72-92 | Blank input gives "required" and never the length message. Non-blank input whose trimmed length is below `minLength` gives "must be at least `<minLength>` characters". No error iff the value is non-blank and its trimmed length is at least `minLength`. |
| Validation.Present | src/utils/validation.ts:103-117 | Collecting the check results yields at most one error per check. |
| Validation.PresentEmpty | src/utils/validation.ts:103-117 | The collected list is empty iff every check passed. |
| Validation.PresentSingle | src/utils/validation.ts:105-106 | One check contributes its error when there is one, and nothing otherwise. |
| Validation.PresentSnoc | src/utils/validation.ts:105-115 | Pushing one more check's error after the earlier ones is the same as collecting the longer list of checks. |
| Validation.PresentOfFour | src/utils/validation.ts:105-115 | Collecting four results is the same as pushing each error that is present, in turn. |
| Validation.PresentMembers | src/utils/validation.ts:105-115 | An error is collected exactly when some check produced it. |
| Validation.PresentFieldsInOrder | src/utils/validation.ts:103-117 | When each check names its own field, the collected errors' fields appear in the checks' order. |
| Validation.FormErrors | src/utils/validation.ts:103-117 | Errors from the four form checks number at most four. Their fields are a subsequence of Name, email, contactNumber, "Why should we hire you". The list is empty iff all four checks pass. |
| Validation.PushIfError | src/utils/validation.ts:105-106 | `if (error) errors.push(error)`: the list grows by the error when there is one and is unchanged otherwise. |
| Validation.ValidateApplicationForm | src/utils/validation.ts:97-118 | The four pushes build exactly the collected errors, with the properties of `FormErrors`. The list is empty iff each validator returns no error. |
| Search.MatchesQuery | src/hooks/useSearch.ts:47-52 | The text test: the lower-cased query occurs in the lower-cased title, company, or location when there is one. It has no contract of its own. `Search.TextStage` keeps exactly the jobs it accepts, and `EngineerMatches` and `DesignerDoesNotMatch` evaluate it. |
| Search.TextStage | src/hooks/useSearch.ts:44-53 | A query that is blank after trimming keeps the list as it is. Otherwise a job stays iff the lower-cased, untrimmed query occurs in its lower-cased title, company or, when present, location. Every copy of a kept job stays and no copy of a dropped one, and the result is a subsequence of the input. |
| Search.InCategory | src/hooks/useSearch.ts:57-63 | The category test `job.field && list.includes(job.field)`: the field is present, non-empty and listed. It has no contract of its own. `Search.CategoryStage` keeps exactly the jobs it accepts. |
| Search.CategoryStage | src/hooks/useSearch.ts:56-64 | An empty list of accepted values keeps everything. Otherwise a job stays iff it has a non-empty value for the category and that value is listed. Every copy of a kept job stays and no copy of a dropped one, and the result is a subsequence of the input. |
| Search.CategoryStages | src/hooks/useSearch.ts:55-64 | The three category stages keep a subsequence. A job stays iff it passes every restricted category, and then with all its copies. |
| Search.CategoryCounts | src/hooks/useSearch.ts:55-64 | Chaining the three stages keeps all copies of a job that passes every category and none of any other job. |
| Search.Insert | src/hooks/useSearch.ts:67-71 | Inserting into a sorted list gives a sorted permutation of the list plus the new job. |
| Search.InsertBehind | src/hooks/useSearch.ts:67-71 | Inserting behind a head with a smaller key keeps the list sorted, and the result is a permutation. |
| Search.SortedTail | src/hooks/useSearch.ts:67-71 | The tail of a list sorted by key is sorted. |
| Search.HeadBelowRest | src/hooks/useSearch.ts:67-71 | The head of a sorted list ranks no higher than anything in its tail with a larger-keyed job added. |
| Search.SortedCons | src/hooks/useSearch.ts:67-71 | A sorted list stays sorted behind a head that ranks no higher than all its jobs. |
| Search.Salary | src/hooks/useSearch.ts:68-70 | `salaryMin || 0`: the minimum salary, or 0 when it is missing. It has no contract of its own. It is the key that `StableSort`, `SortStage` and `FilteredJobs` order by. |
| Search.StableSort | src/hooks/useSearch.ts:68-70 | The sort returns a permutation of its input, ordered by key. |
| Search.InsertStable | src/hooks/useSearch.ts:68-70 | An inserted job goes ahead of the jobs with its own key, and their order is kept. |
| Search.InsertStableBehind | src/hooks/useSearch.ts:68-70 | Keeping a head whose key differs from the inserted job's preserves, key by key, the order of the jobs. |
| Search.StableStep | src/hooks/useSearch.ts:68-70 | Inserting a job into a list that agrees key by key with the tail agrees key by key with the whole list. |
| Search.StableSortIsStable | src/hooks/useSearch.ts:68-70 | The jobs with any one key come out in their input order. |
| Search.FirstHasItsSalary | src/hooks/useSearch.ts:68-70 | The jobs with the first job's key start with the first job. |
| Search.SortedStableUnique | src/hooks/useSearch.ts:67-71 | Two sorted lists that agree, key by key, on the order of their jobs are equal. So every stable sort by this comparator yields `StableSort`'s result. |
| Search.SameHead | src/hooks/useSearch.ts:67-71 | Two sorted, key-by-key equal, non-empty lists start with the same job. |
| Search.SameTail | src/hooks/useSearch.ts:67-71 | Lists with the same head that agree on the jobs with a key also agree on their tails' jobs with that key. |
| Search.SortStage | src/hooks/useSearch.ts:66-71 | The result is a permutation of the filtered list. 'none' leaves the order as it is; 'salary-high' is non-increasing and 'salary-low' non-decreasing in the minimum salary, a missing one counting as 0. |
| Search.SortStageIsStable | src/hooks/useSearch.ts:67-71 | Both salary sorts keep the filtered order among jobs with equal minimum salary, a missing one counting as 0. |
| Search.DistinctSalariesSingletons | src/hooks/useSearch.ts:68-70 | When all keys differ, at most one job has any given key. |
| Search.HighIsReversedLow | src/hooks/useSearch.ts:67-71 | When all keys differ, 'salary-high' is exactly the reverse of 'salary-low'. |
| Search.FilteredJobs | src/hooks/useSearch.ts:41-74 | A job is shown iff it is in the input and passes every filter, and it is shown as many times as it occurs in the input. The result is a permutation of the filtered jobs, which keep the input's order. With 'none' the result is a subsequence of the input. With 'salary-high' salaries never rise along the result, and with 'salary-low' they never fall. Jobs of equal salary keep their filtered order. |
| Search.EngineerMatches | src/hooks/useSearch.ts:49 | "engineer" occurs in the lower-cased title "Engineer". |
| Search.DesignerDoesNotMatch | src/hooks/useSearch.ts:49-51 | "engineer" occurs in neither "Designer" nor "Acme" once they are lower-cased. |
| Search.QueryExampleText | src/hooks/useSearch.ts:45-53 | The text stage with query "engineer" keeps only the Engineer posting. |
| Search.QueryExample | src/hooks/useSearch.ts:41-74 | With the default filters, query "engineer" on [Engineer(100), Designer(200)] shows [Engineer]. |
| Search.FilterKeepsFirst | src/hooks/useSearch.ts:47 | Filtering two jobs of which only the first passes the test keeps the first. |
| Search.UnfilteredExample | src/hooks/useSearch.ts:44-64 | With no query and no category filters, both postings pass, in their order. |
| Search.SortHighExample | src/hooks/useSearch.ts:67-68 | The descending sort puts Designer(200) before Engineer(100). |
| Search.SalaryHighExample | src/hooks/useSearch.ts:67-68 | With no query and 'salary-high', the list shows [Designer(200), Engineer(100)]. |
| Search.SearchState.constructor | src/hooks/useSearch.ts:21-28 | The hook starts with an empty query and empty category lists, sorted by 'none'. |
| Search.SearchState.SetSearchQuery | src/hooks/useSearch.ts:21 | Sets the query and leaves the filters unchanged. |
| Search.SearchState.SetFilters | src/hooks/useSearch.ts:23 | Sets the filters and leaves the query unchanged. |
| Search.SearchState.RemoveFilter | src/hooks/useSearch.ts:30-39 | For 'sortBy', only the sort goes back to 'none'. For a category, exactly that list loses every occurrence of the value. The other lists, the sort and the query are unchanged. |
| Search.RemovedValue | src/hooks/useSearch.ts:36 | Removing a value keeps the other values in order and drops every occurrence of it. A list without the value is unchanged. |
| Lists.Filter | src/hooks/useSearch.ts:47-63 | `Array.prototype.filter`. It has no contract of its own. `FilterIsSubsequence`, `FilterMembers` and `FilterCount` pin it down: it keeps, in order, every copy of each element that passes and nothing else. |
| Lists.FilterIsSubsequence | src/hooks/useSearch.ts:47-63 | `filter` keeps a subsequence of its input. |
| Lists.FilterMembers | src/hooks/useSearch.ts:47-63 | An element survives `filter` iff it is in the input and passes the test. |
| Lists.FilterCount | src/hooks/useSearch.ts:47-63 | `filter` keeps every copy of an element that passes the test and no copy of one that fails it. |
| Lists.SubsequenceTransitive | src/hooks/useSearch.ts:47-64 | A chain of order-keeping stages keeps order. |
| SavedJobList.SomeHasId | src/contexts/JobContext.tsx:47-49 | The `some` scan holds iff some entry has the id. |
| SavedJobList.SavedCopy | src/contexts/JobContext.tsx:33 | The stored copy has the job's id and `isSaved` true, and differs from the job in nothing else. |
| SavedJobList.WithSaved | src/contexts/JobContext.tsx:31-33 | The list `saveJob` leaves. It has no contract of its own. `SaveDuplicate`, `SaveNew`, `SaveIds` and `SaveIdempotent` pin it down: unchanged for a present id, otherwise the saved copy appended. |
| SavedJobList.SaveDuplicate | src/contexts/JobContext.tsx:32 | Saving a job whose id is present changes nothing. |
| SavedJobList.SaveNew | src/contexts/JobContext.tsx:33 | Saving a new id adds one entry: the earlier entries are untouched and the last is the saved copy. |
| SavedJobList.SavedAfterSave | src/contexts/JobContext.tsx:30-49 | After saving, the job's id is present. |
| SavedJobList.SaveIds | src/contexts/JobContext.tsx:32-33 | After saving, exactly the old ids and the job's id are present. |
| SavedJobList.SaveIdempotent | src/contexts/JobContext.ts:18-23 | Saving twice equals saving once. |
| SavedJobList.SaveKeepsDistinct | src/contexts/JobContext.ts:19-23 | Saving keeps the ids distinct. |
| SavedJobList.WithoutId | src/contexts/JobContext.tsx:41 | `prevJobs.filter(job => job.id !== jobId)`. It has no contract of its own. `RemoveMembers`, `RemoveAbsent` and `RemoveIdempotent` pin it down: exactly the entries with another id, in order. |
| SavedJobList.RemoveMembers | src/contexts/JobContext.tsx:41 | Removing keeps exactly the entries with another id, in order, and the id is gone afterwards. |
| SavedJobList.RemoveAbsent | src/contexts/JobContext.tsx:41 | Removing an absent id changes nothing. |
| SavedJobList.RemoveIdempotent | src/contexts/JobContext.ts:28 | Removing twice equals removing once. |
| SavedJobList.RemoveKeepsDistinct | src/contexts/JobContext.ts:28 | Removing keeps the ids distinct. |
| SavedJobList.SubsequenceKeepsDistinct | src/contexts/JobContext.tsx:41 | Any order-keeping selection from a list with distinct ids has distinct ids. |
| SavedJobList.SaveThenRemove | src/contexts/JobContext.tsx:30-45 | Saving a new job and then removing its id restores the list. |
| JobContext.JobStore.constructor | src/contexts/JobContext.ts:14 | The provider starts with no saved jobs and satisfies the distinct-ids invariant. |
| JobContext.JobStore.SaveJob | src/contexts/JobContext.ts:16-25 | An id already present leaves the list unchanged. A new id appends `{ ...job, isSaved: true }`. Distinct ids are preserved, and afterwards the job is saved. |
| JobContext.JobStore.RemoveJob | src/contexts/JobContext.ts:27-29 | Keeps exactly the entries with another id, in order. An absent id changes nothing. Distinct ids are preserved, and afterwards the id is not saved. |
| JobContext.JobStore.IsJobSaved | src/contexts/JobContext.ts:31-33 | Holds iff some saved entry has the id. |
| PersistentJobContext.PersistentJobStore.constructor | src/contexts/JobContext.tsx:16 | The provider starts with an empty list, no writes, and storage as earlier sessions left it. |
| PersistentJobContext.PersistentJobStore.LoadSavedJobs | src/contexts/JobContext.tsx:18-28 | A successful read replaces the state with the persisted list, so afterwards the state equals storage. Nothing stored, or a failed read, leaves the state as it was. Storage is never written. |
| PersistentJobContext.PersistentJobStore.SaveJob | src/contexts/JobContext.tsx:30-37 | A duplicate id changes nothing and writes nothing. A new id appends the saved copy and writes once, leaving storage equal to the list. Distinct ids are preserved, and afterwards the job is saved. |
| PersistentJobContext.PersistentJobStore.RemoveJob | src/contexts/JobContext.tsx:39-45 | Keeps exactly the entries with another id, in order. It always writes once, even when nothing was removed, leaving storage equal to the list. Distinct ids are preserved, and afterwards the id is not saved. |
| PersistentJobContext.PersistentJobStore.IsJobSaved | src/contexts/JobContext.tsx:47-49 | Holds iff some saved entry has the id. |
| JobDetails.FindGt | src/screens/JobDetailsScreen/JobDetailsScreen.tsx:15-18 | Finds the first '>' at or after a position, as `[^>]*>` does. |
| JobDetails.MatchLength | src/screens/JobDetailsScreen/JobDetailsScreen.tsx:15-19 | A match of any of the patterns is non-empty and lies within the text. |
| JobDetails.Replace | src/screens/JobDetailsScreen/JobDetailsScreen.tsx:15-19 | `String.prototype.replace` with a global pattern: a left-to-right scan that replaces a match where one starts and otherwise copies one character. It has no contract of its own. `ReplaceNoMatch`, `ReplaceSkip`, `ReplaceCopies`, `ReplaceJumps`, `ReplaceMatch` and `ReplaceChars` pin it down. |
| JobDetails.ReplaceNoMatch | src/screens/JobDetailsScreen/JobDetailsScreen.tsx:15-19 | A global replace that finds no match returns its input. |
| JobDetails.ReplaceChars | src/screens/JobDetailsScreen/JobDetailsScreen.tsx:15-19 | Every output character comes from the input or from the replacement. |
| JobDetails.ReplaceSkip | src/screens/JobDetailsScreen/JobDetailsScreen.tsx:15-19 | Text in which no match starts is copied unchanged, and the scan goes on after it. |
| JobDetails.ReplaceCopies | src/screens/JobDetailsScreen/JobDetailsScreen.tsx:15-19 | Where no match starts, the scan copies one character and goes on. |
| JobDetails.ReplaceJumps | src/screens/JobDetailsScreen/JobDetailsScreen.tsx:15-19 | Where a match starts, the scan emits the replacement and resumes behind the match; an empty replacement removes the match. |
| JobDetails.SkipStep | src/screens/JobDetailsScreen/JobDetailsScreen.tsx:15-19 | A character where no match starts is copied in front of the scan of the rest. |
| JobDetails.ReplaceMatch | src/screens/JobDetailsScreen/JobDetailsScreen.tsx:15-19 | A match where the scan stands is replaced, and the scan resumes after it. |
| JobDetails.TagMatches | src/screens/JobDetailsScreen/JobDetailsScreen.tsx:15-18 | `prefix[^>]*>` and `<[^>]+>` match up to the first '>' after the prefix. |
| JobDetails.MatchBehindSkip | src/screens/JobDetailsScreen/JobDetailsScreen.tsx:15-19 | A match behind text in which no match starts is replaced, with that text copied in front. |
| JobDetails.StartSkips | src/screens/JobDetailsScreen/JobDetailsScreen.tsx:15-19 | No match starts in text holding no occurrence of the pattern's opening text, when the match behind it starts with that text. |
| JobDetails.TagReplaced | src/screens/JobDetailsScreen/JobDetailsScreen.tsx:15-18 | A tag behind text holding no occurrence of its prefix is replaced, and that text is copied in front. |
| JobDetails.HeadingBecomesBullet | src/screens/JobDetailsScreen/JobDetailsScreen.tsx:15 | The first `<h3...>` tag becomes "\n\n● ", the text before it is kept, and the scan goes on behind it. |
| JobDetails.HeadingAfterTagExample | src/screens/JobDetailsScreen/JobDetailsScreen.tsx:15 | In "A</h3><h3>B" the heading behind the closing tag still becomes a bullet. |
| JobDetails.HeadingEndBecomesBreak | src/screens/JobDetailsScreen/JobDetailsScreen.tsx:16 | The first `</h3>` becomes "\n", the text before it is kept, and the scan goes on behind it. |
| JobDetails.ListItemBecomesDash | src/screens/JobDetailsScreen/JobDetailsScreen.tsx:17 | The first `<li...>` tag becomes "\n  - ", the text before it is kept, and the scan goes on behind it. |
| JobDetails.OtherTagRemoved | src/screens/JobDetailsScreen/JobDetailsScreen.tsx:18 | A tag with a non-empty body behind text without '<' is removed, and the scan goes on behind it. |
| JobDetails.AmpDecoded | src/screens/JobDetailsScreen/JobDetailsScreen.tsx:19 | The first `&amp;` becomes '&', the text before it is kept, and the scan goes on behind it. |
| JobDetails.TagFreeIsNoMatch | src/screens/JobDetailsScreen/JobDetailsScreen.tsx:18 | `TagFree` holds exactly when `<[^>]+>` matches nowhere. |
| JobDetails.StripLeavesNoTag | src/screens/JobDetailsScreen/JobDetailsScreen.tsx:18 | After stripping, no `<`, non-'>' characters, `>` sequence remains, although a lone '<' or "<>" may. |
| JobDetails.UnmatchedAngle | src/screens/JobDetailsScreen/JobDetailsScreen.tsx:18 | A '<' where no tag starts is followed, after stripping, by '>' at once or by no '>' at all. |
| JobDetails.StripCopies | src/screens/JobDetailsScreen/JobDetailsScreen.tsx:18 | Keeping a character where no tag starts in front of a tag-free rest keeps the result tag-free. |
| JobDetails.DecodeKeepsTagFree | src/screens/JobDetailsScreen/JobDetailsScreen.tsx:19 | Decoding `&amp;` cannot create a tag. |
| JobDetails.TrimKeepsTagFree | src/screens/JobDetailsScreen/JobDetailsScreen.tsx:20 | Trimming cannot create a tag. |
| JobDetails.FormatDescription | src/screens/JobDetailsScreen/JobDetailsScreen.tsx:12-21 | An empty description gives "No description available.". Any other result holds no tag, and it neither begins nor ends with whitespace. |
| JobDetails.TagPassesSkip | src/screens/JobDetailsScreen/JobDetailsScreen.tsx:15-18 | The four tag replacements leave a description without '<' unchanged. |
| JobDetails.TagFreeDescription | src/screens/JobDetailsScreen/JobDetailsScreen.tsx:12-21 | A non-empty description without '<' is only decoded and trimmed. |
| JobDetails.DecodeOnce | src/screens/JobDetailsScreen/JobDetailsScreen.tsx:19 | One decoding pass turns "&amp;amp;" into "&amp;". |
| JobDetails.SinglePassDecode | src/screens/JobDetailsScreen/JobDetailsScreen.tsx:19 | `&amp;` is decoded in one pass, so "&amp;amp;" shows as "&amp;". |
| JobDetails.HandleSaveToggle | src/screens/JobDetailsScreen/JobDetailsScreen.tsx:30-35 | Against the in-memory provider that the import selects: flips `isJobSaved(job.id)`. A saved job's entries are removed and an unsaved job's saved copy is appended. Distinct ids stay distinct. |
| JobDetails.HandleSaveTogglePersistent | src/screens/JobDetailsScreen/JobDetailsScreen.tsx:30-35 | The same flip against the persistent provider, after which storage equals the list. |

## Left out

- Character set. `toLowerCase` is modelled for the ASCII letters only. JavaScript's full Unicode case mapping is not modelled.
- String length. Lengths count Dafny characters (Unicode scalar values), not UTF-16 code units. This differs only for characters outside the Basic Multilingual Plane. The contact-number check rejects those anyway, but `ValidateMinLength` counts each of them once where `value.trim().length` (src/utils/validation.ts:84) counts two: "I love coding 😀😀😀" is 20 units long in JavaScript and 17 characters in the model, so against a minimum of 18 the app accepts it and the model reports it too short.
- Numbers. Salaries and `minLength` are whole numbers; floating point, NaN and the comparator arithmetic on them are not modelled.
- Async storage I/O. `AsyncStorage` reads and writes take effect at the point of the call. The `JSON.stringify`/`JSON.parse` round trip is taken as the identity on job lists.
- Load failures and bad stored data. Whether the read succeeds is a parameter: a successful read returns exactly what storage holds, and a failed one is `None`. The causes of a failure (platform errors, malformed JSON) are not modelled, and neither is a stored value that parses to something other than a job list.
- Interleaving. A load that completes after a save and overwrites it, and React's batching of state updates, are not modelled. Each call runs to completion on the current state.
- JobContext.JobStore.SaveJob: keeps distinct ids in the form `old(Valid()) ==> Valid()` rather than requiring `Valid()`, so it also covers states the constructor cannot produce.
- JobContext.JobStore.RemoveJob: the same weakening as `SaveJob`.
- Provider guard. The `useJobs` check that throws outside a provider belongs to the UI framework and is not modelled.
- Functional updates to `setFilters`. The hook also accepts an updater function (`SetStateAction`); only a new value is modelled.
- JobDetails.HandleSaveToggle and JobDetails.HandleSaveTogglePersistent: read `isJobSaved` when called. The screen computes `isSaved` while rendering, and a stale render is not modelled.
- JobDetails.HeadingBecomesBullet, JobDetails.ListItemBecomesDash, JobDetails.HeadingEndBecomesBreak and JobDetails.AmpDecoded: each describes one match, the first occurrence of the pattern's opening text (`<h3`, `<li`, `</h3>`, `&amp;`). The text before it may hold any other tag or entity. Later matches follow by applying the lemma again to the rest. No whole-string statement of the form "no match is left" is made about these four passes.
- JobDetails.OtherTagRemoved: asks for no '<' at all before the tag, which is stronger than "no tag starts there". A lone '<' or a "<>" before the tag is covered only by the whole-string result `StripLeavesNoTag`.
- src/hooks/useJobsAPI.ts is not part of this model. It fetches over the network.
- The random ids of src/utils/uuid.ts are not modelled.
- Salary formatting with `toLocaleString` is locale-dependent and not modelled.
- The screens' layout, navigation, themes, the timer-based mock submission and the application form's touched-field state are not modelled. They are user interface code.
