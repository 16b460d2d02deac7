/**
 * The search hook: the list shown on the job finder screen is derived from
 * the fetched jobs, the search query and the filter state by a text filter,
 * three category filters and an optional stable sort on the minimum salary.
 */
module Search {
  import opened Types
  import opened Strings
  import opened Lists

  /** `sortBy`: 'none' | 'salary-high' | 'salary-low'. */
  datatype SortMode = NoSort | SalaryHigh | SalaryLow

  /** The three category dimensions a job can be filtered on. */
  datatype Category = JobType | WorkModel | SeniorityLevel

  /** `FilterState`: the accepted values per category (empty means no restriction) and the sort mode. */
  datatype FilterState = FilterState(jobType: seq<string>, workModel: seq<string>, seniorityLevel: seq<string>, sortBy: SortMode)

  /** `keyof FilterState`, the first argument of `removeFilter`. */
  datatype FilterKey = CategoryKey(category: Category) | SortByKey

  /** The filter state the hook starts with. */
  const InitialFilters := FilterState([], [], [], NoSort)

  /** The job's value for a category. */
  function CategoryValue(job: Job, c: Category): Option<string>
  {
    match c
    case JobType => job.jobType
    case WorkModel => job.workModel
    case SeniorityLevel => job.seniorityLevel
  }

  /** The values accepted for a category. */
  function Selected(f: FilterState, c: Category): seq<string>
  {
    match c
    case JobType => f.jobType
    case WorkModel => f.workModel
    case SeniorityLevel => f.seniorityLevel
  }

  // ----- 1. text stage -----

  /**
   * The job mentions the (already lower-cased) query in its lower-cased
   * title, company or, when it has one, location.
   */
  predicate MatchesQuery(job: Job, query: string)
  {
    Includes(ToLower(job.title), query) || Includes(ToLower(job.company), query)
    || (job.location.Some? && Includes(ToLower(job.location.value), query))
  }

  /** The filter callback of the text stage. */
  function QueryTest(query: string): Job -> bool
  {
    job => MatchesQuery(job, query)
  }

  /**
   * A query that is blank after trimming keeps every job; otherwise a job
   * stays when it mentions the lower-cased, untrimmed query.
   */
  function TextStage(jobs: seq<Job>, searchQuery: string): (r: seq<Job>)
    ensures IsSubsequence(r, jobs)
    ensures AllWhitespace(searchQuery) ==> r == jobs
    ensures !AllWhitespace(searchQuery) ==>
      forall job :: job in r <==> job in jobs && MatchesQuery(job, ToLower(searchQuery))
    ensures forall job :: (multiset(r)[job] ==
      if AllWhitespace(searchQuery) || MatchesQuery(job, ToLower(searchQuery)) then multiset(jobs)[job] else 0)
  {
    if Blank(searchQuery) then
      SubsequenceReflexive(jobs);
      jobs
    else
      var test := QueryTest(ToLower(searchQuery));
      FilterIsSubsequence(jobs, test);
      assert forall job :: job in Filter(jobs, test) <==> job in jobs && test(job) by {
        forall job { FilterMembers(jobs, test, job); }
      }
      assert forall job :: multiset(Filter(jobs, test))[job] == if test(job) then multiset(jobs)[job] else 0 by {
        forall job { FilterCount(jobs, test, job); }
      }
      Filter(jobs, test)
  }

  // ----- 2. category stages -----

  /** `job.field && list.includes(job.field)`: the job has a non-empty value for the category, and it is listed. */
  predicate InCategory(job: Job, c: Category, allowed: seq<string>)
  {
    var v := CategoryValue(job, c);
    v.Some? && v.value != "" && v.value in allowed
  }

  /** The filter callback of a category stage. */
  function CategoryTest(c: Category, allowed: seq<string>): Job -> bool
  {
    job => InCategory(job, c, allowed)
  }

  /** An empty list of accepted values keeps every job; otherwise only jobs in the category stay. */
  function CategoryStage(jobs: seq<Job>, c: Category, allowed: seq<string>): (r: seq<Job>)
    ensures IsSubsequence(r, jobs)
    ensures allowed == [] ==> r == jobs
    ensures allowed != [] ==> forall job :: job in r <==> job in jobs && InCategory(job, c, allowed)
    ensures forall job :: (multiset(r)[job] ==
      if allowed == [] || InCategory(job, c, allowed) then multiset(jobs)[job] else 0)
  {
    if |allowed| > 0 then
      var test := CategoryTest(c, allowed);
      FilterIsSubsequence(jobs, test);
      assert forall job :: job in Filter(jobs, test) <==> job in jobs && test(job) by {
        forall job { FilterMembers(jobs, test, job); }
      }
      assert forall job :: multiset(Filter(jobs, test))[job] == if test(job) then multiset(jobs)[job] else 0 by {
        forall job { FilterCount(jobs, test, job); }
      }
      Filter(jobs, test)
    else
      SubsequenceReflexive(jobs);
      jobs
  }

  /** The job passes the category filter of `c`, or `c` is unrestricted. */
  predicate PassesCategory(job: Job, f: FilterState, c: Category)
  {
    Selected(f, c) == [] || InCategory(job, c, Selected(f, c))
  }

  /** The job type, work model and seniority stages, in that order. */
  function CategoryStages(jobs: seq<Job>, f: FilterState): (r: seq<Job>)
    ensures IsSubsequence(r, jobs)
    ensures forall job :: job in r <==>
      job in jobs && PassesCategory(job, f, JobType) && PassesCategory(job, f, WorkModel)
      && PassesCategory(job, f, SeniorityLevel)
    ensures forall job :: (multiset(r)[job] ==
      if PassesCategory(job, f, JobType) && PassesCategory(job, f, WorkModel) && PassesCategory(job, f, SeniorityLevel)
      then multiset(jobs)[job] else 0)
  {
    var byType := CategoryStage(jobs, JobType, f.jobType);
    var byModel := CategoryStage(byType, WorkModel, f.workModel);
    var r := CategoryStage(byModel, SeniorityLevel, f.seniorityLevel);
    SubsequenceTransitive(byModel, byType, jobs);
    SubsequenceTransitive(r, byModel, jobs);
    CategoryCounts(jobs, byType, byModel, r, f);
    r
  }

  /** Counting copies through the three category stages: a job keeps all its copies iff it passes all three. */
  lemma CategoryCounts(jobs: seq<Job>, byType: seq<Job>, byModel: seq<Job>, r: seq<Job>, f: FilterState)
    requires forall job :: (multiset(byType)[job] ==
      if f.jobType == [] || InCategory(job, JobType, f.jobType) then multiset(jobs)[job] else 0)
    requires forall job :: (multiset(byModel)[job] ==
      if f.workModel == [] || InCategory(job, WorkModel, f.workModel) then multiset(byType)[job] else 0)
    requires forall job :: (multiset(r)[job] ==
      if f.seniorityLevel == [] || InCategory(job, SeniorityLevel, f.seniorityLevel) then multiset(byModel)[job] else 0)
    ensures forall job :: (multiset(r)[job] ==
      if PassesCategory(job, f, JobType) && PassesCategory(job, f, WorkModel) && PassesCategory(job, f, SeniorityLevel)
      then multiset(jobs)[job] else 0)
    ensures forall job :: job in r <==>
      job in jobs && PassesCategory(job, f, JobType) && PassesCategory(job, f, WorkModel)
      && PassesCategory(job, f, SeniorityLevel)
  {
    forall job ensures multiset(r)[job] ==
      if PassesCategory(job, f, JobType) && PassesCategory(job, f, WorkModel) && PassesCategory(job, f, SeniorityLevel)
      then multiset(jobs)[job] else 0
    {
      assert Selected(f, JobType) == f.jobType && Selected(f, WorkModel) == f.workModel;
      assert Selected(f, SeniorityLevel) == f.seniorityLevel;
    }
    forall job ensures job in r <==>
      job in jobs && PassesCategory(job, f, JobType) && PassesCategory(job, f, WorkModel)
      && PassesCategory(job, f, SeniorityLevel)
    {
      assert job in r <==> multiset(r)[job] > 0;
      assert job in jobs <==> multiset(jobs)[job] > 0;
    }
  }

  // ----- 3. sort stage -----

  /** `job.salaryMin || 0`: a missing minimum salary counts as 0. */
  function Salary(job: Job): int
  {
    match job.salaryMin
    case Some(v) => v
    case None => 0
  }

  /** The key the sort orders by ascending: the salary, negated for a descending sort. */
  function Rank(job: Job, descending: bool): int
  {
    if descending then -Salary(job) else Salary(job)
  }

  /** `s` is in ascending order of rank. */
  predicate SortedByRank(s: seq<Job>, descending: bool)
  {
    forall i, j :: 0 <= i < j < |s| ==> Rank(s[i], descending) <= Rank(s[j], descending)
  }

  /** Inserts `x` before the first element whose rank is at least its own. */
  function Insert(x: Job, s: seq<Job>, descending: bool): (r: seq<Job>)
    ensures multiset(r) == multiset(s) + multiset{x}
    ensures SortedByRank(s, descending) ==> SortedByRank(r, descending)
  {
    if s == [] then [x]
    else if Rank(x, descending) <= Rank(s[0], descending) then [x] + s
    else
      var rest := Insert(x, s[1..], descending);
      InsertBehind(x, s, rest, descending);
      [s[0]] + rest
  }

  /** Putting the head of `s` in front of `x` inserted into the tail keeps the list sorted. */
  lemma InsertBehind(x: Job, s: seq<Job>, rest: seq<Job>, descending: bool)
    requires s != [] && Rank(s[0], descending) < Rank(x, descending)
    requires multiset(rest) == multiset(s[1..]) + multiset{x}
    requires SortedByRank(s[1..], descending) ==> SortedByRank(rest, descending)
    ensures multiset([s[0]] + rest) == multiset(s) + multiset{x}
    ensures SortedByRank(s, descending) ==> SortedByRank([s[0]] + rest, descending)
  {
    assert s == [s[0]] + s[1..];
    if SortedByRank(s, descending) {
      SortedTail(s, descending);
      HeadBelowRest(x, s, rest, descending);
      SortedCons(s[0], rest, descending);
    }
  }

  /** The tail of a sorted list is sorted. */
  lemma SortedTail(s: seq<Job>, descending: bool)
    requires s != [] && SortedByRank(s, descending)
    ensures SortedByRank(s[1..], descending)
  {
    forall i, j | 0 <= i < j < |s[1..]| ensures Rank(s[1..][i], descending) <= Rank(s[1..][j], descending) {
      assert s[1..][i] == s[i + 1] && s[1..][j] == s[j + 1];
    }
  }

  /** The head of a sorted `s` ranks no higher than any element of the tail with `x` added. */
  lemma HeadBelowRest(x: Job, s: seq<Job>, rest: seq<Job>, descending: bool)
    requires s != [] && Rank(s[0], descending) < Rank(x, descending)
    requires multiset(rest) == multiset(s[1..]) + multiset{x}
    requires SortedByRank(s, descending)
    ensures forall k :: 0 <= k < |rest| ==> Rank(s[0], descending) <= Rank(rest[k], descending)
  {
    forall k | 0 <= k < |rest| ensures Rank(s[0], descending) <= Rank(rest[k], descending) {
      assert rest[k] in multiset(rest);
      if rest[k] != x {
        assert rest[k] in multiset(s[1..]);
        var j :| 0 <= j < |s[1..]| && s[1..][j] == rest[k];
        assert s[j + 1] == rest[k];
      }
    }
  }

  /** A sorted list stays sorted behind a head that ranks no higher than any of its elements. */
  lemma SortedCons(h: Job, rest: seq<Job>, descending: bool)
    requires forall k :: 0 <= k < |rest| ==> Rank(h, descending) <= Rank(rest[k], descending)
    requires SortedByRank(rest, descending)
    ensures SortedByRank([h] + rest, descending)
  {
    var r := [h] + rest;
    forall i, j | 0 <= i < j < |r| ensures Rank(r[i], descending) <= Rank(r[j], descending) {
      if i > 0 { assert r[i] == rest[i - 1] && r[j] == rest[j - 1]; }
      else { assert r[j] == rest[j - 1]; }
    }
  }

  /**
   * A stable sort by rank: each element is inserted ahead of the later ones
   * with the same rank. The result is a sorted permutation of `s`.
   */
  function StableSort(s: seq<Job>, descending: bool): (r: seq<Job>)
    ensures multiset(r) == multiset(s)
    ensures SortedByRank(r, descending)
  {
    if s == [] then []
    else
      assert s == [s[0]] + s[1..];
      Insert(s[0], StableSort(s[1..], descending), descending)
  }

  /** The filter callback selecting the jobs with a given sort key. */
  function SalaryIs(v: int): Job -> bool
  {
    job => Salary(job) == v
  }

  /** The jobs of `s` whose sort key is `v`, in their order in `s`. */
  function WithSalary(s: seq<Job>, v: int): seq<Job>
  {
    Filter(s, SalaryIs(v))
  }

  /** Inserting `x` puts it ahead of every element with its own key and leaves those elements' order alone. */
  lemma {:induction false} InsertStable(x: Job, t: seq<Job>, descending: bool, v: int)
    ensures WithSalary(Insert(x, t, descending), v) ==
      (if Salary(x) == v then [x] else []) + WithSalary(t, v)
  {
    if t == [] {
      FilterCons(x, [], SalaryIs(v));
      assert [x] + [] == [x];
    } else if Rank(x, descending) <= Rank(t[0], descending) {
      FilterCons(x, t, SalaryIs(v));
    } else {
      InsertStable(x, t[1..], descending, v);
      InsertStableBehind(x, t, Insert(x, t[1..], descending), v);
    }
  }

  /** The step of `InsertStable` where `x` goes behind the head of `t`. */
  lemma InsertStableBehind(x: Job, t: seq<Job>, rest: seq<Job>, v: int)
    requires t != [] && Salary(t[0]) != Salary(x)
    requires WithSalary(rest, v) == (if Salary(x) == v then [x] else []) + WithSalary(t[1..], v)
    ensures WithSalary([t[0]] + rest, v) == (if Salary(x) == v then [x] else []) + WithSalary(t, v)
  {
    FilterCons(t[0], rest, SalaryIs(v));
    FilterCons(t[0], t[1..], SalaryIs(v));
    assert [t[0]] + t[1..] == t;
  }

  /** The sort is stable: the jobs with any one key keep their input order. */
  lemma {:induction false} StableSortIsStable(s: seq<Job>, descending: bool, v: int)
    ensures WithSalary(StableSort(s, descending), v) == WithSalary(s, v)
  {
    if s != [] {
      StableSortIsStable(s[1..], descending, v);
      StableStep(s[0], s[1..], StableSort(s[1..], descending), descending, v);
      assert [s[0]] + s[1..] == s;
    }
  }

  /** The step of `StableSortIsStable`: inserting the head into a stably sorted tail. */
  lemma StableStep(x: Job, t: seq<Job>, sorted: seq<Job>, descending: bool, v: int)
    requires WithSalary(sorted, v) == WithSalary(t, v)
    ensures WithSalary(Insert(x, sorted, descending), v) == WithSalary([x] + t, v)
  {
    InsertStable(x, sorted, descending, v);
    FilterCons(x, t, SalaryIs(v));
  }

  /** A non-empty list holds a job with its first job's key. */
  lemma FirstHasItsSalary(s: seq<Job>)
    requires s != []
    ensures WithSalary(s, Salary(s[0])) == [s[0]] + WithSalary(s[1..], Salary(s[0]))
  {
    FilterCons(s[0], s[1..], SalaryIs(Salary(s[0])));
    assert [s[0]] + s[1..] == s;
  }

  /**
   * Sortedness and stability pin the result down: two lists sorted by rank
   * that agree, key by key, on the order of their jobs are equal. So any
   * stable sort of the filtered jobs, in particular the engine's, yields
   * exactly `StableSort`.
   */
  lemma {:induction false} SortedStableUnique(a: seq<Job>, b: seq<Job>, descending: bool)
    requires SortedByRank(a, descending) && SortedByRank(b, descending)
    requires forall v :: WithSalary(a, v) == WithSalary(b, v)
    ensures a == b
    decreases |a| + |b|
  {
    if a == [] && b == [] {
    } else if a == [] {
      FirstHasItsSalary(b);
      assert false;
    } else if b == [] {
      FirstHasItsSalary(a);
      assert false;
    } else {
      SameHead(a, b, descending);
      forall v ensures WithSalary(a[1..], v) == WithSalary(b[1..], v) {
        SameTail(a, b, v);
      }
      SortedStableUnique(a[1..], b[1..], descending);
      assert a == [a[0]] + a[1..] && b == [b[0]] + b[1..];
    }
  }

  /** Two sorted, key-by-key equal, non-empty lists start with the same job. */
  lemma SameHead(a: seq<Job>, b: seq<Job>, descending: bool)
    requires a != [] && b != []
    requires SortedByRank(a, descending) && SortedByRank(b, descending)
    requires forall v :: WithSalary(a, v) == WithSalary(b, v)
    ensures a[0] == b[0]
  {
    var va, vb := Salary(a[0]), Salary(b[0]);
    FilterMembers(b, SalaryIs(va), a[0]);
    FilterMembers(a, SalaryIs(vb), b[0]);
    assert WithSalary(a, va) == WithSalary(b, va);
    assert WithSalary(a, vb) == WithSalary(b, vb);
    var ib :| 0 <= ib < |b| && b[ib] == a[0];
    var ia :| 0 <= ia < |a| && a[ia] == b[0];
    assert Rank(b[0], descending) <= Rank(a[0], descending) by {
      if ib > 0 { assert Rank(b[0], descending) <= Rank(b[ib], descending); }
    }
    assert Rank(a[0], descending) <= Rank(b[0], descending) by {
      if ia > 0 { assert Rank(a[0], descending) <= Rank(a[ia], descending); }
    }
    assert va == vb;
    FirstHasItsSalary(a);
    FirstHasItsSalary(b);
    assert WithSalary(a, va)[0] == a[0];
    assert WithSalary(b, va)[0] == b[0];
  }

  /** Lists that agree on the jobs with key `v` and share their head also agree on the tails' jobs with key `v`. */
  lemma SameTail(a: seq<Job>, b: seq<Job>, v: int)
    requires a != [] && b != [] && a[0] == b[0]
    requires WithSalary(a, v) == WithSalary(b, v)
    ensures WithSalary(a[1..], v) == WithSalary(b[1..], v)
  {
    FilterCons(a[0], a[1..], SalaryIs(v));
    FilterCons(b[0], b[1..], SalaryIs(v));
    assert [a[0]] + a[1..] == a && [b[0]] + b[1..] == b;
    var h := if Salary(a[0]) == v then [a[0]] else [];
    var ta, tb := WithSalary(a[1..], v), WithSalary(b[1..], v);
    assert h + ta == h + tb;
    assert ta == (h + ta)[|h|..] && tb == (h + tb)[|h|..];
  }

  /** `result.sort(...)` on a copy, for the chosen mode; 'none' leaves the list as it is. */
  function SortStage(jobs: seq<Job>, mode: SortMode): (r: seq<Job>)
    ensures multiset(r) == multiset(jobs)
    ensures mode == NoSort ==> r == jobs
    ensures mode == SalaryHigh ==> forall i, j :: 0 <= i < j < |r| ==> Salary(r[i]) >= Salary(r[j])
    ensures mode == SalaryLow ==> forall i, j :: 0 <= i < j < |r| ==> Salary(r[i]) <= Salary(r[j])
  {
    match mode
    case NoSort => jobs
    case SalaryHigh =>
      var r := StableSort(jobs, true);
      assert forall i, j :: 0 <= i < j < |r| ==> Rank(r[i], true) <= Rank(r[j], true);
      r
    case SalaryLow =>
      var r := StableSort(jobs, false);
      assert forall i, j :: 0 <= i < j < |r| ==> Rank(r[i], false) <= Rank(r[j], false);
      r
  }

  /** Both salary sorts are stable: jobs with equal `salaryMin || 0` keep their filtered order. */
  lemma SortStageIsStable(jobs: seq<Job>, mode: SortMode, v: int)
    ensures WithSalary(SortStage(jobs, mode), v) == WithSalary(jobs, v)
  {
    match mode
    case NoSort =>
    case SalaryHigh => StableSortIsStable(jobs, true, v);
    case SalaryLow => StableSortIsStable(jobs, false, v);
  }

  /** No two jobs of `s` share a sort key. */
  predicate DistinctSalaries(s: seq<Job>)
  {
    forall i, j :: 0 <= i < j < |s| ==> Salary(s[i]) != Salary(s[j])
  }

  /** With distinct keys, at most one job has any given key. */
  lemma {:induction false} DistinctSalariesSingletons(s: seq<Job>, v: int)
    requires DistinctSalaries(s)
    ensures |WithSalary(s, v)| <= 1
  {
    if s != [] {
      FilterCons(s[0], s[1..], SalaryIs(v));
      assert [s[0]] + s[1..] == s;
      assert DistinctSalaries(s[1..]);
      if Salary(s[0]) == v {
        FilterNone(s[1..], SalaryIs(v));
      } else {
        DistinctSalariesSingletons(s[1..], v);
      }
    }
  }

  /** When all minimum salaries differ, 'salary-high' lists the jobs in exactly the reverse order of 'salary-low'. */
  lemma HighIsReversedLow(jobs: seq<Job>)
    requires DistinctSalaries(jobs)
    ensures SortStage(jobs, SalaryHigh) == Reverse(SortStage(jobs, SalaryLow))
  {
    var high, low := StableSort(jobs, true), StableSort(jobs, false);
    var rev := Reverse(low);
    assert SortedByRank(rev, true);
    forall v ensures WithSalary(high, v) == WithSalary(rev, v) {
      StableSortIsStable(jobs, true, v);
      StableSortIsStable(jobs, false, v);
      FilterReverse(low, SalaryIs(v));
      DistinctSalariesSingletons(jobs, v);
      var w := WithSalary(jobs, v);
      assert Reverse(w) == w by {
        if |w| == 1 { assert Reverse(w)[0] == w[0]; }
      }
    }
    SortedStableUnique(high, rev, true);
  }

  // ----- the whole pipeline -----

  /** The job passes every stage's test: the text query (unless blank) and each restricted category. */
  predicate PassesFilters(job: Job, searchQuery: string, f: FilterState)
  {
    (AllWhitespace(searchQuery) || MatchesQuery(job, ToLower(searchQuery)))
    && PassesCategory(job, f, JobType) && PassesCategory(job, f, WorkModel) && PassesCategory(job, f, SeniorityLevel)
  }

  /** The jobs the text and category stages keep, in their original order. */
  function FilteredUnsorted(jobs: seq<Job>, searchQuery: string, f: FilterState): seq<Job>
  {
    CategoryStages(TextStage(jobs, searchQuery), f)
  }

  /**
   * The `filteredJobs` memo: a job is shown exactly when it passes every
   * filter; the result is a permutation of the filtered jobs, which keep the
   * input's relative order, and with 'none' it is that order itself.
   */
  function FilteredJobs(jobs: seq<Job>, searchQuery: string, f: FilterState): (r: seq<Job>)
    ensures multiset(r) == multiset(FilteredUnsorted(jobs, searchQuery, f))
    ensures IsSubsequence(FilteredUnsorted(jobs, searchQuery, f), jobs)
    ensures f.sortBy == NoSort ==> IsSubsequence(r, jobs)
    ensures forall job :: job in r <==> job in jobs && PassesFilters(job, searchQuery, f)
    ensures forall job :: multiset(r)[job] == if PassesFilters(job, searchQuery, f) then multiset(jobs)[job] else 0
    ensures f.sortBy == SalaryHigh ==> forall i, j :: 0 <= i < j < |r| ==> Salary(r[i]) >= Salary(r[j])
    ensures f.sortBy == SalaryLow ==> forall i, j :: 0 <= i < j < |r| ==> Salary(r[i]) <= Salary(r[j])
    ensures forall v :: WithSalary(r, v) == WithSalary(FilteredUnsorted(jobs, searchQuery, f), v)
  {
    var text := TextStage(jobs, searchQuery);
    var filtered := CategoryStages(text, f);
    var r := SortStage(filtered, f.sortBy);
    SubsequenceTransitive(filtered, text, jobs);
    assert forall v :: WithSalary(r, v) == WithSalary(filtered, v) by {
      forall v ensures WithSalary(r, v) == WithSalary(filtered, v) { SortStageIsStable(filtered, f.sortBy, v); }
    }
    assert forall job :: job in r <==> job in filtered by {
      forall job ensures job in r <==> job in filtered {
        assert job in r <==> job in multiset(r);
      }
    }
    r
  }

  /** Two postings of the same company: an engineer paying 100 and a designer paying 200. */
  const Engineer := Posting("1", "Engineer", "Acme").(salaryMin := Some(100))
  const Designer := Posting("2", "Designer", "Acme").(salaryMin := Some(200))
  const EngineerQuery := "engineer"

  /** "engineer" occurs in the lower-cased title "Engineer". */
  lemma EngineerMatches()
    ensures MatchesQuery(Engineer, EngineerQuery)
  {
    assert ToLower("Engineer") == EngineerQuery;
    assert OccursAt(ToLower(Engineer.title), EngineerQuery, 0);
  }

  /** "engineer" occurs neither in "designer" nor in "acme". */
  lemma DesignerDoesNotMatch()
    ensures !MatchesQuery(Designer, EngineerQuery)
  {
    assert ToLower("Designer") == "designer" && ToLower("Acme") == "acme";
    assert "designer"[0] != EngineerQuery[0];
    assert forall i :: !OccursAt("designer", EngineerQuery, i);
    assert forall i :: !OccursAt("acme", EngineerQuery, i);
  }

  /** Filtering two jobs of which only the first passes keeps the first. */
  lemma FilterKeepsFirst(a: Job, b: Job, p: Job -> bool)
    requires p(a) && !p(b)
    ensures Filter([a, b], p) == [a]
  {
    assert [a, b] == [a] + [b] && [b] == [b] + [];
    FilterCons(a, [b], p);
    FilterCons(b, [], p);
  }

  /** The query "engineer" keeps the engineer posting only. */
  lemma QueryExampleText()
    ensures TextStage([Engineer, Designer], EngineerQuery) == [Engineer]
  {
    assert !IsWhitespace(EngineerQuery[0]);
    assert ToLower(EngineerQuery) == EngineerQuery;
    EngineerMatches();
    DesignerDoesNotMatch();
    FilterKeepsFirst(Engineer, Designer, QueryTest(EngineerQuery));
  }

  /** With the default filters, the query "engineer" shows the engineer posting only. */
  lemma QueryExample()
    ensures FilteredJobs([Engineer, Designer], EngineerQuery, InitialFilters) == [Engineer]
  {
    QueryExampleText();
  }

  /** With no query, 'salary-high' puts the 200 posting before the 100 one. */
  lemma SalaryHighExample()
    ensures FilteredJobs([Engineer, Designer], "", InitialFilters.(sortBy := SalaryHigh)) == [Designer, Engineer]
  {
    UnfilteredExample();
    SortHighExample();
  }

  /** With no query and no category filters every job passes, in its order. */
  lemma UnfilteredExample()
    ensures FilteredUnsorted([Engineer, Designer], "", InitialFilters.(sortBy := SalaryHigh)) == [Engineer, Designer]
  {
    assert AllWhitespace("");
  }

  /** The descending sort puts the 200 posting before the 100 one. */
  lemma SortHighExample()
    ensures StableSort([Engineer, Designer], true) == [Designer, Engineer]
  {
    var jobs := [Engineer, Designer];
    assert jobs[1..] == [Designer] && jobs[1..][1..] == [];
    assert StableSort([Designer], true) == [Designer];
    assert Insert(Engineer, [Designer], true) == [Designer] + [Engineer];
  }

  /**
   * The hook's state: the search query and the filter state, with the
   * setters and `removeFilter` that the screens call.
   */
  class SearchState {
    var searchQuery: string
    var filters: FilterState

    /** The hook starts with an empty query and no filters. */
    constructor ()
      ensures searchQuery == "" && filters == InitialFilters
    {
      searchQuery := "";
      filters := InitialFilters;
    }

    /** `setSearchQuery`. */
    method SetSearchQuery(query: string)
      modifies this
      ensures searchQuery == query && filters == old(filters)
    {
      searchQuery := query;
    }

    /** `setFilters`, with the new state given as a value. */
    method SetFilters(f: FilterState)
      modifies this
      ensures filters == f && searchQuery == old(searchQuery)
    {
      filters := f;
    }

    /**
     * `removeFilter`: for 'sortBy', the sort goes back to 'none'; for a
     * category, every occurrence of `value` leaves that category's list,
     * the rest keeping their order. Nothing else changes.
     */
    method RemoveFilter(key: FilterKey, value: string)
      modifies this
      ensures searchQuery == old(searchQuery)
      ensures key == SortByKey ==> filters == old(filters).(sortBy := NoSort)
      ensures key.CategoryKey? ==> filters.sortBy == old(filters).sortBy
      ensures key.CategoryKey? ==> forall c :: (Selected(filters, c) ==
        if c == key.category then Filter(Selected(old(filters), c), Differs(value)) else Selected(old(filters), c))
    {
      match key
      case SortByKey =>
        filters := filters.(sortBy := NoSort);
      case CategoryKey(c) =>
        var kept := Filter(Selected(filters, c), Differs(value));
        match c
        case JobType => filters := filters.(jobType := kept);
        case WorkModel => filters := filters.(workModel := kept);
        case SeniorityLevel => filters := filters.(seniorityLevel := kept);
    }
  }

  /** The filter callback `item => item !== value`. */
  function Differs(value: string): string -> bool
  {
    item => item != value
  }

  /** Removing a value from a category list drops exactly its occurrences and keeps the others in order. */
  lemma RemovedValue(list: seq<string>, value: string)
    ensures IsSubsequence(Filter(list, Differs(value)), list)
    ensures value !in Filter(list, Differs(value))
    ensures forall item :: item in Filter(list, Differs(value)) <==> item in list && item != value
    ensures value !in list ==> Filter(list, Differs(value)) == list
  {
    FilterIsSubsequence(list, Differs(value));
    forall item { FilterMembers(list, Differs(value), item); }
    if value !in list { FilterKeepsAll(list, Differs(value)); }
  }
}
