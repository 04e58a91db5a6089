/** The browser-side scholarship search of the home page: the filter the
    page applies to its static scholarship list, the count it shows, and the
    list component that filters once more and splits the result into
    featured and regular scholarships. */
module ClientFilter {
  import opened Common
  import opened Seqs
  import opened Text

  /** The client's degree-level categories; `All` is also a member of the type. */
  datatype Category =
    | Bachelor | Master | PhD | Diploma | Certificate | ShortCourse | Exchange | Internship | All

  function CategoryName(c: Category): string
  {
    match c
    case Bachelor => "Bachelor"
    case Master => "Master"
    case PhD => "PhD"
    case Diploma => "Diploma"
    case Certificate => "Certificate"
    case ShortCourse => "Short Course"
    case Exchange => "Exchange"
    case Internship => "Internship"
    case All => "All"
  }

  /** A scholarship of the static client data. `deadline` is the day number
      of a date-only `YYYY-MM-DD` text, which the browser reads as that day's
      UTC midnight. */
  datatype Scholarship = Scholarship(
    id: string, title: string, description: string, amount: int, deadline: int,
    category: Category, eligibility: seq<string>, requirements: seq<string>,
    featured: bool, applicationLink: string, contactEmail: string,
    maxRecipients: int, renewable: bool, fieldOfStudy: Option<seq<string>>)

  datatype DeadlineRange = AnyDeadline | ThisMonth | NextThreeMonths | ThisYear

  datatype FilterState = FilterState(
    search: string, category: Category, minAmount: int, maxAmount: int,
    deadlineRange: DeadlineRange)

  /** `1000 * 3600 * 24`. */
  const MsPerDay: int := 1000 * 3600 * 24

  const DefaultMaxAmount: int := 50000

  /** The home page's starting filters, which are also what "Clear all filters" sets. */
  const Initial: FilterState := FilterState("", All, 0, DefaultMaxAmount, AnyDeadline)

  /** Days a deadline range looks ahead; `None` for "All". */
  function Horizon(r: DeadlineRange): Option<nat>
  {
    match r
    case AnyDeadline => None
    case ThisMonth => Some(30)
    case NextThreeMonths => Some(90)
    case ThisYear => Some(365)
  }

  /** `Math.ceil((deadline - now) / day)` for a deadline at midnight of day
      `deadline` and the clock reading `now` in milliseconds. */
  function DaysLeft(deadline: int, now: int): int
  {
    deadline - now / MsPerDay
  }

  /** `DaysLeft` is the ceiling of the remaining time in days: the least
      whole number of days that covers it. */
  lemma DaysLeftIsCeiling(deadline: int, now: int)
    ensures var r := DaysLeft(deadline, now);
      (r - 1) * MsPerDay < deadline * MsPerDay - now <= r * MsPerDay
  {
    var q, m := now / MsPerDay, now % MsPerDay;
    assert now == q * MsPerDay + m && 0 <= m < MsPerDay;
    assert deadline * MsPerDay - now == (deadline - q) * MsPerDay - m;
  }

  /** At most `n` days left, in whole days, exactly when the deadline is at
      most `n` days after the clock. */
  lemma DaysLeftAtMost(deadline: int, now: int, n: int)
    ensures DaysLeft(deadline, now) <= n <==> deadline * MsPerDay - now <= n * MsPerDay
  {
    DaysLeftIsCeiling(deadline, now);
    var r := DaysLeft(deadline, now);
    if (r - 1) * MsPerDay < n * MsPerDay {
      assert r - 1 < n;
    }
  }

  /** The texts the search box looks into: title, description, category
      name, every eligibility line and every field of study. */
  function SearchTexts(s: Scholarship): seq<string>
  {
    [s.title, s.description, CategoryName(s.category)] + s.eligibility
      + (match s.fieldOfStudy case None => [] case Some(fs) => fs)
  }

  /** The search disjunction of the list filter, case-insensitive and untrimmed. */
  predicate MatchesSearch(s: Scholarship, term: string)
  {
    || ContainsIgnoreCase(s.title, term)
    || ContainsIgnoreCase(s.description, term)
    || ContainsIgnoreCase(CategoryName(s.category), term)
    || (exists i :: 0 <= i < |s.eligibility| && ContainsIgnoreCase(s.eligibility[i], term))
    || (s.fieldOfStudy.Some?
        && exists i :: 0 <= i < |s.fieldOfStudy.value| && ContainsIgnoreCase(s.fieldOfStudy.value[i], term))
  }

  /** Whether the filter callback returns true for `s`; an empty search text
      is falsy and skips the search test. */
  predicate Keep(s: Scholarship, f: FilterState, now: int)
  {
    && (f.search == [] || MatchesSearch(s, f.search))
    && (f.category == All || s.category == f.category)
    && !(s.amount < f.minAmount || s.amount > f.maxAmount)
    && (Horizon(f.deadlineRange).None? || DaysLeft(s.deadline, now) <= Horizon(f.deadlineRange).value)
  }

  /** What the filters promise the user, stated without the list filter's
      steps: some searchable text contains the term, the category is the
      chosen one, the amount lies in the range, and the deadline falls within
      the chosen number of days of the clock (past deadlines included). */
  ghost predicate Admits(s: Scholarship, f: FilterState, now: int)
  {
    && (f.search == [] || exists k :: 0 <= k < |SearchTexts(s)| && ContainsIgnoreCase(SearchTexts(s)[k], f.search))
    && (f.category == All || s.category == f.category)
    && f.minAmount <= s.amount <= f.maxAmount
    && (forall n :: Horizon(f.deadlineRange) == Some(n) ==> s.deadline * MsPerDay - now <= n * MsPerDay)
  }

  lemma {:induction false} SearchIff(s: Scholarship, term: string)
    ensures MatchesSearch(s, term)
        <==> exists k :: 0 <= k < |SearchTexts(s)| && ContainsIgnoreCase(SearchTexts(s)[k], term)
  {
    var t := SearchTexts(s);
    var e := |s.eligibility|;
    var fs := match s.fieldOfStudy case None => [] case Some(fs) => fs;
    assert t == [s.title, s.description, CategoryName(s.category)] + s.eligibility + fs;
    assert forall i :: 0 <= i < e ==> t[3 + i] == s.eligibility[i];
    assert forall i :: 0 <= i < |fs| ==> t[3 + e + i] == fs[i];
    if MatchesSearch(s, term) {
      if ContainsIgnoreCase(s.title, term) {
        assert ContainsIgnoreCase(t[0], term);
      } else if ContainsIgnoreCase(s.description, term) {
        assert ContainsIgnoreCase(t[1], term);
      } else if ContainsIgnoreCase(CategoryName(s.category), term) {
        assert ContainsIgnoreCase(t[2], term);
      } else if exists i :: 0 <= i < e && ContainsIgnoreCase(s.eligibility[i], term) {
        var i :| 0 <= i < e && ContainsIgnoreCase(s.eligibility[i], term);
        assert ContainsIgnoreCase(t[3 + i], term);
      } else {
        var i :| 0 <= i < |fs| && ContainsIgnoreCase(fs[i], term);
        assert ContainsIgnoreCase(t[3 + e + i], term);
      }
    }
    if exists k :: 0 <= k < |t| && ContainsIgnoreCase(t[k], term) {
      var k :| 0 <= k < |t| && ContainsIgnoreCase(t[k], term);
      if 3 <= k < 3 + e {
        assert ContainsIgnoreCase(s.eligibility[k - 3], term);
      } else if 3 + e <= k {
        assert ContainsIgnoreCase(fs[k - 3 - e], term);
      }
    }
  }

  /** The list filter keeps a scholarship exactly when the filters admit it. */
  lemma KeepIffAdmits(s: Scholarship, f: FilterState, now: int)
    ensures Keep(s, f, now) <==> Admits(s, f, now)
  {
    SearchIff(s, f.search);
    match Horizon(f.deadlineRange)
    case None =>
    case Some(n) => DaysLeftAtMost(s.deadline, now, n);
  }

  /** `filterScholarships`: the scholarships the filters keep, in list order. */
  function FilterScholarships(rows: seq<Scholarship>, f: FilterState, now: int): (r: seq<Scholarship>)
    ensures IsSubsequence(r, rows)
    ensures forall i :: 0 <= i < |r| ==> Admits(r[i], f, now)
    ensures forall i :: 0 <= i < |rows| && Admits(rows[i], f, now) ==> rows[i] in r
    ensures |r| == CountWhere(rows, s => Keep(s, f, now))
  {
    var r := Filter(rows, s => Keep(s, f, now));
    FilterIsSubsequence(rows, s => Keep(s, f, now));
    FilterLength(rows, s => Keep(s, f, now));
    forall i | 0 <= i < |r| ensures Admits(r[i], f, now) {
      KeepIffAdmits(r[i], f, now);
    }
    forall i | 0 <= i < |rows| && Admits(rows[i], f, now) ensures rows[i] in r {
      KeepIffAdmits(rows[i], f, now);
    }
    r
  }

  /** Filtering the filtered list again with the same filters changes nothing. */
  lemma FilterScholarshipsIdempotent(rows: seq<Scholarship>, f: FilterState, now: int)
    ensures FilterScholarships(FilterScholarships(rows, f, now), f, now) == FilterScholarships(rows, f, now)
  {
    FilterIdempotent(rows, s => Keep(s, f, now));
  }

  /** The list component's output: the filtered scholarships split into
      featured ones and the rest. */
  datatype ListView = ListView(featured: seq<Scholarship>, regular: seq<Scholarship>)

  predicate IsFeatured(s: Scholarship) { s.featured }

  predicate IsRegular(s: Scholarship) { !s.featured }

  function ScholarshipList(rows: seq<Scholarship>, f: FilterState, now: int): (v: ListView)
    ensures forall i :: 0 <= i < |v.featured| ==> v.featured[i].featured
    ensures forall i :: 0 <= i < |v.regular| ==> !v.regular[i].featured
  {
    var kept := FilterScholarships(rows, f, now);
    ListView(Filter(kept, IsFeatured), Filter(kept, IsRegular))
  }

  /** The two parts together hold exactly the filtered scholarships. */
  lemma ScholarshipListSplits(rows: seq<Scholarship>, f: FilterState, now: int)
    ensures var v := ScholarshipList(rows, f, now);
      multiset(v.featured) + multiset(v.regular) == multiset(FilterScholarships(rows, f, now))
  {
    FilterSplit(FilterScholarships(rows, f, now), IsFeatured, IsRegular);
  }

  /** A later clock reading never hides a scholarship an earlier one
      showed: the days left only shrink as the clock advances. */
  lemma KeepLaterClock(s: Scholarship, f: FilterState, now: int, later: int)
    requires now <= later
    ensures Keep(s, f, now) ==> Keep(s, f, later)
  {
    assert now / MsPerDay <= later / MsPerDay by {
      DaysElapsedMonotone(now, later);
    }
  }

  /** Whole days elapsed never decrease as the clock advances. */
  lemma DaysElapsedMonotone(a: int, b: int)
    requires a <= b
    ensures a / MsPerDay <= b / MsPerDay
  {
    var qa, qb := a / MsPerDay, b / MsPerDay;
    assert a == qa * 86400000 + a % MsPerDay && b == qb * 86400000 + b % MsPerDay;
  }

  /** Filtering the filtered list again, with the same filters and a
      clock read no earlier, changes nothing. */
  lemma {:induction false} FilterAgainLater(rows: seq<Scholarship>, f: FilterState, now: int, later: int)
    requires now <= later
    ensures FilterScholarships(FilterScholarships(rows, f, now), f, later) == FilterScholarships(rows, f, now)
  {
    var kept := FilterScholarships(rows, f, now);
    forall i | 0 <= i < |kept| ensures Keep(kept[i], f, later) {
      KeepIffAdmits(kept[i], f, now);
      KeepLaterClock(kept[i], f, now, later);
    }
    FilterAll(kept, s => Keep(s, f, later));
  }

  /** What the home page shows: the result count next to the filters, read
      at clock `now`, and the list component fed with the already filtered
      scholarships, which filters them once more at its own clock `later`. */
  datatype HomeView = HomeView(totalResults: nat, list: ListView)

  function HomePage(rows: seq<Scholarship>, f: FilterState, now: int, later: int): (r: HomeView)
    ensures r.totalResults == |FilterScholarships(rows, f, now)|
    ensures now <= later ==> |r.list.featured| + |r.list.regular| == r.totalResults
  {
    var kept := FilterScholarships(rows, f, now);
    var v := ScholarshipList(kept, f, later);
    assert now <= later ==> |v.featured| + |v.regular| == |kept| by {
      if now <= later {
        FilterAgainLater(rows, f, now, later);
        ScholarshipListSplits(kept, f, later);
        assert |multiset(v.featured) + multiset(v.regular)| == |multiset(kept)|;
      }
    }
    HomeView(|kept|, v)
  }

  /** The home page filters twice, and that is harmless as long as the
      second clock reading is not earlier than the first: its list is the
      list of the unfiltered scholarships at the first reading, the featured
      and regular parts keep list order, and they add up to the count it
      shows. */
  lemma HomePageConsistent(rows: seq<Scholarship>, f: FilterState, now: int, later: int)
    requires now <= later
    ensures var v := HomePage(rows, f, now, later);
      && v.list == ScholarshipList(rows, f, now)
      && |v.list.featured| + |v.list.regular| == v.totalResults
      && IsSubsequence(v.list.featured, rows)
      && IsSubsequence(v.list.regular, rows)
  {
    var kept := FilterScholarships(rows, f, now);
    FilterAgainLater(rows, f, now, later);
    var v := ScholarshipList(rows, f, now);
    ScholarshipListSplits(rows, f, now);
    assert |multiset(v.featured) + multiset(v.regular)| == |multiset(kept)|;
    FilterIsSubsequence(kept, IsFeatured);
    FilterIsSubsequence(kept, IsRegular);
    SubsequenceTransitive(v.featured, kept, rows);
    SubsequenceTransitive(v.regular, kept, rows);
  }

  /** With the starting filters a scholarship is shown exactly when its
      amount is between 0 and 50000. */
  lemma InitialKeeps(s: Scholarship, now: int)
    ensures Keep(s, Initial, now) <==> 0 <= s.amount <= 50000
  {
  }

  /** A deadline already passed never hides a scholarship: the deadline
      ranges only drop deadlines too far ahead. */
  lemma PastDeadlineKept(s: Scholarship, f: FilterState, now: int)
    requires s.deadline * MsPerDay <= now
    ensures Keep(s, f, now) <==> Keep(s, f.(deadlineRange := AnyDeadline), now)
  {
    match Horizon(f.deadlineRange)
    case None =>
    case Some(n) => DaysLeftAtMost(s.deadline, now, n);
  }

  /** Range `a` looks no further ahead than range `b`. */
  predicate NoWider(a: DeadlineRange, b: DeadlineRange)
  {
    Horizon(b).None? || (Horizon(a).Some? && Horizon(a).value <= Horizon(b).value)
  }

  /** A wider deadline range never shows fewer scholarships. */
  lemma WiderRangeKeepsMore(s: Scholarship, f: FilterState, a: DeadlineRange, b: DeadlineRange, now: int)
    requires NoWider(a, b)
    ensures Keep(s, f.(deadlineRange := a), now) ==> Keep(s, f.(deadlineRange := b), now)
  {
  }
}
