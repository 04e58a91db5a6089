/** The filter panel of the home page: each control replaces one field of
    the filter state, "Clear all filters" restores the starting filters, and
    the clear button shows only while some filter is active. */
module FilterPanel {
  import opened ClientFilter

  /** Which bound an amount box edits. */
  datatype Side = Min | Max

  /** The text of a number input: empty, or an integer. */
  datatype AmountInput = Blank | Entered(n: int)

  function ChangeSearch(f: FilterState, search: string): (r: FilterState)
    ensures r.search == search
    ensures r.(search := f.search) == f
  {
    f.(search := search)
  }

  function ChangeCategory(f: FilterState, category: Category): (r: FilterState)
    ensures r.category == category
    ensures r.(category := f.category) == f
  {
    f.(category := category)
  }

  function ChangeDeadline(f: FilterState, range: DeadlineRange): (r: FilterState)
    ensures r.deadlineRange == range
    ensures r.(deadlineRange := f.deadlineRange) == f
  {
    f.(deadlineRange := range)
  }

  /** The amount handler as written: an empty box stands for 0 on both sides. */
  function ChangeAmountAsWritten(f: FilterState, side: Side, v: AmountInput): (r: FilterState)
    ensures side == Min ==> r.minAmount == (if v.Blank? then 0 else v.n) && r.(minAmount := f.minAmount) == f
    ensures side == Max ==> r.maxAmount == (if v.Blank? then 0 else v.n) && r.(maxAmount := f.maxAmount) == f
  {
    var n := match v case Blank => 0 case Entered(n) => n;
    match side
    case Min => f.(minAmount := n)
    case Max => f.(maxAmount := n)
  }

  /** The amount handler with an empty box standing for the bound its
      placeholder shows: 0 below, 50000 above. */
  function ChangeAmount(f: FilterState, side: Side, v: AmountInput): (r: FilterState)
    ensures side == Min ==> r.minAmount == (if v.Blank? then 0 else v.n) && r.(minAmount := f.minAmount) == f
    ensures side == Max ==> r.maxAmount == (if v.Blank? then DefaultMaxAmount else v.n) && r.(maxAmount := f.maxAmount) == f
  {
    match (side, v)
    case (Min, Blank) => f.(minAmount := Initial.minAmount)
    case (Max, Blank) => f.(maxAmount := Initial.maxAmount)
    case (Min, Entered(n)) => f.(minAmount := n)
    case (Max, Entered(n)) => f.(maxAmount := n)
  }

  /** What an amount box displays: empty while the bound is the starting one. */
  function Shown(f: FilterState, side: Side): (r: AmountInput)
    ensures ChangeAmount(f, side, r) == f
  {
    match side
    case Min => if f.minAmount == Initial.minAmount then Blank else Entered(f.minAmount)
    case Max => if f.maxAmount == Initial.maxAmount then Blank else Entered(f.maxAmount)
  }

  /** Feeding a box's displayed text back into the handler changes nothing. */
  lemma ShownRoundTrip(f: FilterState, side: Side)
    ensures ChangeAmount(f, side, Shown(f, side)) == f
  {
  }

  /** As written, the round trip fails for the upper box: the starting
      filters display an empty max box, and an empty max box sets the
      maximum to 0, which hides every scholarship with a positive amount. */
  lemma BlankMaxHidesEverything(s: Scholarship, now: int)
    requires 0 < s.amount <= DefaultMaxAmount
    ensures Shown(Initial, Max) == Blank
    ensures ChangeAmountAsWritten(Initial, Max, Shown(Initial, Max)) != Initial
    ensures Keep(s, Initial, now) && !Keep(s, ChangeAmountAsWritten(Initial, Max, Blank), now)
  {
  }

  /** Emptying an amount box never hides a scholarship whose amount is in
      the starting range and that was shown before. */
  lemma BlankAmountWidens(f: FilterState, side: Side, s: Scholarship, now: int)
    requires 0 <= s.amount <= DefaultMaxAmount
    ensures Keep(s, f, now) ==> Keep(s, ChangeAmount(f, side, Blank), now)
  {
  }

  /** Resetting the search, the category or the deadline range never hides
      a scholarship that was shown. */
  lemma ResetWidens(f: FilterState, s: Scholarship, now: int)
    ensures Keep(s, f, now) ==> Keep(s, ChangeSearch(f, ""), now)
    ensures Keep(s, f, now) ==> Keep(s, ChangeCategory(f, All), now)
    ensures Keep(s, f, now) ==> Keep(s, ChangeDeadline(f, AnyDeadline), now)
  {
  }

  /** "Clear all filters". */
  function ClearFilters(): (r: FilterState)
    ensures !HasActiveFilters(r)
    ensures forall s: Scholarship, now: int :: Keep(s, r, now) <==> 0 <= s.amount <= DefaultMaxAmount
  {
    Initial
  }

  /** Whether the clear button is shown. */
  function HasActiveFilters(f: FilterState): (r: bool)
    ensures f.minAmount >= 0 && f.maxAmount <= DefaultMaxAmount ==> (r <==> f != Initial)
  {
    || f.search != ""
    || f.category != All
    || f.minAmount > 0
    || f.maxAmount < DefaultMaxAmount
    || f.deadlineRange != AnyDeadline
  }

  /** With no filter active the list shows at least what the starting
      filters show, so the clear button is hidden only when clearing could
      not bring anything back. */
  lemma InactiveShowsAllOfInitial(f: FilterState, s: Scholarship, now: int)
    requires !HasActiveFilters(f)
    ensures Keep(s, Initial, now) ==> Keep(s, f, now)
  {
  }

  /** Any filter that hides a scholarship the starting filters show makes
      the clear button appear. */
  lemma HidingShowsClear(f: FilterState, s: Scholarship, now: int)
    requires Keep(s, Initial, now) && !Keep(s, f, now)
    ensures HasActiveFilters(f)
  {
    if !HasActiveFilters(f) {
      InactiveShowsAllOfInitial(f, s, now);
    }
  }
}
