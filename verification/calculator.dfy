/**
  The whole state of the revenue calculator page and the UI events that change
  it: typing in one of the four editable figure fields, typing a price, and the
  add and remove buttons of the two lists. Every typed text goes through
  `ParseFormattedNumber` before it reaches the engine.
 */
module Calculator {
  import Conversion
  import Offerings
  import Parsing

  datatype Page = Page(
    figures: Conversion.Figures,
    products: Offerings.OfferingList,
    services: Offerings.OfferingList)

  /** The page as it first renders: zero goal, three entries per list. */
  function InitialPage(): Page {
    Page(Conversion.Zero, Offerings.Initial(Offerings.Product), Offerings.Initial(Offerings.Service))
  }

  /** The four figure fields that accept input; daily and hourly are read-only. */
  datatype Field = AnnualField | YearlyField | MonthlyField | WeeklyField

  datatype Event =
    | EditFigure(field: Field, text: string)
    | EditPrice(kind: Offerings.Kind, id: string, text: string)
    | AddOffering(kind: Offerings.Kind, id: string)  // `id` is the clock reading at the click
    | RemoveOffering(kind: Offerings.Kind, id: string)

  /** The entry point each figure field is wired to. */
  function Recalculate(field: Field, value: real): Conversion.Figures {
    match field
    case AnnualField => Conversion.FromAnnual(value)
    case YearlyField => Conversion.FromYearly(value)
    case MonthlyField => Conversion.FromMonthly(value)
    case WeeklyField => Conversion.FromWeekly(value)
  }

  /** What a figure field shows. */
  function Shown(f: Conversion.Figures, field: Field): real {
    match field
    case AnnualField => f.annualGoal
    case YearlyField => f.yearly
    case MonthlyField => f.monthly
    case WeeklyField => f.weekly
  }

  /** How many years' worth one unit of a field is. */
  function PeriodsPerYear(field: Field): real {
    match field
    case AnnualField => 1.0
    case YearlyField => 1.0
    case MonthlyField => Conversion.MonthsPerYear
    case WeeklyField => Conversion.WeeksPerYear
  }

  /**
    Editing a field keeps the edited value on screen, rebuilds every figure
    from the annual value it implies, and leaves the figures consistent.
   */
  lemma RecalculateKeepsEditedValue(field: Field, value: real)
    ensures Shown(Recalculate(field, value), field) == value
    ensures Recalculate(field, value) == Conversion.FromAnnual(PeriodsPerYear(field) * value)
    ensures Conversion.Consistent(Recalculate(field, value))
  {
    Conversion.EntryPointsAgreeWithAnnual(value);
  }

  function ListOf(p: Page, kind: Offerings.Kind): Offerings.OfferingList {
    match kind
    case Product => p.products
    case Service => p.services
  }

  function WithList(p: Page, kind: Offerings.Kind, l: Offerings.OfferingList): Page {
    match kind
    case Product => p.(products := l)
    case Service => p.(services := l)
  }

  /** The page after one UI event; `parseFloat` is the browser's number parser. */
  function Step(p: Page, e: Event, parseFloat: string -> Parsing.Option<real>): (q: Page)
    ensures e.EditFigure? ==>
      && q.products == p.products && q.services == p.services
      && q.figures == Conversion.FromAnnual(
           PeriodsPerYear(e.field) * Parsing.ParseFormattedNumber(e.text, parseFloat))
    ensures !e.EditFigure? ==> q.figures == p.figures
    ensures !e.EditFigure? ==>
      forall other: Offerings.Kind :: other != e.kind ==> ListOf(q, other) == ListOf(p, other)
  {
    match e
    case EditFigure(field, text) =>
      var value := Parsing.ParseFormattedNumber(text, parseFloat);
      RecalculateKeepsEditedValue(field, value);
      p.(figures := Recalculate(field, value))
    case EditPrice(kind, id, text) =>
      var price := Parsing.ParseFormattedNumber(text, parseFloat);
      WithList(p, kind, Offerings.UpdatePrice(ListOf(p, kind), id, price))
    case AddOffering(kind, id) =>
      WithList(p, kind, Offerings.Add(kind, ListOf(p, kind), id))
    case RemoveOffering(kind, id) =>
      WithList(p, kind, Offerings.Remove(ListOf(p, kind), id))
  }

  /** The event as an operation on the one list it touches. */
  function ListOpOf(e: Event, parseFloat: string -> Parsing.Option<real>): Offerings.ListOp
    requires !e.EditFigure?
  {
    match e
    case EditPrice(_, id, text) => Offerings.SetPriceOp(id, Parsing.ParseFormattedNumber(text, parseFloat))
    case AddOffering(_, id) => Offerings.AddOp(id)
    case RemoveOffering(_, id) => Offerings.RemoveOp(id)
  }

  /** A list event changes its own list exactly as the list operation does. */
  lemma StepOnListIsApply(p: Page, e: Event, parseFloat: string -> Parsing.Option<real>)
    requires !e.EditFigure?
    ensures ListOf(Step(p, e, parseFloat), e.kind)
         == Offerings.Apply(e.kind, ListOf(p, e.kind), ListOpOf(e, parseFloat))
  {
  }

  /** What the page keeps true between events. */
  ghost predicate Invariant(p: Page) {
    && Conversion.Consistent(p.figures)
    && (forall kind: Offerings.Kind ::
          && Offerings.Valid(kind, ListOf(p, kind))
          && Offerings.DistinctIds(ListOf(p, kind).items)
          && |ListOf(p, kind).items| >= 1)
  }

  /** An add click whose clock reading no entry of that list already uses. */
  predicate FreshFor(p: Page, e: Event) {
    e.AddOffering? ==> Offerings.IdAbsent(ListOf(p, e.kind).items, e.id)
  }

  lemma InitialPageSatisfiesInvariant()
    ensures Invariant(InitialPage())
  {
    var p := InitialPage();
    forall kind: Offerings.Kind
      ensures Offerings.Valid(kind, ListOf(p, kind))
      ensures Offerings.DistinctIds(ListOf(p, kind).items)
      ensures |ListOf(p, kind).items| >= 1
    {
    }
  }

  lemma StepPreservesInvariant(p: Page, e: Event, parseFloat: string -> Parsing.Option<real>)
    requires Invariant(p) && FreshFor(p, e)
    ensures Invariant(Step(p, e, parseFloat))
  {
    var q := Step(p, e, parseFloat);
    if !e.EditFigure? {
      StepOnListIsApply(p, e, parseFloat);
      Offerings.ApplyPreservesValid(e.kind, ListOf(p, e.kind), ListOpOf(e, parseFloat));
      forall kind: Offerings.Kind
        ensures Offerings.Valid(kind, ListOf(q, kind))
        ensures Offerings.DistinctIds(ListOf(q, kind).items)
        ensures |ListOf(q, kind).items| >= 1
      {
        if kind != e.kind {
          assert ListOf(q, kind) == ListOf(p, kind);
        }
      }
    } else {
      assert forall kind: Offerings.Kind :: ListOf(q, kind) == ListOf(p, kind);
    }
  }

  /** The page after a sequence of events. */
  function Session(p: Page, es: seq<Event>, parseFloat: string -> Parsing.Option<real>): Page
    decreases |es|
  {
    if |es| == 0 then p else Session(Step(p, es[0], parseFloat), es[1..], parseFloat)
  }

  /** Every add of the session uses a clock reading fresh for its list. */
  ghost predicate FreshAlong(p: Page, es: seq<Event>, parseFloat: string -> Parsing.Option<real>)
    decreases |es|
  {
    |es| == 0 || (FreshFor(p, es[0]) && FreshAlong(Step(p, es[0], parseFloat), es[1..], parseFloat))
  }

  /**
    From the first render on, whatever the user types or clicks, the figures
    stay consistent and each list keeps at least one entry, with distinct ids
    and distinct names issued by its counter.
   */
  lemma {:induction false} SessionPreservesInvariant(p: Page, es: seq<Event>, parseFloat: string -> Parsing.Option<real>)
    requires Invariant(p) && FreshAlong(p, es, parseFloat)
    ensures Invariant(Session(p, es, parseFloat))
    decreases |es|
  {
    if |es| > 0 {
      StepPreservesInvariant(p, es[0], parseFloat);
      SessionPreservesInvariant(Step(p, es[0], parseFloat), es[1..], parseFloat);
    }
  }

  /** The whole units shown under an entry for one timeframe. */
  function UnitsShown(p: Page, o: Offerings.Offering, timeframe: Conversion.Timeframe): int {
    Conversion.UnitsDisplayed(p.figures.annualGoal, o.price, timeframe)
  }

  /** A freshly added entry has no price yet and shows 0 units needed in both rows. */
  lemma AddedEntryShowsZeroUnits(p: Page, kind: Offerings.Kind, id: string, timeframe: Conversion.Timeframe,
                                 parseFloat: string -> Parsing.Option<real>)
    ensures var q := Step(p, AddOffering(kind, id), parseFloat);
      var items := ListOf(q, kind).items;
      |items| > 0 && UnitsShown(q, items[|items| - 1], timeframe) == 0
  {
  }
}
