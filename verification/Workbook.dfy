/**
 * The grouped sheets of the compliance workbook, internal/api/complianceexport.go:
 * unique findings, all findings, not checked, and the rulebook.
 *
 * A view carries the fields that decide grouping, order, counts and examples;
 * the columns that only copy other fields of a view are its `text`.
 */
module Workbook {
  import opened Text
  import opened Sequences

  datatype View = View(
    check: string, severity: string, outcome: string,
    chart: string, kind: string, name: string, container: string, locus: string,
    determinacy: string, determinacyLabel: string, text: string)

  datatype UniqueRow = UniqueRow(
    view: View, places: nat, charts: nat, kinds: string, owners: string, examples: seq<string>)

  /** The rate column before it is formatted; empty when nothing was decided. */
  datatype Rate = NoRate | Rate(passed: nat, decided: nat)

  datatype RulebookRow = RulebookRow(
    view: View, evaluated: nat, failed: nat, passed: nat, rate: Rate,
    undecided: nat, waived: nat, notApplicable: nat)

  const PASS := "pass"
  const FAIL := "fail"
  const ERROR := "error"
  const WAIVED := "waived"

  function SeverityOrder(severity: string): nat {
    if severity == "critical" then 0
    else if severity == "warning" then 1
    else if severity == "inform" then 2
    else 3
  }

  /** strings.Join */
  function Join(parts: seq<string>, separator: string): string {
    if parts == [] then ""
    else if |parts| == 1 then parts[0]
    else parts[0] + separator + Join(parts[1..], separator)
  }

  /** complianceWhere: one occurrence's address on one line. */
  function Where(v: View): string {
    var address := v.kind + " " + v.name + if v.container != "" then " \U{00B7} container " + v.container else "";
    Join(
      (if v.chart != "" then [v.chart] else [])
      + (if v.kind != "" then [address] else [])
      + (if v.locus != "" then [v.locus] else []),
      " \U{00B7} ")
  }

  /** complianceRate, up to its formatting: passes over the subjects that were decided. */
  function RateOf(pass: nat, fail: nat): Rate {
    if pass + fail == 0 then NoRate else Rate(pass, pass + fail)
  }

  // ---- specification: counting --------------------------------------------

  /** The views with one of two outcomes. */
  function WithOutcome(views: seq<View>, a: string, b: string): seq<View> {
    if views == [] then []
    else
      var v := views[|views| - 1];
      WithOutcome(views[..|views| - 1], a, b) + if v.outcome == a || v.outcome == b then [v] else []
  }

  function Failing(views: seq<View>): seq<View> {
    WithOutcome(views, FAIL, FAIL)
  }

  /** How many views are of a check. */
  function Count(views: seq<View>, check: string): nat {
    if views == [] then 0
    else Count(views[..|views| - 1], check) + if views[|views| - 1].check == check then 1 else 0
  }

  function CountOutcome(views: seq<View>, check: string, outcome: string): nat {
    Count(WithOutcome(views, outcome, outcome), check)
  }

  /** The checks in the order they are first met. */
  function FirstSeen(views: seq<View>): seq<string> {
    if views == [] then []
    else
      var before, check := FirstSeen(views[..|views| - 1]), views[|views| - 1].check;
      if check in before then before else before + [check]
  }

  function OfCheck(views: seq<View>, check: string): seq<View> {
    if views == [] then []
    else
      OfCheck(views[..|views| - 1], check) + if views[|views| - 1].check == check then [views[|views| - 1]] else []
  }

  function FirstOf(views: seq<View>, check: string): View
    requires check in FirstSeen(views)
  {
    if check in FirstSeen(views[..|views| - 1]) then FirstOf(views[..|views| - 1], check) else views[|views| - 1]
  }

  /** The three columns that collect what a check's failures name. */
  datatype Column = Chart | Kind | Owner

  /** What a view adds to a column, or "". */
  function Named(v: View, column: Column): string {
    match column
    case Chart => v.chart
    case Kind => v.kind
    case Owner => if v.determinacy != "na" then v.determinacyLabel else ""
  }

  function Names(views: seq<View>, check: string, column: Column): set<string> {
    set v | v in views && v.check == check && Named(v, column) != "" :: Named(v, column)
  }

  /** Where the first three occurrences are. */
  function Examples(views: seq<View>, check: string): seq<string> {
    var of := OfCheck(views, check);
    seq(if |of| < 3 then |of| else 3, i requires 0 <= i < |of| => Where(of[i]))
  }

  // ---- specification: the sheets ------------------------------------------

  function Rank(failing: seq<View>, check: string): nat {
    if check in FirstSeen(failing) then SeverityOrder(FirstOf(failing, check).severity) else 4
  }

  /** Worst severity first, then most places, then the check's ID. */
  predicate UniqueLe(failing: seq<View>, a: string, b: string) {
    var ra, rb, pa, pb := Rank(failing, a), Rank(failing, b), Count(failing, a), Count(failing, b);
    if ra != rb then ra < rb else if pa != pb then pa > pb else Le(a, b)
  }

  function UniqueOrder(failing: seq<View>): (string, string) -> bool {
    (a, b) => UniqueLe(failing, a, b)
  }

  /** A set of names, sorted and joined. */
  ghost function Joined(names: set<string>): string {
    Join(Sort(Enumerate(names), Le), ", ")
  }

  ghost function UniqueRowOf(failing: seq<View>, check: string): UniqueRow
    requires check in FirstSeen(failing)
  {
    UniqueRow(FirstOf(failing, check), Count(failing, check), |Names(failing, check, Chart)|,
      Joined(Names(failing, check, Kind)), Joined(Names(failing, check, Owner)), Examples(failing, check))
  }

  function UniqueChecks(views: seq<View>): (r: seq<string>)
    ensures forall c :: c in r <==> c in FirstSeen(Failing(views))
  {
    var seen := FirstSeen(Failing(views));
    var r := Sort(seen, UniqueOrder(Failing(views)));
    SameElements(r, seen);
    r
  }

  ghost function UniqueRows(views: seq<View>): seq<UniqueRow> {
    var checks := UniqueChecks(views);
    seq(|checks|, i requires 0 <= i < |checks| => UniqueRowOf(Failing(views), checks[i]))
  }

  function RulebookRowOf(views: seq<View>, check: string): RulebookRow
    requires check in FirstSeen(views)
  {
    var pass, fail := CountOutcome(views, check, PASS), CountOutcome(views, check, FAIL);
    var undecided, waived := CountOutcome(views, check, ERROR), CountOutcome(views, check, WAIVED);
    var others := Count(OtherOutcomes(views), check);
    RulebookRow(FirstOf(views, check), pass + fail + waived + undecided + others,
      fail, pass, RateOf(pass, fail), undecided, waived, others)
  }

  function OtherOutcomes(views: seq<View>): seq<View> {
    if views == [] then []
    else
      var v := views[|views| - 1];
      OtherOutcomes(views[..|views| - 1])
        + if v.outcome in {PASS, FAIL, ERROR, WAIVED} then [] else [v]
  }

  function RulebookChecks(views: seq<View>): (r: seq<string>)
    ensures forall c :: c in r <==> c in FirstSeen(views)
  {
    var r := Sort(FirstSeen(views), Le);
    SameElements(r, FirstSeen(views));
    r
  }

  function RulebookRows(views: seq<View>): seq<RulebookRow> {
    var checks := RulebookChecks(views);
    seq(|checks|, i requires 0 <= i < |checks| => RulebookRowOf(views, checks[i]))
  }

  // ---- the code -----------------------------------------------------------

  datatype Group = Group(
    view: View, places: nat, charts: set<string>, kinds: set<string>, owners: set<string>, samples: seq<string>)

  function GroupOf(failing: seq<View>, check: string): Group
    requires check in FirstSeen(failing)
  {
    Group(FirstOf(failing, check), Count(failing, check), Names(failing, check, Chart),
      Names(failing, check, Kind), Names(failing, check, Owner), Examples(failing, check))
  }

  ghost predicate Grouped(failing: seq<View>, byCheck: map<string, Group>, order: seq<string>) {
    && order == FirstSeen(failing)
    && (forall c :: c in byCheck <==> c in order)
    && forall c :: c in order ==> byCheck[c] == GroupOf(failing, c)
  }

  method UniqueSheet(views: seq<View>) returns (rows: seq<UniqueRow>)
    ensures rows == UniqueRows(views)
  {
    hide UniqueRowOf, GroupOf, Failing, Where, Sort, Joined;
    var byCheck, order := GroupFailures(views);
    ghost var failing := Failing(views);
    var sorted := SortUnique(order, byCheck, failing);
    rows := RowsOf(sorted, byCheck, order, failing);
    assert rows == UniqueRows(views);
  }

  /** The loop that writes one row per group. */
  method RowsOf(sorted: seq<string>, byCheck: map<string, Group>, ghost order: seq<string>, ghost failing: seq<View>)
    returns (rows: seq<UniqueRow>)
    requires Grouped(failing, byCheck, order)
    requires forall c :: c in sorted ==> c in FirstSeen(failing)
    ensures |rows| == |sorted|
    ensures forall i :: 0 <= i < |sorted| ==> rows[i] == UniqueRowOf(failing, sorted[i])
  {
    hide UniqueRowOf, GroupOf, FirstSeen, Joined;
    rows := [];
    for i := 0 to |sorted|
      invariant |rows| == i
      invariant forall k :: 0 <= k < i ==> rows[k] == UniqueRowOf(failing, sorted[k])
    {
      var g := byCheck[sorted[i]];
      RowOfGroup(failing, sorted[i]);
      var kinds := JoinSet(g.kinds);
      var owners := JoinSet(g.owners);
      rows := rows + [UniqueRow(g.view, g.places, |g.charts|, kinds, owners, g.samples)];
    }
  }

  lemma RowOfGroup(failing: seq<View>, check: string)
    requires check in FirstSeen(failing)
    ensures var g := GroupOf(failing, check);
      UniqueRowOf(failing, check)
        == UniqueRow(g.view, g.places, |g.charts|, Joined(g.kinds), Joined(g.owners), g.samples)
  {
  }

  /** The names come out sorted whatever order the map is visited in. */
  method JoinSet(names: set<string>) returns (r: string)
    ensures r == Joined(names)
  {
    var out: seq<string> := [];
    var todo := names;
    while todo != {}
      invariant todo <= names && NoDuplicates(out)
      invariant forall x :: x in out <==> x in names && x !in todo
      decreases todo
    {
      var k :| k in todo;
      todo := todo - {k};
      out := out + [k];
    }
    SameSetSameMultiset(out, Enumerate(names));
    SortStrings(out);
    SortStrings(Enumerate(names));
    SortedStringsUnique(Sort(out, Le), Sort(Enumerate(names), Le));
    r := Join(Sort(out, Le), ", ");
  }

  /** What one more failure does to its group. */
  method Growing(g: Group, v: View) returns (r: Group)
    ensures r == Grow(g, v)
  {
    r := g.(places := g.places + 1);
    if v.chart != "" {
      r := r.(charts := r.charts + {v.chart});
    }
    if v.kind != "" {
      r := r.(kinds := r.kinds + {v.kind});
    }
    if v.determinacyLabel != "" && v.determinacy != "na" {
      r := r.(owners := r.owners + {v.determinacyLabel});
    }
    if |r.samples| < 3 {
      r := r.(samples := r.samples + [Where(v)]);
    }
  }

  /** The loop that groups the failures by check. */
  method GroupFailures(views: seq<View>) returns (byCheck: map<string, Group>, order: seq<string>)
    ensures Grouped(Failing(views), byCheck, order)
  {
    hide *;
    NothingGrouped();
    byCheck, order := map[], [];
    assert views[..0] == [];
    for i := 0 to |views|
      invariant Grouped(Failing(views[..i]), byCheck, order)
    {
      var v := views[i];
      FailingStep(views[..i], v);
      assert views[..i] + [v] == views[..i + 1];
      if v.outcome != FAIL {
        continue;
      }
      ghost var was, orderWas := byCheck, order;
      if v.check !in byCheck {
        byCheck := byCheck[v.check := Group(v, 0, {}, {}, {}, [])];
        order := order + [v.check];
      }
      var g := Growing(byCheck[v.check], v);
      byCheck := byCheck[v.check := g];
      GroupedStep(Failing(views[..i]), was, orderWas, v, byCheck, order);
    }
    assert views[..|views|] == views;
  }

  /**
   * The comparison sort.SliceStable is given, reading severity and places from
   * the groups. The first case is not met on `order`; it makes the order total.
   */
  predicate GroupLe(byCheck: map<string, Group>, a: string, b: string) {
    if a !in byCheck || b !in byCheck then
      a in byCheck || (b !in byCheck && Le(a, b))
    else
      var ga, gb := byCheck[a], byCheck[b];
      var ra, rb := SeverityOrder(ga.view.severity), SeverityOrder(gb.view.severity);
      if ra != rb then ra < rb else if ga.places != gb.places then ga.places > gb.places else Le(a, b)
  }

  lemma GroupLeIs(failing: seq<View>, byCheck: map<string, Group>, order: seq<string>, a: string, b: string)
    requires Grouped(failing, byCheck, order)
    ensures GroupLe(byCheck, a, b) == UniqueLe(failing, a, b)
  {
    hide Names, Examples, Le;
    SeenIffCounted(failing, a);
    SeenIffCounted(failing, b);
  }

  method SortUnique(order: seq<string>, byCheck: map<string, Group>, ghost failing: seq<View>)
    returns (sorted: seq<string>)
    requires Grouped(failing, byCheck, order)
    ensures sorted == Sort(order, UniqueOrder(failing))
    ensures forall c :: c in sorted <==> c in order
  {
    var le := (a: string, b: string) => GroupLe(byCheck, a, b);
    sorted := Sort(order, le);
    forall a, b ensures le(a, b) == UniqueOrder(failing)(a, b) {
      GroupLeIs(failing, byCheck, order, a, b);
    }
    hide Grouped, GroupLe, UniqueLe;
    SortCongruent(order, le, UniqueOrder(failing));
    SameElements(sorted, order);
  }

  method RulebookSheet(views: seq<View>) returns (rows: seq<RulebookRow>)
    ensures rows == RulebookRows(views)
  {
    hide RulebookRowOf, TallyOf;
    var byCheck, order := TallyViews(views);
    SameElements(Sort(order, Le), order);
    order := Sort(order, Le);
    rows := [];
    for i := 0 to |order|
      invariant |rows| == i
      invariant forall k :: 0 <= k < i ==> rows[k] == RulebookRowOf(views, order[k])
    {
      var t := byCheck[order[i]];
      RowOfTally(views, order[i]);
      rows := rows + [t.(
        evaluated := t.passed + t.failed + t.waived + t.undecided + t.notApplicable,
        rate := RateOf(t.passed, t.failed))];
    }
    assert rows == RulebookRows(views);
  }

  lemma RowOfTally(views: seq<View>, check: string)
    requires check in FirstSeen(views)
    ensures var t := TallyOf(views, check);
      RulebookRowOf(views, check)
        == t.(evaluated := t.passed + t.failed + t.waived + t.undecided + t.notApplicable,
              rate := RateOf(t.passed, t.failed))
  {
  }

  /** The switch on the outcome. */
  method Tallying(t: RulebookRow, outcome: string) returns (r: RulebookRow)
    ensures r == Tally(t, outcome)
  {
    r := t;
    if outcome == PASS {
      r := r.(passed := r.passed + 1);
    } else if outcome == FAIL {
      r := r.(failed := r.failed + 1);
    } else if outcome == ERROR {
      r := r.(undecided := r.undecided + 1);
    } else if outcome == WAIVED {
      r := r.(waived := r.waived + 1);
    } else {
      r := r.(notApplicable := r.notApplicable + 1);
    }
  }

  /** The loop that tallies the outcomes by check. */
  method TallyViews(views: seq<View>) returns (byCheck: map<string, RulebookRow>, order: seq<string>)
    ensures Tallied(views, byCheck, order)
  {
    hide *;
    NothingGrouped();
    byCheck, order := map[], [];
    assert views[..0] == [];
    for i := 0 to |views|
      invariant Tallied(views[..i], byCheck, order)
    {
      var v := views[i];
      assert views[..i] + [v] == views[..i + 1];
      ghost var was, orderWas := byCheck, order;
      if v.check !in byCheck {
        byCheck := byCheck[v.check := RulebookRow(v, 0, 0, 0, NoRate, 0, 0, 0)];
        order := order + [v.check];
      }
      var t := Tallying(byCheck[v.check], v.outcome);
      byCheck := byCheck[v.check := t];
      TalliedStep(views[..i], was, orderWas, v, byCheck, order);
    }
    assert views[..|views|] == views;
  }

  method FindingsSheet(views: seq<View>) returns (rows: seq<View>)
    ensures rows == WithOutcome(views, FAIL, WAIVED)
  {
    rows := [];
    for i := 0 to |views|
      invariant rows == WithOutcome(views[..i], FAIL, WAIVED)
    {
      assert views[..i + 1][..i] == views[..i];
      if views[i].outcome != FAIL && views[i].outcome != WAIVED {
        continue;
      }
      rows := rows + [views[i]];
    }
    assert views[..|views|] == views;
  }

  method UncheckedSheet(views: seq<View>) returns (rows: seq<View>)
    ensures rows == WithOutcome(views, ERROR, ERROR)
  {
    rows := [];
    for i := 0 to |views|
      invariant rows == WithOutcome(views[..i], ERROR, ERROR)
    {
      assert views[..i + 1][..i] == views[..i];
      if views[i].outcome != ERROR {
        continue;
      }
      rows := rows + [views[i]];
    }
    assert views[..|views|] == views;
  }

  // ---- one more view ------------------------------------------------------

  lemma NothingGrouped()
    ensures Grouped(Failing([]), map[], []) && Tallied([], map[], [])
  {
  }

  lemma FailingStep(views: seq<View>, v: View)
    ensures Failing(views + [v]) == if v.outcome == FAIL then Failing(views) + [v] else Failing(views)
  {
    assert (views + [v])[..|views|] == views;
    assert Failing(views) + [] == Failing(views);
  }

  function WithName(names: set<string>, name: string): set<string> {
    if name != "" then names + {name} else names
  }

  /** A group with one more failure. */
  function Grow(g: Group, v: View): Group {
    Group(g.view, g.places + 1,
      WithName(g.charts, Named(v, Chart)), WithName(g.kinds, Named(v, Kind)), WithName(g.owners, Named(v, Owner)),
      if |g.samples| < 3 then g.samples + [Where(v)] else g.samples)
  }

  lemma GroupedStep(
    failing: seq<View>, was: map<string, Group>, orderWas: seq<string>, v: View,
    now: map<string, Group>, order: seq<string>)
    requires Grouped(failing, was, orderWas)
    requires order == if v.check in was then orderWas else orderWas + [v.check]
    requires now == was[v.check := Grow(if v.check in was then was[v.check] else Group(v, 0, {}, {}, {}, []), v)]
    ensures Grouped(failing + [v], now, order)
  {
    hide GroupOf;
    assert (failing + [v])[..|failing|] == failing;
    forall c | c in order ensures now[c] == GroupOf(failing + [v], c) {
      GroupStep(failing, v, c);
    }
  }

  lemma GroupStep(failing: seq<View>, v: View, check: string)
    requires check in FirstSeen(failing) || check == v.check
    ensures check in FirstSeen(failing + [v])
    ensures var g := if check in FirstSeen(failing) then GroupOf(failing, check) else Group(v, 0, {}, {}, {}, []);
      GroupOf(failing + [v], check) == if v.check != check then g else Grow(g, v)
  {
    hide Names, Examples, Where;
    assert (failing + [v])[..|failing|] == failing;
    NamesStep(failing, v, check, Chart);
    NamesStep(failing, v, check, Kind);
    NamesStep(failing, v, check, Owner);
    ExamplesStep(failing, v, check);
    if check !in FirstSeen(failing) {
      NothingOfUnseen(failing, check);
    }
  }

  lemma NamesStep(views: seq<View>, v: View, check: string, column: Column)
    ensures Names(views + [v], check, column)
      == if v.check == check then WithName(Names(views, check, column), Named(v, column)) else Names(views, check, column)
  {
    assert forall x :: x in views + [v] <==> x in views || x == v;
  }

  lemma ExamplesStep(views: seq<View>, v: View, check: string)
    ensures Examples(views + [v], check)
      == if v.check == check && |Examples(views, check)| < 3 then Examples(views, check) + [Where(v)]
         else Examples(views, check)
  {
    assert (views + [v])[..|views|] == views;
  }

  lemma {:induction false} NothingOfUnseen(views: seq<View>, check: string)
    requires check !in FirstSeen(views)
    ensures Count(views, check) == 0 && Examples(views, check) == []
    ensures forall column :: Names(views, check, column) == {}
    ensures OfCheck(views, check) == []
  {
    if views != [] {
      var front, v := views[..|views| - 1], views[|views| - 1];
      NothingOfUnseen(front, check);
      assert views == front + [v];
      forall column ensures Names(views, check, column) == {} {
        NamesStep(front, v, check, column);
      }
    }
  }

  lemma {:induction false} SeenIffCounted(views: seq<View>, check: string)
    ensures check in FirstSeen(views) <==> Count(views, check) > 0
  {
    if views != [] {
      SeenIffCounted(views[..|views| - 1], check);
    }
  }

  lemma {:induction false} SortCongruent(s: seq<string>, f: (string, string) -> bool, g: (string, string) -> bool)
    requires forall a, b :: f(a, b) == g(a, b)
    ensures Sort(s, f) == Sort(s, g)
  {
    if s != [] {
      SortCongruent(s[1..], f, g);
      InsertCongruent(s[0], Sort(s[1..], f), f, g);
    }
  }

  lemma {:induction false} InsertCongruent(
    x: string, s: seq<string>, f: (string, string) -> bool, g: (string, string) -> bool)
    requires forall a, b :: f(a, b) == g(a, b)
    ensures Insert(x, s, f) == Insert(x, s, g)
  {
    if s != [] && !f(x, s[0]) {
      InsertCongruent(x, s[1..], f, g);
    }
  }

  /** The running tally of a check, before the columns are added up. */
  function TallyOf(views: seq<View>, check: string): RulebookRow
    requires check in FirstSeen(views)
  {
    RulebookRowOf(views, check).(evaluated := 0, rate := NoRate)
  }

  /** A tally with one more result. */
  function Tally(t: RulebookRow, outcome: string): RulebookRow {
    if outcome == PASS then t.(passed := t.passed + 1)
    else if outcome == FAIL then t.(failed := t.failed + 1)
    else if outcome == ERROR then t.(undecided := t.undecided + 1)
    else if outcome == WAIVED then t.(waived := t.waived + 1)
    else t.(notApplicable := t.notApplicable + 1)
  }

  ghost predicate Tallied(views: seq<View>, byCheck: map<string, RulebookRow>, order: seq<string>) {
    && order == FirstSeen(views)
    && (forall c :: c in byCheck <==> c in order)
    && forall c :: c in order ==> byCheck[c] == TallyOf(views, c)
  }

  lemma TalliedStep(
    views: seq<View>, was: map<string, RulebookRow>, orderWas: seq<string>, v: View,
    now: map<string, RulebookRow>, order: seq<string>)
    requires Tallied(views, was, orderWas)
    requires order == if v.check in was then orderWas else orderWas + [v.check]
    requires now == was[v.check :=
      Tally(if v.check in was then was[v.check] else RulebookRow(v, 0, 0, 0, NoRate, 0, 0, 0), v.outcome)]
    ensures Tallied(views + [v], now, order)
  {
    assert (views + [v])[..|views|] == views;
    forall c | c in order ensures now[c] == TallyOf(views + [v], c) {
      TallyStep(views, v, c);
    }
  }

  lemma TallyStep(views: seq<View>, v: View, check: string)
    requires check in FirstSeen(views) || check == v.check
    ensures check in FirstSeen(views + [v])
    ensures var t := if check in FirstSeen(views) then TallyOf(views, check) else RulebookRow(v, 0, 0, 0, NoRate, 0, 0, 0);
      TallyOf(views + [v], check) == if v.check == check then Tally(t, v.outcome) else t
  {
    hide CountOutcome, Count, OtherOutcomes;
    assert (views + [v])[..|views|] == views;
    OutcomesDiffer();
    CountOutcomeStep(views, v, check, PASS);
    CountOutcomeStep(views, v, check, FAIL);
    CountOutcomeStep(views, v, check, ERROR);
    CountOutcomeStep(views, v, check, WAIVED);
    OthersStep(views, v, check);
    if check !in FirstSeen(views) {
      UnseenHasNoOutcome(views, check, PASS);
      UnseenHasNoOutcome(views, check, FAIL);
      UnseenHasNoOutcome(views, check, ERROR);
      UnseenHasNoOutcome(views, check, WAIVED);
    }
  }

  lemma OutcomesDiffer()
    ensures PASS != FAIL && PASS != ERROR && PASS != WAIVED && FAIL != ERROR && FAIL != WAIVED && ERROR != WAIVED
  {
    assert |PASS| == 4 && |FAIL| == 4 && |ERROR| == 5 && |WAIVED| == 6 && PASS[0] != FAIL[0];
  }

  lemma CountOutcomeStep(views: seq<View>, v: View, check: string, outcome: string)
    ensures CountOutcome(views + [v], check, outcome)
      == CountOutcome(views, check, outcome) + if v.check == check && v.outcome == outcome then 1 else 0
  {
    assert (views + [v])[..|views|] == views;
    var before := WithOutcome(views, outcome, outcome);
    assert before + [] == before;
    assert (before + [v])[..|before|] == before;
  }

  lemma OthersStep(views: seq<View>, v: View, check: string)
    ensures Count(OtherOutcomes(views + [v]), check) == Count(OtherOutcomes(views), check)
      + if v.check == check && v.outcome !in {PASS, FAIL, ERROR, WAIVED} then 1 else 0
  {
    assert (views + [v])[..|views|] == views;
    var before := OtherOutcomes(views);
    assert before + [] == before;
    assert (before + [v])[..|before|] == before;
  }

  lemma {:induction false} UnseenHasNoOutcome(views: seq<View>, check: string, outcome: string)
    requires check !in FirstSeen(views)
    ensures CountOutcome(views, check, outcome) == 0 && Count(OtherOutcomes(views), check) == 0
  {
    if views != [] {
      var front, v := views[..|views| - 1], views[|views| - 1];
      UnseenHasNoOutcome(front, check, outcome);
      assert views == front + [v];
      CountOutcomeStep(front, v, check, outcome);
      OthersStep(front, v, check);
    }
  }

  // ---- the sheets reconcile -----------------------------------------------

  lemma {:induction false} FirstSeenOnce(views: seq<View>)
    ensures NoDuplicates(FirstSeen(views))
  {
    if views != [] {
      FirstSeenOnce(views[..|views| - 1]);
    }
  }

  /** A check's results split into the five outcomes. */
  lemma {:induction false} OutcomesPartition(views: seq<View>, check: string)
    ensures Count(views, check)
      == CountOutcome(views, check, PASS) + CountOutcome(views, check, FAIL) + CountOutcome(views, check, WAIVED)
       + CountOutcome(views, check, ERROR) + Count(OtherOutcomes(views), check)
  {
    if views != [] {
      hide *;
      var front, v := views[..|views| - 1], views[|views| - 1];
      OutcomesPartition(front, check);
      assert views == front + [v];
      OutcomesDiffer();
      CountStep(front, v, check);
      CountOutcomeStep(front, v, check, PASS);
      CountOutcomeStep(front, v, check, FAIL);
      CountOutcomeStep(front, v, check, WAIVED);
      CountOutcomeStep(front, v, check, ERROR);
      OthersStep(front, v, check);
    }
  }

  lemma CountStep(views: seq<View>, v: View, check: string)
    ensures Count(views + [v], check) == Count(views, check) + if v.check == check then 1 else 0
  {
    assert (views + [v])[..|views|] == views;
  }

  lemma {:induction false} FirstOfCheck(views: seq<View>, check: string)
    requires check in FirstSeen(views)
    ensures FirstOf(views, check).check == check
  {
    if check in FirstSeen(views[..|views| - 1]) {
      FirstOfCheck(views[..|views| - 1], check);
    }
  }

  /** The rulebook has one row per check met, and its Evaluated is that check's number of results. */
  lemma RulebookIsPerCheck(views: seq<View>)
    ensures NoDuplicates(RulebookChecks(views)) && |RulebookRows(views)| == |RulebookChecks(views)|
    ensures Sorted(RulebookChecks(views), Le)
    ensures forall i :: 0 <= i < |RulebookRows(views)| ==>
      RulebookRows(views)[i].evaluated == Count(views, RulebookChecks(views)[i])
      && RulebookRows(views)[i].failed == CountOutcome(views, RulebookChecks(views)[i], FAIL)
      && RulebookRows(views)[i].view.check == RulebookChecks(views)[i]
  {
    hide RulebookRowOf, Count, CountOutcome, FirstSeen;
    FirstSeenOnce(views);
    PermutationKeepsNoDuplicates(FirstSeen(views), RulebookChecks(views));
    SortStrings(FirstSeen(views));
    forall i | 0 <= i < |RulebookChecks(views)|
      ensures RulebookRows(views)[i].evaluated == Count(views, RulebookChecks(views)[i])
      ensures RulebookRows(views)[i].failed == CountOutcome(views, RulebookChecks(views)[i], FAIL)
      ensures RulebookRows(views)[i].view.check == RulebookChecks(views)[i]
    {
      RulebookRowFacts(views, RulebookChecks(views)[i]);
    }
  }

  lemma RulebookRowFacts(views: seq<View>, check: string)
    requires check in FirstSeen(views)
    ensures var row := RulebookRowOf(views, check);
      row.evaluated == Count(views, check) && row.failed == CountOutcome(views, check, FAIL) && row.view.check == check
  {
    OutcomesPartition(views, check);
    FirstOfCheck(views, check);
  }

  /** Counting a check's results with an outcome, among its own or among the decided, is the same count. */
  lemma {:induction false} CountsOfOwn(views: seq<View>, check: string, outcome: string)
    requires outcome == PASS || outcome == FAIL
    ensures CountOutcome(views, check, outcome) == |WithOutcome(OfCheck(views, check), outcome, outcome)|
    ensures CountOutcome(WithOutcome(views, PASS, FAIL), check, outcome) == CountOutcome(views, check, outcome)
  {
    if views != [] {
      hide CountOutcome;
      var front, v := views[..|views| - 1], views[|views| - 1];
      CountsOfOwn(front, check, outcome);
      assert views == front + [v];
      CountOutcomeStep(front, v, check, outcome);
      var own, decided := OfCheck(front, check), WithOutcome(front, PASS, FAIL);
      assert own + [] == own && (own + [v])[..|own|] == own;
      assert decided + [] == decided;
      CountOutcomeStep(decided, v, check, outcome);
    } else {
      assert WithOutcome([], PASS, FAIL) == [] && WithOutcome([], outcome, outcome) == [];
    }
  }

  /**
   * A check's rate is passes over decided among its own results, and what is
   * left when every undecided, waived or inapplicable result is dropped from
   * the list, wherever it stands.
   */
  lemma RateIgnoresUndecided(views: seq<View>, check: string)
    requires check in FirstSeen(views)
    ensures var own := OfCheck(views, check);
      var passed, decided := |WithOutcome(own, PASS, PASS)|, |WithOutcome(own, PASS, FAIL)|;
      RulebookRowOf(views, check).rate == if decided == 0 then NoRate else Rate(passed, decided)
    ensures var decided := WithOutcome(views, PASS, FAIL);
      RulebookRowOf(views, check).rate ==
        if check in FirstSeen(decided) then RulebookRowOf(decided, check).rate else NoRate
  {
    hide CountOutcome, WithOutcome, OfCheck;
    OutcomesDiffer();
    CountsOfOwn(views, check, PASS);
    CountsOfOwn(views, check, FAIL);
    OutcomeViews(OfCheck(views, check), PASS, FAIL);
    var decided := WithOutcome(views, PASS, FAIL);
    if check !in FirstSeen(decided) {
      UnseenHasNoOutcome(decided, check, PASS);
      UnseenHasNoOutcome(decided, check, FAIL);
    }
  }

  lemma UniqueOrderTotal(failing: seq<View>)
    ensures TotalOrder(UniqueOrder(failing))
  {
    var le := UniqueOrder(failing);
    forall a, b ensures le(a, b) || le(b, a) { LeTotal(a, b); }
    forall a, b | le(a, b) && le(b, a) ensures a == b { LeAntisymmetric(a, b); }
    forall a, b, c | le(a, b) && le(b, c) ensures le(a, c) {
      if Le(a, b) && Le(b, c) { LeTransitive(a, b, c); }
    }
  }

  /**
   * Unique findings has one row per failing check, worst severity first, then
   * most places, then by ID; Places is the rulebook's Failed of that check, and
   * a check without a row has none.
   */
  lemma UniqueIsPerFailingCheck(views: seq<View>)
    ensures NoDuplicates(UniqueChecks(views)) && |UniqueRows(views)| == |UniqueChecks(views)|
    ensures Sorted(UniqueChecks(views), UniqueOrder(Failing(views)))
    ensures forall c :: c in UniqueChecks(views) <==> CountOutcome(views, c, FAIL) > 0
    ensures forall i :: 0 <= i < |UniqueRows(views)| ==>
      UniqueRows(views)[i].places == CountOutcome(views, UniqueChecks(views)[i], FAIL)
      && UniqueRows(views)[i].view.check == UniqueChecks(views)[i]
  {
    var failing := Failing(views);
    FirstSeenOnce(failing);
    PermutationKeepsNoDuplicates(FirstSeen(failing), UniqueChecks(views));
    UniqueOrderTotal(failing);
    SortSorted(FirstSeen(failing), UniqueOrder(failing));
    forall c ensures c in UniqueChecks(views) <==> CountOutcome(views, c, FAIL) > 0 {
      SeenIffCounted(failing, c);
    }
    forall c | c in FirstSeen(failing) ensures FirstOf(failing, c).check == c {
      FirstOfCheck(failing, c);
    }
  }

  /**
   * The order of the rows themselves, by their severity texts: critical, then
   * warning, then inform, then whatever else there is; of one severity by
   * places, most first; of the same number of places by ID.
   */
  lemma UniqueRowsOrdered(views: seq<View>, i: nat, j: nat)
    requires i < j < |UniqueRows(views)|
    ensures var a, b := UniqueRows(views)[i].view.severity, UniqueRows(views)[j].view.severity;
      && (b == "critical" ==> a == "critical")
      && (b == "warning" ==> a == "critical" || a == "warning")
      && (b == "inform" ==> a == "critical" || a == "warning" || a == "inform")
    ensures var a, b := UniqueRows(views)[i], UniqueRows(views)[j];
      && a.view.check != b.view.check
      && (a.view.severity == b.view.severity ==>
        a.places > b.places || (a.places == b.places && Le(a.view.check, b.view.check)))
    ensures var a, b := UniqueRows(views)[i], UniqueRows(views)[j];
      a.view.severity !in {"critical", "warning", "inform"} && b.view.severity !in {"critical", "warning", "inform"} ==>
        a.places > b.places || (a.places == b.places && Le(a.view.check, b.view.check))
  {
    UniqueIsPerFailingCheck(views);
    var a, b := UniqueChecks(views)[i], UniqueChecks(views)[j];
    assert UniqueOrder(Failing(views))(a, b);
  }

  // ---- what the columns say -----------------------------------------------

  /** Where the results with one check and one outcome stand. */
  function Results(views: seq<View>, check: string, outcome: string): set<nat> {
    set i: nat | i < |views| && views[i].check == check && views[i].outcome == outcome
  }

  lemma {:induction false} CountIsResults(views: seq<View>, check: string, outcome: string)
    ensures CountOutcome(views, check, outcome) == |Results(views, check, outcome)|
  {
    if views != [] {
      hide CountOutcome;
      var front, v := views[..|views| - 1], views[|views| - 1];
      CountIsResults(front, check, outcome);
      assert views == front + [v];
      CountOutcomeStep(front, v, check, outcome);
      var more: set<nat> := if v.check == check && v.outcome == outcome then {|front|} else {};
      assert Results(views, check, outcome) == Results(front, check, outcome) + more;
    } else {
      assert Results([], check, outcome) == {};
    }
  }

  /** Each tally of a rulebook row, and its rate, counted in the list of results. */
  lemma RulebookCounts(views: seq<View>, i: nat)
    requires i < |RulebookRows(views)|
    ensures var row := RulebookRows(views)[i];
      var passed, failed := |Results(views, row.view.check, "pass")|, |Results(views, row.view.check, "fail")|;
      && row.passed == passed && row.failed == failed
      && row.undecided == |Results(views, row.view.check, "error")|
      && row.waived == |Results(views, row.view.check, "waived")|
      && row.evaluated == row.passed + row.failed + row.undecided + row.waived + row.notApplicable
      && row.rate == if passed + failed == 0 then NoRate else Rate(passed, passed + failed)
  {
    RulebookIsPerCheck(views);
    hide CountOutcome, Results;
    var check := RulebookChecks(views)[i];
    CountIsResults(views, check, "pass");
    CountIsResults(views, check, "fail");
    CountIsResults(views, check, "error");
    CountIsResults(views, check, "waived");
  }

  /** The first failing result of a check. */
  ghost predicate IsFirstFailure(views: seq<View>, check: string, v: View) {
    exists i ::
      && 0 <= i < |views| && views[i] == v && v.check == check && v.outcome == "fail"
      && forall k :: 0 <= k < i ==> !(views[k].check == check && views[k].outcome == "fail")
  }

  lemma {:induction false} FirstFailure(views: seq<View>, check: string)
    requires check in FirstSeen(Failing(views))
    ensures IsFirstFailure(views, check, FirstOf(Failing(views), check))
  {
    var front, v := views[..|views| - 1], views[|views| - 1];
    assert views == front + [v];
    FailingStep(front, v);
    if check in FirstSeen(Failing(front)) {
      FirstFailure(front, check);
      assert (Failing(front) + [v])[..|Failing(front)|] == Failing(front);
      var i :| 0 <= i < |front| && front[i] == FirstOf(Failing(front), check)
        && forall k :: 0 <= k < i ==> !(front[k].check == check && front[k].outcome == "fail");
      assert views[i] == front[i] && forall k :: 0 <= k < i ==> views[k] == front[k];
    } else {
      assert (Failing(front) + [v])[..|Failing(front)|] == Failing(front);
      NoFailure(front, check);
      assert views[|front|] == v;
    }
  }

  lemma {:induction false} NoFailure(views: seq<View>, check: string)
    requires check !in FirstSeen(Failing(views))
    ensures forall k :: 0 <= k < |views| ==> !(views[k].check == check && views[k].outcome == "fail")
  {
    if views != [] {
      var front, v := views[..|views| - 1], views[|views| - 1];
      assert views == front + [v];
      FailingStep(front, v);
      assert (Failing(front) + [v])[..|Failing(front)|] == Failing(front);
      NoFailure(front, check);
    }
  }

  lemma {:induction false} FailingExact(views: seq<View>)
    ensures forall v :: v in Failing(views) <==> v in views && v.outcome == "fail"
  {
    if views != [] {
      var front, v := views[..|views| - 1], views[|views| - 1];
      assert views == front + [v];
      FailingStep(front, v);
      FailingExact(front);
    }
  }

  /**
   * The columns of a row of unique findings, read off the list of results: its
   * first failure, how many there are, and the charts, kinds and owners they
   * name.
   */
  lemma UniqueColumns(views: seq<View>, i: nat)
    requires i < |UniqueRows(views)|
    ensures var row := UniqueRows(views)[i];
      var check := row.view.check;
      && IsFirstFailure(views, check, row.view)
      && row.places == |Results(views, check, "fail")|
      && row.charts == |set v | v in views && v.check == check && v.outcome == "fail" && v.chart != "" :: v.chart|
      && row.kinds == Joined(set v | v in views && v.check == check && v.outcome == "fail" && v.kind != "" :: v.kind)
      && row.owners == Joined(set v | v in views && v.check == check && v.outcome == "fail"
        && v.determinacy != "na" && v.determinacyLabel != "" :: v.determinacyLabel)
  {
    UniqueIsPerFailingCheck(views);
    var check := UniqueChecks(views)[i];
    hide UniqueChecks, Count, CountOutcome, Results, Joined, Names, IsFirstFailure, Failing, FirstOf, Examples;
    FirstFailure(views, check);
    CountIsResults(views, check, "fail");
    NamesOfFailures(views, check);
  }

  lemma NamesOfFailures(views: seq<View>, check: string)
    ensures Names(Failing(views), check, Chart)
      == set v | v in views && v.check == check && v.outcome == "fail" && v.chart != "" :: v.chart
    ensures Names(Failing(views), check, Kind)
      == set v | v in views && v.check == check && v.outcome == "fail" && v.kind != "" :: v.kind
    ensures Names(Failing(views), check, Owner)
      == set v | v in views && v.check == check && v.outcome == "fail"
        && v.determinacy != "na" && v.determinacyLabel != "" :: v.determinacyLabel
  {
    FailingExact(views);
    hide Failing;
  }

  /** The examples are the first three failures of the check, in the list's order, each on its line. */
  lemma ExamplesAreFirst(views: seq<View>, i: nat)
    requires i < |UniqueRows(views)|
    ensures var row := UniqueRows(views)[i];
      var own := WithOutcome(OfCheck(views, row.view.check), "fail", "fail");
      && |row.examples| == (if |own| < 3 then |own| else 3)
      && forall n :: 0 <= n < |row.examples| ==> row.examples[n] == Where(own[n])
  {
    UniqueIsPerFailingCheck(views);
    var check := UniqueChecks(views)[i];
    hide Where, OfCheck, WithOutcome, UniqueChecks;
    FailuresOfCheck(views, check);
  }

  lemma {:induction false} FailuresOfCheck(views: seq<View>, check: string)
    ensures OfCheck(Failing(views), check) == Failing(OfCheck(views, check))
  {
    hide *;
    if views == [] {
      NoFailures(check);
    } else {
      var front, v := views[..|views| - 1], views[|views| - 1];
      assert views == front + [v];
      FailuresOfCheck(front, check);
      FailingStep(front, v);
      FailingStep(OfCheck(front, check), v);
      OfCheckStep(front, v, check);
      OfCheckStep(Failing(front), v, check);
    }
  }

  lemma OfCheckStep(views: seq<View>, v: View, check: string)
    ensures OfCheck(views + [v], check) == if v.check == check then OfCheck(views, check) + [v] else OfCheck(views, check)
  {
    assert (views + [v])[..|views|] == views;
    assert OfCheck(views, check) + [] == OfCheck(views, check);
  }

  lemma NoFailures(check: string)
    ensures OfCheck(Failing([]), check) == Failing(OfCheck([], check))
  {
  }

  /** An address is chart, object and place, of those that are known. */
  lemma WhereSays(v: View)
    ensures v.kind == "" && v.locus == "" ==> Where(v) == v.chart
    ensures v.chart == "" && v.kind == "" ==> Where(v) == v.locus
    ensures v.chart == "" && v.kind != "" && v.locus == "" ==>
      Where(v) == v.kind + " " + v.name + if v.container != "" then " \U{00B7} container " + v.container else ""
    ensures v.chart == "" && v.kind != "" && v.locus != "" ==>
      Where(v) == Where(v.(locus := "")) + " \U{00B7} " + v.locus
    ensures v.chart != "" && (v.kind != "" || v.locus != "") ==>
      Where(v) == v.chart + " \U{00B7} " + Where(v.(chart := ""))
  {
    var address := v.kind + " " + v.name + if v.container != "" then " \U{00B7} container " + v.container else "";
    var dot := " \U{00B7} ";
    JoinOne(v.chart, dot);
    JoinOne(v.locus, dot);
    JoinOne(address, dot);
    JoinMore([address], v.locus, dot);
    if v.chart != "" && (v.kind != "" || v.locus != "") {
      WhereWithChart(v);
    }
  }

  lemma WhereWithChart(v: View)
    requires v.chart != "" && (v.kind != "" || v.locus != "")
    ensures Where(v) == v.chart + " \U{00B7} " + Where(v.(chart := ""))
  {
    var address := v.kind + " " + v.name + if v.container != "" then " \U{00B7} container " + v.container else "";
    var a, l := if v.kind != "" then [address] else [], if v.locus != "" then [v.locus] else [];
    assert [] + a + l == a + l;
    assert [v.chart] + a + l == [v.chart] + (a + l);
    assert ([v.chart] + (a + l))[1..] == a + l;
  }

  lemma JoinOne(part: string, separator: string)
    ensures Join([], separator) == "" && Join([part], separator) == part
  {
  }

  /** One more part is one more separator and the part. */
  lemma {:induction false} JoinMore(parts: seq<string>, last: string, separator: string)
    requires parts != []
    ensures Join(parts + [last], separator) == Join(parts, separator) + separator + last
  {
    var all := parts + [last];
    if |parts| == 1 {
      assert all[1..] == [last];
    } else {
      assert all[1..] == parts[1..] + [last];
      JoinMore(parts[1..], last, separator);
      assert Join(all, separator) == parts[0] + separator + (Join(parts[1..], separator) + separator + last);
      assert parts[0] + separator + (Join(parts[1..], separator) + separator + last)
        == (parts[0] + separator + Join(parts[1..], separator)) + separator + last;
    }
  }

  /** A set of names is printed in byte order, separated by comma and blank. */
  lemma JoinedIsSorted(names: set<string>, s: seq<string>)
    requires NoDuplicates(s) && Sorted(s, Le) && forall x :: x in s <==> x in names
    ensures Joined(names) == Join(s, ", ")
  {
    SameSetSameMultiset(s, Enumerate(names));
    SortStrings(Enumerate(names));
    SortedStringsUnique(s, Sort(Enumerate(names), Le));
  }

  /** The filters keep the list's order: they take one result at a time, wherever the list is cut. */
  lemma {:induction false} FilterConcat(x: seq<View>, y: seq<View>, a: string, b: string, check: string)
    ensures WithOutcome(x + y, a, b) == WithOutcome(x, a, b) + WithOutcome(y, a, b)
    ensures OfCheck(x + y, check) == OfCheck(x, check) + OfCheck(y, check)
    ensures |x| == 1 ==> WithOutcome(x, a, b) == if x[0].outcome == a || x[0].outcome == b then x else []
    ensures |x| == 1 ==> OfCheck(x, check) == if x[0].check == check then x else []
  {
    if |x| == 1 {
      assert x[..0] == [] && x == [x[0]];
    }
    if y == [] {
      assert x + y == x;
    } else {
      var front, v := y[..|y| - 1], y[|y| - 1];
      FilterConcat(x, front, a, b, check);
      assert (x + y)[..|x + y| - 1] == x + front && (x + y)[|x + y| - 1] == v;
    }
  }

  /** Sum over a list of checks of the views of each. */
  function Total(views: seq<View>, checks: seq<string>): nat {
    if checks == [] then 0 else Total(views, checks[..|checks| - 1]) + Count(views, checks[|checks| - 1])
  }

  lemma {:induction false} TotalStep(views: seq<View>, v: View, checks: seq<string>)
    requires NoDuplicates(checks)
    ensures Total(views + [v], checks) == Total(views, checks) + if v.check in checks then 1 else 0
  {
    if checks != [] {
      var front, c := checks[..|checks| - 1], checks[|checks| - 1];
      TotalStep(views, v, front);
      assert checks == front + [c];
      assert (views + [v])[..|views|] == views;
      assert c !in front;
    }
  }

  lemma {:induction false} TotalNothing(checks: seq<string>)
    ensures Total([], checks) == 0
  {
    if checks != [] {
      TotalNothing(checks[..|checks| - 1]);
    }
  }

  /** Counting per check loses nothing as long as every check is listed once. */
  lemma {:induction false} TotalIsAll(views: seq<View>, checks: seq<string>)
    requires NoDuplicates(checks)
    requires forall i :: 0 <= i < |views| ==> views[i].check in checks
    ensures Total(views, checks) == |views|
  {
    if views == [] {
      TotalNothing(checks);
    } else {
      var front, v := views[..|views| - 1], views[|views| - 1];
      TotalIsAll(front, checks);
      assert views == front + [v];
      TotalStep(front, v, checks);
    }
  }

  lemma {:induction false} AllSeen(views: seq<View>)
    ensures forall i :: 0 <= i < |views| ==> views[i].check in FirstSeen(views)
  {
    if views != [] {
      AllSeen(views[..|views| - 1]);
    }
  }

  lemma {:induction false} OutcomeViews(views: seq<View>, a: string, b: string)
    ensures forall i :: 0 <= i < |WithOutcome(views, a, b)| ==> WithOutcome(views, a, b)[i] in views
    ensures a != b ==>
      |WithOutcome(views, a, b)| == |WithOutcome(views, a, a)| + |WithOutcome(views, b, b)|
  {
    if views != [] {
      OutcomeViews(views[..|views| - 1], a, b);
    }
  }

  function EvaluatedOf(r: RulebookRow): nat { r.evaluated }

  function FailedOf(r: RulebookRow): nat { r.failed }

  function WaivedOf(r: RulebookRow): nat { r.waived }

  function UndecidedOf(r: RulebookRow): nat { r.undecided }

  function SumOf(rows: seq<RulebookRow>, f: RulebookRow -> nat): nat {
    if rows == [] then 0 else SumOf(rows[..|rows| - 1], f) + f(rows[|rows| - 1])
  }

  lemma {:induction false} SumIsTotal(
    rows: seq<RulebookRow>, f: RulebookRow -> nat, views: seq<View>, checks: seq<string>)
    requires |rows| == |checks|
    requires forall i :: 0 <= i < |rows| ==> f(rows[i]) == Count(views, checks[i])
    ensures SumOf(rows, f) == Total(views, checks)
  {
    if rows != [] {
      SumIsTotal(rows[..|rows| - 1], f, views, checks[..|checks| - 1]);
    }
  }

  lemma ColumnSum(views: seq<View>, some: seq<View>, f: RulebookRow -> nat)
    requires forall i :: 0 <= i < |some| ==> some[i] in views
    requires forall i :: 0 <= i < |RulebookRows(views)| ==>
      f(RulebookRows(views)[i]) == Count(some, RulebookChecks(views)[i])
    ensures SumOf(RulebookRows(views), f) == |some|
  {
    RulebookIsPerCheck(views);
    SumIsTotal(RulebookRows(views), f, some, RulebookChecks(views));
    AllSeen(views);
    TotalIsAll(some, RulebookChecks(views));
  }

  /**
   * The totals agree across sheets: Evaluated sums to the number of results,
   * the findings rows are the failed and the waived, the unchecked rows are
   * the undecided.
   */
  lemma SheetsReconcile(views: seq<View>)
    ensures SumOf(RulebookRows(views), EvaluatedOf) == |views|
    ensures |WithOutcome(views, FAIL, WAIVED)|
         == SumOf(RulebookRows(views), FailedOf) + SumOf(RulebookRows(views), WaivedOf)
    ensures |WithOutcome(views, ERROR, ERROR)| == SumOf(RulebookRows(views), UndecidedOf)
  {
    RulebookIsPerCheck(views);
    ColumnSum(views, views, EvaluatedOf);
    OutcomeViews(views, FAIL, FAIL);
    ColumnSum(views, WithOutcome(views, FAIL, FAIL), FailedOf);
    OutcomeViews(views, WAIVED, WAIVED);
    ColumnSum(views, WithOutcome(views, WAIVED, WAIVED), WaivedOf);
    OutcomeViews(views, ERROR, ERROR);
    ColumnSum(views, WithOutcome(views, ERROR, ERROR), UndecidedOf);
    OutcomeViews(views, FAIL, WAIVED);
  }
}
