/**
 * `fitCells`, `fits`, `rowWidth` and `middleTruncate` in
 * cmd/transferctl/output.go: a table shortened, in place, to a terminal.
 *
 * A `char` stands for one rune here, which is what the widths count.
 */
module WidthAllocator {

  const TAB_GAP: nat := 3
  const MIN_CELL: nat := 14
  const ELLIPSIS: char := '\U{2026}'

  type Table = seq<seq<string>>

  // ---- specification: one row's width -------------------------------------

  function Sum(caps: seq<nat>): nat {
    if caps == [] then 0 else Sum(caps[..|caps| - 1]) + caps[|caps| - 1]
  }

  function Width(caps: seq<nat>): nat {
    Sum(caps) + if |caps| > 1 then TAB_GAP * (|caps| - 1) else 0
  }

  function Floored(caps: seq<nat>, elastic: seq<nat>): (r: seq<nat>)
    ensures |r| == |caps|
  {
    seq(|caps|, i requires 0 <= i < |caps| => if i in elastic && caps[i] > MIN_CELL then MIN_CELL else caps[i])
  }

  predicate CanFit(caps: seq<nat>, elastic: seq<nat>, width: int) {
    Width(Floored(caps, elastic)) <= width
  }

  // ---- specification: the allocation --------------------------------------

  /** The first widest elastic column that may still give, or -1; `best` is the one so far. */
  function Widest(caps: seq<nat>, elastic: seq<nat>, best: int): (w: int)
    requires -1 <= best < |caps|
    ensures -1 <= w < |caps|
  {
    if elastic == [] then best
    else
      var i := elastic[0];
      var better := i < |caps| && caps[i] > MIN_CELL && (best < 0 || caps[i] > caps[best]);
      Widest(caps, elastic[1..], if better then i else best)
  }

  lemma {:induction false} WidestIs(caps: seq<nat>, elastic: seq<nat>, best: int)
    requires -1 <= best < |caps|
    requires best >= 0 ==> caps[best] > MIN_CELL
    ensures var w := Widest(caps, elastic, best);
      && (w >= 0 ==> caps[w] > MIN_CELL && (w in elastic || w == best))
      && (w < 0 ==> best < 0)
      && (best >= 0 ==> w >= 0 && caps[best] <= caps[w])
      && forall i :: i in elastic && i < |caps| && caps[i] > MIN_CELL ==> w >= 0 && caps[i] <= caps[w]
  {
    if elastic != [] {
      var i := elastic[0];
      var better := i < |caps| && caps[i] > MIN_CELL && (best < 0 || caps[i] > caps[best]);
      WidestIs(caps, elastic[1..], if better then i else best);
      assert elastic == [i] + elastic[1..];
    }
  }

  lemma {:induction false} SumUpdate(caps: seq<nat>, i: nat, v: nat)
    requires i < |caps|
    ensures Sum(caps[i := v]) == Sum(caps) - caps[i] + v
  {
    var front := caps[..|caps| - 1];
    if i == |caps| - 1 {
      assert caps[i := v][..i] == front;
    } else {
      assert caps[i := v][..|caps| - 1] == front[i := v];
      SumUpdate(front, i, v);
    }
  }

  /** Take one from the widest until the row fits. */
  function Shrunk(caps: seq<nat>, elastic: seq<nat>, width: int): (r: seq<nat>)
    ensures |r| == |caps|
    decreases Sum(caps)
  {
    if Width(caps) <= width then caps
    else
      var w := Widest(caps, elastic, -1);
      if w < 0 then caps
      else
        WidestIs(caps, elastic, -1);
        SumUpdate(caps, w, caps[w] - 1);
        Shrunk(caps[w := caps[w] - 1], elastic, width)
  }

  // ---- specification: the table -------------------------------------------

  function MiddleTruncate(s: string, n: int): string {
    if n <= 0 || |s| <= n then s
    else if n <= 2 then s[..n]
    else
      var keep := n - 1;
      var tail := (keep + 1) / 2;
      s[..keep - tail] + [ELLIPSIS] + s[|s| - tail..]
  }

  /** The widest cell of column j, over the rows that have one. */
  function ColumnMax(rows: Table, j: nat): nat {
    if rows == [] then 0
    else
      var row := rows[|rows| - 1];
      var m := ColumnMax(rows[..|rows| - 1], j);
      if j < |row| && |row[j]| > m then |row[j]| else m
  }

  function Caps(rows: Table): (caps: seq<nat>)
    requires rows != []
    ensures |caps| == |rows[0]|
  {
    seq(|rows[0]|, j requires 0 <= j < |rows[0]| => ColumnMax(rows, j))
  }

  /** An elastic index names a column of the header in every row that has it. */
  ghost predicate ColumnsKnown(rows: Table, elastic: seq<nat>) {
    forall r, i :: 0 <= r < |rows| && i in elastic && i < |rows[r]| ==> i < |rows[0]|
  }

  /** A table the code does not give up on is indexed by every elastic index; an unknown column then panics. */
  ghost predicate Fittable(rows: Table, elastic: seq<nat>, width: int) {
    width > 0 && rows != [] && CanFit(Caps(rows), elastic, width) ==> ColumnsKnown(rows, elastic)
  }

  function RewriteRow(row: seq<string>, elastic: seq<nat>, caps: seq<nat>): (r: seq<string>)
    requires forall i :: i in elastic && i < |row| ==> i < |caps|
    ensures |r| == |row|
  {
    seq(|row|, i requires 0 <= i < |row| => if i in elastic then MiddleTruncate(row[i], caps[i]) else row[i])
  }

  function Rewrite(rows: Table, elastic: seq<nat>, caps: seq<nat>): (r: Table)
    requires forall k, i :: 0 <= k < |rows| && i in elastic && i < |rows[k]| ==> i < |caps|
    ensures |r| == |rows|
  {
    seq(|rows|, k requires 0 <= k < |rows| => RewriteRow(rows[k], elastic, caps))
  }

  function Fitted(rows: Table, elastic: seq<nat>, width: int): (r: Table)
    requires Fittable(rows, elastic, width)
    ensures |r| == |rows|
  {
    if width <= 0 || rows == [] || !CanFit(Caps(rows), elastic, width) then rows
    else Rewrite(rows, elastic, Shrunk(Caps(rows), elastic, width))
  }

  // ---- the code -----------------------------------------------------------

  method RowWidth(caps: seq<nat>) returns (out: int)
    ensures out == Width(caps)
  {
    out := 0;
    for i := 0 to |caps|
      invariant out == Sum(caps[..i])
    {
      assert caps[..i + 1][..i] == caps[..i];
      out := out + caps[i];
    }
    assert caps[..|caps|] == caps;
    if |caps| > 1 {
      out := out + TAB_GAP * (|caps| - 1);
    }
  }

  method Fits(caps: seq<nat>, elastic: seq<nat>, width: int) returns (ok: bool)
    ensures ok == CanFit(caps, elastic, width)
  {
    var floored := caps;
    for k := 0 to |elastic|
      invariant |floored| == |caps|
      invariant forall i :: 0 <= i < |caps| ==>
        floored[i] == if i in elastic[..k] && caps[i] > MIN_CELL then MIN_CELL else caps[i]
    {
      var i := elastic[k];
      assert elastic[..k + 1] == elastic[..k] + [i];
      if i < |floored| && floored[i] > MIN_CELL {
        floored := floored[i := MIN_CELL];
      }
    }
    assert elastic[..|elastic|] == elastic;
    assert floored == Floored(caps, elastic);
    var w := RowWidth(floored);
    ok := w <= width;
  }

  /** The loops that measure the columns. */
  method Measure(rows: array<seq<string>>) returns (caps: array<nat>)
    requires rows.Length > 0
    ensures fresh(caps) && caps[..] == Caps(rows[..])
  {
    var columns := |rows[0]|;
    caps := new nat[columns](_ => 0);
    for r := 0 to rows.Length
      invariant forall j :: 0 <= j < columns ==> caps[j] == ColumnMax(rows[..r], j)
    {
      var row := rows[r];
      assert rows[..r + 1][..r] == rows[..r];
      for i := 0 to |row|
        invariant forall j :: 0 <= j < columns ==>
          caps[j] == ColumnMax(if j < i then rows[..r + 1] else rows[..r], j)
      {
        if i < columns && |row[i]| > caps[i] {
          caps[i] := |row[i]|;
        }
      }
    }
    assert rows[..rows.Length] == rows[..];
  }

  /** The loop that picks the column to take from. */
  method FindWidest(caps: array<nat>, elastic: seq<nat>) returns (widest: int)
    ensures -1 <= widest < caps.Length && widest == Widest(caps[..], elastic, -1)
  {
    widest := -1;
    assert elastic[0..] == elastic;
    for k := 0 to |elastic|
      invariant -1 <= widest < caps.Length
      invariant Widest(caps[..], elastic[k..], widest) == Widest(caps[..], elastic, -1)
    {
      var i := elastic[k];
      assert elastic[k..] == [i] + elastic[k + 1..];
      if i < caps.Length && caps[i] > MIN_CELL && (widest < 0 || caps[i] > caps[widest]) {
        widest := i;
      }
    }
    assert elastic[|elastic|..] == [];
  }

  /** The loop that shrinks. Its `break` is never taken. */
  method Shrink(caps: array<nat>, elastic: seq<nat>, width: int)
    requires CanFit(caps[..], elastic, width)
    modifies caps
    ensures caps[..] == Shrunk(old(caps[..]), elastic, width)
  {
    hide Allocated, Widest, Width, Sum, CanFit;
    ghost var orig := caps[..];
    AllocatedInitially(orig, elastic);
    var w := RowWidth(caps[..]);
    while w > width
      invariant w == Width(caps[..])
      invariant Allocated(orig, elastic, caps[..])
      invariant Shrunk(caps[..], elastic, width) == Shrunk(orig, elastic, width)
      decreases Sum(caps[..])
    {
      ghost var before := caps[..];
      var widest := FindWidest(caps, elastic);
      ShrinkStep(orig, elastic, before, width);
      if widest < 0 {
        assert false;
        break;
      }
      caps[widest] := caps[widest] - 1;
      assert caps[..] == before[widest := before[widest] - 1];
      w := RowWidth(caps[..]);
    }
  }

  lemma ShrinkStep(orig: seq<nat>, elastic: seq<nat>, caps: seq<nat>, width: int)
    requires CanFit(orig, elastic, width) && Allocated(orig, elastic, caps)
    requires Width(caps) > width
    ensures var w := Widest(caps, elastic, -1);
      && w >= 0 && w in elastic && caps[w] > MIN_CELL
      && var next := caps[w := caps[w] - 1];
      && Allocated(orig, elastic, next)
      && Sum(next) == Sum(caps) - 1
      && Shrunk(caps, elastic, width) == Shrunk(next, elastic, width)
  {
    WidestExists(orig, elastic, caps, width);
    WidestIs(caps, elastic, -1);
    var w := Widest(caps, elastic, -1);
    TakeOne(orig, elastic, caps, w);
    SumUpdate(caps, w, caps[w] - 1);
  }

  method FitCells(rows: array<seq<string>>, elastic: seq<nat>, width: int)
    requires Fittable(rows[..], elastic, width)
    modifies rows
    ensures rows[..] == Fitted(old(rows[..]), elastic, width)
  {
    hide Shrunk, CanFit, ColumnMax, MiddleTruncate;
    if width <= 0 || rows.Length == 0 {
      return;
    }
    ghost var table := rows[..];
    var caps := Measure(rows);
    var ok := Fits(caps[..], elastic, width);
    if !ok {
      return;
    }
    Shrink(caps, elastic, width);
    for r := 0 to rows.Length
      invariant caps[..] == Shrunk(Caps(table), elastic, width)
      invariant forall k :: 0 <= k < rows.Length ==>
        rows[k] == if k < r then RewriteRow(table[k], elastic, caps[..]) else table[k]
    {
      var row := Shorten(rows[r], elastic, caps[..]);
      rows[r] := row;
    }
  }

  /** The loop over one row; an index listed twice truncates twice. */
  method Shorten(row: seq<string>, elastic: seq<nat>, caps: seq<nat>) returns (out: seq<string>)
    requires forall i :: i in elastic && i < |row| ==> i < |caps|
    ensures out == RewriteRow(row, elastic, caps)
  {
    out := row;
    for k := 0 to |elastic|
      invariant |out| == |row|
      invariant forall j :: 0 <= j < |row| ==>
        out[j] == if j in elastic && j in elastic[..k] then MiddleTruncate(row[j], caps[j]) else row[j]
    {
      var i := elastic[k];
      assert elastic[..k + 1] == elastic[..k] + [i];
      assert i in elastic;
      if i < |out| {
        TruncateTwice(row[i], caps[i]);
        out := out[i := MiddleTruncate(out[i], caps[i])];
      }
    }
    assert elastic[..|elastic|] == elastic;
  }

  // ---- the allocation is exact and fair -----------------------------------

  /** What every intermediate allocation keeps. */
  ghost predicate Allocated(orig: seq<nat>, elastic: seq<nat>, caps: seq<nat>) {
    && |caps| == |orig|
    && (forall i :: 0 <= i < |caps| && i !in elastic ==> caps[i] == orig[i])
    && (forall i :: 0 <= i < |caps| ==> caps[i] <= orig[i])
    && (forall i :: 0 <= i < |caps| ==> caps[i] == orig[i] || caps[i] >= MIN_CELL)
    && forall i, j :: 0 <= i < |caps| && 0 <= j < |caps| && caps[i] < orig[i] && j in elastic ==> caps[j] <= caps[i] + 1
  }

  lemma AllocatedInitially(orig: seq<nat>, elastic: seq<nat>)
    ensures Allocated(orig, elastic, orig)
  {
  }

  /** A row that is still too wide, and can fit, has a column that can give. */
  lemma WidestExists(orig: seq<nat>, elastic: seq<nat>, caps: seq<nat>, width: int)
    requires Allocated(orig, elastic, caps)
    requires CanFit(orig, elastic, width) && Width(caps) > width
    ensures Widest(caps, elastic, -1) >= 0
  {
    WidestIs(caps, elastic, -1);
    if Widest(caps, elastic, -1) < 0 {
      AllAtTheFloor(orig, elastic, caps);
    }
  }

  lemma AllAtTheFloor(orig: seq<nat>, elastic: seq<nat>, caps: seq<nat>)
    requires Allocated(orig, elastic, caps)
    requires forall i :: i in elastic && i < |caps| ==> caps[i] <= MIN_CELL
    ensures caps == Floored(orig, elastic)
  {
    assert forall i :: 0 <= i < |caps| ==> caps[i] == Floored(orig, elastic)[i];
  }

  lemma TakeOne(orig: seq<nat>, elastic: seq<nat>, caps: seq<nat>, w: nat)
    requires Allocated(orig, elastic, caps)
    requires w < |caps| && w in elastic && caps[w] > MIN_CELL
    requires forall i :: i in elastic && i < |caps| && caps[i] > MIN_CELL ==> caps[i] <= caps[w]
    ensures Allocated(orig, elastic, caps[w := caps[w] - 1])
  {
    var next := caps[w := caps[w] - 1];
    assert forall i :: 0 <= i < |caps| && i in elastic ==> next[i] <= caps[w];
  }

  lemma {:induction false} ShrunkFrom(orig: seq<nat>, elastic: seq<nat>, caps: seq<nat>, width: int)
    requires CanFit(orig, elastic, width) && Allocated(orig, elastic, caps)
    ensures var r := Shrunk(caps, elastic, width);
      && Allocated(orig, elastic, r)
      && Width(r) == if Width(caps) > width then width else Width(caps)
    decreases Sum(caps)
  {
    hide Allocated, Widest, CanFit;
    if Width(caps) > width {
      ShrinkStep(orig, elastic, caps, width);
      var w := Widest(caps, elastic, -1);
      var next := caps[w := caps[w] - 1];
      assert Width(next) == Width(caps) - 1;
      ShrunkFrom(orig, elastic, next, width);
    }
  }

  /**
   * A row that must and can shrink ends exactly as wide as the terminal; only
   * elastic columns give, none below its floor; and any elastic column is at
   * most one wider than any that gave.
   */
  lemma ExactAndFair(caps: seq<nat>, elastic: seq<nat>, width: int)
    requires CanFit(caps, elastic, width)
    ensures var r := Shrunk(caps, elastic, width);
      && Allocated(caps, elastic, r)
      && (Width(caps) > width ==> Width(r) == width)
      && (Width(caps) <= width ==> r == caps)
  {
    AllocatedInitially(caps, elastic);
    ShrunkFrom(caps, elastic, caps, width);
  }

  lemma {:induction false} SumMonotone(a: seq<nat>, b: seq<nat>)
    requires |a| == |b| && forall i :: 0 <= i < |a| ==> a[i] <= b[i]
    ensures Sum(a) <= Sum(b)
    ensures a != b ==> Sum(a) < Sum(b)
  {
    if a != [] {
      SumMonotone(a[..|a| - 1], b[..|b| - 1]);
      assert a == a[..|a| - 1] + [a[|a| - 1]] && b == b[..|b| - 1] + [b[|b| - 1]];
    }
  }

  /** An allotment that takes nothing from rigid columns and nothing below 14 from elastic ones. */
  ghost predicate KeepsFloors(caps: seq<nat>, elastic: seq<nat>, other: seq<nat>) {
    && |other| == |caps|
    && forall i :: 0 <= i < |caps| ==>
      if i in elastic then other[i] >= caps[i] || other[i] >= 14 else other[i] == caps[i]
  }

  /** The check made first is exact: it passes if and only if some such allotment fits. */
  lemma CanFitExactly(caps: seq<nat>, elastic: seq<nat>, width: int)
    ensures CanFit(caps, elastic, width) <==>
      exists other :: KeepsFloors(caps, elastic, other) && Width(other) <= width
  {
    var floored := Floored(caps, elastic);
    assert KeepsFloors(caps, elastic, floored);
    if other :| KeepsFloors(caps, elastic, other) && Width(other) <= width {
      SumMonotone(floored, other);
    }
  }

  // ---- between equally wide columns the one listed first gives first ------

  /** The n-th elastic column is w, and none listed before it is as wide and may give. */
  ghost predicate FirstWidest(caps: seq<nat>, elastic: seq<nat>, w: nat, n: nat)
    requires w < |caps|
  {
    && n < |elastic| && elastic[n] == w
    && forall m :: 0 <= m < n && elastic[m] < |caps| ==> caps[elastic[m]] < caps[w] || caps[elastic[m]] <= 14
  }

  lemma {:induction false} WidestIsFirst(caps: seq<nat>, elastic: seq<nat>, best: int)
    requires -1 <= best < |caps|
    ensures var w := Widest(caps, elastic, best);
      && (w == best || (w >= 0 && exists n: nat :: FirstWidest(caps, elastic, w, n)))
      && (best >= 0 ==> w == best || caps[best] < caps[w])
  {
    if elastic != [] {
      var i := elastic[0];
      var better := i < |caps| && caps[i] > MIN_CELL && (best < 0 || caps[i] > caps[best]);
      var best' := if better then i else best;
      WidestIsFirst(caps, elastic[1..], best');
      var w := Widest(caps, elastic[1..], best');
      if w != best' {
        var n: nat :| FirstWidest(caps, elastic[1..], w, n);
        assert forall m :: 0 < m < |elastic| ==> elastic[m] == elastic[1..][m - 1];
        assert i < |caps| ==> caps[i] < caps[w] || caps[i] <= 14;
        assert elastic[n + 1] == w;
        assert FirstWidest(caps, elastic, w, n + 1);
      } else if better {
        assert FirstWidest(caps, elastic, w, 0);
      }
    }
  }

  ghost predicate Gave(orig: seq<nat>, elastic: seq<nat>, caps: seq<nat>, n: nat)
    requires |caps| == |orig| && n < |elastic|
  {
    elastic[n] < |caps| && elastic[n] !in elastic[..n] && caps[elastic[n]] < orig[elastic[n]]
  }

  /** A column that gave is no narrower than the elastic columns listed before it. */
  ghost predicate EarlierGaveMore(orig: seq<nat>, elastic: seq<nat>, caps: seq<nat>)
    requires |caps| == |orig|
  {
    forall m, n :: 0 <= m < n < |elastic| && Gave(orig, elastic, caps, n) && elastic[m] < |caps| ==>
      caps[elastic[m]] <= caps[elastic[n]]
  }

  lemma InFront(s: seq<nat>, i: nat, n: nat)
    requires i < n <= |s|
    ensures s[i] in s[..n]
  {
    assert s[..n][i] == s[i];
  }

  lemma NotBefore(s: seq<nat>, i: nat, n: nat)
    requires i < |s| && n < |s| && s[i] == s[n] && s[n] !in s[..n]
    ensures n <= i
  {
    if i < n {
      InFront(s, i, n);
    }
  }

  lemma TakeFromFirst(orig: seq<nat>, elastic: seq<nat>, caps: seq<nat>)
    requires |caps| == |orig| && EarlierGaveMore(orig, elastic, caps)
    requires Widest(caps, elastic, -1) >= 0
    requires caps[Widest(caps, elastic, -1)] > MIN_CELL
    ensures var w := Widest(caps, elastic, -1);
      EarlierGaveMore(orig, elastic, caps[w := caps[w] - 1])
  {
    var w := Widest(caps, elastic, -1);
    WidestIsFirst(caps, elastic, -1);
    var first: nat :| FirstWidest(caps, elastic, w, first);
    var next := caps[w := caps[w] - 1];
    forall m, n | 0 <= m < n < |elastic| && Gave(orig, elastic, next, n) && elastic[m] < |caps|
      ensures next[elastic[m]] <= next[elastic[n]]
    {
      InFront(elastic, m, n);
      if elastic[n] == w {
        NotBefore(elastic, first, n);
      } else {
        assert Gave(orig, elastic, caps, n);
      }
    }
  }

  lemma {:induction false} ShrunkInOrder(orig: seq<nat>, elastic: seq<nat>, caps: seq<nat>, width: int)
    requires CanFit(orig, elastic, width) && Allocated(orig, elastic, caps) && EarlierGaveMore(orig, elastic, caps)
    ensures EarlierGaveMore(orig, elastic, Shrunk(caps, elastic, width))
    decreases Sum(caps)
  {
    hide Widest, CanFit, EarlierGaveMore, Width, Sum;
    if Width(caps) > width {
      ShrinkStep(orig, elastic, caps, width);
      TakeFromFirst(orig, elastic, caps);
      var w := Widest(caps, elastic, -1);
      var next := caps[w := caps[w] - 1];
      hide Allocated, Shrunk;
      ShrunkInOrder(orig, elastic, next, width);
    }
  }

  /** Of two elastic columns, the one listed later gives only while the earlier is no wider. */
  lemma FirstGivesFirst(caps: seq<nat>, elastic: seq<nat>, width: int)
    requires CanFit(caps, elastic, width)
    ensures EarlierGaveMore(caps, elastic, Shrunk(caps, elastic, width))
  {
    AllocatedInitially(caps, elastic);
    ShrunkInOrder(caps, elastic, caps, width);
  }

  /** Another way to allot the columns that keeps the rigid ones and fits. */
  ghost predicate Alternative(caps: seq<nat>, elastic: seq<nat>, width: int, other: seq<nat>) {
    && |other| == |caps|
    && (forall i :: 0 <= i < |caps| && i !in elastic ==> other[i] == caps[i])
    && Width(other) <= width
  }

  /**
   * Max-min fairness: an allotment that gives a shortened column more takes
   * from an elastic column that had at most one more than it.
   */
  lemma MaxMinFair(caps: seq<nat>, elastic: seq<nat>, width: int, other: seq<nat>, i: nat)
    requires CanFit(caps, elastic, width) && Width(caps) > width
    requires Alternative(caps, elastic, width, other)
    requires i < |caps| && Shrunk(caps, elastic, width)[i] < caps[i]
    requires other[i] > Shrunk(caps, elastic, width)[i]
    ensures var r := Shrunk(caps, elastic, width);
      exists j :: 0 <= j < |caps| && j in elastic && other[j] < r[j] && r[j] <= r[i] + 1
  {
    ExactAndFair(caps, elastic, width);
    var r := Shrunk(caps, elastic, width);
    if forall j :: 0 <= j < |caps| ==> other[j] >= r[j] {
      SumMonotone(r, other);
    }
    var j :| 0 <= j < |caps| && other[j] < r[j];
    assert j in elastic;
  }

  /** No allotment that uses the whole width has a narrower widest elastic column. */
  lemma WidestIsLeast(caps: seq<nat>, elastic: seq<nat>, width: int, other: seq<nat>, limit: nat)
    requires CanFit(caps, elastic, width) && Width(caps) > width
    requires Alternative(caps, elastic, width, other) && Width(other) == width
    requires forall i :: 0 <= i < |caps| ==> other[i] <= caps[i]
    requires forall i :: 0 <= i < |caps| && i in elastic ==> other[i] <= limit
    ensures forall i :: 0 <= i < |caps| && i in elastic ==> Shrunk(caps, elastic, width)[i] <= limit
  {
    ExactAndFair(caps, elastic, width);
    var r := Shrunk(caps, elastic, width);
    if m :| 0 <= m < |caps| && m in elastic && r[m] > limit {
      assert forall i :: 0 <= i < |caps| ==> other[i] <= r[i];
      SumMonotone(other, r);
    }
  }

  // ---- the shortened table ------------------------------------------------

  lemma TruncatedLength(s: string, n: nat)
    requires n > 0 || s == ""
    ensures |MiddleTruncate(s, n)| == if |s| <= n then |s| else n
  {
  }

  lemma TruncateTwice(s: string, n: int)
    ensures MiddleTruncate(MiddleTruncate(s, n), n) == MiddleTruncate(s, n)
  {
  }

  lemma {:induction false} ColumnMaxBounds(rows: Table, j: nat)
    ensures forall r :: 0 <= r < |rows| && j < |rows[r]| ==> |rows[r][j]| <= ColumnMax(rows, j)
  {
    if rows != [] {
      var front := rows[..|rows| - 1];
      ColumnMaxBounds(front, j);
      assert forall r :: 0 <= r < |front| ==> rows[r] == front[r];
    }
  }

  lemma {:induction false} ColumnMaxAttained(rows: Table, j: nat)
    ensures ColumnMax(rows, j) > 0 ==>
      exists r :: 0 <= r < |rows| && j < |rows[r]| && |rows[r][j]| == ColumnMax(rows, j)
  {
    if rows != [] {
      var front := rows[..|rows| - 1];
      ColumnMaxAttained(front, j);
      assert forall r :: 0 <= r < |front| ==> rows[r] == front[r];
    }
  }

  /** Truncating every cell of a column to n truncates its width to n. */
  lemma {:induction false} ColumnMaxTruncated(rows: Table, rows': Table, j: nat, n: nat)
    requires |rows'| == |rows|
    requires forall r :: 0 <= r < |rows| ==> |rows'[r]| == |rows[r]|
    requires forall r :: 0 <= r < |rows| && j < |rows[r]| ==>
      |rows'[r][j]| == if |rows[r][j]| <= n then |rows[r][j]| else n
    ensures ColumnMax(rows', j) == if ColumnMax(rows, j) <= n then ColumnMax(rows, j) else n
  {
    if rows != [] {
      ColumnMaxTruncated(rows[..|rows| - 1], rows'[..|rows| - 1], j, n);
    }
  }

  lemma CellLength(rows: Table, elastic: seq<nat>, width: int, r: nat, j: nat)
    requires ColumnsKnown(rows, elastic) && rows != [] && CanFit(Caps(rows), elastic, width)
    requires r < |rows| && j < |rows[r]| && j < |rows[0]|
    ensures var caps := Shrunk(Caps(rows), elastic, width);
      |RewriteRow(rows[r], elastic, caps)[j]| == if |rows[r][j]| <= caps[j] then |rows[r][j]| else caps[j]
  {
    ExactAndFair(Caps(rows), elastic, width);
    ColumnMaxBounds(rows, j);
    var caps := Shrunk(Caps(rows), elastic, width);
    assert Caps(rows)[j] == ColumnMax(rows, j);
    if j in elastic {
      TruncatedLength(rows[r][j], caps[j]);
    }
  }

  /** The measured columns of the rewritten table are the allocation. */
  lemma MeasuredIsAllocated(rows: Table, elastic: seq<nat>, width: int)
    requires ColumnsKnown(rows, elastic) && rows != []
    requires width > 0 && CanFit(Caps(rows), elastic, width)
    ensures Caps(Fitted(rows, elastic, width)) == Shrunk(Caps(rows), elastic, width)
  {
    var rows' := Fitted(rows, elastic, width);
    var caps := Shrunk(Caps(rows), elastic, width);
    ExactAndFair(Caps(rows), elastic, width);
    forall j | 0 <= j < |rows[0]| ensures Caps(rows')[j] == caps[j] {
      forall r | 0 <= r < |rows| && j < |rows[r]|
        ensures |rows'[r][j]| == if |rows[r][j]| <= caps[j] then |rows[r][j]| else caps[j]
      {
        CellLength(rows, elastic, width, r, j);
      }
      ColumnMaxTruncated(rows, rows', j, caps[j]);
      assert Caps(rows)[j] == ColumnMax(rows, j);
    }
  }

  /** A table that had to shrink, and could, is exactly as wide as the terminal. */
  lemma FittedWidth(rows: Table, elastic: seq<nat>, width: int)
    requires Fittable(rows, elastic, width) && rows != []
    ensures var before, after := Width(Caps(rows)), Width(Caps(Fitted(rows, elastic, width)));
      after == if width > 0 && CanFit(Caps(rows), elastic, width) && before > width then width else before
  {
    if width > 0 && CanFit(Caps(rows), elastic, width) {
      MeasuredIsAllocated(rows, elastic, width);
      ExactAndFair(Caps(rows), elastic, width);
    }
  }

  /** A table is left exactly as it was when the width is unknown, no allotment fits, or it fits already. */
  lemma UntouchedExactly(rows: Table, elastic: seq<nat>, width: int)
    requires Fittable(rows, elastic, width) && rows != []
    ensures Fitted(rows, elastic, width) == rows <==>
      width <= 0 || !CanFit(Caps(rows), elastic, width) || Width(Caps(rows)) <= width
  {
    FittedWidth(rows, elastic, width);
    if width > 0 && CanFit(Caps(rows), elastic, width) && Width(Caps(rows)) <= width {
      MeasuredRewriteIsIdentity(rows, elastic);
    }
  }

  // ---- what the terminal shows --------------------------------------------

  function Blanks(n: nat): (s: string)
    ensures |s| == n
  {
    seq(n, _ => ' ')
  }

  /** Cells padded to their columns and three blanks more, as the tab writer pads all but the last. */
  function Padded(cells: seq<string>, caps: seq<nat>): string
    requires |cells| <= |caps| && forall i :: 0 <= i < |cells| ==> |cells[i]| <= caps[i]
  {
    if cells == [] then ""
    else
      var n := |cells| - 1;
      Padded(cells[..n], caps) + cells[n] + Blanks(caps[n] - |cells[n]| + 3)
  }

  function Line(cells: seq<string>, caps: seq<nat>): string
    requires |cells| == |caps| && forall i :: 0 <= i < |cells| ==> |cells[i]| <= caps[i]
  {
    if cells == [] then "" else Padded(cells[..|cells| - 1], caps) + cells[|cells| - 1]
  }

  lemma {:induction false} PaddedWidth(cells: seq<string>, caps: seq<nat>)
    requires |cells| <= |caps| && forall i :: 0 <= i < |cells| ==> |cells[i]| <= caps[i]
    ensures |Padded(cells, caps)| == Sum(caps[..|cells|]) + 3 * |cells|
  {
    if cells != [] {
      var n := |cells| - 1;
      PaddedWidth(cells[..n], caps);
      assert caps[..n + 1][..n] == caps[..n];
    }
  }

  /** A row's width is what its longest line takes on screen. */
  lemma LineWidth(cells: seq<string>, caps: seq<nat>)
    requires |cells| == |caps| && forall i :: 0 <= i < |cells| ==> |cells[i]| <= caps[i]
    ensures cells != [] ==> |Line(cells, caps)| == Width(caps) - (caps[|caps| - 1] - |cells[|caps| - 1]|)
    ensures |Line(cells, caps)| <= Width(caps)
  {
    if cells != [] {
      PaddedWidth(cells[..|cells| - 1], caps);
    }
  }

  /** Every full row of a table that can fit prints within the terminal. */
  lemma PrintsWithin(rows: Table, elastic: seq<nat>, width: int, r: nat)
    requires Fittable(rows, elastic, width) && r < |rows| && |rows[r]| == |rows[0]|
    requires width > 0 && CanFit(Caps(rows), elastic, width)
    ensures var fitted := Fitted(rows, elastic, width);
      && |fitted[r]| == |Caps(fitted)|
      && (forall i :: 0 <= i < |fitted[r]| ==> |fitted[r][i]| <= Caps(fitted)[i])
      && |Line(fitted[r], Caps(fitted))| <= width
  {
    FittedShape(rows, elastic, width);
    FittedWidth(rows, elastic, width);
    var fitted := Fitted(rows, elastic, width);
    forall i | 0 <= i < |fitted[r]| ensures |fitted[r][i]| <= Caps(fitted)[i] {
      ColumnMaxBounds(fitted, i);
    }
    LineWidth(fitted[r], Caps(fitted));
  }

  /** A shortened cell: two ends of the original around one ellipsis, the tail taking the odd rune. */
  ghost predicate Shortened(cell: string, original: string, n: nat) {
    && 1 <= n < |original|
    && cell == original[..(n - 1) / 2] + [ELLIPSIS] + original[|original| - n / 2..]
  }

  lemma TruncatedIsShortened(s: string, n: nat)
    requires n < |s|
    ensures n > 2 ==> Shortened(MiddleTruncate(s, n), s, n)
    ensures 0 < n <= 2 ==> MiddleTruncate(s, n) == s[..n]
    ensures n == 0 ==> MiddleTruncate(s, n) == s
  {
    var tail := n / 2;
    assert (n - 1 + 1) / 2 == tail && n - 1 - tail == (n - 1) / 2;
  }

  /**
   * Every cell is either untouched or shortened to its column's allocation,
   * which is then at least the floor; only cells of elastic columns are.
   */
  lemma CellsKeepTheirEnds(rows: Table, elastic: seq<nat>, width: int, r: nat, j: nat)
    requires Fittable(rows, elastic, width) && r < |rows| && j < |rows[r]|
    ensures |Fitted(rows, elastic, width)[r]| == |rows[r]|
    ensures var cell := Fitted(rows, elastic, width)[r][j];
      cell == rows[r][j] ||
      (j in elastic && j < |rows[0]| && exists n :: 14 <= n && Shortened(cell, rows[r][j], n))
  {
    var cell, s := Fitted(rows, elastic, width)[r][j], rows[r][j];
    if cell != s {
      var n := Shrunk(Caps(rows), elastic, width)[j];
      assert cell == MiddleTruncate(s, n);
      AllocationOfCell(rows, elastic, width, r, j);
      TruncatedIsShortened(s, n);
    }
  }

  lemma AllocationOfCell(rows: Table, elastic: seq<nat>, width: int, r: nat, j: nat)
    requires rows != [] && CanFit(Caps(rows), elastic, width)
    requires r < |rows| && j < |rows[r]| && j < |rows[0]|
    ensures var n := Shrunk(Caps(rows), elastic, width)[j];
      n < |rows[r][j]| ==> MIN_CELL <= n
  {
    ExactAndFair(Caps(rows), elastic, width);
    ColumnMaxBounds(rows, j);
    assert Caps(rows)[j] == ColumnMax(rows, j);
  }

  /** An allocation that fits needs no further shrinking. */
  lemma ShrunkIsStable(caps: seq<nat>, elastic: seq<nat>, width: int)
    requires CanFit(caps, elastic, width)
    ensures var r := Shrunk(caps, elastic, width);
      CanFit(r, elastic, width) && Shrunk(r, elastic, width) == r
  {
    ExactAndFair(caps, elastic, width);
    var r := Shrunk(caps, elastic, width);
    SumMonotone(Floored(r, elastic), r);
  }

  lemma MeasuredRewriteIsIdentity(rows: Table, elastic: seq<nat>)
    requires ColumnsKnown(rows, elastic) && rows != []
    ensures Rewrite(rows, elastic, Caps(rows)) == rows
  {
    var caps := Caps(rows);
    forall r | 0 <= r < |rows| ensures RewriteRow(rows[r], elastic, caps) == rows[r] {
      forall j | 0 <= j < |rows[r]| && j in elastic ensures MiddleTruncate(rows[r][j], caps[j]) == rows[r][j] {
        ColumnMaxBounds(rows, j);
      }
    }
  }

  lemma FittedShape(rows: Table, elastic: seq<nat>, width: int)
    requires Fittable(rows, elastic, width)
    ensures |Fitted(rows, elastic, width)| == |rows|
    ensures forall r :: 0 <= r < |rows| ==> |Fitted(rows, elastic, width)[r]| == |rows[r]|
    ensures ColumnsKnown(rows, elastic) ==> ColumnsKnown(Fitted(rows, elastic, width), elastic)
  {
  }

  /** Fitting a fitted table changes nothing. */
  lemma FitTwice(rows: Table, elastic: seq<nat>, width: int)
    requires Fittable(rows, elastic, width)
    ensures Fittable(Fitted(rows, elastic, width), elastic, width)
    ensures Fitted(Fitted(rows, elastic, width), elastic, width) == Fitted(rows, elastic, width)
  {
    hide Shrunk, Rewrite, Caps, CanFit, ColumnsKnown;
    FittedShape(rows, elastic, width);
    if width > 0 && rows != [] && CanFit(Caps(rows), elastic, width) {
      MeasuredIsAllocated(rows, elastic, width);
      ShrunkIsStable(Caps(rows), elastic, width);
      MeasuredRewriteIsIdentity(Fitted(rows, elastic, width), elastic);
    }
  }
}
