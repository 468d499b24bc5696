/**
 * `attachSecurityToListing` and `attachSecurity` in internal/api/packages.go:
 * a listing grouped by product, answered group by group, and scattered back.
 */
module SecurityJoin {
  import opened Text

  datatype Row = Row(id: int, product: string)

  /** A stored result; `counts` stands for every number copied into the summary. */
  datatype Stored = Stored(counts: string, provider: string, stalled: bool)

  datatype Summary =
    | NeverSynced(canSync: bool, reason: string)
    | Synced(counts: string, stalled: bool, providers: seq<string>, canSync: bool, reason: string)

  /** A listed package; `name` stands for every field the join does not set. */
  datatype Package = Package(name: string, security: Option<Summary>)

  /**
   * What the server's dependencies answer while the page is built: whether
   * there is a security store, what its two queries return for a list of IDs
   * (None when they fail), whether a product can sync, and whether this
   * replica is syncing a package. A missing per-scanner query fails.
   */
  datatype Answers = Answers(
    configured: bool,
    stored: seq<int> -> Option<map<int, Stored>>,
    sources: seq<int> -> Option<map<int, seq<string>>>,
    canSync: string -> (bool, string),
    syncingHere: int -> bool)

  // ---- specification ------------------------------------------------------

  /** providersOf */
  function Providers(stored: Stored, sources: seq<string>): seq<string> {
    if |sources| > 0 then sources
    else if stored.provider != "" then [stored.provider]
    else []
  }

  function SummaryOf(
    a: Answers, product: string, found: map<int, Stored>, sources: map<int, seq<string>>, id: int): Summary
  {
    var (can, reason) := a.canSync(product);
    if id !in found then NeverSynced(can, reason)
    else
      Synced(found[id].counts, found[id].stalled && !a.syncingHere(id),
        Providers(found[id], if id in sources then sources[id] else []), can, reason)
  }

  function SourcesOf(a: Answers, ids: seq<int>): map<int, seq<string>> {
    match a.sources(ids)
    case None => map[]
    case Some(m) => m
  }

  /** One row's package with what a product and a query for `ids` answer. */
  function Attached(a: Answers, product: string, ids: seq<int>, row: Row, p: Package): Package {
    if !a.configured then p
    else
      match a.stored(ids)
      case None => p
      case Some(found) => p.(security := Some(SummaryOf(a, product, found, SourcesOf(a, ids), row.id)))
  }

  function Ids(rows: seq<Row>): (ids: seq<int>)
    ensures |ids| == |rows|
  {
    seq(|rows|, i requires 0 <= i < |rows| => rows[i].id)
  }

  /** The rows of one product, in order. */
  function GroupOf(rows: seq<Row>, product: string): seq<Row> {
    var indexes := Indexes(rows, product, |rows|);
    IndexesExact(rows, product, |rows|);
    seq(|indexes|, n requires 0 <= n < |indexes| => rows[indexes[n]])
  }

  /** Every row with its own product, asked for together with that product's other rows. */
  function Joined(a: Answers, rows: seq<Row>, out: seq<Package>): seq<Package>
    requires |rows| == |out|
  {
    seq(|rows|, i requires 0 <= i < |rows| =>
      Attached(a, rows[i].product, Ids(GroupOf(rows, rows[i].product)), rows[i], out[i]))
  }

  /** Every row with its own product, asked for alone. */
  function PerRow(a: Answers, rows: seq<Row>, out: seq<Package>): seq<Package>
    requires |rows| == |out|
  {
    seq(|rows|, i requires 0 <= i < |rows| => Attached(a, rows[i].product, [rows[i].id], rows[i], out[i]))
  }

  /** The positions below n of a product's rows, in order. */
  function Indexes(rows: seq<Row>, product: string, n: nat): seq<nat>
    requires n <= |rows|
  {
    if n == 0 then []
    else Indexes(rows, product, n - 1) + if rows[n - 1].product == product then [n - 1] else []
  }

  // ---- the code -----------------------------------------------------------

  /** One product's rows; `out` is its slice of the page, changed in place. */
  method AttachSecurity(a: Answers, product: string, rows: seq<Row>, out: array<Package>)
    requires |rows| == out.Length
    modifies out
    ensures forall i :: 0 <= i < out.Length ==>
      out[i] == Attached(a, product, Ids(rows), rows[i], old(out[i]))
  {
    if !a.configured || |rows| == 0 {
      return;
    }
    var ids: seq<int> := [];
    for i := 0 to |rows|
      invariant |ids| == i && forall k :: 0 <= k < i ==> ids[k] == rows[k].id
    {
      ids := ids + [rows[i].id];
    }
    assert ids == Ids(rows);
    var stored := a.stored(ids);
    match stored
    case None =>
      return;
    case Some(found) =>
      var (can, reason) := a.canSync(product);
      var sources := SourcesOf(a, ids);
      for i := 0 to |rows|
        invariant forall k :: 0 <= k < out.Length ==>
          out[k] == if k < i then Attached(a, product, ids, rows[k], old(out[k])) else old(out[k])
      {
        var id := rows[i].id;
        if id !in found {
          out[i] := out[i].(security := Some(NeverSynced(can, reason)));
          continue;
        }
        var sec := found[id];
        var stalled := sec.stalled && !a.syncingHere(id);
        var providers := Providers(sec, if id in sources then sources[id] else []);
        out[i] := out[i].(security := Some(Synced(sec.counts, stalled, providers, can, reason)));
      }
  }

  /** The map is visited in an arbitrary order; the page does not show it. */
  method AttachSecurityToListing(a: Answers, rows: seq<Row>, out: array<Package>)
    requires |rows| == out.Length
    modifies out
    ensures out[..] == Joined(a, rows, old(out[..]))
  {
    if |rows| == 0 {
      return;
    }
    var byProduct := GroupByProduct(rows);
    var todo := byProduct.Keys;
    while todo != {}
      invariant todo <= byProduct.Keys
      invariant forall i :: 0 <= i < out.Length ==>
        out[i] == if rows[i].product in todo then old(out[i])
                  else Attached(a, rows[i].product, Ids(GroupOf(rows, rows[i].product)), rows[i], old(out[i]))
      decreases todo
    {
      var product :| product in todo;
      AttachGroup(a, product, rows, byProduct[product], out);
      todo := todo - {product};
    }
  }

  ghost predicate Grouping(rows: seq<Row>, n: nat, byProduct: map<string, seq<nat>>) {
    && n <= |rows|
    && (forall k :: 0 <= k < n ==> rows[k].product in byProduct)
    && (forall p :: p in byProduct ==> byProduct[p] == Indexes(rows, p, n))
    && (forall p :: p !in byProduct ==> Indexes(rows, p, n) == [])
  }

  method GroupByProduct(rows: seq<Row>) returns (byProduct: map<string, seq<nat>>)
    ensures Grouping(rows, |rows|, byProduct)
  {
    byProduct := map[];
    hide *;
    NoGroups(rows);
    for i := 0 to |rows|
      invariant Grouping(rows, i, byProduct)
    {
      var p := rows[i].product;
      GroupingStep(rows, i, byProduct);
      byProduct := byProduct[p := (if p in byProduct then byProduct[p] else []) + [i]];
    }
  }

  lemma GroupingStep(rows: seq<Row>, i: nat, byProduct: map<string, seq<nat>>)
    requires i < |rows| && Grouping(rows, i, byProduct)
    ensures var p := rows[i].product;
      Grouping(rows, i + 1, byProduct[p := (if p in byProduct then byProduct[p] else []) + [i]])
  {
    hide Indexes;
    var p := rows[i].product;
    forall q ensures Indexes(rows, q, i + 1) == if q == p then Indexes(rows, q, i) + [i] else Indexes(rows, q, i) {
      IndexesStep(rows, q, i);
    }
  }

  lemma NoGroups(rows: seq<Row>)
    ensures Grouping(rows, 0, map[])
  {
  }

  lemma IndexesStep(rows: seq<Row>, product: string, i: nat)
    requires i < |rows|
    ensures Indexes(rows, product, i + 1)
      == if rows[i].product == product then Indexes(rows, product, i) + [i] else Indexes(rows, product, i)
  {
    assert Indexes(rows, product, i) + [] == Indexes(rows, product, i);
  }

  /** Gather a product's rows, answer them, and write them back. */
  method AttachGroup(a: Answers, product: string, rows: seq<Row>, indexes: seq<nat>, out: array<Package>)
    requires |rows| == out.Length && indexes == Indexes(rows, product, |rows|)
    modifies out
    ensures forall i :: 0 <= i < out.Length ==>
      out[i] == if rows[i].product == product
                then Attached(a, product, Ids(GroupOf(rows, product)), rows[i], old(out[i])) else old(out[i])
  {
    IndexesExact(rows, product, |rows|);
    var group := seq(|indexes|, n requires 0 <= n < |indexes| => rows[indexes[n]]);
    assert group == GroupOf(rows, product);
    hide *;
    var slice := new Package[|indexes|](n requires 0 <= n < |indexes| reads out => out[indexes[n]]);
    AttachSecurity(a, product, group, slice);
    Scatter(indexes, slice, out);
  }

  /** Write a group's answers back to the positions it was gathered from. */
  method Scatter(indexes: seq<nat>, slice: array<Package>, out: array<Package>)
    requires slice != out && slice.Length == |indexes|
    requires forall k :: 0 <= k < |indexes| ==> indexes[k] < out.Length
    requires forall j, k :: 0 <= j < k < |indexes| ==> indexes[j] < indexes[k]
    modifies out
    ensures forall k :: 0 <= k < |indexes| ==> out[indexes[k]] == slice[k]
    ensures forall i :: 0 <= i < out.Length && i !in indexes ==> out[i] == old(out[i])
  {
    for n := 0 to |indexes|
      invariant forall i :: 0 <= i < out.Length && i !in indexes ==> out[i] == old(out[i])
      invariant forall k :: 0 <= k < n ==> out[indexes[k]] == slice[k]
    {
      out[indexes[n]] := slice[n];
    }
  }

  // ---- grouping is only a way of asking -----------------------------------

  /** What the stores say about an ID does not depend on what else is asked for with it. */
  ghost predicate AnswersEachAlone(a: Answers, ids: seq<int>) {
    forall id :: id in ids ==>
      && (a.stored(ids).Some? <==> a.stored([id]).Some?)
      && (a.stored(ids).Some? ==>
        && (id in a.stored(ids).value <==> id in a.stored([id]).value)
        && (id in a.stored(ids).value ==> a.stored(ids).value[id] == a.stored([id]).value[id]))
      && (id in SourcesOf(a, ids) <==> id in SourcesOf(a, [id]))
      && (id in SourcesOf(a, ids) ==> SourcesOf(a, ids)[id] == SourcesOf(a, [id])[id])
  }

  /** With such stores the page is the per-row join. */
  lemma GroupedIsPerRow(a: Answers, rows: seq<Row>, out: seq<Package>)
    requires |rows| == |out|
    requires forall i :: 0 <= i < |rows| ==> AnswersEachAlone(a, Ids(GroupOf(rows, rows[i].product)))
    ensures Joined(a, rows, out) == PerRow(a, rows, out)
  {
    forall i | 0 <= i < |rows| ensures Joined(a, rows, out)[i] == PerRow(a, rows, out)[i] {
      var ids := Ids(GroupOf(rows, rows[i].product));
      InItsGroup(rows, i);
      assert AnswersEachAlone(a, ids) && rows[i].id in ids;
    }
  }

  lemma InItsGroup(rows: seq<Row>, i: nat)
    requires i < |rows|
    ensures rows[i].id in Ids(GroupOf(rows, rows[i].product))
  {
    var product := rows[i].product;
    var indexes := Indexes(rows, product, |rows|);
    IndexesExact(rows, product, |rows|);
    var n :| 0 <= n < |indexes| && indexes[n] == i;
    assert Ids(GroupOf(rows, product))[n] == rows[i].id;
  }

  // ---- the groups partition the page --------------------------------------

  lemma {:induction false} IndexesExact(rows: seq<Row>, product: string, n: nat)
    requires n <= |rows|
    ensures forall j, k :: 0 <= j < k < |Indexes(rows, product, n)| ==>
      Indexes(rows, product, n)[j] < Indexes(rows, product, n)[k]
    ensures forall k :: 0 <= k < |Indexes(rows, product, n)| ==>
      Indexes(rows, product, n)[k] < n && rows[Indexes(rows, product, n)[k]].product == product
    ensures forall i :: 0 <= i < n && rows[i].product == product ==> i in Indexes(rows, product, n)
  {
    if n > 0 {
      IndexesExact(rows, product, n - 1);
    }
  }

  /** Each position is in exactly one product's list, exactly once. */
  lemma Partition(rows: seq<Row>, i: nat)
    requires i < |rows|
    ensures forall p :: i in Indexes(rows, p, |rows|) <==> p == rows[i].product
    ensures multiset(Indexes(rows, rows[i].product, |rows|))[i] == 1
  {
    forall p ensures i in Indexes(rows, p, |rows|) <==> p == rows[i].product {
      IndexesExact(rows, p, |rows|);
    }
    IndexesExact(rows, rows[i].product, |rows|);
    AscendingOnce(Indexes(rows, rows[i].product, |rows|), i);
  }

  lemma {:induction false} AscendingOnce(s: seq<nat>, x: nat)
    requires forall j, k :: 0 <= j < k < |s| ==> s[j] < s[k]
    ensures multiset(s)[x] == if x in s then 1 else 0
  {
    if s != [] {
      var front := s[..|s| - 1];
      AscendingOnce(front, x);
      assert s == front + [s[|s| - 1]];
    }
  }

  // ---- what a row says ----------------------------------------------------

  /**
   * A row of the page: never synced exactly when the store has nothing for it;
   * stalled only when no sync of it runs here; the scanners of the per-scanner
   * rows, or the stored one where there are none.
   */
  lemma RowOfPage(a: Answers, rows: seq<Row>, out: seq<Package>, i: nat)
    requires |rows| == |out| && i < |rows| && a.configured
    requires a.stored(Ids(GroupOf(rows, rows[i].product))).Some?
    ensures var p, id := Joined(a, rows, out)[i], rows[i].id;
      var ids := Ids(GroupOf(rows, rows[i].product));
      var found, sources := a.stored(ids).value, a.sources(ids);
      && p.name == out[i].name && p.security.Some?
      && (p.security.value.canSync, p.security.value.reason) == a.canSync(rows[i].product)
      && (p.security.value.NeverSynced? <==> id !in found)
      && (id in found ==>
        && p.security.value.counts == found[id].counts
        && (p.security.value.stalled <==> found[id].stalled && !a.syncingHere(id))
        && (if sources.Some? && id in sources.value && sources.value[id] != [] then
              p.security.value.providers == sources.value[id]
            else if found[id].provider != "" then p.security.value.providers == [found[id].provider]
            else p.security.value.providers == []))
  {
  }

  /** Without a store, or when it cannot be read, the page is as it was. */
  lemma PageWithoutStore(a: Answers, rows: seq<Row>, out: seq<Package>)
    requires |rows| == |out|
    requires !a.configured || forall ids :: a.stored(ids) == None
    ensures Joined(a, rows, out) == out
  {
    forall i | 0 <= i < |rows| ensures Joined(a, rows, out)[i] == out[i] {
      assert a.configured ==> a.stored(Ids(GroupOf(rows, rows[i].product))) == None;
    }
  }
}
