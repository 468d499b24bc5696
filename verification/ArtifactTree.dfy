/**
 * `renderArtifactTree` in cmd/transferctl/packages.go: a listing of artifacts
 * with parent links, printed as an indented forest.
 *
 * An artifact is named by its index in the listing. A chain is a list of
 * indices from a root downwards, each the parent of the next.
 */
module ArtifactTree {

  /** The parts of an artifact the printer shows, already shortened for display. */
  datatype Artifact = Artifact(
    id: string, parent: string, digest: string, platform: string, name: string,
    size: string, mediaType: string, fetched: bool)

  type Listing = seq<Artifact>

  // ---- specification ------------------------------------------------------

  ghost predicate DistinctIds(l: Listing) {
    forall i, j :: 0 <= i < j < |l| ==> l[i].id != l[j].id
  }

  ghost predicate IsChain(l: Listing, path: seq<nat>) {
    && (forall k :: 0 <= k < |path| ==> path[k] < |l|)
    && (path != [] ==> l[path[0]].parent == "")
    && forall k :: 0 < k < |path| ==> l[path[k]].parent != "" && l[path[k]].parent == l[path[k - 1]].id
  }

  ghost predicate Repeatless(l: Listing, path: seq<nat>)
    requires forall k :: 0 <= k < |path| ==> path[k] < |l|
  {
    forall a, b :: 0 <= a < b < |path| ==> l[path[a]].id != l[path[b]].id
  }

  /** No way down from a root meets one ID twice. */
  ghost predicate NoIdTwice(l: Listing) {
    forall path :: IsChain(l, path) ==> Repeatless(l, path)
  }

  function Spaces(n: nat): string {
    if n == 0 then "" else Spaces(n - 1) + " "
  }

  function LineOf(a: Artifact, indent: string): string {
    var caption := a.digest + if a.platform != "" then "  " + a.platform else "";
    indent + (if a.name != "" then a.name + "  " + caption else caption)
      + ("  " + a.size + "  " + a.mediaType + if a.fetched then "" else "  (listed, not fetched)")
  }

  lemma {:induction false} SpacesAreBlank(n: nat)
    ensures |Spaces(n)| == n && forall i :: 0 <= i < n ==> Spaces(n)[i] == ' '
  {
    if n > 0 {
      SpacesAreBlank(n - 1);
    }
  }

  /** A line: the name and the platform only if there are, and a mark exactly on what was not fetched. */
  lemma LineShows(a: Artifact, indent: string)
    ensures !a.fetched ==> LineOf(a, indent) == LineOf(a.(fetched := true), indent) + "  (listed, not fetched)"
    ensures a.name != "" ==> LineOf(a, indent) == indent + (a.name + "  " + LineOf(a.(name := ""), ""))
    ensures a.name == "" && a.platform != "" && a.fetched ==>
      LineOf(a, indent) == indent + a.digest + "  " + a.platform + "  " + a.size + "  " + a.mediaType
    ensures a.name == "" && a.platform == "" && a.fetched ==>
      LineOf(a, indent) == indent + a.digest + "  " + a.size + "  " + a.mediaType
  {
    assert a.digest + "" == a.digest;
    MarkLast(a, indent);
    NameFirst(a, indent);
  }

  lemma MarkLast(a: Artifact, indent: string)
    ensures !a.fetched ==> LineOf(a, indent) == LineOf(a.(fetched := true), indent) + "  (listed, not fetched)"
  {
    var line := LineOf(a.(fetched := true), indent);
    assert line == line + "";
  }

  lemma NameFirst(a: Artifact, indent: string)
    ensures a.name != "" ==> LineOf(a, indent) == indent + (a.name + "  " + LineOf(a.(name := ""), ""))
  {
    var caption := a.digest + if a.platform != "" then "  " + a.platform else "";
    var mark := if a.fetched then "" else "  (listed, not fetched)";
    Regroup(indent, a.name + "  ", caption, "  " + a.size + "  " + a.mediaType + mark);
  }

  lemma Regroup(a: string, b: string, c: string, d: string)
    ensures a + (b + c) + d == a + (b + ("" + c + d))
  {
  }

  /** The line of the artifact at the end of a chain. */
  function ChainLine(l: Listing, path: seq<nat>): string
    requires path != [] && IsChain(l, path)
  {
    LineOf(l[path[|path| - 1]], Spaces(2 + 4 * (|path| - 1)))
  }

  ghost predicate Precedes(p: seq<nat>, q: seq<nat>) {
    q != [] && (p == [] || p[0] < q[0] || (p[0] == q[0] && Precedes(p[1..], q[1..])))
  }

  /**
   * What the listing should print: every chain, once, in preorder, that is, in
   * the lexicographic order of the chains: a parent before its descendants and
   * siblings with their subtrees in listing order.
   */
  ghost predicate IsPreorder(l: Listing, chains: seq<seq<nat>>) {
    && (forall i :: 0 <= i < |chains| ==> chains[i] != [] && IsChain(l, chains[i]))
    && (forall path: seq<nat> :: path != [] && IsChain(l, path) ==> path in chains)
    && forall i, j :: 0 <= i < j < |chains| ==> Precedes(chains[i], chains[j])
  }

  // ---- the traversal, on chains -------------------------------------------

  /** The first n indices whose parent is `parent`, in listing order. */
  function WithParent(l: Listing, parent: string, n: nat): seq<nat>
    requires n <= |l|
  {
    if n == 0 then []
    else WithParent(l, parent, n - 1) + if l[n - 1].parent == parent then [n - 1] else []
  }

  ghost predicate Ascending(s: seq<nat>) {
    forall j, k :: 0 <= j < k < |s| ==> s[j] < s[k]
  }

  lemma {:induction false} WithParentExact(l: Listing, parent: string, n: nat)
    requires n <= |l|
    ensures Ascending(WithParent(l, parent, n))
    ensures forall i: nat :: i in WithParent(l, parent, n) <==> i < n && l[i].parent == parent
  {
    if n > 0 {
      WithParentExact(l, parent, n - 1);
      var front := WithParent(l, parent, n - 1);
      assert forall k :: 0 <= k < |front| ==> front[k] in front;
    }
  }

  ghost predicate Continues(l: Listing, path: seq<nat>, i: nat) {
    && i < |l|
    && if path == [] then l[i].parent == ""
       else path[|path| - 1] < |l| && l[i].parent != "" && l[i].parent == l[path[|path| - 1]].id
  }

  function Continuations(l: Listing, path: seq<nat>): (r: seq<nat>)
    requires path != [] ==> path[|path| - 1] < |l|
    ensures Ascending(r) && forall i: nat :: i in r <==> Continues(l, path, i)
  {
    if path == [] then
      WithParentExact(l, "", |l|);
      WithParent(l, "", |l|)
    else
      var id := l[path[|path| - 1]].id;
      WithParentExact(l, id, |l|);
      if id == "" then [] else WithParent(l, id, |l|)
  }

  ghost predicate AllContinue(l: Listing, path: seq<nat>, next: seq<nat>) {
    forall k :: 0 <= k < |next| ==> Continues(l, path, next[k])
  }

  /** The chains below `path` that go on with one of `next`, in printing order. */
  ghost function Forest(l: Listing, path: seq<nat>, next: seq<nat>): seq<seq<nat>>
    requires NoIdTwice(l) && IsChain(l, path) && AllContinue(l, path, next)
    decreases |l| + 1 - |path|, |next|
  {
    if next == [] then []
    else
      Extend(l, path, next[0]);
      Tree(l, path + [next[0]]) + Forest(l, path, next[1..])
  }

  ghost function Tree(l: Listing, path: seq<nat>): seq<seq<nat>>
    requires NoIdTwice(l) && IsChain(l, path)
    decreases |l| + 1 - |path|
  {
    ChainIsShort(l, path);
    [path] + Forest(l, path, Continuations(l, path))
  }

  ghost function Chains(l: Listing): seq<seq<nat>>
    requires NoIdTwice(l)
  {
    Forest(l, [], Continuations(l, []))
  }

  lemma Extend(l: Listing, path: seq<nat>, i: nat)
    requires NoIdTwice(l) && IsChain(l, path) && Continues(l, path, i)
    ensures IsChain(l, path + [i])
    ensures |path| < |l|
  {
    var longer := path + [i];
    assert longer[|path|] == i;
    assert forall k :: 0 <= k < |path| ==> longer[k] == path[k];
    ChainIsShort(l, longer);
  }

  // ---- termination --------------------------------------------------------

  lemma {:induction false} Pigeonhole(s: seq<nat>, n: nat)
    requires forall i :: 0 <= i < |s| ==> s[i] < n
    requires forall i, j :: 0 <= i < j < |s| ==> s[i] != s[j]
    ensures |s| <= n
  {
    if s != [] {
      assert s[0] < n;
      if i :| 0 <= i < |s| && s[i] == n - 1 {
        Pigeonhole(s[..i] + s[i + 1..], n - 1);
      } else {
        Pigeonhole(s, n - 1);
      }
    }
  }

  lemma RepeatlessIsShort(l: Listing, path: seq<nat>)
    requires forall k :: 0 <= k < |path| ==> path[k] < |l|
    requires Repeatless(l, path)
    ensures |path| <= |l|
  {
    Pigeonhole(path, |l|);
  }

  lemma ChainIsShort(l: Listing, path: seq<nat>)
    requires NoIdTwice(l) && IsChain(l, path)
    ensures |path| <= |l|
  {
    RepeatlessIsShort(l, path);
  }

  ghost predicate ChainsWithin(l: Listing, n: nat) {
    forall path :: IsChain(l, path) ==> |path| <= n
  }

  /** A chain that meets an ID twice can go round again, as often as one likes. */
  lemma {:induction false} GoRound(l: Listing, path: seq<nat>, a: nat, b: nat, n: nat) returns (longer: seq<nat>)
    requires IsChain(l, path) && a < b < |path| && l[path[a]].id == l[path[b]].id
    ensures IsChain(l, longer) && |longer| > n
    decreases if |path| > n then 0 else n + 1 - |path|
  {
    longer := path;
    if |path| <= n {
      var again := path[..b + 1] + path[a + 1..];
      assert forall k :: b + 1 <= k < |again| ==> again[k] == path[k - b + a];
      assert forall k :: 0 <= k <= b ==> again[k] == path[k];
      longer := GoRound(l, again, a, b, n);
    }
  }

  /**
   * The recursion is bounded if and only if no way down from a root meets one
   * ID twice, and then by the length of the listing.
   */
  lemma EndsExactly(l: Listing)
    ensures NoIdTwice(l) <==> ChainsWithin(l, |l|)
    ensures NoIdTwice(l) <==> exists n :: ChainsWithin(l, n)
  {
    if NoIdTwice(l) {
      forall path | IsChain(l, path) ensures |path| <= |l| {
        ChainIsShort(l, path);
      }
    } else {
      var path :| IsChain(l, path) && !Repeatless(l, path);
      var a, b :| 0 <= a < b < |path| && l[path[a]].id == l[path[b]].id;
      forall n: nat ensures !ChainsWithin(l, n) {
        var longer := GoRound(l, path, a, b, n);
      }
    }
  }

  /** One walk that carries the path: whether nothing below `path` meets an ID of its own path again. */
  predicate WalkEnds(l: Listing, path: seq<nat>)
    requires forall k :: 0 <= k < |path| ==> path[k] < |l|
    requires Repeatless(l, path)
    decreases |l| + 1 - |path|
  {
    RepeatlessIsShort(l, path);
    forall i | 0 <= i < |l| && i in Continuations(l, path) ::
      (forall k :: 0 <= k < |path| ==> l[path[k]].id != l[i].id) && WalkEnds(l, path + [i])
  }

  /** So a caller can decide it beforehand. */
  lemma WalkDecides(l: Listing)
    ensures NoIdTwice(l) <==> WalkEnds(l, [])
  {
    if NoIdTwice(l) {
      EndsIfNoIdTwice(l, []);
    }
    if WalkEnds(l, []) {
      forall path | IsChain(l, path) ensures Repeatless(l, path) {
        RepeatlessIfEnds(l, [], path);
      }
    }
  }

  lemma {:induction false} EndsIfNoIdTwice(l: Listing, path: seq<nat>)
    requires NoIdTwice(l) && IsChain(l, path)
    ensures WalkEnds(l, path)
    decreases |l| + 1 - |path|
  {
    ChainIsShort(l, path);
    forall i: nat | i < |l| && i in Continuations(l, path)
      ensures (forall k :: 0 <= k < |path| ==> l[path[k]].id != l[i].id) && WalkEnds(l, path + [i])
    {
      hide *;
      NewIdBelow(l, path, i);
      EndsIfNoIdTwice(l, path + [i]);
    }
  }

  lemma NewIdBelow(l: Listing, path: seq<nat>, i: nat)
    requires NoIdTwice(l) && IsChain(l, path) && Continues(l, path, i)
    ensures IsChain(l, path + [i]) && |path| < |l|
    ensures forall k :: 0 <= k < |path| ==> l[path[k]].id != l[i].id
  {
    Extend(l, path, i);
    var longer := path + [i];
    assert Repeatless(l, longer);
    assert forall k :: 0 <= k < |path| ==> longer[k] == path[k];
    assert longer[|path|] == i;
  }

  lemma {:induction false} RepeatlessIfEnds(l: Listing, path: seq<nat>, chain: seq<nat>)
    requires IsChain(l, path) && Repeatless(l, path) && WalkEnds(l, path)
    requires IsChain(l, chain) && path <= chain
    ensures Repeatless(l, chain)
    decreases |chain| - |path|
  {
    hide *;
    if |path| == |chain| {
      assert path == chain;
    } else {
      var i := chain[|path|];
      NextOfChain(l, path, chain);
      WalkStep(l, path, i);
      assert path + [i] <= chain;
      RepeatlessIfEnds(l, path + [i], chain);
    }
  }

  lemma NextOfChain(l: Listing, path: seq<nat>, chain: seq<nat>)
    requires IsChain(l, chain) && path < chain
    ensures Continues(l, path, chain[|path|]) && IsChain(l, path + [chain[|path|]])
  {
    assert path + [chain[|path|]] == chain[..|path| + 1];
  }

  lemma WalkStep(l: Listing, path: seq<nat>, i: nat)
    requires IsChain(l, path) && Repeatless(l, path) && WalkEnds(l, path)
    requires Continues(l, path, i) && IsChain(l, path + [i])
    ensures Repeatless(l, path + [i]) && WalkEnds(l, path + [i])
  {
    assert i in Continuations(l, path);
  }

  // Distinct IDs are enough, and more than is needed.

  lemma {:induction false} ChainDistinct(l: Listing, path: seq<nat>, a: nat, b: nat)
    requires DistinctIds(l) && IsChain(l, path) && a < b < |path|
    ensures path[a] != path[b]
  {
    if a > 0 {
      ChainDistinct(l, path, a - 1, b - 1);
      assert l[path[a - 1]].id != l[path[b - 1]].id;
    }
  }

  lemma DistinctIdsAreEnough(l: Listing)
    requires DistinctIds(l)
    ensures NoIdTwice(l)
  {
    forall path, a, b | IsChain(l, path) && 0 <= a < b < |path| ensures l[path[a]].id != l[path[b]].id {
      ChainDistinct(l, path, a, b);
    }
  }

  lemma SecondHasParent(l: Listing, path: seq<nat>)
    requires IsChain(l, path) && |path| > 1
    ensures path[1] < |l| && l[path[1]].parent != ""
  {
  }

  /** Two roots may share an ID. */
  lemma HarmlessRepeat(leaf: Artifact)
    requires leaf.parent == ""
    ensures !DistinctIds([leaf, leaf]) && NoIdTwice([leaf, leaf])
  {
    var l := [leaf, leaf];
    assert l[0].id == l[1].id;
    assert forall i :: 0 <= i < 2 ==> l[i].parent == "";
    forall path | IsChain(l, path) ensures |path| <= 1 {
      if |path| > 1 {
        SecondHasParent(l, path);
      }
    }
  }

  // ---- the code -----------------------------------------------------------

  ghost predicate AreChains(l: Listing, chains: seq<seq<nat>>) {
    forall i :: 0 <= i < |chains| ==> chains[i] != [] && IsChain(l, chains[i])
  }

  ghost function Lines(l: Listing, chains: seq<seq<nat>>): seq<string>
    requires AreChains(l, chains)
  {
    if chains == [] then [] else [ChainLine(l, chains[0])] + Lines(l, chains[1..])
  }

  ghost predicate Grouped(l: Listing, n: nat, children: map<string, seq<nat>>, roots: seq<nat>) {
    && n <= |l|
    && roots == WithParent(l, "", n)
    && "" !in children
    && forall parent :: parent != "" ==>
      (if parent in children then children[parent] else []) == WithParent(l, parent, n)
  }

  /** The loop that groups children under their parent. */
  method Group(l: Listing) returns (children: map<string, seq<nat>>, roots: seq<nat>)
    ensures Grouped(l, |l|, children, roots)
  {
    children, roots := map[], [];
    for i := 0 to |l|
      invariant Grouped(l, i, children, roots)
    {
      var a := l[i];
      if a.parent == "" {
        roots := roots + [i];
      } else {
        var siblings := if a.parent in children then children[a.parent] else [];
        children := children[a.parent := siblings + [i]];
      }
    }
  }

  method RenderArtifactTree(l: Listing) returns (out: seq<string>)
    requires NoIdTwice(l)
    ensures AreChains(l, Chains(l))
    ensures out == Lines(l, Chains(l))
  {
    var children, roots := Group(l);
    WithParentExact(l, "", |l|);
    assert roots == Continuations(l, []);
    assert AllContinue(l, [], roots) by {
      forall k | 0 <= k < |roots| ensures Continues(l, [], roots[k]) { assert roots[k] in roots; }
    }
    assert "  " == Spaces(2) by { assert Spaces(1) == Spaces(0) + " " == " "; }
    out := DrawEach(l, children, [], roots, "  ");
  }

  /** One tree of a forest, then the others. */
  lemma ForestStep(l: Listing, path: seq<nat>, next: seq<nat>)
    requires NoIdTwice(l) && IsChain(l, path) && AllContinue(l, path, next)
    requires next != []
    ensures IsChain(l, path + [next[0]]) && |path| < |l| && AllContinue(l, path, next[1..])
    ensures AreChains(l, Forest(l, path, next))
    ensures AreChains(l, Tree(l, path + [next[0]])) && AreChains(l, Forest(l, path, next[1..]))
    ensures Lines(l, Forest(l, path, next))
         == Lines(l, Tree(l, path + [next[0]])) + Lines(l, Forest(l, path, next[1..]))
  {
    hide IsChain, Lines, NoIdTwice;
    Extend(l, path, next[0]);
    ForestChains(l, path, next[1..]);
    TreeChains(l, path + [next[0]]);
    LinesConcat(l, Tree(l, path + [next[0]]), Forest(l, path, next[1..]));
  }

  /** The loops over the roots and over one artifact's children. */
  method DrawEach(
    l: Listing, children: map<string, seq<nat>>, ghost path: seq<nat>, next: seq<nat>, indent: string)
    returns (out: seq<string>)
    requires NoIdTwice(l) && IsChain(l, path) && Grouped(l, |l|, children, WithParent(l, "", |l|))
    requires AllContinue(l, path, next)
    requires indent == Spaces(2 + 4 * |path|)
    ensures AreChains(l, Forest(l, path, next)) && out == Lines(l, Forest(l, path, next))
    decreases |l| + 1 - |path|, 1
  {
    hide IsChain, Forest, Tree, Continues, Grouped, NoIdTwice;
    out := [];
    ForestChains(l, path, next);
    assert next[0..] == next;
    for n := 0 to |next|
      invariant AllContinue(l, path, next[n..])
      invariant AreChains(l, Forest(l, path, next[n..]))
      invariant out + Lines(l, Forest(l, path, next[n..])) == Lines(l, Forest(l, path, next))
    {
      var c := next[n];
      assert next[n..][0] == c && next[n..][1..] == next[n + 1..];
      ForestStep(l, path, next[n..]);
      var drawn := Draw(l, children, path + [c], c, indent);
      out := out + drawn;
    }
    assert next[|next|..] == [];
    NothingBelow(l, path);
  }

  lemma NothingBelow(l: Listing, path: seq<nat>)
    requires NoIdTwice(l) && IsChain(l, path)
    ensures AllContinue(l, path, []) && Forest(l, path, []) == []
  {
  }

  method Draw(l: Listing, children: map<string, seq<nat>>, ghost path: seq<nat>, a: nat, indent: string)
    returns (out: seq<string>)
    requires NoIdTwice(l) && IsChain(l, path) && Grouped(l, |l|, children, WithParent(l, "", |l|))
    requires path != [] && path[|path| - 1] == a
    requires indent == Spaces(2 + 4 * (|path| - 1))
    ensures AreChains(l, Tree(l, path)) && out == Lines(l, Tree(l, path))
    decreases |l| + 1 - |path|, 2
  {
    hide Forest, Tree, Continuations, Grouped, NoIdTwice, LineOf, Lines;
    out := [LineOf(l[a], indent)];
    var below := if l[a].id in children then children[l[a].id] else [];
    BelowIs(l, children, path);
    FourMore(2 + 4 * (|path| - 1));
    TreeLines(l, path);
    var rest := DrawEach(l, children, path, below, indent + "    ");
    out := out + rest;
  }

  lemma BelowIs(l: Listing, children: map<string, seq<nat>>, path: seq<nat>)
    requires Grouped(l, |l|, children, WithParent(l, "", |l|))
    requires path != [] && path[|path| - 1] < |l|
    ensures var id := l[path[|path| - 1]].id;
      (if id in children then children[id] else []) == Continuations(l, path)
    ensures AllContinue(l, path, Continuations(l, path))
  {
    var next := Continuations(l, path);
    forall k | 0 <= k < |next| ensures Continues(l, path, next[k]) { assert next[k] in next; }
  }

  lemma TreeLines(l: Listing, path: seq<nat>)
    requires NoIdTwice(l) && IsChain(l, path) && path != []
    requires AllContinue(l, path, Continuations(l, path))
    ensures |path| <= |l| && AreChains(l, Tree(l, path)) && AreChains(l, Forest(l, path, Continuations(l, path)))
    ensures Lines(l, Tree(l, path)) == [ChainLine(l, path)] + Lines(l, Forest(l, path, Continuations(l, path)))
  {
    hide LineOf, ChainLine, Forest, Tree, Continuations, Lines, NoIdTwice;
    var below := Forest(l, path, Continuations(l, path));
    TreeUnfold(l, path);
    ForestChains(l, path, Continuations(l, path));
    SingleLine(l, path);
    LinesConcat(l, [path], below);
  }

  lemma SingleLine(l: Listing, path: seq<nat>)
    requires IsChain(l, path) && path != []
    ensures AreChains(l, [path]) && Lines(l, [path]) == [ChainLine(l, path)]
  {
    assert [path][1..] == [];
  }

  lemma TreeUnfold(l: Listing, path: seq<nat>)
    requires NoIdTwice(l) && IsChain(l, path) && AllContinue(l, path, Continuations(l, path))
    ensures |path| <= |l| && Tree(l, path) == [path] + Forest(l, path, Continuations(l, path))
  {
    ChainIsShort(l, path);
  }

  lemma FourMore(n: nat)
    ensures Spaces(n) + "    " == Spaces(n + 4)
  {
    assert Spaces(n + 1) == Spaces(n) + " ";
    assert Spaces(n + 2) == Spaces(n + 1) + " ";
    assert Spaces(n + 3) == Spaces(n + 2) + " ";
    assert Spaces(n + 4) == Spaces(n + 3) + " ";
  }

  lemma {:induction false} LinesConcat(l: Listing, a: seq<seq<nat>>, b: seq<seq<nat>>)
    requires AreChains(l, a) && AreChains(l, b)
    ensures AreChains(l, a + b) && Lines(l, a + b) == Lines(l, a) + Lines(l, b)
  {
    if a == [] {
      assert a + b == b;
    } else {
      assert (a + b)[1..] == a[1..] + b;
      LinesConcat(l, a[1..], b);
    }
  }

  // ---- it is the preorder -------------------------------------------------

  lemma {:induction false} ForestChains(l: Listing, path: seq<nat>, next: seq<nat>)
    requires NoIdTwice(l) && IsChain(l, path)
    requires AllContinue(l, path, next)
    ensures AreChains(l, Forest(l, path, next))
    decreases |l| + 1 - |path|, |next|
  {
    if next != [] {
      Extend(l, path, next[0]);
      TreeChains(l, path + [next[0]]);
      ForestChains(l, path, next[1..]);
    }
  }

  lemma {:induction false} TreeChains(l: Listing, path: seq<nat>)
    requires NoIdTwice(l) && IsChain(l, path) && path != []
    ensures AreChains(l, Tree(l, path))
    decreases |l| + 1 - |path|
  {
    ChainIsShort(l, path);
    ForestChains(l, path, Continuations(l, path));
  }

  lemma {:induction false} ForestComplete(l: Listing, path: seq<nat>, next: seq<nat>, chain: seq<nat>)
    requires NoIdTwice(l) && IsChain(l, path) && IsChain(l, chain)
    requires AllContinue(l, path, next)
    requires path < chain && chain[|path|] in next
    ensures chain in Forest(l, path, next)
    decreases |l| + 1 - |path|, |next|
  {
    Extend(l, path, next[0]);
    if chain[|path|] == next[0] {
      TreeComplete(l, path + [next[0]], chain);
    } else {
      assert chain[|path|] in next[1..];
      ForestComplete(l, path, next[1..], chain);
    }
  }

  lemma {:induction false} TreeComplete(l: Listing, path: seq<nat>, chain: seq<nat>)
    requires NoIdTwice(l) && IsChain(l, path) && IsChain(l, chain)
    requires path != [] && path <= chain
    ensures chain in Tree(l, path)
    decreases |l| + 1 - |path|
  {
    if path != chain {
      ChainIsShort(l, path);
      var k := |path|;
      assert l[chain[k]].parent == l[chain[k - 1]].id && chain[k - 1] == path[k - 1];
      ForestComplete(l, path, Continuations(l, path), chain);
    } else {
      assert Tree(l, path)[0] == path;
    }
  }

  lemma {:induction false} PrefixPrecedes(p: seq<nat>, q: seq<nat>)
    requires p < q
    ensures Precedes(p, q)
  {
    if p != [] {
      PrefixPrecedes(p[1..], q[1..]);
    }
  }

  lemma {:induction false} BranchPrecedes(path: seq<nat>, a: nat, b: nat, p: seq<nat>, q: seq<nat>)
    requires path + [a] <= p && path + [b] <= q && a < b
    ensures Precedes(p, q)
  {
    if path == [] {
      assert p[0] == ([] + [a])[0] && q[0] == ([] + [b])[0];
    } else {
      assert p[0] == (path + [a])[0] && q[0] == (path + [b])[0];
      assert path[1..] + [a] == (path + [a])[1..] && path[1..] + [b] == (path + [b])[1..];
      BranchPrecedes(path[1..], a, b, p[1..], q[1..]);
    }
  }

  ghost predicate InOrder(chains: seq<seq<nat>>) {
    forall i, j :: 0 <= i < j < |chains| ==> Precedes(chains[i], chains[j])
  }

  ghost predicate AllBelow(path: seq<nat>, next: seq<nat>, chains: seq<seq<nat>>) {
    forall i :: 0 <= i < |chains| ==> path < chains[i] && chains[i][|path|] in next
  }

  lemma {:induction false} ForestInOrder(l: Listing, path: seq<nat>, next: seq<nat>)
    requires NoIdTwice(l) && IsChain(l, path)
    requires AllContinue(l, path, next)
    requires Ascending(next)
    ensures InOrder(Forest(l, path, next)) && AllBelow(path, next, Forest(l, path, next))
    decreases |l| + 1 - |path|, |next|
  {
    hide IsChain, Continuations, NoIdTwice, Precedes;
    if next != [] {
      Extend(l, path, next[0]);
      var first, others := Tree(l, path + [next[0]]), Forest(l, path, next[1..]);
      TreeInOrder(l, path + [next[0]]);
      ForestInOrder(l, path, next[1..]);
      SiblingsInOrder(path, next, first, others);
    }
  }

  lemma SiblingsInOrder(path: seq<nat>, next: seq<nat>, first: seq<seq<nat>>, others: seq<seq<nat>>)
    requires next != [] && Ascending(next)
    requires InOrder(first) && forall i :: 0 <= i < |first| ==> path + [next[0]] <= first[i]
    requires InOrder(others) && AllBelow(path, next[1..], others)
    ensures InOrder(first + others) && AllBelow(path, next, first + others)
  {
    forall i, j | 0 <= i < |first| && 0 <= j < |others| ensures Precedes(first[i], others[j]) {
      var b := others[j][|path|];
      assert path + [b] <= others[j];
      BranchPrecedes(path, next[0], b, first[i], others[j]);
    }
    Joined(first, others);
    forall i | 0 <= i < |first| ensures path < first[i] && first[i][|path|] in next {
      assert path + [next[0]] <= first[i];
      assert (path + [next[0]])[|path|] == next[0];
    }
  }

  lemma Joined(a: seq<seq<nat>>, b: seq<seq<nat>>)
    requires InOrder(a) && InOrder(b)
    requires forall i, j :: 0 <= i < |a| && 0 <= j < |b| ==> Precedes(a[i], b[j])
    ensures InOrder(a + b)
  {
  }

  lemma {:induction false} TreeInOrder(l: Listing, path: seq<nat>)
    requires NoIdTwice(l) && IsChain(l, path) && path != []
    ensures InOrder(Tree(l, path))
    ensures forall i :: 0 <= i < |Tree(l, path)| ==> path <= Tree(l, path)[i]
    decreases |l| + 1 - |path|
  {
    ChainIsShort(l, path);
    var below := Forest(l, path, Continuations(l, path));
    ForestInOrder(l, path, Continuations(l, path));
    forall j | 0 <= j < |below| ensures Precedes(path, below[j]) {
      PrefixPrecedes(path, below[j]);
    }
    Joined([path], below);
  }

  /** The printed chains are the preorder of the listing's chains. */
  lemma PrintsPreorder(l: Listing)
    requires NoIdTwice(l)
    ensures IsPreorder(l, Chains(l))
  {
    var next := Continuations(l, []);
    ForestChains(l, [], next);
    ForestInOrder(l, [], next);
    forall path: seq<nat> | path != [] && IsChain(l, path) ensures path in Chains(l) {
      ForestComplete(l, [], next, path);
    }
  }

  lemma {:induction false} PrecedesIrreflexive(p: seq<nat>, q: seq<nat>)
    requires Precedes(p, q)
    ensures p != q && !Precedes(q, p)
  {
    if p != [] && p[0] == q[0] {
      PrecedesIrreflexive(p[1..], q[1..]);
    }
  }

  lemma {:induction false} ChainDeterminedByEnd(l: Listing, p: seq<nat>, q: seq<nat>)
    requires DistinctIds(l) && IsChain(l, p) && IsChain(l, q) && p != [] && q != []
    requires p[|p| - 1] == q[|q| - 1]
    ensures p == q
  {
    var m, n := |p| - 1, |q| - 1;
    if m > 0 && n > 0 {
      assert l[p[m - 1]].id == l[q[n - 1]].id;
      ChainDeterminedByEnd(l, p[..m], q[..n]);
      assert p == p[..m] + [p[m]] && q == q[..n] + [q[n]];
    }
  }

  /** How often artifact i is printed. */
  ghost function Printings(chains: seq<seq<nat>>, i: nat): set<nat>
    requires forall k :: 0 <= k < |chains| ==> chains[k] != []
  {
    set k | 0 <= k < |chains| && chains[k][|chains[k]| - 1] == i
  }

  /** Exactly the artifacts whose parent links lead to a root are printed: cycles and orphans are not. */
  lemma PrintedIfReached(l: Listing, i: nat)
    requires NoIdTwice(l)
    ensures IsPreorder(l, Chains(l))
    ensures Printings(Chains(l), i) != {} <==> exists path :: IsChain(l, path) && path != [] && path[|path| - 1] == i
  {
    hide Chains, Precedes, NoIdTwice;
    PrintsPreorder(l);
    var chains := Chains(l);
    var at := Printings(chains, i);
    if k :| k in at {
      assert IsChain(l, chains[k]);
    }
    if path :| IsChain(l, path) && path != [] && path[|path| - 1] == i {
      var k :| 0 <= k < |chains| && chains[k] == path;
      assert k in at;
    }
  }

  /** With distinct IDs each of them is printed once. */
  lemma PrintedOnce(l: Listing, i: nat)
    requires DistinctIds(l)
    ensures NoIdTwice(l) && IsPreorder(l, Chains(l))
    ensures |Printings(Chains(l), i)| <= 1
  {
    DistinctIdsAreEnough(l);
    hide Chains, Precedes, DistinctIds, NoIdTwice;
    PrintsPreorder(l);
    var chains := Chains(l);
    var at := Printings(chains, i);
    forall j, k | j in at && k in at ensures j == k {
      ChainDeterminedByEnd(l, chains[j], chains[k]);
      if j < k { PrecedesIrreflexive(chains[j], chains[k]); }
      if k < j { PrecedesIrreflexive(chains[k], chains[j]); }
    }
    AtMostOne(at);
  }

  lemma AtMostOne(s: set<nat>)
    requires forall j, k :: j in s && k in s ==> j == k
    ensures |s| <= 1
  {
    if s != {} {
      var k :| k in s;
      assert s == {k};
    }
  }

  /** With a repeated ID there are chains of every length, so the recursion would not end. */
  lemma {:induction false} RepeatedIdNeverEnds(root: Artifact, n: nat) returns (l: Listing, path: seq<nat>)
    requires root.parent == "" && root.id != ""
    ensures l == [root, root.(parent := root.id)]
    ensures IsChain(l, path) && |path| == n
  {
    l := [root, root.(parent := root.id)];
    path := seq(n, k => if k == 0 then 0 else 1);
  }
}
