/**
 * `Fingerprint` in deploy/chartstage/stage.go, up to the bytes it feeds to the
 * running hash.
 */
module Fingerprint {
  import opened Text
  import opened Sequences

  /** What the walk meets: a directory, or a file under its full path. */
  datatype DirEntry = DirEntry(path: string, isDir: bool)

  /** A staged tree: file contents by path relative to the staged directory. */
  type Tree = map<string, string>

  const NUL: char := 0 as char
  const CR: char := 13 as char
  const LF: char := 10 as char

  /** bytes.ReplaceAll(b, "\r\n", "\n") */
  function Normalise(b: string): string {
    if b == [] then []
    else if |b| >= 2 && b[0] == CR && b[1] == LF then [LF] + Normalise(b[2..])
    else [b[0]] + Normalise(b[1..])
  }

  // ---- specification ------------------------------------------------------

  /** One file as it is written to the hash. */
  function Frame(path: string, body: string): string {
    path + ([NUL] + (Digits(|body|) + ([NUL] + body)))
  }

  function Frames(entries: seq<(string, string)>): string {
    if entries == [] then ""
    else Frame(entries[0].0, entries[0].1) + Frames(entries[1..])
  }

  function Entries(listing: seq<string>, tree: Tree): seq<(string, string)>
    requires forall p :: p in listing ==> p in tree
  {
    seq(|listing|, i requires 0 <= i < |listing| => (listing[i], Normalise(tree[listing[i]])))
  }

  ghost function SortedPaths(tree: Tree): (s: seq<string>)
    ensures forall x :: x in s <==> x in tree
  {
    var s := Sort(Enumerate(tree.Keys), Le);
    SameElements(s, Enumerate(tree.Keys));
    s
  }

  /** The byte stream of a tree. */
  ghost function Canonical(tree: Tree): string {
    Frames(Entries(SortedPaths(tree), tree))
  }

  function Normalised(tree: Tree): Tree {
    map p | p in tree :: Normalise(tree[p])
  }

  // ---- the code -----------------------------------------------------------

  function Files(walk: seq<DirEntry>): seq<string> {
    if walk == [] then []
    else (if walk[0].isDir then [] else [walk[0].path]) + Files(walk[1..])
  }

  /** What filepath.Join puts before a name below the (clean) directory `dir`. */
  function Under(dir: string): (prefix: string)
    ensures prefix == "" || prefix[|prefix| - 1] == '/'
  {
    if dir == "" || dir == "." then ""
    else if dir[|dir| - 1] == '/' then dir
    else dir + "/"
  }

  /** `files` by path relative to the directory whose names start with `prefix`. */
  function Relative(prefix: string, files: Tree): (r: Tree)
    requires forall p :: p in files ==> prefix <= p
    ensures forall q :: q in r <==> prefix + q in files
    ensures forall q :: q in r ==> r[q] == files[prefix + q]
  {
    var rels := set p | p in files :: p[|prefix|..];
    assert forall p :: p in files ==> prefix + p[|prefix|..] == p;
    assert forall q :: (prefix + q)[|prefix|..] == q;
    map q | q in rels :: files[prefix + q]
  }

  /** The walk meets each of `files` once, whatever directories it meets. */
  ghost predicate IsWalk(walk: seq<DirEntry>, prefix: string, files: Tree) {
    && (forall i, j :: 0 <= i < j < |walk| && !walk[i].isDir && !walk[j].isDir ==> walk[i].path != walk[j].path)
    && (forall p :: p in files <==> DirEntry(p, false) in walk)
    && forall p :: p in files ==> prefix <= p
  }

  lemma {:induction false} FilesExact(walk: seq<DirEntry>)
    ensures forall p :: p in Files(walk) <==> DirEntry(p, false) in walk
    ensures (forall i, j :: 0 <= i < j < |walk| && !walk[i].isDir && !walk[j].isDir ==> walk[i].path != walk[j].path)
      ==> NoDuplicates(Files(walk))
  {
    if walk != [] {
      FilesExact(walk[1..]);
      assert walk == [walk[0]] + walk[1..];
      if !walk[0].isDir && DirEntry(walk[0].path, false) in walk[1..] {
        var j :| 0 <= j < |walk[1..]| && walk[1..][j] == DirEntry(walk[0].path, false);
        assert walk[j + 1] == walk[1..][j];
      }
    }
  }

  /** Where a walk of the clean directory `dir` finds a tree that was put below it. */
  ghost predicate PlacedAt(dir: string, tree: Tree, files: Tree) {
    if dir == "" || dir == "." then files == tree
    else if dir == "/" then
      && (forall p :: p in files <==> exists q :: q in tree && p == "/" + q)
      && forall q :: q in tree ==> files["/" + q] == tree[q]
    else
      && dir[|dir| - 1] != '/'
      && (forall p :: p in files <==> exists q :: q in tree && p == dir + "/" + q)
      && forall q :: q in tree ==> files[dir + "/" + q] == tree[q]
  }

  /** Wherever a tree is put, the paths relative to the place are its own. */
  lemma RelativeIsTree(dir: string, tree: Tree, files: Tree)
    requires PlacedAt(dir, tree, files)
    ensures forall p :: p in files ==> Under(dir) <= p
    ensures Relative(Under(dir), files) == tree
  {
    hide Relative;
    if dir == "" || dir == "." {
      assert forall q :: "" + q == q;
      RelativeOf("", tree, files);
    } else if dir == "/" {
      RelativeOf("/", tree, files);
    } else {
      RelativeOf(dir + "/", tree, files);
    }
  }

  lemma RelativeOf(prefix: string, tree: Tree, files: Tree)
    requires forall p :: p in files <==> exists q :: q in tree && p == prefix + q
    requires forall q :: q in tree ==> prefix + q in files && files[prefix + q] == tree[q]
    ensures forall p :: p in files ==> prefix <= p
    ensures Relative(prefix, files) == tree
  {
    var rel := Relative(prefix, files);
    forall q | q in rel ensures q in tree {
      var q' :| q' in tree && prefix + q == prefix + q';
      assert q == (prefix + q)[|prefix|..] == (prefix + q')[|prefix|..] == q';
    }
  }

  /** The WalkDir callback over a whole walk. */
  method CollectFiles(walk: seq<DirEntry>) returns (paths: seq<string>)
    ensures paths == Files(walk)
  {
    paths := [];
    for i := 0 to |walk|
      invariant paths + Files(walk[i..]) == Files(walk)
    {
      assert walk[i..][1..] == walk[i + 1..];
      if !walk[i].isDir {
        paths := paths + [walk[i].path];
      }
    }
    assert walk[|walk|..] == [];
  }

  /**
   * The stream depends on the tree below `dir` alone: not on where the tree is,
   * not on the order of the walk, not on the directories met.
   */
  method Fingerprint(dir: string, files: Tree, walk: seq<DirEntry>) returns (stream: string)
    requires IsWalk(walk, Under(dir), files)
    ensures stream == Canonical(Relative(Under(dir), files))
    ensures forall tree :: PlacedAt(dir, tree, files) ==> stream == Canonical(tree)
  {
    forall tree | PlacedAt(dir, tree, files) ensures Relative(Under(dir), files) == tree {
      RelativeIsTree(dir, tree, files);
    }
    var prefix := Under(dir);
    var paths := CollectFiles(walk);
    SortedFiles(walk, prefix, files);
    paths := Sort(paths, Le);
    ghost var rels := SortedPaths(Relative(prefix, files));
    ghost var entries := Entries(rels, Relative(prefix, files));
    forall i | 0 <= i < |paths| ensures EntryFor(prefix, files, paths[i], entries[i]) {
      EntryOfPath(prefix, files, paths, rels, i);
    }
    stream := WriteFiles(prefix, files, paths, entries);
  }

  ghost predicate EntryFor(prefix: string, files: Tree, path: string, entry: (string, string)) {
    && |prefix| <= |path| && path in files
    && entry == (path[|prefix|..], Normalise(files[path]))
  }

  /** The loop that writes each file to the running hash. */
  method WriteFiles(prefix: string, files: Tree, paths: seq<string>, ghost entries: seq<(string, string)>)
    returns (stream: string)
    requires |entries| == |paths|
    requires forall i :: 0 <= i < |paths| ==> EntryFor(prefix, files, paths[i], entries[i])
    ensures stream == Frames(entries)
  {
    stream := "";
    assert entries[0..] == entries;
    for i := 0 to |paths|
      invariant stream + Frames(entries[i..]) == Frames(entries)
    {
      assert EntryFor(prefix, files, paths[i], entries[i]);
      var rel := paths[i][|prefix|..];
      var b := Normalise(files[paths[i]]);
      FrameAppended(stream, entries, i);
      stream := stream + rel + [NUL] + Digits(|b|) + [NUL];
      stream := stream + b;
    }
    assert entries[|paths|..] == [];
  }

  lemma EntryOfPath(prefix: string, files: Tree, paths: seq<string>, rels: seq<string>, i: nat)
    requires forall p :: p in files ==> prefix <= p
    requires AreRelative(rels, prefix, paths) && i < |paths|
    requires forall q :: q in rels ==> q in Relative(prefix, files)
    ensures EntryFor(prefix, files, paths[i], Entries(rels, Relative(prefix, files))[i])
  {
    assert rels[i] in Relative(prefix, files);
    assert paths[i][|prefix|..] == rels[i];
  }

  lemma FrameAppended(before: string, entries: seq<(string, string)>, i: nat)
    requires i < |entries|
    ensures var (rel, b) := entries[i];
      before + rel + [NUL] + Digits(|b|) + [NUL] + b + Frames(entries[i + 1..]) == before + Frames(entries[i..])
  {
    var (rel, b) := entries[i];
    assert entries[i..][1..] == entries[i + 1..];
    assert before + rel + [NUL] + Digits(|b|) + [NUL] + b == before + Frame(rel, b);
  }

  /** `rels` are the relative paths of `paths`, one for one. */
  ghost predicate AreRelative(rels: seq<string>, prefix: string, paths: seq<string>) {
    |rels| == |paths| && forall i :: 0 <= i < |rels| ==> paths[i] == prefix + rels[i]
  }

  /** Sorting full paths is sorting relative paths. */
  lemma RelativeSorted(prefix: string, paths: seq<string>, rels: seq<string>)
    requires AreRelative(rels, prefix, paths)
    requires Sorted(paths, Le) && NoDuplicates(paths)
    ensures Sorted(rels, Le) && NoDuplicates(rels)
  {
    forall i, j | 0 <= i < j < |rels| ensures Le(rels[i], rels[j]) && rels[i] != rels[j] {
      assert Le(paths[i], paths[j]);
      LePrefix(prefix, rels[i], rels[j]);
    }
  }

  lemma SortedFiles(walk: seq<DirEntry>, prefix: string, files: Tree)
    requires IsWalk(walk, prefix, files)
    ensures AreRelative(SortedPaths(Relative(prefix, files)), prefix, Sort(Files(walk), Le))
  {
    var found := Files(walk);
    FilesExact(walk);
    var paths, tree := Sort(found, Le), Relative(prefix, files);
    SameElements(found, paths);
    PermutationKeepsNoDuplicates(found, paths);
    SortStrings(found);
    forall i | 0 <= i < |paths| ensures prefix <= paths[i] {
      assert paths[i] in found && paths[i] in files;
    }
    var rels := seq(|paths|, i requires 0 <= i < |paths| => paths[i][|prefix|..]);
    RelativeSorted(prefix, paths, rels);
    ListsTree(prefix, files, paths, rels);
    SortedListing(rels, tree);
  }

  lemma ListsTree(prefix: string, files: Tree, paths: seq<string>, rels: seq<string>)
    requires AreRelative(rels, prefix, paths)
    requires forall p :: p in files ==> prefix <= p
    requires forall p :: p in paths <==> p in files
    ensures forall q :: q in rels <==> q in Relative(prefix, files)
  {
    var tree := Relative(prefix, files);
    forall q ensures q in rels <==> q in tree {
      if q in tree {
        var i :| 0 <= i < |paths| && paths[i] == prefix + q;
        assert rels[i] == q;
      }
      if q in rels {
        var i :| 0 <= i < |rels| && rels[i] == q;
        assert paths[i] in files;
      }
    }
  }

  lemma SortedListing(listing: seq<string>, tree: Tree)
    requires Sorted(listing, Le) && NoDuplicates(listing)
    requires forall q :: q in listing <==> q in tree
    ensures listing == SortedPaths(tree)
  {
    var keys := Enumerate(tree.Keys);
    SameSetSameMultiset(listing, keys);
    SortStrings(keys);
    SortedStringsUnique(listing, Sort(keys, Le));
  }

  // ---- the framing is uniquely decodable ----------------------------------

  predicate NulFree(s: string) {
    0 as char !in s
  }

  /** No path holds a NUL byte, which POSIX promises. */
  ghost predicate TreeNulFree(tree: Tree) {
    forall p :: p in tree ==> NulFree(p)
  }

  lemma SplitAtNul(a: string, x: string, b: string, y: string)
    requires NulFree(a) && NulFree(b)
    requires a + ([NUL] + x) == b + ([NUL] + y)
    ensures a == b && x == y
  {
    var s := a + ([NUL] + x);
    assert forall i :: 0 <= i < |a| ==> s[i] == a[i] != NUL;
    assert forall i :: 0 <= i < |b| ==> s[i] == b[i] != NUL;
    assert s[|a|] == NUL && s[|b|] == NUL;
    assert a == s[..|a|] && b == s[..|b|];
    assert x == s[|a| + 1..] && y == s[|b| + 1..];
  }

  lemma DigitsNulFree(n: nat)
    ensures NulFree(Digits(n))
  {
    assert AllDigits(Digits(n));
  }

  lemma FrameDecodes(p: string, b: string, s: string, p': string, b': string, s': string)
    requires NulFree(p) && NulFree(p')
    requires Frame(p, b) + s == Frame(p', b') + s'
    ensures p == p' && b == b' && s == s'
  {
    var n, n' := Digits(|b|), Digits(|b'|);
    assert Frame(p, b) + s == p + ([NUL] + (n + ([NUL] + (b + s))));
    assert Frame(p', b') + s' == p' + ([NUL] + (n' + ([NUL] + (b' + s'))));
    SplitAtNul(p, n + ([NUL] + (b + s)), p', n' + ([NUL] + (b' + s')));
    DigitsNulFree(|b|);
    DigitsNulFree(|b'|);
    SplitAtNul(n, b + s, n', b' + s');
    DigitsInjective(|b|, |b'|);
    assert b == (b + s)[..|b|] && s == (b + s)[|b|..];
    assert b' == (b' + s')[..|b|] && s' == (b' + s')[|b|..];
  }

  ghost predicate PathsNulFree(entries: seq<(string, string)>) {
    forall i :: 0 <= i < |entries| ==> NulFree(entries[i].0)
  }

  lemma FramesEmpty(entries: seq<(string, string)>)
    ensures Frames(entries) == "" <==> entries == []
  {
  }

  /** One stream has one reading: the contents cannot imitate a frame boundary. */
  lemma {:induction false} FramesDecode(a: seq<(string, string)>, b: seq<(string, string)>)
    requires PathsNulFree(a) && PathsNulFree(b)
    requires Frames(a) == Frames(b)
    ensures a == b
  {
    FramesEmpty(a);
    FramesEmpty(b);
    if a != [] {
      FrameDecodes(a[0].0, a[0].1, Frames(a[1..]), b[0].0, b[0].1, Frames(b[1..]));
      FramesDecode(a[1..], b[1..]);
      assert a == [a[0]] + a[1..] && b == [b[0]] + b[1..];
    }
  }

  /** Two trees give the same stream exactly when they hold the same normalised files. */
  lemma StreamIsCanonical(t: Tree, u: Tree)
    requires TreeNulFree(t) && TreeNulFree(u)
    ensures Canonical(t) == Canonical(u) <==> Normalised(t) == Normalised(u)
  {
    if Canonical(t) == Canonical(u) {
      SameStreamSameFiles(t, u);
    }
    if Normalised(t) == Normalised(u) {
      SameFilesSameStream(t, u);
    }
  }

  lemma SameFilesSameStream(t: Tree, u: Tree)
    requires Normalised(t) == Normalised(u)
    ensures Canonical(t) == Canonical(u)
  {
    SameKeys(t, u);
    var paths := SortedPaths(t);
    EntriesOfNormalised(paths, t);
    EntriesOfNormalised(paths, u);
    assert Entries(paths, t) == Entries(paths, u);
  }

  lemma SameKeys(t: Tree, u: Tree)
    requires Normalised(t) == Normalised(u)
    ensures t.Keys == u.Keys && SortedPaths(t) == SortedPaths(u)
  {
    assert t.Keys == Normalised(t).Keys;
    assert u.Keys == Normalised(u).Keys;
  }

  lemma EntriesOfNormalised(listing: seq<string>, tree: Tree)
    requires forall p :: p in listing ==> p in tree
    ensures |Entries(listing, tree)| == |listing|
    ensures forall i :: 0 <= i < |listing| ==>
      Entries(listing, tree)[i] == (listing[i], Normalised(tree)[listing[i]])
  {
  }

  lemma SameStreamSameFiles(t: Tree, u: Tree)
    requires TreeNulFree(t) && TreeNulFree(u)
    requires Canonical(t) == Canonical(u)
    ensures Normalised(t) == Normalised(u)
  {
    var lt, lu := SortedPaths(t), SortedPaths(u);
    PathsOfEntries(lt, t);
    PathsOfEntries(lu, u);
    FramesDecode(Entries(lt, t), Entries(lu, u));
    SameEntriesSameFiles(lt, t, lu, u);
  }

  lemma SameEntriesSameFiles(lt: seq<string>, t: Tree, lu: seq<string>, u: Tree)
    requires forall p :: p in lt <==> p in t
    requires forall p :: p in lu <==> p in u
    requires Entries(lt, t) == Entries(lu, u)
    ensures Normalised(t) == Normalised(u)
  {
    EntriesOfNormalised(lt, t);
    EntriesOfNormalised(lu, u);
    var et, eu := Entries(lt, t), Entries(lu, u);
    forall i | 0 <= i < |lt| ensures lt[i] == lu[i] && Normalised(t)[lt[i]] == Normalised(u)[lt[i]] {
      assert et[i] == eu[i];
    }
    assert lt == lu;
  }

  lemma PathsOfEntries(listing: seq<string>, tree: Tree)
    requires forall p :: p in listing ==> p in tree
    requires TreeNulFree(tree)
    ensures PathsNulFree(Entries(listing, tree))
  {
    forall i | 0 <= i < |listing| ensures NulFree(Entries(listing, tree)[i].0) {
      assert listing[i] in tree;
    }
  }

  // ---- line endings -------------------------------------------------------

  /**
   * What a checkout with core.autocrlf on writes for a file it converts: an LF
   * gains a CR unless it has one.
   */
  function Checkout(b: string): (r: string)
    ensures r != [] ==> r[0] != LF
  {
    if b == [] then []
    else if |b| >= 2 && b[0] == CR && b[1] == LF then [CR, LF] + Checkout(b[2..])
    else if b[0] == LF then [CR, LF] + Checkout(b[1..])
    else [b[0]] + Checkout(b[1..])
  }

  predicate Contains(s: string, part: string) {
    part <= s || (s != [] && Contains(s[1..], part))
  }

  /** A file and its checkout normalise to the same bytes, whatever line endings it mixes. */
  lemma {:induction false} NormaliseForgetsCheckout(b: string)
    ensures Normalise(Checkout(b)) == Normalise(b)
  {
    if b == [] {
    } else if |b| >= 2 && b[0] == CR && b[1] == LF {
      NormaliseForgetsCheckout(b[2..]);
      assert Checkout(b)[2..] == Checkout(b[2..]);
    } else if b[0] == LF {
      NormaliseForgetsCheckout(b[1..]);
      assert Checkout(b)[2..] == Checkout(b[1..]);
    } else {
      NormaliseForgetsCheckout(b[1..]);
      assert Checkout(b)[1..] == Checkout(b[1..]);
    }
  }

  lemma {:induction false} NormaliseShortens(b: string)
    ensures |Normalise(b)| <= |b|
    ensures Normalise(b) == b <==> !Contains(b, [CR, LF])
  {
    if b == [] {
    } else if |b| >= 2 && b[0] == CR && b[1] == LF {
      NormaliseShortens(b[2..]);
      assert [CR, LF] <= b;
    } else {
      NormaliseShortens(b[1..]);
      assert b == [b[0]] + b[1..];
      assert Normalise(b)[1..] == Normalise(b[1..]);
    }
  }

  /** Byte by byte: a CR goes exactly when an LF follows it. */
  function WithoutCrBeforeLf(b: string): string {
    if b == [] then []
    else (if |b| >= 2 && b[0] == '\r' && b[1] == '\n' then [] else [b[0]]) + WithoutCrBeforeLf(b[1..])
  }

  lemma {:induction false} NormaliseIsByteWise(b: string)
    ensures Normalise(b) == WithoutCrBeforeLf(b)
  {
    if b == [] {
    } else if |b| >= 2 && b[0] == CR && b[1] == LF {
      NormaliseIsByteWise(b[2..]);
      assert b[1..][1..] == b[2..];
      assert WithoutCrBeforeLf(b[1..]) == [LF] + WithoutCrBeforeLf(b[2..]);
    } else {
      NormaliseIsByteWise(b[1..]);
    }
  }

  /** A tree some of whose files were converted, as .gitattributes may have it. */
  function CheckedOut(tree: Tree, converted: set<string>): Tree {
    map p | p in tree :: if p in converted then Checkout(tree[p]) else tree[p]
  }

  /** No checkout, of all files or of some, changes the stream. */
  lemma CheckoutKeepsStream(t: Tree, converted: set<string>)
    ensures Canonical(CheckedOut(t, converted)) == Canonical(t)
  {
    NormalisedCheckout(t, converted);
    SameFilesSameStream(CheckedOut(t, converted), t);
  }

  lemma NormalisedCheckout(t: Tree, converted: set<string>)
    ensures Normalised(CheckedOut(t, converted)) == Normalised(t)
  {
    forall p | p in t ensures Normalised(CheckedOut(t, converted))[p] == Normalised(t)[p] {
      NormaliseForgetsCheckout(t[p]);
    }
  }

  lemma {:induction false} PairsLeft(b: string)
    ensures Normalise(b) != [] ==> (Normalise(b)[0] == LF <==> b[0] == LF || [CR, LF] <= b)
    ensures Contains(Normalise(b), [CR, LF]) <==> Contains(b, [CR, CR, LF])
  {
    if b == [] {
    } else if |b| >= 2 && b[0] == CR && b[1] == LF {
      PairsLeft(b[2..]);
      assert Normalise(b)[1..] == Normalise(b[2..]);
      assert b[1..][1..] == b[2..];
    } else {
      PairsLeft(b[1..]);
      assert Normalise(b)[1..] == Normalise(b[1..]);
      assert b == [b[0]] + b[1..];
      assert Normalise(b) == [b[0]] + Normalise(b[1..]);
      if [CR, CR, LF] <= b {
        assert [CR, LF] <= b[1..];
        assert Normalise(b[1..])[0] == LF;
        assert [CR, LF] <= Normalise(b);
      }
      if [CR, LF] <= Normalise(b) {
        assert Normalise(b[1..])[0] == LF;
        assert [CR, CR, LF] <= b;
      }
    }
  }

  /** One pass is a fixed point exactly for files without CR CR LF. */
  lemma {:induction false} NormaliseTwice(b: string)
    ensures Normalise(Normalise(b)) == Normalise(b) <==> !Contains(b, [CR, CR, LF])
  {
    NormaliseShortens(Normalise(b));
    PairsLeft(b);
  }

  lemma NormaliseTwiceDiffers()
    ensures Normalise([CR, CR, LF]) == [CR, LF] && Normalise([CR, LF]) == [LF]
  {
    var pair := [CR, LF];
    assert pair[2..] == [];
    assert Normalise(pair) == [LF] + Normalise([]) == [LF];
    assert [CR, CR, LF][1..] == pair;
    assert Normalise([CR, CR, LF]) == [CR] + Normalise(pair);
  }
}
