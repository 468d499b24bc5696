/**
 * `wrap` in cmd/transferctl/calibrate_render.go: the greedy line breaker.
 *
 * Widths are bytes, as len and strings.Builder.Len count them.
 */
module LineBreaker {
  import opened Text
  import opened Sequences

  // ---- words --------------------------------------------------------------

  predicate IsWord(w: string) {
    w != [] && forall i :: 0 <= i < |w| ==> !IsSpace(w[i])
  }

  predicate AreWords(ws: seq<string>) {
    forall i :: 0 <= i < |ws| ==> IsWord(ws[i])
  }

  /** How many leading bytes of s are not white space. */
  function RunLength(s: string): (k: nat)
    ensures k <= |s|
    ensures forall i :: 0 <= i < k ==> !IsSpace(s[i])
    ensures k < |s| ==> IsSpace(s[k])
  {
    if s == [] || IsSpace(s[0]) then 0 else 1 + RunLength(s[1..])
  }

  /** strings.Fields */
  function Fields(s: string): (ws: seq<string>)
    ensures AreWords(ws)
  {
    if s == [] then []
    else if IsSpace(s[0]) then Fields(s[1..])
    else
      var k := RunLength(s);
      [s[..k]] + Fields(s[k..])
  }

  /** The words on one line, one blank between neighbours. */
  function Join(ws: seq<string>): string {
    if ws == [] then ""
    else if |ws| == 1 then ws[0]
    else Join(ws[..|ws| - 1]) + " " + ws[|ws| - 1]
  }

  // ---- specification ------------------------------------------------------

  /** A line may be printed when it fits, or when it is a single word. */
  predicate Printable(line: seq<string>, width: int) {
    line != [] && (|line| == 1 || |Join(line)| <= width)
  }

  /** A way to break `words` into consecutive printable lines. */
  ghost predicate IsSplit(split: seq<seq<string>>, words: seq<string>, width: int) {
    && Flatten(split) == words
    && forall i :: 0 <= i < |split| ==> Printable(split[i], width)
  }

  /** The lines still to come when `line` is being filled and `rest` is unread. */
  function Greedy(line: seq<string>, rest: seq<string>, width: int): seq<seq<string>>
    decreases |rest|
  {
    if rest == [] then
      if line == [] then [] else [line]
    else if line != [] && |Join(line)| + 1 + |rest[0]| > width then
      [line] + Greedy([rest[0]], rest[1..], width)
    else
      Greedy(line + [rest[0]], rest[1..], width)
  }

  function Render(split: seq<seq<string>>): seq<string> {
    if split == [] then [] else [Join(split[0])] + Render(split[1..])
  }

  function Wrapped(s: string, width: int): seq<string> {
    Render(Greedy([], Fields(s), width))
  }

  // ---- the code -----------------------------------------------------------

  method Wrap(s: string, width: int) returns (lines: seq<string>)
    ensures lines == Wrapped(s, width)
  {
    var words := Fields(s);
    lines := [];
    if |words| == 0 {
      return;
    }
    var line := "";
    ghost var filling: seq<string> := [];
    hide *;
    NoWordsYet();
    for i := 0 to |words|
      invariant AreWords(filling) && line == Join(filling)
      invariant lines + ToCome(filling, words, i, width) == ToCome([], words, 0, width)
    {
      var word := words[i];
      WordAt(words, i);
      JoinEmptyOnlyForNoWords(filling);
      GreedyStep(filling, words, i, width);
      if |line| > 0 && |line| + 1 + |word| > width {
        Associative(lines, line, ToCome([] + [word], words, i + 1, width));
        lines := lines + [line];
        line := "";
        filling := [];
      }
      if |line| > 0 {
        line := line + " ";
      }
      line := line + word;
      JoinAppend(filling, word);
      filling := filling + [word];
    }
    JoinEmptyOnlyForNoWords(filling);
    GreedyEnd(filling, words, width);
    if |line| > 0 {
      lines := lines + [line];
    }
    WholeText(s, words, width);
  }

  /** The lines still to be printed when word i is next. */
  ghost function ToCome(filling: seq<string>, words: seq<string>, i: nat, width: int): seq<string>
    requires i <= |words|
  {
    Render(Greedy(filling, words[i..], width))
  }

  lemma Associative(a: seq<string>, x: string, b: seq<string>)
    ensures a + ([x] + b) == (a + [x]) + b
  {
  }

  lemma GreedyStep(filling: seq<string>, words: seq<string>, i: nat, width: int)
    requires i < |words|
    ensures var word := words[i];
      ToCome(filling, words, i, width) ==
        if filling != [] && |Join(filling)| + 1 + |word| > width
        then [Join(filling)] + ToCome([] + [word], words, i + 1, width)
        else ToCome(filling + [word], words, i + 1, width)
  {
    assert words[i..] == [words[i]] + words[i + 1..];
    assert [] + [words[i]] == [words[i]];
  }

  lemma GreedyEnd(filling: seq<string>, words: seq<string>, width: int)
    ensures ToCome(filling, words, |words|, width) == if filling == [] then [] else [Join(filling)]
  {
    assert words[|words|..] == [];
    assert filling != [] ==> Render([filling]) == [Join(filling)] + Render([]);
  }

  lemma WholeText(s: string, words: seq<string>, width: int)
    requires words == Fields(s)
    ensures ToCome([], words, 0, width) == Wrapped(s, width)
  {
    assert words[0..] == words;
  }

  lemma NoWordsYet()
    ensures AreWords([]) && Join([]) == ""
  {
  }

  lemma JoinAppend(ws: seq<string>, word: string)
    ensures Join(ws + [word]) == if ws == [] then word else Join(ws) + " " + word
    ensures AreWords(ws) && IsWord(word) ==> AreWords(ws + [word])
  {
    assert (ws + [word])[..|ws|] == ws;
  }

  lemma WordAt(ws: seq<string>, i: nat)
    requires AreWords(ws) && i < |ws|
    ensures IsWord(ws[i])
  {
  }

  // ---- its own lines ------------------------------------------------------

  lemma JoinEmptyOnlyForNoWords(ws: seq<string>)
    requires AreWords(ws)
    ensures Join(ws) == "" <==> ws == []
  {
  }

  lemma SplitCons(line: seq<string>, split: seq<seq<string>>, words: seq<string>, width: int)
    requires Printable(line, width) && IsSplit(split, words, width)
    ensures IsSplit([line] + split, line + words, width)
  {
    assert ([line] + split)[1..] == split;
  }

  lemma {:induction false} GreedyIsSplit(line: seq<string>, rest: seq<string>, width: int)
    requires line != [] ==> Printable(line, width)
    ensures IsSplit(Greedy(line, rest, width), line + rest, width)
    decreases |rest|
  {
    if rest == [] {
      assert line + rest == line;
      if line != [] {
        SplitCons(line, [], [], width);
        assert [line] + [] == [line] && line + [] == line;
      }
    } else {
      var next := [rest[0]];
      assert rest == next + rest[1..];
      if line != [] && |Join(line)| + 1 + |rest[0]| > width {
        GreedyIsSplit(next, rest[1..], width);
        SplitCons(line, Greedy(next, rest[1..], width), rest, width);
      } else {
        assert (line + next)[..|line|] == line;
        assert Printable(line + next, width);
        GreedyIsSplit(line + next, rest[1..], width);
        assert line + next + rest[1..] == line + rest;
      }
    }
  }

  // ---- optimality ---------------------------------------------------------

  lemma {:induction false} JoinLonger(shorter: seq<string>, longer: seq<string>)
    requires shorter <= longer
    ensures |Join(shorter)| <= |Join(longer)|
  {
    if |shorter| == |longer| {
      assert shorter == longer;
    } else {
      JoinLonger(shorter, longer[..|longer| - 1]);
    }
  }

  lemma {:induction false} JoinTail(ws: seq<string>)
    requires ws != []
    ensures |Join(ws[1..])| <= |Join(ws)|
  {
    if |ws| > 1 {
      JoinTail(ws[..|ws| - 1]);
      assert ws[..|ws| - 1][1..] == ws[1..][..|ws| - 2];
    }
  }

  /** Leaving out the first word needs no more lines. */
  lemma DropFirst(split: seq<seq<string>>, words: seq<string>, width: int) returns (fewer: seq<seq<string>>)
    requires words != [] && IsSplit(split, words, width)
    ensures IsSplit(fewer, words[1..], width) && |fewer| <= |split|
  {
    var first := split[0];
    assert Printable(first, width);
    assert words == first + Flatten(split[1..]);
    assert words[1..] == first[1..] + Flatten(split[1..]);
    if |first| == 1 {
      fewer := split[1..];
    } else {
      JoinTail(first);
      fewer := [first[1..]] + split[1..];
      assert fewer[1..] == split[1..];
    }
  }

  lemma {:induction false} DropMany(split: seq<seq<string>>, words: seq<string>, k: nat, width: int)
    returns (fewer: seq<seq<string>>)
    requires k <= |words| && IsSplit(split, words, width)
    ensures IsSplit(fewer, words[k..], width) && |fewer| <= |split|
    decreases k
  {
    fewer := split;
    if k > 0 {
      fewer := DropFirst(split, words, width);
      fewer := DropMany(fewer, words[1..], k - 1, width);
      assert words[1..][k - 1..] == words[k..];
    }
  }

  /** When the line cannot take the next word, no split's first line can reach past it. */
  lemma FirstLineStopsHere(split: seq<seq<string>>, line: seq<string>, rest: seq<string>, width: int)
    requires line != [] && rest != []
    requires |Join(line)| + 1 + |rest[0]| > width
    requires IsSplit(split, line + rest, width)
    ensures split != [] && |split[0]| <= |line|
  {
    assert Printable(split[0], width);
    if |split[0]| > |line| {
      var reached := line + [rest[0]];
      assert reached[..|line|] == line;
      assert split[0] == (line + rest)[..|split[0]|];
      assert reached <= split[0];
      JoinLonger(reached, split[0]);
    }
  }

  /** So the rest of the words can do with the split's other lines. */
  lemma RestNeedsOneLess(split: seq<seq<string>>, line: seq<string>, rest: seq<string>, width: int)
    returns (fewer: seq<seq<string>>)
    requires line != [] && rest != []
    requires |Join(line)| + 1 + |rest[0]| > width
    requires IsSplit(split, line + rest, width)
    ensures IsSplit(fewer, rest, width) && |fewer| + 1 <= |split|
  {
    FirstLineStopsHere(split, line, rest, width);
    var k := |split[0]|;
    var others := line[k..] + rest;
    assert split[0] + Flatten(split[1..]) == line + rest;
    assert Flatten(split[1..]) == (line + rest)[k..] == others;
    fewer := DropMany(split[1..], others, |line| - k, width);
    assert others[|line| - k..] == rest;
  }

  lemma {:induction false} GreedyIsOptimal(
    line: seq<string>, rest: seq<string>, width: int, split: seq<seq<string>>)
    requires IsSplit(split, line + rest, width)
    ensures |Greedy(line, rest, width)| <= |split|
    decreases |rest|
  {
    if rest == [] {
    } else if line != [] && |Join(line)| + 1 + |rest[0]| > width {
      var fewer := RestNeedsOneLess(split, line, rest, width);
      assert rest == [rest[0]] + rest[1..];
      GreedyIsOptimal([rest[0]], rest[1..], width, fewer);
    } else {
      assert line + [rest[0]] + rest[1..] == line + rest;
      GreedyIsOptimal(line + [rest[0]], rest[1..], width, split);
    }
  }

  lemma {:induction false} RenderAt(split: seq<seq<string>>)
    ensures |Render(split)| == |split|
    ensures forall i :: 0 <= i < |split| ==> Render(split)[i] == Join(split[i])
  {
    if split != [] {
      RenderAt(split[1..]);
    }
  }

  /** A line ends only where the next word does not fit on it. */
  ghost predicate Full(split: seq<seq<string>>, width: int) {
    forall i :: 0 <= i < |split| - 1 && split[i + 1] != [] ==> |Join(split[i])| + 1 + |split[i + 1][0]| > width
  }

  lemma {:induction false} GreedyIsFull(line: seq<string>, rest: seq<string>, width: int)
    ensures var split := Greedy(line, rest, width);
      && (line + rest != [] ==> split != [] && split[0] != [] && split[0][0] == (line + rest)[0])
      && Full(split, width)
    decreases |rest|
  {
    if rest != [] {
      assert rest == [rest[0]] + rest[1..];
      if line != [] && |Join(line)| + 1 + |rest[0]| > width {
        GreedyIsFull([rest[0]], rest[1..], width);
        var others := Greedy([rest[0]], rest[1..], width);
        assert Greedy(line, rest, width) == [line] + others;
      } else {
        GreedyIsFull(line + [rest[0]], rest[1..], width);
        assert line + [rest[0]] + rest[1..] == line + rest;
      }
    }
  }

  /**
   * The printed lines are a split of exactly the input's words, no split of
   * those words into printable lines has fewer, and each line takes all it can.
   */
  lemma WrapIsOptimal(s: string, width: int) returns (split: seq<seq<string>>)
    ensures IsSplit(split, Fields(s), width)
    ensures |Wrapped(s, width)| == |split|
    ensures forall i :: 0 <= i < |split| ==> Wrapped(s, width)[i] == Join(split[i])
    ensures forall other :: IsSplit(other, Fields(s), width) ==> |Wrapped(s, width)| <= |other|
    ensures Full(split, width)
  {
    split := Greedy([], Fields(s), width);
    assert [] + Fields(s) == Fields(s);
    GreedyIsSplit([], Fields(s), width);
    GreedyIsFull([], Fields(s), width);
    RenderAt(split);
    forall other | IsSplit(other, Fields(s), width) ensures |split| <= |other| {
      GreedyIsOptimal([], Fields(s), width, other);
    }
  }

  // ---- reflowing ----------------------------------------------------------

  lemma {:induction false} RunOfWord(w: string, tail: string)
    requires forall i :: 0 <= i < |w| ==> !IsSpace(w[i])
    requires tail != [] ==> IsSpace(tail[0])
    ensures RunLength(w + tail) == |w|
  {
    if w == [] {
      assert w + tail == tail;
    } else {
      assert (w + tail)[1..] == w[1..] + tail;
      RunOfWord(w[1..], tail);
    }
  }

  /** Text followed by white space splits where the white space is. */
  lemma {:induction false} FieldsAppend(a: string, tail: string)
    requires tail != [] ==> IsSpace(tail[0])
    ensures Fields(a + tail) == Fields(a) + Fields(tail)
    decreases |a|
  {
    if a == [] {
      assert a + tail == tail;
    } else if IsSpace(a[0]) {
      assert (a + tail)[1..] == a[1..] + tail;
      FieldsAppend(a[1..], tail);
    } else {
      var k := RunLength(a);
      if k == |a| {
        RunOfWord(a, tail);
        assert Fields(a[k..]) == [];
        assert (a + tail)[..k] == a[..k] && (a + tail)[k..] == tail;
      } else {
        assert a + tail == a[..k] + (a[k..] + tail);
        RunOfWord(a[..k], a[k..] + tail);
        assert (a + tail)[..k] == a[..k] && (a + tail)[k..] == a[k..] + tail;
        FieldsAppend(a[k..], tail);
      }
    }
  }

  lemma FieldsOfWord(w: string)
    requires IsWord(w)
    ensures Fields(w) == [w]
  {
    RunOfWord(w, []);
    assert w + [] == w && w[..|w|] == w && w[|w|..] == [];
  }

  lemma {:induction false} FieldsOfJoin(ws: seq<string>)
    requires AreWords(ws)
    ensures Fields(Join(ws)) == ws
  {
    if |ws| == 1 {
      FieldsOfWord(ws[0]);
    } else if ws != [] {
      var front, last := ws[..|ws| - 1], ws[|ws| - 1];
      FieldsOfJoin(front);
      FieldsAppend(Join(front), " " + last);
      assert Join(front) + " " + last == Join(front) + (" " + last);
      assert (" " + last)[1..] == last;
      FieldsOfWord(last);
      assert ws == front + [last];
    }
  }

  predicate Blank(s: string) {
    forall i :: 0 <= i < |s| ==> IsSpace(s[i])
  }

  /** Words with white space around and between them. */
  function Spaced(gaps: seq<string>, ws: seq<string>): string
    requires |gaps| == |ws| + 1
  {
    if ws == [] then gaps[0] else gaps[0] + (ws[0] + Spaced(gaps[1..], ws[1..]))
  }

  lemma {:induction false} FieldsSkipBlank(gap: string, rest: string)
    requires Blank(gap)
    ensures Fields(gap + rest) == Fields(rest)
  {
    if gap == [] {
      assert gap + rest == rest;
    } else {
      assert (gap + rest)[1..] == gap[1..] + rest;
      FieldsSkipBlank(gap[1..], rest);
    }
  }

  /** Of any text the fields are its words in order, whatever white space separates them. */
  lemma {:induction false} FieldsExact(gaps: seq<string>, ws: seq<string>)
    requires |gaps| == |ws| + 1 && AreWords(ws)
    requires forall i :: 0 <= i < |gaps| ==> Blank(gaps[i]) && (0 < i < |ws| ==> gaps[i] != "")
    ensures Fields(Spaced(gaps, ws)) == ws
    decreases |ws|
  {
    if ws == [] {
      FieldsSkipBlank(gaps[0], "");
      assert gaps[0] + "" == gaps[0];
    } else {
      var rest := Spaced(gaps[1..], ws[1..]);
      FieldsExact(gaps[1..], ws[1..]);
      FieldsSkipBlank(gaps[0], ws[0] + rest);
      SpacedStarts(gaps[1..], ws[1..]);
      FieldsAppend(ws[0], rest);
      FieldsOfWord(ws[0]);
    }
  }

  lemma SpacedStarts(gaps: seq<string>, ws: seq<string>)
    requires |gaps| == |ws| + 1 && Blank(gaps[0]) && (ws != [] ==> gaps[0] != "")
    ensures Spaced(gaps, ws) != "" ==> IsSpace(Spaced(gaps, ws)[0])
  {
  }

  /** The lines as they are printed, each ended by a newline. */
  function Printed(lines: seq<string>): string {
    if lines == [] then "" else lines[0] + ("\n" + Printed(lines[1..]))
  }

  lemma {:induction false} FieldsOfPrinted(split: seq<seq<string>>)
    requires AreWords(Flatten(split))
    ensures Fields(Printed(Render(split))) == Flatten(split)
  {
    if split != [] {
      var first, others := split[0], Flatten(split[1..]);
      assert AreWords(first) by {
        forall i | 0 <= i < |first| ensures IsWord(first[i]) { assert Flatten(split)[i] == first[i]; }
      }
      assert AreWords(others) by {
        forall i | 0 <= i < |others| ensures IsWord(others[i]) { assert Flatten(split)[|first| + i] == others[i]; }
      }
      FieldsOfPrinted(split[1..]);
      FieldsOfJoin(first);
      assert Render(split)[1..] == Render(split[1..]);
      var tail := "\n" + Printed(Render(split[1..]));
      FieldsAppend(Join(first), tail);
      assert tail[1..] == Printed(Render(split[1..]));
    }
  }

  /** No word is lost, so wrapping printed lines again, at any width, is wrapping the original. */
  lemma Reflow(s: string, width: int, width': int)
    ensures Fields(Printed(Wrapped(s, width))) == Fields(s)
    ensures Wrapped(Printed(Wrapped(s, width)), width') == Wrapped(s, width')
  {
    assert [] + Fields(s) == Fields(s);
    GreedyIsSplit([], Fields(s), width);
    FieldsOfPrinted(Greedy([], Fields(s), width));
  }
}
