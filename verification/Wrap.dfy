/** Breaking a line of glyphs at the edge of the window, fragment by fragment. */
module Wrap {

  const MAX_SCREEN_WIDTH := 256
  const MAX_WORD_SIZE := 128
  const TAB := 9
  const SPACE := 32

  type Width = w: int | 1 <= w witness 1

  /** A character to be displayed, and the style it is displayed in. */
  datatype Char = Char(code: int, style: int)

  /** A glyph with its width. */
  datatype Item = Item(glyph: int, width: nat)

  function Sum(ws: seq<Item>): nat {
    if ws == [] then 0 else ws[0].width + Sum(ws[1..])
  }

  predicate AllWide(ws: seq<Item>) {
    forall i :: 0 <= i < |ws| ==> ws[i].width >= 1
  }

  lemma {:induction false} SumConcat(a: seq<Item>, b: seq<Item>)
    ensures Sum(a + b) == Sum(a) + Sum(b)
  {
    if a == [] {
      assert a + b == b;
    } else {
      assert (a + b)[1..] == a[1..] + b;
      SumConcat(a[1..], b);
    }
  }

  lemma SumSplit(ws: seq<Item>, k: nat)
    requires k <= |ws|
    ensures Sum(ws) == Sum(ws[..k]) + Sum(ws[k..])
  {
    assert ws == ws[..k] + ws[k..];
    SumConcat(ws[..k], ws[k..]);
  }

  lemma SumUpTo(ws: seq<Item>, k: nat)
    requires k < |ws|
    ensures Sum(ws[..k + 1]) == Sum(ws[..k]) + ws[k].width
  {
    assert ws[..k + 1] == ws[..k] + [ws[k]];
    SumConcat(ws[..k], [ws[k]]);
    assert [ws[k]][1..] == [];
  }

  lemma {:induction false} SumAtLeast(ws: seq<Item>)
    requires AllWide(ws)
    ensures Sum(ws) >= |ws|
  {
    if ws != [] {
      SumAtLeast(ws[1..]);
    }
  }

  // ---- what wrapping means ----

  /** The `n` first glyphs are a full line: they fit and one more does not, or there is one glyph that is
      wider than the window. */
  ghost predicate FullLine(ws: seq<Item>, n: nat, width: nat) {
    && 1 <= n <= |ws| && (Sum(ws[..n]) <= width || n == 1)
    && (Sum(ws[..n]) > width || (n < |ws| && Sum(ws[..n + 1]) > width))
  }

  /** The glyphs broken into full lines, and what is left, which fits. */
  ghost predicate Wrapped(ws: seq<Item>, lines: seq<seq<Item>>, rest: seq<Item>, width: nat)
    decreases |lines|
  {
    if lines == [] then rest == ws && Sum(rest) <= width
    else
      var n := |lines[0]|;
      FullLine(ws, n, width) && lines[0] == ws[..n] && Wrapped(ws[n..], lines[1..], rest, width)
  }

  /** There is only one way to wrap. */
  lemma {:induction false} OneWrapping(ws: seq<Item>, lines: seq<seq<Item>>, rest: seq<Item>,
                                       lines1: seq<seq<Item>>, rest1: seq<Item>, width: nat)
    requires Wrapped(ws, lines, rest, width) && Wrapped(ws, lines1, rest1, width)
    ensures lines == lines1 && rest == rest1
    decreases |lines|
  {
    if lines == [] {
      if lines1 != [] {
        FullIsWide(ws, |lines1[0]|, width);
      }
    } else if lines1 == [] {
      FullIsWide(ws, |lines[0]|, width);
    } else {
      OneFull(ws, |lines[0]|, |lines1[0]|, width);
      OneWrapping(ws[|lines[0]|..], lines[1..], rest, lines1[1..], rest1, width);
      assert lines == [lines[0]] + lines[1..] && lines1 == [lines1[0]] + lines1[1..];
    }
  }

  lemma SumGrows(ws: seq<Item>, a: nat, b: nat)
    requires a <= b <= |ws|
    ensures Sum(ws[..a]) <= Sum(ws[..b]) <= Sum(ws)
  {
    SumSplit(ws[..b], a);
    assert ws[..b][..a] == ws[..a];
    SumSplit(ws, b);
  }

  lemma FullIsWide(ws: seq<Item>, n: nat, width: nat)
    requires FullLine(ws, n, width)
    ensures Sum(ws) > width
  {
    SumGrows(ws, n, n);
    if n < |ws| {
      SumGrows(ws, n + 1, n + 1);
    }
  }

  lemma OneFull(ws: seq<Item>, n: nat, m: nat, width: nat)
    requires FullLine(ws, n, width) && FullLine(ws, m, width)
    ensures n == m
  {
    if n < m {
      SumGrows(ws, n, m);
      SumGrows(ws, n + 1, m);
    } else if m < n {
      SumGrows(ws, m, n);
      SumGrows(ws, m + 1, n);
    }
  }

  function Concat(lines: seq<seq<Item>>): seq<Item> {
    if lines == [] then [] else lines[0] + Concat(lines[1..])
  }

  /** Each glyph is kept once, in order; each line fits, or is one glyph that is wider than the window. */
  lemma {:induction false} WrappedKeepsAll(ws: seq<Item>, lines: seq<seq<Item>>, rest: seq<Item>, width: nat)
    requires Wrapped(ws, lines, rest, width)
    ensures Concat(lines) + rest == ws && Sum(rest) <= width
    ensures forall i :: 0 <= i < |lines| ==> lines[i] != [] && (Sum(lines[i]) <= width || |lines[i]| == 1)
    decreases |lines|
  {
    if lines != [] {
      var n := |lines[0]|;
      WrappedKeepsAll(ws[n..], lines[1..], rest, width);
      assert ws == ws[..n] + ws[n..];
      forall i | 0 <= i < |lines| ensures lines[i] != [] && (Sum(lines[i]) <= width || |lines[i]| == 1) {
        if i > 0 {
          assert lines[i] == lines[1..][i - 1];
        }
      }
    }
  }

  /** Line `i` is wider than the window, or with the next glyph it would be. */
  predicate NoRoomLeft(lines: seq<seq<Item>>, rest: seq<Item>, i: nat, width: nat)
    requires i < |lines|
  {
    var next := if i + 1 < |lines| then lines[i + 1] else rest;
    Sum(lines[i]) > width || (next != [] && Sum(lines[i]) + next[0].width > width)
  }

  /** No line is ended before it is full. */
  lemma {:induction false} LinesAreFull(ws: seq<Item>, lines: seq<seq<Item>>, rest: seq<Item>, width: nat)
    requires Wrapped(ws, lines, rest, width)
    ensures forall i :: 0 <= i < |lines| ==> NoRoomLeft(lines, rest, i, width)
    decreases |lines|
  {
    hide Sum;
    if lines != [] {
      var n := |lines[0]|;
      LinesAreFull(ws[n..], lines[1..], rest, width);
      if n < |ws| {
        SumUpTo(ws, n);
        assert ws[n..][0] == ws[n];
        FirstLeft(ws[n..], lines[1..], rest, width);
      }
      forall i | 1 <= i < |lines| ensures NoRoomLeft(lines, rest, i, width) {
        assert NoRoomLeft(lines[1..], rest, i - 1, width) && lines[i] == lines[1..][i - 1];
      }
    }
  }

  lemma FirstLeft(ws: seq<Item>, lines: seq<seq<Item>>, rest: seq<Item>, width: nat)
    requires Wrapped(ws, lines, rest, width) && ws != []
    ensures var next := if lines != [] then lines[0] else rest; next != [] && next[0] == ws[0]
  {
  }

  /** Full lines, and what is left, which may still be too wide. */
  ghost predicate WrappedSoFar(ws: seq<Item>, lines: seq<seq<Item>>, rest: seq<Item>, width: nat)
    decreases |lines|
  {
    if lines == [] then rest == ws
    else
      var n := |lines[0]|;
      FullLine(ws, n, width) && lines[0] == ws[..n] && WrappedSoFar(ws[n..], lines[1..], rest, width)
  }

  lemma FullMore(ws: seq<Item>, n: nat, added: seq<Item>, width: nat)
    requires FullLine(ws, n, width)
    ensures FullLine(ws + added, n, width)
  {
    var t := ws + added;
    assert t[..n] == ws[..n];
    if n < |ws| {
      assert t[..n + 1] == ws[..n + 1];
    }
  }

  /** More glyphs only change what is left. */
  lemma {:induction false} WrapMore(ws: seq<Item>, lines: seq<seq<Item>>, rest: seq<Item>, added: seq<Item>, width: nat)
    requires WrappedSoFar(ws, lines, rest, width)
    ensures WrappedSoFar(ws + added, lines, rest + added, width)
    decreases |lines|
  {
    if lines != [] {
      var n := |lines[0]|;
      WrapMore(ws[n..], lines[1..], rest, added, width);
      FullMore(ws, n, added, width);
      assert (ws + added)[n..] == ws[n..] + added && (ws + added)[..n] == ws[..n];
    }
  }

  lemma {:induction false} WrappedIsSoFar(ws: seq<Item>, lines: seq<seq<Item>>, rest: seq<Item>, width: nat)
    requires Wrapped(ws, lines, rest, width)
    ensures WrappedSoFar(ws, lines, rest, width) && Sum(rest) <= width
    decreases |lines|
  {
    if lines != [] {
      WrappedIsSoFar(ws[|lines[0]|..], lines[1..], rest, width);
    }
  }

  /** One full line, then the rest. */
  lemma {:induction false} WrapOneMore(ws: seq<Item>, lines: seq<seq<Item>>, rest: seq<Item>, n: nat, width: nat)
    requires WrappedSoFar(ws, lines, rest, width) && FullLine(rest, n, width)
    ensures WrappedSoFar(ws, lines + [rest[..n]], rest[n..], width)
    decreases |lines|
  {
    if lines == [] {
      assert [rest[..n]][1..] == [] && [] + [rest[..n]] == [rest[..n]];
    } else {
      var m := |lines[0]|;
      WrapOneMore(ws[m..], lines[1..], rest, n, width);
      assert (lines + [rest[..n]])[1..] == lines[1..] + [rest[..n]];
    }
  }

  lemma {:induction false} WrappedAtLast(ws: seq<Item>, lines: seq<seq<Item>>, rest: seq<Item>, width: nat)
    requires WrappedSoFar(ws, lines, rest, width) && Sum(rest) <= width
    ensures Wrapped(ws, lines, rest, width)
    decreases |lines|
  {
    if lines != [] {
      WrappedAtLast(ws[|lines[0]|..], lines[1..], rest, width);
    }
  }

  // ---- glyphs and their widths ----

  /** The column after the glyphs `ws`: what they leave on the line in progress. */
  ghost predicate Column(ws: seq<Item>, width: nat, x: nat) {
    exists lines, rest :: Wrapped(ws, lines, rest, width) && x == Sum(rest)
  }

  /** Glyph `i` stands for the character `c`: as wide as the font of its style has it, or, for a TAB, a space
      up to the next stop. */
  ghost predicate StandsFor(all: seq<Item>, i: nat, c: Char, width: nat, tabWidth: nat, metrics: (int, int) -> Width)
    requires i < |all| && tabWidth > 0
  {
    if c.code != 9 then all[i] == Item(c.code, metrics(c.style, c.code))
    else all[i].glyph == 32 && exists x: nat :: Column(all[..i], width, x) && all[i].width == tabWidth - x % tabWidth
  }

  /** The glyphs stand for the first characters of `cs`. */
  ghost predicate StandFor(all: seq<Item>, cs: seq<Char>, width: nat, tabWidth: nat, metrics: (int, int) -> Width)
    requires tabWidth > 0
  {
    |all| <= |cs| && forall i :: 0 <= i < |all| ==> StandsFor(all, i, cs[i], width, tabWidth, metrics)
  }

  /** There is one column after some glyphs, so the width of a TAB is determined. */
  lemma OneColumn(ws: seq<Item>, width: nat, x: nat, y: nat)
    requires Column(ws, width, x) && Column(ws, width, y)
    ensures x == y
  {
    hide Wrapped;
    var lines, rest :| Wrapped(ws, lines, rest, width) && x == Sum(rest);
    var lines1, rest1 :| Wrapped(ws, lines1, rest1, width) && y == Sum(rest1);
    OneWrapping(ws, lines, rest, lines1, rest1, width);
  }

  /** The glyph of a TAB is a space that ends at a stop; that of any other character is the character. */
  lemma GlyphsMean(all: seq<Item>, cs: seq<Char>, width: nat, tabWidth: nat, metrics: (int, int) -> Width)
    requires tabWidth > 0 && StandFor(all, cs, width, tabWidth, metrics)
    ensures forall i :: 0 <= i < |all| ==>
              if cs[i].code == 9 then all[i].glyph == 32 && 1 <= all[i].width <= tabWidth
              else all[i].glyph == cs[i].code && all[i].width == metrics(cs[i].style, cs[i].code)
    ensures forall i, x: nat :: 0 <= i < |all| && cs[i].code == 9 && Column(all[..i], width, x) ==>
              all[i].width == tabWidth - x % tabWidth
  {
    hide Column;
    forall i | 0 <= i < |all|
      ensures if cs[i].code == 9 then all[i].glyph == 32 && 1 <= all[i].width <= tabWidth
              else all[i].glyph == cs[i].code && all[i].width == metrics(cs[i].style, cs[i].code)
    {
      assert StandsFor(all, i, cs[i], width, tabWidth, metrics);
    }
    forall i, x: nat | 0 <= i < |all| && cs[i].code == 9 && Column(all[..i], width, x)
      ensures all[i].width == tabWidth - x % tabWidth
    {
      assert StandsFor(all, i, cs[i], width, tabWidth, metrics);
      var y: nat :| Column(all[..i], width, y) && all[i].width == tabWidth - y % tabWidth;
      OneColumn(all[..i], width, x, y);
    }
  }

  /** The characters from `n` on are those waiting in the fragment in progress. */
  ghost predicate Waiting(cs: seq<Char>, n: nat, pending: seq<int>, style: int) {
    |cs| == n + |pending| && forall k :: 0 <= k < |pending| ==> cs[n + k] == Char(pending[k], style)
  }

  lemma WaitOne(cs: seq<Char>, n: nat, pending: seq<int>, lastStyle: int, ch: int, style: int)
    requires Waiting(cs, n, pending, lastStyle) && (pending == [] || style == lastStyle)
    ensures Waiting(cs + [Char(ch, style)], n, pending + [ch], style)
  {
  }

  /** The glyphs of a fragment that begins at column `x`. */
  ghost predicate Measured(items: seq<Item>, pending: seq<int>, style: int, x: int, tabWidth: nat,
                           metrics: (int, int) -> Width)
    requires tabWidth > 0
  {
    |items| == |pending|
    && if TAB in pending then items == [Item(SPACE, tabWidth - x % tabWidth)]
       else forall k :: 0 <= k < |pending| ==> items[k] == Item(pending[k], metrics(style, pending[k]))
  }

  /** A fragment is laid out: its glyphs stand for the characters that were waiting. */
  lemma StandMore(all: seq<Item>, items: seq<Item>, cs: seq<Char>, lines: seq<seq<Item>>, rest: seq<Item>,
                  width: nat, tabWidth: nat, metrics: (int, int) -> Width, pending: seq<int>, style: int)
    requires tabWidth > 0 && StandFor(all, cs, width, tabWidth, metrics) && Waiting(cs, |all|, pending, style)
    requires Wrapped(all, lines, rest, width) && Measured(items, pending, style, Sum(rest), tabWidth, metrics)
    ensures |all + items| == |cs| && StandFor(all + items, cs, width, tabWidth, metrics)
  {
    hide Wrapped, Sum;
    var t := all + items;
    assert Column(all, width, Sum(rest));
    forall i | 0 <= i < |t| ensures StandsFor(t, i, cs[i], width, tabWidth, metrics) {
      if i < |all| {
        assert StandsFor(all, i, cs[i], width, tabWidth, metrics) && t[..i] == all[..i];
      } else {
        assert t[i] == items[i - |all|] && cs[|all| + (i - |all|)] == Char(pending[i - |all|], style);
        if TAB in pending {
          assert i == |all| && t[..i] == all;
        }
      }
    }
  }

  /** One character more that has no glyph yet. */
  lemma StandStill(all: seq<Item>, cs: seq<Char>, c: Char, width: nat, tabWidth: nat, metrics: (int, int) -> Width)
    requires tabWidth > 0 && StandFor(all, cs, width, tabWidth, metrics)
    ensures StandFor(all, cs + [c], width, tabWidth, metrics)
  {
    forall i | 0 <= i < |all| ensures StandsFor(all, i, (cs + [c])[i], width, tabWidth, metrics) {
      assert StandsFor(all, i, cs[i], width, tabWidth, metrics);
    }
  }

  // ---- the program ----

  datatype Fragment = Fragment(lineIndex: nat, len: nat, width: int)

  /** The fragments follow one another from the start of the line to `end`. */
  ghost predicate Follow(fs: seq<Fragment>, end: nat) {
    && (forall i :: 0 <= i < |fs| ==> FollowAt(fs, i))
    && end == if fs == [] then 0 else fs[|fs| - 1].lineIndex + fs[|fs| - 1].len
  }

  predicate FollowAt(fs: seq<Fragment>, i: nat)
    requires i < |fs|
  {
    fs[i].lineIndex == if i == 0 then 0 else fs[i - 1].lineIndex + fs[i - 1].len
  }

  /** Where the first `i` fragments end. */
  function EndOf(fs: seq<Fragment>, i: nat): nat
    requires i <= |fs|
  {
    if i == 0 then 0 else fs[i - 1].lineIndex + fs[i - 1].len
  }

  lemma {:induction false} FollowInside(fs: seq<Fragment>, end: nat, i: nat)
    requires Follow(fs, end) && i < |fs|
    ensures fs[i].lineIndex + fs[i].len <= end
    decreases |fs| - i
  {
    if i + 1 < |fs| {
      assert FollowAt(fs, i + 1);
      FollowInside(fs, end, i + 1);
    }
  }

  lemma FollowFront(fs: seq<Fragment>, end: nat)
    requires Follow(fs, end) && fs != []
    ensures Follow(fs[..|fs| - 1], fs[|fs| - 1].lineIndex)
  {
    var front := fs[..|fs| - 1];
    assert FollowAt(fs, |fs| - 1);
    forall i | 0 <= i < |front| ensures FollowAt(front, i) {
      assert FollowAt(fs, i);
    }
  }

  /** Fragments that follow one another draw the line up to their end. */
  lemma NextFragment(fs: seq<Fragment>, end: nat, i: nat)
    requires Follow(fs, end) && i < |fs|
    ensures fs[i].lineIndex == EndOf(fs, i) && EndOf(fs, i + 1) == fs[i].lineIndex + fs[i].len <= end
            && EndOf(fs, |fs|) == end
  {
    FollowInside(fs, end, i);
    assert FollowAt(fs, i);
  }

  /** The layout of a line in progress. The source keeps glyphs and widths in two arrays. */
  class DisplayState {
    const width: nat
    const tabWidth: nat
    const line: array<Item>
    const fragments: array<Fragment>
    var lineIndex: int
    var nbFragments: int
    var x: int
    /** The lines flushed so far. */
    var lines: seq<seq<Item>>

    // the fragment in progress: part of a word, all of it spaces or none, in one style
    const fragmentChars: array<int>
    var fragmentIndex: int
    var lastSpace: bool
    var lastStyle: int
    /** The width of a glyph in the font of a style. */
    const metrics: (int, int) -> Width

    /** All glyphs laid out so far, and all characters displayed so far. */
    ghost var all: seq<Item>
    ghost var fed: seq<Char>

    ghost predicate Bounds()
      reads this
    {
      && width <= MAX_SCREEN_WIDTH / 2 && tabWidth > 0
      && line.Length == fragments.Length == MAX_SCREEN_WIDTH
      && 0 <= lineIndex <= MAX_SCREEN_WIDTH && 0 <= nbFragments <= lineIndex
      && fragmentChars.Length == MAX_WORD_SIZE && 0 <= fragmentIndex <= MAX_WORD_SIZE
    }

    /** The characters of the fragment in progress. */
    ghost function Pending(): seq<int>
      requires Bounds()
      reads this, fragmentChars
    {
      fragmentChars[..fragmentIndex]
    }

    /** The glyphs of the line in progress. */
    ghost function Rest(): seq<Item>
      requires Bounds()
      reads this, line
    {
      line[..lineIndex]
    }

    /** The line in progress lies in its fragments; all but the last fragment fit. */
    ghost predicate LaidOut()
      requires Bounds()
      reads this, line, fragments
    {
      && AllWide(Rest()) && x == Sum(Rest()) && Follow(fragments[..nbFragments], lineIndex)
      && (nbFragments > 0 ==> LastOk(fragments[nbFragments - 1], Rest(), width))
    }

    /** The glyphs so far are wrapped as they should be, and stand for the characters so far. */
    ghost predicate Valid()
      reads this, line, fragments, fragmentChars
    {
      && Bounds() && LaidOut() && Wrapped(all, lines, Rest(), width)
      && StandFor(all, fed, width, tabWidth, metrics) && Waiting(fed, |all|, Pending(), lastStyle)
    }

    constructor (width: nat, tabWidth: nat, metrics: (int, int) -> Width)
      requires width <= MAX_SCREEN_WIDTH / 2 && tabWidth > 0
      ensures Valid() && fresh(line) && fresh(fragments) && fresh(fragmentChars) && fed == [] && Pending() == []
      ensures this.width == width && this.tabWidth == tabWidth && this.metrics == metrics
    {
      this.width, this.tabWidth, this.metrics := width, tabWidth, metrics;
      line, fragments := new Item[MAX_SCREEN_WIDTH], new Fragment[MAX_SCREEN_WIDTH](i => Fragment(0, 0, 0));
      fragmentChars := new int[MAX_WORD_SIZE];
      lineIndex, nbFragments, x, lines, all := 0, 0, 0, [], [];
      fragmentIndex, lastSpace, lastStyle, fed := 0, false, 0, [];
    }

    /** Draws the first `n` fragments as one line. */
    method FlushLine(n: nat, ghost end: nat)
      requires Bounds() && n <= nbFragments && Follow(fragments[..n], end) && end <= lineIndex
      modifies this`lines
      ensures lines == old(lines) + [Rest()[..end]]
    {
      var drawn: seq<Item> := [];
      var i := 0;
      ghost var rest, fs := Rest(), fragments[..n];
      while i < n
        invariant 0 <= i <= n && EndOf(fs, i) <= end && drawn == rest[..EndOf(fs, i)] && lines == old(lines)
      {
        var frag := fragments[i];
        NextFragment(fs, end, i);
        drawn := drawn + line[frag.lineIndex..frag.lineIndex + frag.len];
        i := i + 1;
      }
      lines := lines + [drawn];
      assert Rest() == rest;
    }

    /** Keeps the last `n` glyphs, at the start of the line. */
    method KeepLineChars(n: nat)
      requires Bounds() && n <= lineIndex && nbFragments <= n
      modifies this`lineIndex, line
      ensures Bounds() && lineIndex == n && Rest() == old(Rest()[lineIndex - n..])
    {
      var index := lineIndex - n;
      forall i | 0 <= i < n {
        line[i] := line[index + i];
      }
      lineIndex := n;
    }

    /** How many glyphs of the last fragment fit, and the column after them; at least one glyph is put on a line. */
    method Truncate() returns (len: nat, x1: nat)
      requires Bounds() && LaidOut() && nbFragments > 0 && x > width
      ensures var f := fragments[nbFragments - 1];
              len <= f.len && x1 == Sum(Rest()[..f.lineIndex + len]) && FullLine(Rest(), f.lineIndex + len, width)
    {
      hide Sum;
      var frag := fragments[nbFragments - 1];
      ghost var rest := Rest();
      len := frag.len;
      x1 := x;
      assert rest[..frag.lineIndex + len] == rest && rest[..0] == [];
      SumNone();
      while x1 > width
        invariant len <= frag.len && x1 == Sum(rest[..frag.lineIndex + len])
        invariant x1 <= width ==> len < frag.len && Sum(rest[..frag.lineIndex + len + 1]) > width && (len > 0 || x1 > 0)
      {
        len := len - 1;
        SumUpTo(rest, frag.lineIndex + len);
        var ww := line[frag.lineIndex + len].width;
        x1 := x1 - ww;
        if len == 0 && x1 == 0 {
          // a glyph wider than the window gets a line of its own
          len := 1;
          x1 := x1 + ww;
          NothingWide(rest, frag.lineIndex);
          return;
        }
      }
    }

    lemma LastIs()
      requires Bounds() && LaidOut() && nbFragments > 0
      ensures var f := fragments[nbFragments - 1]; f.len > 0 && f.lineIndex + f.len == lineIndex
    {
    }

    /** Cuts the last fragment after `len` glyphs, and flushes the line up to there. */
    method FlushFront(len: nat, w1: int)
      requires Bounds() && nbFragments > 0 && Follow(fragments[..nbFragments], lineIndex)
               && len <= fragments[nbFragments - 1].len
      modifies this`lines, fragments
      ensures var f := old(fragments[nbFragments - 1]);
              f.lineIndex + len <= lineIndex && lines == old(lines) + [Rest()[..f.lineIndex + len]]
    {
      hide Follow;
      ghost var fs := fragments[..nbFragments];
      var frag := fragments[nbFragments - 1];
      fragments[nbFragments - 1] := Fragment(frag.lineIndex, len, frag.width - w1);
      var n := nbFragments;
      if len == 0 {
        n := n - 1;
      }
      FollowCut(fs, lineIndex, len, frag.width - w1);
      assert fragments[..nbFragments] == fs[|fs| - 1 := fragments[nbFragments - 1]];
      assert fragments[..n] == fragments[..nbFragments][..n];
      FlushLine(n, frag.lineIndex + len);
    }

    /** Moves the last `len1` glyphs to the start of the next line, as one fragment. */
    method MoveRest(len1: nat, w1: int)
      requires Bounds() && len1 <= lineIndex && AllWide(Rest()) && w1 == Sum(Rest()[lineIndex - len1..])
      modifies this`lineIndex, this`nbFragments, this`x, line, fragments
      ensures Bounds() && LaidOut() && lineIndex == len1 && Rest() == old(Rest()[lineIndex - len1..])
              && (x > width ==> nbFragments > 0)
    {
      hide Sum, Follow, LastOk, AllWide;
      ghost var rest := Rest();
      nbFragments := 0;
      x := 0;
      if len1 > 0 {
        fragments[0] := Fragment(0, len1, w1);
        nbFragments := 1;
        x := w1;
      }
      KeepLineChars(len1);
      LeftOver(fragments[..nbFragments], rest, |rest| - len1, w1, width);
    }

    /** Flushes one line, and moves what is left of the last fragment to the next one. */
    method WrapOnce()
      requires Bounds() && LaidOut() && nbFragments > 0 && x > width
      modifies this`lineIndex, this`nbFragments, this`x, this`lines, line, fragments
      ensures Bounds() && LaidOut() && lineIndex < old(lineIndex) && (x > width ==> nbFragments > 0)
      ensures var rest, n := old(Rest()), old(lineIndex) - lineIndex;
              FullLine(rest, n, width) && lines == old(lines) + [rest[..n]] && Rest() == rest[n..]
    {
      hide Sum, FullLine, Follow, LastOk, AllWide;
      LastIs();
      ghost var rest := Rest();
      var frag := fragments[nbFragments - 1];
      var len, x1 := Truncate();
      FullIsSome(rest, frag.lineIndex + len, width);
      SumSplit(rest, frag.lineIndex + len);
      FlushFront(len, x - x1);
      // what is left begins the next line
      MoveRest(frag.len - len, x - x1);
    }

    /** Puts the fragment in progress after the line, as glyphs; returns its width. */
    method Append() returns (w: nat, ghost items: seq<Item>)
      requires Bounds() && 0 < fragmentIndex <= MAX_SCREEN_WIDTH - lineIndex && 0 <= x
      requires TAB in Pending() ==> fragmentIndex == 1
      modifies line
      ensures items != [] && AllWide(items) && w == Sum(items)
              && Measured(items, Pending(), lastStyle, x, tabWidth, metrics)
      ensures line[..lineIndex] == old(line[..lineIndex])
              && line[..lineIndex + fragmentIndex] == old(line[..lineIndex]) + items
    {
      hide Follow, Sum, AllWide, LastOk;
      ghost var before := Rest();
      NoItems();
      if fragmentChars[0] == TAB {
        // a TAB takes the room up to the next stop, and shows as one space
        assert TAB in Pending();
        w := tabWidth - x % tabWidth;
        line[lineIndex] := Item(SPACE, w);
        items := [line[lineIndex]];
        assert [] + items == items;
        ItemsMore([], items[0]);
        return;
      }
      items := [];
      w := 0;
      var i := 0;
      while i < fragmentIndex
        invariant 0 <= i == |items| <= fragmentIndex && AllWide(items) && w == Sum(items)
        invariant forall k :: 0 <= k < i ==> items[k] == Item(Pending()[k], metrics(lastStyle, Pending()[k]))
        invariant line[..lineIndex] == before && line[lineIndex..lineIndex + i] == items
      {
        var g := fragmentChars[i];
        assert g == Pending()[i] && g != TAB;
        line[lineIndex + i] := Item(g, metrics(lastStyle, g));
        ItemsMore(items, line[lineIndex + i]);
        items := items + [line[lineIndex + i]];
        w := w + metrics(lastStyle, g);
        i := i + 1;
      }
    }

    /** Adds the fragment in progress to the line as one fragment, which may stick out. */
    method AddFragment()
      requires Valid() && fragmentIndex > 0 && (TAB in Pending() ==> fragmentIndex == 1)
      modifies this`lineIndex, this`nbFragments, this`x, this`fragmentIndex, this`all, line, fragments
      ensures Bounds() && LaidOut() && nbFragments > 0 && fragmentIndex == 0
      ensures WrappedSoFar(all, lines, Rest(), width) && AllStand()
    {
      hide Sum, Follow, Wrapped, WrappedSoFar, StandFor, Measured, LastOk, AllWide;
      WrappedIsSoFar(all, lines, Rest(), width);
      SumAtLeast(Rest());
      ghost var rest := Rest();
      var w;
      ghost var items;
      w, items := Append();
      WrapMore(all, lines, rest, items, width);
      StandMore(all, items, fed, lines, rest, width, tabWidth, metrics, Pending(), lastStyle);
      NoteFragment(w, rest, items);
      all := all + items;
    }

    /** The glyphs just put behind the line become its last fragment. */
    method NoteFragment(w: nat, ghost rest: seq<Item>, ghost items: seq<Item>)
      requires Bounds() && fragmentIndex == |items| > 0 && lineIndex + fragmentIndex <= MAX_SCREEN_WIDTH
      requires line[..lineIndex] == rest && line[..lineIndex + fragmentIndex] == rest + items
      requires AllWide(rest) && AllWide(items) && w == Sum(items) && x == Sum(rest) <= width
      requires Follow(fragments[..nbFragments], lineIndex)
      modifies this`lineIndex, this`nbFragments, this`x, this`fragmentIndex, fragments
      ensures Bounds() && LaidOut() && nbFragments > 0 && fragmentIndex == 0 && Rest() == rest + items
    {
      hide Sum, Follow, LastOk, AllWide;
      ghost var fs := fragments[..nbFragments];
      AddedFragment(fs, rest, items, w, width);
      fragments[nbFragments] := Fragment(lineIndex, fragmentIndex, w);
      nbFragments := nbFragments + 1;
      lineIndex := lineIndex + fragmentIndex;
      x := x + w;
      fragmentIndex := 0;
      assert fragments[..nbFragments] == fs + [Fragment(|rest|, |items|, w)];
    }

    /** No character is waiting: each one fed has its glyph. */
    ghost predicate AllStand()
      reads this
    {
      tabWidth > 0 && |all| == |fed| && StandFor(all, fed, width, tabWidth, metrics)
    }

    /** Lays out the fragment in progress, and flushes lines as long as it does not fit. */
    method FlushFragment()
      requires Valid() && (TAB in Pending() ==> fragmentIndex == 1)
      modifies this`lineIndex, this`nbFragments, this`x, this`fragmentIndex, this`all, this`lines, line, fragments
      ensures Valid() && fragmentIndex == 0
    {
      hide Sum, Follow, Wrapped, WrappedSoFar, StandFor, Measured, LastOk, AllWide;
      if fragmentIndex == 0 {
        return;
      }
      AddFragment();
      while x > width
        invariant Bounds() && LaidOut() && (x > width ==> nbFragments > 0) && fragmentIndex == 0
        invariant WrappedSoFar(all, lines, Rest(), width) && AllStand()
        decreases lineIndex
      {
        ghost var rest, n, was, before := Rest(), lineIndex, lines, line[..lineIndex];
        WrapOnce();
        WrapOneMore(all, was, rest, n - lineIndex, width);
      }
      WrappedAtLast(all, lines, Rest(), width);
    }

    /** Displays one character: it goes into the fragment in progress, which is laid out first if it cannot
        go on with this character. */
    method DisplayChar(ch: int, style: int)
      requires Valid() && TAB !in Pending()
      modifies this, line, fragments, fragmentChars
      ensures Valid() && TAB !in Pending() && fed == old(fed) + [Char(ch, style)]
    {
      hide Sum, Follow, Wrapped, StandFor, Waiting, LastOk, AllWide;
      var space, istab := ch == SPACE, ch == TAB;
      if fragmentIndex >= MAX_WORD_SIZE || istab || (fragmentIndex >= 1 && (space != lastSpace || style != lastStyle)) {
        // the character does not belong to the fragment in progress
        FlushFragment();
      }
      AddChar(ch, style);
      lastSpace := space;
      if istab {
        FlushFragment();
      }
    }

    /** One more character in the fragment in progress. */
    method AddChar(ch: int, style: int)
      requires Valid() && fragmentIndex < MAX_WORD_SIZE && (Pending() == [] || style == lastStyle)
      modifies this`fragmentIndex, this`fed, this`lastStyle, fragmentChars
      ensures Valid() && Pending() == old(Pending()) + [ch] && fed == old(fed) + [Char(ch, style)]
    {
      hide Sum, Follow, Wrapped, StandFor, Waiting, LastOk, AllWide;
      ghost var pending := Pending();
      fragmentChars[fragmentIndex] := ch;
      fragmentIndex := fragmentIndex + 1;
      StandStill(all, fed, Char(ch, style), width, tabWidth, metrics);
      WaitOne(fed, |all|, pending, lastStyle, ch, style);
      fed := fed + [Char(ch, style)];
      lastStyle := style;
      assert Pending() == pending + [ch];
    }
  }

  /** A fragment more, after a line that fits. */
  lemma AddedFragment(fs: seq<Fragment>, rest: seq<Item>, items: seq<Item>, w: nat, width: nat)
    requires Follow(fs, |rest|) && AllWide(rest) && AllWide(items) && items != [] && w == Sum(items)
             && Sum(rest) <= width
    ensures Follow(fs + [Fragment(|rest|, |items|, w)], |rest| + |items|) && AllWide(rest + items)
    ensures Sum(rest + items) == Sum(rest) + w && LastOk(Fragment(|rest|, |items|, w), rest + items, width)
  {
    SumConcat(rest, items);
    assert (rest + items)[..|rest|] == rest && (rest + items)[|rest|..] == items;
    var r := fs + [Fragment(|rest|, |items|, w)];
    forall i | 0 <= i < |r| ensures FollowAt(r, i) {
      if i < |fs| {
        assert FollowAt(fs, i);
      }
    }
  }

  /** Displays all characters of a line: their glyphs, as wide as the font and the TAB stops make them, are
      wrapped, whatever fragments they came in. */
  method DisplayLine(chars: seq<Char>, width: nat, tabWidth: nat, metrics: (int, int) -> Width)
    returns (lines: seq<seq<Item>>, rest: seq<Item>)
    requires width <= 128 && tabWidth > 0
    ensures var all := Concat(lines) + rest;
            && |all| == |chars| && StandFor(all, chars, width, tabWidth, metrics) && Wrapped(all, lines, rest, width)
    ensures Sum(rest) <= width && forall i :: 0 <= i < |lines| ==>
              lines[i] != [] && (Sum(lines[i]) <= width || |lines[i]| == 1)
    ensures forall i :: 0 <= i < |lines| ==> NoRoomLeft(lines, rest, i, width)
  {
    hide Sum, Follow, NoRoomLeft, Wrapped, StandFor, Concat, DisplayState.LaidOut;
    var s := new DisplayState(width, tabWidth, metrics);
    var i := 0;
    while i < |chars|
      invariant 0 <= i <= |chars| && s.fed == chars[..i] && s.Valid() && TAB !in s.Pending()
      invariant s.width == width && s.tabWidth == tabWidth && s.metrics == metrics
      invariant fresh(s) && fresh(s.line) && fresh(s.fragments) && fresh(s.fragmentChars)
    {
      s.DisplayChar(chars[i].code, chars[i].style);
      assert chars[..i + 1] == chars[..i] + [chars[i]];
      i := i + 1;
    }
    s.FlushFragment();
    lines, rest := s.lines, s.line[..s.lineIndex];
    assert chars[..i] == chars;
    WrappedKeepsAll(s.all, lines, rest, width);
    LinesAreFull(s.all, lines, rest, width);
  }

  lemma NoItems()
    ensures Sum([]) == 0 && AllWide([])
  {
  }

  lemma ItemsMore(items: seq<Item>, item: Item)
    requires AllWide(items) && item.width >= 1
    ensures AllWide(items + [item]) && Sum(items + [item]) == Sum(items) + item.width
  {
    SumConcat(items, [item]);
    assert [item][1..] == [];
  }

  lemma SumNone()
    ensures Sum([]) == 0
  {
  }

  lemma NothingWide(rest: seq<Item>, k: nat)
    requires AllWide(rest) && k <= |rest| && Sum(rest[..k]) == 0
    ensures k == 0
  {
    SumAtLeast(rest[..k]);
  }

  lemma FullIsSome(ws: seq<Item>, n: nat, width: nat)
    requires FullLine(ws, n, width)
    ensures 1 <= n <= |ws|
  {
  }

  /** Fragments whose last one is cut, or dropped if nothing of it is left. */
  lemma FollowCut(fs: seq<Fragment>, end: nat, len: nat, w: int)
    requires Follow(fs, end) && fs != []
    ensures var r := fs[|fs| - 1 := Fragment(fs[|fs| - 1].lineIndex, len, w)];
            && Follow(r, fs[|fs| - 1].lineIndex + len) && r[..|fs|] == r
            && Follow(r[..|fs| - 1], fs[|fs| - 1].lineIndex) && fs[|fs| - 1].lineIndex + fs[|fs| - 1].len == end
  {
    FollowFront(fs, end);
    var r := fs[|fs| - 1 := Fragment(fs[|fs| - 1].lineIndex, len, w)];
    assert r[..|fs| - 1] == fs[..|fs| - 1];
    forall i | 0 <= i < |r| ensures FollowAt(r, i) {
      assert FollowAt(fs, i);
    }
  }

  /** What is left of a line, in one fragment. */
  lemma LeftOver(fs: seq<Fragment>, rest: seq<Item>, k: nat, w1: int, width: nat)
    requires k <= |rest| && AllWide(rest) && w1 == Sum(rest[k..])
    requires fs == if k == |rest| then [] else [Fragment(0, |rest| - k, w1)]
    ensures Follow(fs, |rest| - k) && AllWide(rest[k..]) && (k == |rest| ==> w1 == 0)
    ensures k < |rest| ==> LastOk(fs[0], rest[k..], width)
  {
    assert forall i: nat :: i < |fs| ==> FollowAt(fs, i);
    assert rest[k..][..0] == [] && rest[k..][0..] == rest[k..];
  }

  /** What is before the last fragment fits. */
  ghost predicate LastOk(f: Fragment, rest: seq<Item>, width: nat) {
    f.len > 0 && f.lineIndex + f.len == |rest| && f.width == Sum(rest[f.lineIndex..])
        && Sum(rest[..f.lineIndex]) <= width
  }
}
