/** Syntax colouring: the states at the beginnings of lines, computed once and kept through edits. */
module Colorize {
  import opened PageText
  import opened TextCounts
  import opened UndoLog
  import opened LogBytes
  import opened Utf8
  import opened EditBuffers
  import opened TextIndex
  import opened Positions

  const PREALLOC := 64

  /** What a colouriser does to a line, given the state before it: the coloured line, and the state after it. */
  type Colorizer = (seq<int>, byte) -> (seq<int>, byte)

  // ---- colouring from scratch ----

  /** Where line `l` begins, or the end of the text if there is no such line. */
  function LineOrEnd(t: seq<byte>, l: nat): (o: nat)
    ensures o <= |t|
  {
    if l <= Lines(t) then LineStart(t, l) else |t|
  }

  /** Line `l` without its newline; past the last line there are empty ones. */
  function LineText(t: seq<byte>, l: nat): seq<byte> {
    t[LineOrEnd(t, l)..LineEnd(t, LineOrEnd(t, l))]
  }

  /** How lines are read: in which charset, and how many characters of each. */
  datatype Reading = Reading(charset: Charset, size: nat)

  /** The characters of a line as far as they are coloured. */
  ghost function CharsIn(line: seq<byte>, how: Reading): (chars: seq<int>)
    ensures var all := CharsOf(line, how.charset);
            chars <= all && |chars| == if |all| <= how.size then |all| else how.size
  {
    Cut(CharsOf(line, how.charset), how.size)
  }

  /** The state before line `l`: that of all earlier lines, one after the other, from state 0 on. */
  ghost function StateBefore(f: Colorizer, t: seq<byte>, how: Reading, l: nat): byte {
    if l == 0 then 0 else f(CharsIn(LineText(t, l - 1), how), StateBefore(f, t, how, l - 1)).1
  }

  ghost function Colored(f: Colorizer, t: seq<byte>, how: Reading, l: nat): seq<int> {
    f(CharsIn(LineText(t, l), how), StateBefore(f, t, how, l)).0
  }

  /** The next `n` lines from `o` on, in colour: one pass that hands the state behind each line to the next.
      Past the end of the text there are empty lines. */
  ghost function InOnePass(f: Colorizer, t: seq<byte>, how: Reading, o: nat, state: byte, n: nat)
    : (lines: seq<seq<int>>)
    requires o <= |t|
    ensures |lines| == n
    decreases n
  {
    if n == 0 then [] else
      var e := LineEnd(t, o);
      var done := f(CharsIn(t[o..e], how), state);
      [done.0] + InOnePass(f, t, how, if e < |t| then e + 1 else e, done.1, n - 1)
  }

  /** Line `l` as it comes out when the whole text is coloured in one pass. */
  ghost function ColoredLine(f: Colorizer, t: seq<byte>, how: Reading, l: nat): seq<int> {
    InOnePass(f, t, how, 0, 0, l + 1)[l]
  }

  // ---- one pass over the text ----

  /** Each line of the pass is what the colouriser makes of it in the state before it. */
  lemma {:induction false} PassColors(f: Colorizer, t: seq<byte>, how: Reading, l: nat, n: nat, k: nat)
    requires k < n
    ensures InOnePass(f, t, how, LineOrEnd(t, l), StateBefore(f, t, how, l), n)[k] == Colored(f, t, how, l + k)
    decreases n
  {
    hide LineOrEnd, LineEnd, CharsIn, InOnePass, StateBefore;
    PassStep(f, t, how, l, n, k);
    if k > 0 {
      PassColors(f, t, how, l + 1, n - 1, k - 1);
    }
  }

  lemma PassStep(f: Colorizer, t: seq<byte>, how: Reading, l: nat, n: nat, k: nat)
    requires k < n
    ensures InOnePass(f, t, how, LineOrEnd(t, l), StateBefore(f, t, how, l), n)[k] ==
            if k == 0 then Colored(f, t, how, l)
            else InOnePass(f, t, how, LineOrEnd(t, l + 1), StateBefore(f, t, how, l + 1), n - 1)[k - 1]
  {
    hide LineOrEnd, LineEnd, CharsIn;
    NextLine(t, l);
  }

  /** However many lines are coloured in one pass, line `l` comes out the same. */
  lemma OneColoring(f: Colorizer, t: seq<byte>, how: Reading, n: nat, l: nat)
    requires l < n
    ensures InOnePass(f, t, how, 0, 0, n)[l] == ColoredLine(f, t, how, l) == Colored(f, t, how, l)
  {
    hide InOnePass, Colored;
    FirstOrEnd(t);
    FirstState(f, t, how);
    PassColors(f, t, how, 0, n, l);
    PassColors(f, t, how, 0, l + 1, l);
  }

  lemma FirstOrEnd(t: seq<byte>)
    ensures LineOrEnd(t, 0) == 0
  {
  }

  /** A colouriser for which `{` opens a comment and `}` closes it: characters of comments become 1. */
  function Comments(line: seq<int>, state: byte): (colored: (seq<int>, byte))
    decreases |line|
  {
    if line == [] then ([], state) else
      var inside := if line[0] == '{' as int then 1 else if line[0] == '}' as int then 0 else state;
      var rest := Comments(line[1..], inside);
      ([if inside == 1 then 1 else 0] + rest.0, rest.1)
  }

  /** The colour of a line depends on the lines before it: the same second line, inside a comment and not. */
  lemma StateMatters(how: Reading)
    requires how.charset == EightBit && how.size >= 2
    ensures ColoredLine(Comments, ['{' as int, 10, 'a' as int], how, 1) == [1]
    ensures ColoredLine(Comments, ['}' as int, 10, 'a' as int], how, 1) == [0]
  {
    SecondLine('{' as int, how);
    SecondLine('}' as int, how);
  }

  lemma SecondLine(c: byte, how: Reading)
    requires how.charset == EightBit && how.size >= 2 && c != 10
    ensures ColoredLine(Comments, [c, 10, 'a' as int], how, 1) == Comments(['a' as int], Comments([c], 0).1).0
  {
    hide Comments;
    var t := [c, 10, 'a' as int];
    LineEndIs(t, 0, 1);
    LineEndIs(t, 2, 3);
    assert t[0..1] == [c] && t[2..3] == ['a' as int];
    CharsAreBytes([c]);
    CharsAreBytes(['a' as int]);
    var after := Comments([c], 0).1;
    assert InOnePass(Comments, t, how, 2, after, 1)[0] == Comments(['a' as int], after).0;
  }

  // ---- lines that can be read ----

  lemma StartsBehindNewline(t: seq<byte>, l: nat)
    ensures var o := LineOrEnd(t, l); o == 0 || o == |t| || t[o - 1] == NEWLINE
  {
    if l > 0 {
      NextLine(t, l - 1);
    }
  }

  /** Every line ends with a newline or is what the text ends with. */
  lemma LineSettled(t: seq<byte>, charset: Charset, l: nat)
    requires Settled(LastLine(t), charset)
    ensures var o := LineOrEnd(t, l); var e := LineEnd(t, o);
            (if e < |t| then t[e] == NEWLINE else Settled(t[o..e], charset))
  {
    hide Settled, LineOrEnd, LastLine;
    var o := LineOrEnd(t, l);
    StartsBehindNewline(t, l);
    if LineEnd(t, o) == |t| {
      if o == |t| {
        NothingSettled(t, o, charset);
      } else {
        IsLastLine(t, o);
      }
    }
  }

  lemma NothingSettled(t: seq<byte>, o: nat, charset: Charset)
    requires o <= |t|
    ensures Settled(t[o..o], charset)
  {
  }

  lemma IsLastLine(t: seq<byte>, o: nat)
    requires o < |t| && LineEnd(t, o) == |t| && (o == 0 || t[o - 1] == NEWLINE)
    ensures t[o..LineEnd(t, o)] == LastLine(t)
  {
    hide Lines, LastLine;
    var a, r := t[..o], t[o..];
    assert t == a + r && t[o..|t|] == r;
    NoLines(r);
    LastLineConcat(a, r);
    NothingBehind(a);
    assert [] + r == r;
  }

  /** Behind a newline the last line is empty. */
  lemma NothingBehind(a: seq<byte>)
    requires a == [] || a[|a| - 1] == NEWLINE
    ensures LastLine(a) == []
  {
    hide LastLine;
    if a == [] {
      NoLines(a);
    } else {
      assert a == a[..|a| - 1] + [NEWLINE];
      LastLineGrows(a[..|a| - 1], NEWLINE);
    }
  }

  // ---- what an edit leaves ----

  lemma LineEndIs(t: seq<byte>, o: nat, e: nat)
    requires o <= e <= |t| && (e < |t| ==> t[e] == NEWLINE) && forall i :: o <= i < e ==> t[i] != NEWLINE
    ensures LineEnd(t, o) == e
  {
    LineEndSkip(t, o, e);
  }

  /** A line that ends before `m` is the same line of the first `m` bytes. */
  lemma LineInPrefix(t: seq<byte>, m: nat, l: nat)
    requires m <= |t| && l < Lines(t[..m])
    ensures LineText(t, l) == LineText(t[..m], l)
  {
    hide Lines, LineStart, LastLine;
    var a, b := t[..m], t[m..];
    assert t == a + b;
    LineStartConcat(a, b, l);
    LineSpan(t, m, l);
    var s, e := LineStart(t, l), LineEnd(t, LineStart(t, l));
    LineEndIs(a, s, e);
    assert a[s..e] == t[s..e];
  }

  lemma {:induction false} StateInPrefix(f: Colorizer, t: seq<byte>, how: Reading, m: nat, l: nat)
    requires m <= |t| && l <= Lines(t[..m])
    ensures StateBefore(f, t, how, l) == StateBefore(f, t[..m], how, l)
  {
    hide Lines, LineText, CharsIn;
    if l > 0 {
      StateInPrefix(f, t, how, m, l - 1);
      LineInPrefix(t, m, l - 1);
    }
  }

  /** The line after line `l` begins after its end. */
  lemma NextLine(t: seq<byte>, l: nat)
    ensures var e := LineEnd(t, LineOrEnd(t, l));
            LineOrEnd(t, l + 1) == if e < |t| then e + 1 else e
  {
    hide Lines, LineStart, LastLine;
    if l <= Lines(t) {
      var e := LineEnd(t, LineStart(t, l));
      assert t[..|t|] == t;
      LineSpan(t, |t|, l);
      if e < |t| {
        NextStart(t, l, e);
      }
    }
  }

  lemma FirstState(f: Colorizer, t: seq<byte>, how: Reading)
    ensures StateBefore(f, t, how, 0) == 0
  {
  }

  lemma StateStep(f: Colorizer, t: seq<byte>, how: Reading, l: nat)
    ensures StateBefore(f, t, how, l + 1) == f(CharsIn(LineText(t, l), how), StateBefore(f, t, how, l)).1
  {
  }

  lemma GotoLine(pages: seq<seq<byte>>, l: nat)
    ensures GotoOffset(pages, l, 0) == LineOrEnd(Flat(pages), l)
  {
    GotoExact(pages, l, 0);
  }

  // ---- the cache ----

  /** The first `n` states are right for the text `t`. */
  ghost predicate Right(f: Colorizer, t: seq<byte>, how: Reading, states: seq<byte>, n: int) {
    0 <= n <= |states| && forall l :: 0 <= l < n ==> states[l] == StateBefore(f, t, how, l)
  }

  lemma RightMore(f: Colorizer, t: seq<byte>, how: Reading, states: seq<byte>, n: nat, state: byte)
    requires Right(f, t, how, states, n) && n < |states| && state == StateBefore(f, t, how, n)
    ensures Right(f, t, how, states[n := state], n + 1)
  {
    hide StateBefore;
  }

  lemma NoneRight(f: Colorizer, t: seq<byte>, how: Reading)
    ensures Right(f, t, how, [], 0)
  {
  }

  lemma RightAt(f: Colorizer, t: seq<byte>, how: Reading, states: seq<byte>, n: nat, l: nat)
    requires Right(f, t, how, states, n) && l < n
    ensures l < |states| && states[l] == StateBefore(f, t, how, l) && Right(f, t, how, states, l + 1)
  {
  }

  lemma RightLonger(f: Colorizer, t: seq<byte>, how: Reading, states: seq<byte>, n: int, longer: seq<byte>)
    requires Right(f, t, how, states, n) && |states| <= |longer| && longer[..|states|] == states
    ensures Right(f, t, how, longer, n)
  {
    hide StateBefore;
    forall l | 0 <= l < n ensures longer[l] == states[l] {
      assert longer[l] == longer[..|states|][l];
    }
  }

  /** The first `nb` states are right for the text `seen`, and so are those of the lines that begin at
      or before `m` for the text `t`: the two agree up to `m`. */
  ghost predicate StatesOk(f: Colorizer, how: Reading, states: seq<byte>, nb: int, seen: seq<byte>, t: seq<byte>,
                           m: int) {
    && Right(f, seen, how, states, nb)
    && (if m == MAX_INT then seen == t else 0 <= m <= |seen| && m <= |t| && seen[..m] == t[..m])
  }

  /** An edit at `o` that leaves the text before `o` alone. */
  lemma EditKeepsStates(f: Colorizer, how: Reading, states: seq<byte>, nb: int, seen: seq<byte>, t: seq<byte>, m: int,
                        t1: seq<byte>, o: nat)
    requires StatesOk(f, how, states, nb, seen, t, m)
    requires o <= |t| && o <= |t1| && t1[..o] == t[..o] && o < MAX_INT
    ensures StatesOk(f, how, states, nb, seen, t1, if o < m then o else m)
  {
    if m == MAX_INT || o < m {
      assert seen[..o] == t[..o] by {
        if m != MAX_INT {
          assert seen[..o] == seen[..m][..o] && t[..o] == t[..m][..o];
        }
      }
    } else {
      assert t1[..m] == t1[..o][..m] && t[..m] == t[..o][..m];
    }
  }

  /** The states up to the line that `m` is in are still right. */
  lemma StatesLeft(f: Colorizer, how: Reading, states: seq<byte>, nb: int, seen: seq<byte>, t: seq<byte>, m: int)
    requires StatesOk(f, how, states, nb, seen, t, m) && m != MAX_INT
    ensures var line := Lines(t[..m]) + 1;
            StatesOk(f, how, states, if line < nb then line else nb, t, t, MAX_INT)
  {
    hide Lines, StateBefore;
    forall l | 0 <= l < nb && l <= Lines(t[..m]) ensures states[l] == StateBefore(f, t, how, l) {
      StateInPrefix(f, t, how, m, l);
      StateInPrefix(f, seen, how, m, l);
    }
  }

  /** A window's colouring of a buffer. */
  class LineColors {
    const buffer: EditBuffer
    /** Which of the buffer's callbacks is this one's: its offset is `colorOffsets[id]` there. */
    const id: nat
    const colorizeFunc: Colorizer
    /** How much of a line is coloured: one less than the size of the line buffer. */
    const size: nat

    var states: seq<byte>
    var nbValidLines: nat

    /** The text for which the states were last known to be right. */
    ghost var seen: seq<byte>

    ghost function How(): Reading {
      Reading(buffer.charset, size)
    }

    /** Under UTF-8 the text does not end inside a form. */
    ghost predicate Complete()
      reads buffer`text
    {
      Settled(LastLine(buffer.Text()), buffer.charset)
    }

    ghost predicate Valid()
      reads this, buffer`text, buffer`colorOffsets
    {
      && id < |buffer.colorOffsets|
      && StatesOk(colorizeFunc, How(), states, nbValidLines, seen, buffer.Text(), buffer.colorOffsets[id])
    }

    /** Registers the callback; nothing is coloured yet. */
    constructor (b: EditBuffer, f: Colorizer, size: nat)
      requires b.Valid() && b.logBuffer != b
      modifies b`colorOffsets
      ensures b.Valid() && Valid() && buffer == b && colorizeFunc == f && this.size == size
      ensures id == |old(b.colorOffsets)| && b.colorOffsets == old(b.colorOffsets) + [MAX_INT]
    {
      hide Flat, Right, EditBuffer.TableValid, EditBuffer.CacheValid, EditBuffer.IsLog;
      NoneRight(f, b.Text(), Reading(b.charset, size));
      buffer, id, colorizeFunc, this.size := b, |b.colorOffsets|, f, size;
      states, nbValidLines, seen := [], 0, b.Text();
      new;
      b.colorOffsets := b.colorOffsets + [MAX_INT];
    }

    /** Drops the states behind the first change since the last request. */
    method Invalidate()
      requires Valid() && buffer.Valid()
      modifies this`nbValidLines, this`seen, buffer`colorOffsets, buffer`pageTable
      ensures Valid() && buffer.Valid()
      ensures buffer.colorOffsets == old(buffer.colorOffsets)[id := MAX_INT]
    {
      hide Flat, Lines, LastLine, StatesOk, EditBuffer.TableValid, EditBuffer.CacheValid, EditBuffer.IsLog;
      var m := buffer.colorOffsets[id];
      if m != MAX_INT {
        OffsetInside(m);
        var line, col := GetPos(buffer, m);
        line := line + 1;
        StatesLeft(colorizeFunc, How(), states, nbValidLines, seen, buffer.Text(), m);
        if line < nbValidLines {
          nbValidLines := line;
        }
        buffer.colorOffsets := buffer.colorOffsets[id := MAX_INT];
        seen := buffer.Text();
      }
    }

    lemma OffsetInside(m: int)
      requires Valid() && m == buffer.colorOffsets[id] && m != MAX_INT
      ensures 0 <= m <= |buffer.Text()|
    {
    }

    /** Makes room for `n` states. */
    method Reserve(n: nat)
      requires Valid()
      modifies this`states
      ensures Valid() && |states| >= n
    {
      hide Flat, Right;
      if n > |states| {
        var longer := states + seq(n + PREALLOC - |states|, i => 0);
        RightLonger(colorizeFunc, seen, How(), states, nbValidLines, longer);
        states := longer;
      }
    }

    /** The characters of line `l`, which begins at `offset`, and the start of the line after it. */
    method ReadLine(offset: nat, ghost l: nat) returns (chars: seq<int>, next: nat)
      requires buffer.Valid() && Complete() && offset == LineOrEnd(buffer.Text(), l)
      modifies buffer`curPage, buffer`curOffset
      ensures buffer.Valid() && next == LineOrEnd(buffer.Text(), l + 1)
      ensures chars == CharsIn(LineText(buffer.Text(), l), How())
    {
      hide Flat, LineOrEnd, LineEnd, CharsOf, Settled, EditBuffer.TableValid, EditBuffer.CacheValid, EditBuffer.IsLog;
      ghost var t := buffer.Text();
      chars, next := GetLine(buffer, offset, size);
      LineSettled(t, buffer.charset, l);
      NextLine(t, l);
    }

    /** Colours the lines before `lineNum` whose states are not known, for their states alone. */
    method Propagate(lineNum: nat)
      requires buffer.Valid() && Complete() && 0 <= nbValidLines <= lineNum < |states|
      requires Right(colorizeFunc, buffer.Text(), How(), states, nbValidLines)
      modifies this`states, this`nbValidLines, buffer`pageTable, buffer`curPage, buffer`curOffset
      ensures buffer.Valid() && |states| == |old(states)|
      ensures Right(colorizeFunc, buffer.Text(), How(), states, lineNum + 1)
    {
      hide Flat, Right, Lines, LastLine, StateBefore, LineOrEnd, LineEnd, CharsIn, CharsOf, Settled, GotoOffset,
           EditBuffer.TableValid, EditBuffer.CacheValid, EditBuffer.IsLog;
      ghost var f, t := colorizeFunc, buffer.Text();
      FirstState(f, t, How());
      if nbValidLines == 0 {
        RightMore(f, t, How(), states, 0, 0);
        states := states[0 := 0]; // line 0 starts in state 0
        nbValidLines := 1;
      }
      var offset := GotoPos(buffer, nbValidLines - 1, 0);
      GotoLine(buffer.text, nbValidLines - 1);
      var state := states[nbValidLines - 1];
      RightAt(f, t, How(), states, nbValidLines, nbValidLines - 1);
      var l := nbValidLines;
      while l <= lineNum
        invariant buffer.Valid() && buffer.Text() == t && 1 <= l <= lineNum + 1 && |states| == |old(states)|
        invariant offset == LineOrEnd(t, l - 1) && state == StateBefore(f, t, How(), l - 1)
                  && Right(f, t, How(), states, l)
      {
        offset, state := Advance(l, offset, state);
        l := l + 1;
      }
    }

    /** Colours line `l - 1`, which begins at `offset`, for the state after it. */
    method Advance(l: nat, offset: nat, state: byte) returns (next: nat, after: byte)
      requires buffer.Valid() && Complete() && 1 <= l < |states|
      requires var f, t := colorizeFunc, buffer.Text();
               && offset == LineOrEnd(t, l - 1) && state == StateBefore(f, t, How(), l - 1)
               && Right(f, t, How(), states, l)
      modifies this`states, buffer`curPage, buffer`curOffset
      ensures buffer.Valid() && |states| == |old(states)|
      ensures var f, t := colorizeFunc, buffer.Text();
              && next == LineOrEnd(t, l) && after == StateBefore(f, t, How(), l) && Right(f, t, How(), states, l + 1)
    {
      hide Flat, Right, Lines, LastLine, StateBefore, LineOrEnd, LineEnd, CharsIn, CharsOf, Settled,
           EditBuffer.TableValid, EditBuffer.CacheValid, EditBuffer.IsLog;
      ghost var f, t := colorizeFunc, buffer.Text();
      var chars;
      chars, next := ReadLine(offset, l - 1);
      StateStep(f, t, How(), l - 1);
      after := colorizeFunc(chars, state).1;
      RightMore(f, t, How(), states, l, after);
      states := states[l := after];
    }

    /** Colours line `lineNum`, and keeps the state after it. */
    method ColorLine(offset1: nat, lineNum: nat) returns (line: seq<int>)
      requires buffer.Valid() && Complete() && offset1 == LineOrEnd(buffer.Text(), lineNum)
      requires lineNum + 1 < |states| && Right(colorizeFunc, buffer.Text(), How(), states, lineNum + 1)
      modifies this`states, this`nbValidLines, buffer`curPage, buffer`curOffset
      ensures buffer.Valid() && Right(colorizeFunc, buffer.Text(), How(), states, nbValidLines)
      ensures line == Colored(colorizeFunc, buffer.Text(), How(), lineNum)
    {
      hide Flat, Right, Lines, StateBefore, LineOrEnd, LineEnd, CharsIn, CharsOf, Settled, EditBuffer.TableValid,
           EditBuffer.CacheValid, EditBuffer.IsLog;
      ghost var f, t := colorizeFunc, buffer.Text();
      RightAt(f, t, How(), states, lineNum + 1, lineNum);
      var chars, next := ReadLine(offset1, lineNum);
      line := colorizeFunc(chars, states[lineNum]).0;
      var state := colorizeFunc(chars, states[lineNum]).1;
      StateStep(f, t, How(), lineNum);
      RightMore(f, t, How(), states, lineNum + 1, state);
      states := states[lineNum + 1 := state];
      nbValidLines := lineNum + 2;
    }

    /** Line `lineNum`, which begins at `offset1`, in colour: the same as when everything is coloured from
        scratch, whatever was edited and asked for before. */
    method GetColorizedLine(offset1: nat, lineNum: nat) returns (line: seq<int>)
      requires Valid() && buffer.Valid() && Complete()
      requires offset1 == LineOrEnd(buffer.Text(), lineNum)
      modifies this, buffer`colorOffsets, buffer`pageTable, buffer`curPage, buffer`curOffset
      ensures Valid() && buffer.Valid()
      ensures line == ColoredLine(colorizeFunc, buffer.Text(), How(), lineNum)
      ensures buffer.colorOffsets == old(buffer.colorOffsets)[id := MAX_INT]
    {
      hide Flat, Right, Colored, ColoredLine, LineOrEnd, EditBuffer.TableValid, EditBuffer.CacheValid, EditBuffer.IsLog;
      // an edit since the last call: lines from it on are no longer known
      Invalidate();
      // room for the state at the end of this line
      Reserve(lineNum + 2);
      // the lines before were not asked for yet
      if lineNum >= nbValidLines {
        Propagate(lineNum);
      } else {
        RightAt(colorizeFunc, buffer.Text(), How(), states, nbValidLines, lineNum);
      }
      // now the line itself, from its own state
      line := ColorLine(offset1, lineNum);
      OneColoring(colorizeFunc, buffer.Text(), How(), lineNum + 1, lineNum);
    }
  }

  // ---- whole runs ----

  /** What a user may do in a window: change the buffer, or look at a line. */
  datatype Request = Change(c: Command) | Show(line: nat)

  predicate Possible(s: Session, r: Request)
    requires DocOk(s.doc)
  {
    && |s.doc.text| < MAX_INT
    && (r.Change? ==> Allowed(s, r.c) && (r.c.DoEdit? && !r.c.e.Delete? ==> |r.c.e.bytes| <= MAX_INT))
  }

  predicate AllPossible(s: Session, rs: seq<Request>)
    requires DocOk(s.doc)
    decreases |rs|
  {
    rs == [] || (Possible(s, rs[0]) && AllPossible(After(s, rs[0]), rs[1..]))
  }

  function After(s: Session, r: Request): (t: Session)
    requires DocOk(s.doc) && Possible(s, r)
    ensures DocOk(t.doc)
  {
    if r.Change? then Step(s, r.c) else s
  }

  function AfterAll(s: Session, rs: seq<Request>): (t: Session)
    requires DocOk(s.doc) && AllPossible(s, rs)
    ensures DocOk(t.doc)
    decreases |rs|
  {
    if rs == [] then s else AfterAll(After(s, rs[0]), rs[1..])
  }

  /** Whenever a line is asked for, the text does not end inside a form. */
  ghost predicate AllComplete(s: Session, rs: seq<Request>, charset: Charset)
    requires DocOk(s.doc) && AllPossible(s, rs)
    decreases |rs|
  {
    rs == [] || (CompleteAt(s, rs[0], charset) && AllComplete(After(s, rs[0]), rs[1..], charset))
  }

  ghost predicate CompleteAt(s: Session, r: Request, charset: Charset) {
    r.Show? ==> Settled(LastLine(s.doc.text), charset)
  }

  /** The lines that are shown, each as it comes out when the text that is there at that time is coloured
      in one pass. */
  ghost function Shown(f: Colorizer, how: Reading, s: Session, rs: seq<Request>): seq<seq<int>>
    requires DocOk(s.doc) && AllPossible(s, rs)
    decreases |rs|
  {
    if rs == [] then [] else
      var one := if rs[0].Show? then [ColoredLine(f, s.doc.text, how, rs[0].line)] else [];
      one + Shown(f, how, After(s, rs[0]), rs[1..])
  }

  lemma EditedBefore(t: seq<byte>, e: Edit)
    requires Enabled(e, t)
    ensures e.offset <= |t| && e.offset <= |Edited(t, e)| && Edited(t, e)[..e.offset] == t[..e.offset]
  {
  }

  lemma RevertedBefore(t: seq<byte>, r: Record)
    requires Fits(r, |t|)
    ensures r.offset <= |t| && r.offset <= |Revert(r, t)| && Revert(r, t)[..r.offset] == t[..r.offset]
    ensures r.op == LogInsert && r.offset >= |t| ==> Revert(r, t) == t
  {
  }

  /** One edit of the buffer. */
  method EditText(c: LineColors, e: Edit)
    requires c.Valid() && c.buffer.Valid() && Enabled(e, c.buffer.Text()) && |c.buffer.Text()| < MAX_INT
    requires !e.Delete? ==> |e.bytes| <= MAX_INT
    modifies c.buffer, c.buffer.own, c.buffer.LogFrame()
    ensures c.Valid() && c.buffer.Valid() && c.buffer.State() == Apply(old(c.buffer.State()), e)
    ensures fresh(c.buffer.own - old(c.buffer.own)) && fresh(c.buffer.LogFrame() - old(c.buffer.LogFrame()))
  {
    hide Flat, Apply, Right, EditBuffer.TableValid, EditBuffer.CacheValid, EditBuffer.IsLog;
    var b := c.buffer;
    ghost var t := b.Text();
    EditedBefore(t, e);
    match e {
      case Overwrite(offset, bytes) =>
        assert bytes[..|bytes|] == bytes;
        b.Write(offset, bytes);
      case Insert(offset, bytes) => b.Insert(offset, bytes);
      case Delete(offset, size) => b.Delete(offset, size);
    }
    EditKeepsStates(c.colorizeFunc, c.How(), c.states, c.nbValidLines, c.seen, t, old(b.colorOffsets[c.id]), b.Text(),
                    e.offset);
  }

  /** What the undo command does, in terms of the record it finds. */
  lemma UndoIs(s: Session)
    requires HasSession(s)
    ensures var d := UndoStart(s.doc, s.lastUndo);
            if Left(d) > 0 then
              && Left(d) <= |d.log| && CanUndo(d) && Step(s, Undo).doc == UndoStep(d)
              && var r, t1 := d.log[Left(d) - 1], UndoStep(d).text;
              && r.offset <= |s.doc.text| && r.offset <= |t1| && t1[..r.offset] == s.doc.text[..r.offset]
              && (!UndoIsLogged(d) ==> t1 == s.doc.text)
            else Step(s, Undo).doc == d && d.text == s.doc.text
  {
    hide UndoStep, Revert;
    if s.doc.saveLog {
      UndoFinds(s);
    }
    var d := UndoFrom(s);
    if Left(d) > 0 {
      UndoStepText(d);
      RevertedBefore(d.text, d.log[Left(d) - 1]);
    }
  }

  method UndoText(c: LineColors, ghost s: Session, lastUndo: bool)
    requires c.Valid() && c.buffer.Valid() && HasSession(s) && s.doc == c.buffer.State() && s.lastUndo == lastUndo
    requires |s.doc.text| < MAX_INT
    modifies c.buffer, c.buffer.own, c.buffer.LogFrame()
    ensures c.Valid() && c.buffer.Valid() && c.buffer.State() == Step(s, Undo).doc
    ensures fresh(c.buffer.own - old(c.buffer.own)) && fresh(c.buffer.LogFrame() - old(c.buffer.LogFrame()))
  {
    hide Flat, Step, HasSession, CanUndo, UndoIsLogged, UndoStart, Left, UndoStep, UndoPoint, Right,
         EditBuffer.TableValid, EditBuffer.CacheValid, EditBuffer.IsLog;
    var b := c.buffer;
    ghost var t, d := b.Text(), UndoStart(s.doc, lastUndo);
    UndoIs(s);
    var found, point := b.Undo(lastUndo);
    if found {
      ghost var r := d.log[Left(d) - 1];
      EditKeepsStates(c.colorizeFunc, c.How(), c.states, c.nbValidLines, c.seen, t, old(b.colorOffsets[c.id]),
                      b.Text(), r.offset);
    }
  }

  /** Everything stands as it does in the session `s`. */
  ghost predicate Stands(c: LineColors, s: Session)
    reads c, c.buffer, c.buffer.own, c.buffer.shared, c.buffer.logBuffer, c.buffer.LogFrame(), c.buffer.LogShared()
  {
    c.Valid() && c.buffer.Valid() && DocOk(s.doc) && HasSession(s) && s.doc == c.buffer.State()
  }

  method Execute(c: LineColors, cmd: Command, lastUndo: bool, ghost s: Session) returns (wasUndo: bool)
    requires Stands(c, s) && s.lastUndo == lastUndo && Possible(s, Change(cmd))
    modifies c.buffer, c.buffer.own, c.buffer.LogFrame()
    ensures Stands(c, Step(s, cmd)) && wasUndo == Step(s, cmd).lastUndo
    ensures fresh(c.buffer.own - old(c.buffer.own)) && fresh(c.buffer.LogFrame() - old(c.buffer.LogFrame()))
  {
    hide Flat, Apply, HasSession, UndoStep, Right, EditBuffer.TableValid, EditBuffer.CacheValid, EditBuffer.IsLog;
    StepHasSession(s, cmd);
    wasUndo := false;
    match cmd {
      case DoEdit(e) => EditText(c, e);
      case MarkSaved => c.buffer.modified := false;
      case Save => c.buffer.LogReset();
      case Other =>
      case Undo =>
        UndoText(c, s, lastUndo);
        wasUndo := true;
    }
  }

  /** Any requests, in any order: the buffer goes through the states of the session, and each line that
      is asked for is coloured as in one pass over the whole text. */
  method Serve(c: LineColors, requests: seq<Request>, ghost s0: Session) returns (shown: seq<seq<int>>)
    requires Stands(c, s0) && !s0.lastUndo && AllPossible(s0, requests) && AllComplete(s0, requests, c.buffer.charset)
    modifies c, c.buffer, c.buffer.own, c.buffer.LogFrame()
    ensures shown == Shown(c.colorizeFunc, c.How(), s0, requests)
    ensures Stands(c, AfterAll(s0, requests))
  {
    hide Flat, Shown, AfterAll, ColoredLine, Step, Possible, CompleteAt, HasSession, Right, EditBuffer.TableValid,
         EditBuffer.CacheValid, EditBuffer.LogValid;
    shown := [];
    var lastUndo := false;
    ghost var s := s0;
    ghost var all := Shown(c.colorizeFunc, c.How(), s0, requests);
    var i := 0;
    assert requests[0..] == requests;
    while i < |requests|
      invariant 0 <= i <= |requests| && Stands(c, s) && lastUndo == s.lastUndo && AllPossible(s, requests[i..])
      invariant AllComplete(s, requests[i..], c.buffer.charset)
      invariant all == shown + Shown(c.colorizeFunc, c.How(), s, requests[i..])
      invariant AfterAll(s0, requests) == AfterAll(s, requests[i..])
      invariant fresh(c.buffer.own - old(c.buffer.own)) && fresh(c.buffer.LogFrame() - old(c.buffer.LogFrame()))
    {
      var out;
      lastUndo, out := One(c, requests[i], lastUndo, s);
      ShownMore(c.colorizeFunc, c.How(), s, requests, i, shown, out);
      shown := shown + out;
      s := After(s, requests[i]);
      i := i + 1;
    }
    ShownNone(c.colorizeFunc, c.How(), s, shown);
  }

  method One(c: LineColors, r: Request, lastUndo: bool, ghost s: Session) returns (wasUndo: bool, out: seq<seq<int>>)
    requires Stands(c, s) && s.lastUndo == lastUndo && Possible(s, r) && CompleteAt(s, r, c.buffer.charset)
    modifies c, c.buffer, c.buffer.own, c.buffer.LogFrame()
    ensures Stands(c, After(s, r)) && wasUndo == After(s, r).lastUndo
    ensures out == if r.Show? then [ColoredLine(c.colorizeFunc, s.doc.text, c.How(), r.line)] else []
    ensures fresh(c.buffer.own - old(c.buffer.own)) && fresh(c.buffer.LogFrame() - old(c.buffer.LogFrame()))
  {
    hide Flat, ColoredLine, Step, HasSession, Right, EditBuffer.TableValid, EditBuffer.CacheValid, EditBuffer.LogValid;
    match r {
      case Change(cmd) =>
        wasUndo := Execute(c, cmd, lastUndo, s);
        out := [];
      case Show(l) =>
        var offset := GotoPos(c.buffer, l, 0);
        GotoLine(c.buffer.text, l);
        var line := c.GetColorizedLine(offset, l);
        wasUndo, out := lastUndo, [line];
    }
  }

  lemma ShownMore(f: Colorizer, how: Reading, s: Session, rs: seq<Request>, i: nat, shown: seq<seq<int>>,
                  out: seq<seq<int>>)
    requires i < |rs| && DocOk(s.doc) && AllPossible(s, rs[i..]) && AllComplete(s, rs[i..], how.charset)
    requires out == if rs[i].Show? then [ColoredLine(f, s.doc.text, how, rs[i].line)] else []
    ensures Possible(s, rs[i]) && CompleteAt(s, rs[i], how.charset)
    ensures AllPossible(After(s, rs[i]), rs[i + 1..]) && AllComplete(After(s, rs[i]), rs[i + 1..], how.charset)
    ensures shown + Shown(f, how, s, rs[i..]) == shown + out + Shown(f, how, After(s, rs[i]), rs[i + 1..])
    ensures AfterAll(s, rs[i..]) == AfterAll(After(s, rs[i]), rs[i + 1..])
  {
    hide ColoredLine, Step, Possible, CompleteAt;
    assert rs[i..][1..] == rs[i + 1..];
  }

  lemma ShownNone(f: Colorizer, how: Reading, s: Session, shown: seq<seq<int>>)
    requires DocOk(s.doc)
    ensures shown + Shown(f, how, s, []) == shown && AfterAll(s, []) == s
  {
  }
}
