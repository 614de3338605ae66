/** Words, and what filling a paragraph makes of a text. */
module FillText {
  import opened PageText
  import opened TextCounts
  import opened Positions

  const PARAGRAPH_WIDTH := 76
  const SPACE: byte := 32

  /** What `isspace` accepts in the C locale. */
  predicate IsSpace(c: int) {
    c == 32 || 9 <= c <= 13
  }

  predicate AllSpaces(t: seq<byte>) {
    forall i :: 0 <= i < |t| ==> IsSpace(t[i])
  }

  predicate NoSpaces(t: seq<byte>) {
    forall i :: 0 <= i < |t| ==> !IsSpace(t[i])
  }

  /** The end of the spaces at `o`. */
  function SpacesEnd(t: seq<byte>, o: nat): (e: nat)
    requires o <= |t|
    ensures o <= e <= |t| && (e < |t| ==> !IsSpace(t[e])) && forall i :: o <= i < e ==> IsSpace(t[i])
    decreases |t| - o
  {
    if o < |t| && IsSpace(t[o]) then SpacesEnd(t, o + 1) else o
  }

  /** The end of the word at `o`. */
  function WordEnd(t: seq<byte>, o: nat): (e: nat)
    requires o <= |t|
    ensures o <= e <= |t| && (e < |t| ==> IsSpace(t[e])) && forall i :: o <= i < e ==> !IsSpace(t[i])
    decreases |t| - o
  {
    if o < |t| && !IsSpace(t[o]) then WordEnd(t, o + 1) else o
  }

  /** The words of a text. */
  function Words(t: seq<byte>): seq<seq<byte>>
    decreases |t|
  {
    if t == [] then []
    else if IsSpace(t[0]) then Words(t[1..])
    else [t[..WordEnd(t, 0)]] + Words(t[WordEnd(t, 0)..])
  }

  lemma WordEndIs(t: seq<byte>, o: nat, e: nat)
    requires o <= e <= |t| && (e < |t| ==> IsSpace(t[e])) && forall i :: o <= i < e ==> !IsSpace(t[i])
    ensures WordEnd(t, o) == e
  {
  }

  /** Spaces in front do not matter. */
  lemma {:induction false} SpacesFirst(s: seq<byte>, t: seq<byte>)
    requires AllSpaces(s)
    ensures Words(s + t) == Words(t)
  {
    if s == [] {
      assert s + t == t;
    } else {
      assert (s + t)[1..] == s[1..] + t;
      SpacesFirst(s[1..], t);
    }
  }

  /** A word, then a space or nothing. */
  lemma WordFirst(w: seq<byte>, t: seq<byte>)
    requires NoSpaces(w) && (t == [] || IsSpace(t[0]))
    ensures Words(w + t) == (if w == [] then [] else [w]) + Words(t)
  {
    if w == [] {
      assert w + t == t;
    } else {
      WordEndIs(w + t, 0, |w|);
      assert (w + t)[..|w|] == w && (w + t)[|w|..] == t;
    }
  }

  /** Two texts with a space between them. */
  lemma {:induction false} WordsJoin(a: seq<byte>, b: seq<byte>)
    requires a == [] || b == [] || IsSpace(a[|a| - 1]) || IsSpace(b[0])
    ensures Words(a + b) == Words(a) + Words(b)
    decreases |a|
  {
    if a == [] {
      assert a + b == b;
    } else if IsSpace(a[0]) {
      assert (a + b)[1..] == a[1..] + b;
      WordsJoin(a[1..], b);
    } else {
      var e := WordEnd(a, 0);
      WordEndIs(a + b, 0, e);
      assert (a + b)[..e] == a[..e] && (a + b)[e..] == a[e..] + b;
      WordsJoin(a[e..], b);
    }
  }

  /** The bytes that are no spaces. */
  function Solid(t: seq<byte>): (s: seq<byte>) {
    if t == [] then []
    else if t[0] == 32 || 9 <= t[0] <= 13 then Solid(t[1..])
    else [t[0]] + Solid(t[1..])
  }

  /** The words are all bytes that are no spaces, in order, and none of them is empty. */
  lemma {:induction false} WordsMean(t: seq<byte>)
    ensures Flat(Words(t)) == Solid(t)
    ensures forall w :: w in Words(t) ==> w != [] && forall i :: 0 <= i < |w| ==> !(w[i] == 32 || 9 <= w[i] <= 13)
    decreases |t|
  {
    if t != [] {
      if IsSpace(t[0]) {
        WordsMean(t[1..]);
      } else {
        var e := WordEnd(t, 0);
        WordsMean(t[e..]);
        SolidWord(t, e);
        assert ([t[..e]] + Words(t[e..]))[1..] == Words(t[e..]);
      }
    }
  }

  lemma {:induction false} SolidWord(t: seq<byte>, e: nat)
    requires e <= |t| && NoSpaces(t[..e])
    ensures Solid(t) == t[..e] + Solid(t[e..])
    decreases e
  {
    if e > 0 {
      assert !IsSpace(t[..e][0]);
      assert t[1..][..e - 1] == t[..e][1..] && t[1..][e - 1..] == t[e..];
      SolidWord(t[1..], e - 1);
      assert t[..e] == [t[0]] + t[1..][..e - 1];
    } else {
      assert t[..0] + Solid(t[0..]) == Solid(t);
    }
  }

  // ---- filling ----

  function Spaces(k: nat): (s: seq<byte>)
    ensures |s| == k && forall i :: 0 <= i < k ==> s[i] == SPACE
  {
    seq(k, i => SPACE)
  }

  /** The columns that the bytes from `i` to `j` take: one for each character. */
  function Width(r: seq<byte>, i: nat, j: nat, cs: Charset): nat
    requires i <= j <= |r|
  {
    Chars(r[i..j], cs)
  }

  /** The new gap in front of the word from `ws` to `we`: a space, or a line break if the word does not fit or
      is the last thing in the paragraph. */
  function NewGap(r: seq<byte>, ws: nat, we: nat, col: nat, indent: nat, cs: Charset): (g: seq<byte>)
    requires ws <= we <= |r|
    ensures AllSpaces(g) && g != []
  {
    if we == |r| then [NEWLINE]
    else if col + 1 + Width(r, ws, we, cs) > PARAGRAPH_WIDTH then [NEWLINE] + Spaces(indent)
    else [SPACE]
  }

  /** The column after that word, as it is counted. */
  function NextCol(r: seq<byte>, ws: nat, we: nat, col: nat, indent: nat, cs: Charset): nat
    requires ws <= we <= |r|
  {
    var n := Width(r, ws, we, cs);
    if we == |r| || col + 1 + n > PARAGRAPH_WIDTH then n + indent else col + 1 + n
  }

  /** The rest of the paragraph `r`, from `pos` on, filled; `first` says that no word was seen yet. */
  function Filled(r: seq<byte>, pos: nat, col: nat, first: bool, indent: nat, cs: Charset): seq<byte>
    requires pos <= |r|
    decreases |r| - pos
  {
    if pos == |r| then []
    else
      var ws := SpacesEnd(r, pos);
      var we := WordEnd(r, ws);
      if first then r[pos..we] + Filled(r, we, col + Width(r, pos, we, cs), false, indent, cs)
      else
        NewGap(r, ws, we, col, indent, cs) + r[ws..we]
        + Filled(r, we, NextCol(r, ws, we, col, indent, cs), false, indent, cs)
  }

  function FilledParagraph(r: seq<byte>, indent: nat, cs: Charset): seq<byte> {
    Filled(r, 0, 0, true, indent, cs)
  }

  // ---- no word is lost ----

  lemma {:induction false} FilledWords(r: seq<byte>, pos: nat, col: nat, indent: nat, cs: Charset)
    requires pos <= |r| && (pos < |r| ==> IsSpace(r[pos]))
    ensures Words(Filled(r, pos, col, false, indent, cs)) == Words(r[pos..])
    ensures pos < |r| ==>
              Filled(r, pos, col, false, indent, cs) != [] && IsSpace(Filled(r, pos, col, false, indent, cs)[0])
    decreases |r| - pos
  {
    if pos < |r| {
      var ws := SpacesEnd(r, pos);
      var we := WordEnd(r, ws);
      var rest := Filled(r, we, NextCol(r, ws, we, col, indent, cs), false, indent, cs);
      FilledWords(r, we, NextCol(r, ws, we, col, indent, cs), indent, cs);
      GapAndWord(NewGap(r, ws, we, col, indent, cs), r[ws..we], rest);
      GapAndWord(r[pos..ws], r[ws..we], r[we..]);
      ThreeParts(r, pos, ws, we);
    }
  }

  lemma GapAndWord(gap: seq<byte>, w: seq<byte>, rest: seq<byte>)
    requires AllSpaces(gap) && NoSpaces(w) && (rest == [] || IsSpace(rest[0]))
    ensures Words(gap + w + rest) == (if w == [] then [] else [w]) + Words(rest)
  {
    assert gap + w + rest == gap + (w + rest);
    SpacesFirst(gap, w + rest);
    WordFirst(w, rest);
  }

  lemma ThreeParts(r: seq<byte>, a: nat, b: nat, c: nat)
    requires a <= b <= c <= |r|
    ensures r[a..b] + r[b..c] + r[c..] == r[a..] && r[a..b] + r[b..c] == r[a..c]
  {
  }

  lemma FilledFirst(r: seq<byte>, indent: nat, cs: Charset)
    requires r != []
    ensures var we := WordEnd(r, SpacesEnd(r, 0));
            FilledParagraph(r, indent, cs) == r[0..we] + Filled(r, we, Width(r, 0, we, cs), false, indent, cs)
  {
  }

  /** Filling keeps the words of the paragraph. */
  lemma FillKeepsWords(r: seq<byte>, indent: nat, cs: Charset)
    ensures Words(FilledParagraph(r, indent, cs)) == Words(r)
  {
    if r != [] {
      var ws := SpacesEnd(r, 0);
      var we := WordEnd(r, ws);
      FilledFirst(r, indent, cs);
      FilledWords(r, we, Width(r, 0, we, cs), indent, cs);
      hide Filled, FilledParagraph, Words, SpacesEnd, WordEnd, Width;
      SameFirst(r, ws, we, Filled(r, we, Width(r, 0, we, cs), false, indent, cs));
    }
  }

  /** The words of a text are those of its first part, up to a space, and of anything with the words of the rest. */
  lemma SameFirst(r: seq<byte>, ws: nat, we: nat, rest: seq<byte>)
    requires ws <= we <= |r| && AllSpaces(r[..ws]) && NoSpaces(r[ws..we]) && Words(rest) == Words(r[we..])
    requires (rest == [] || IsSpace(rest[0])) && (we == |r| || IsSpace(r[we]))
    ensures Words(r[0..we] + rest) == Words(r)
  {
    hide Words;
    ThreeParts(r, 0, ws, we);
    assert r[0..] == r && r[0..ws] == r[..ws];
    GapAndWord(r[0..ws], r[ws..we], rest);
    GapAndWord(r[0..ws], r[ws..we], r[we..]);
  }

  /** A paragraph that ends with a newline is filled to one that does. */
  lemma {:induction false} FilledEnds(r: seq<byte>, pos: nat, col: nat, first: bool, indent: nat, cs: Charset)
    requires pos < |r| && r[|r| - 1] == NEWLINE && (first || IsSpace(r[pos]))
    ensures var f := Filled(r, pos, col, first, indent, cs); f != [] && f[|f| - 1] == NEWLINE
    decreases |r| - pos
  {
    var front, we, col1 := NextPart(r, pos, col, first, indent, cs);
    hide Filled;
    if we < |r| {
      FilledEnds(r, we, col1, false, indent, cs);
    } else {
      FilledNone(r, we, col1, false, indent, cs);
    }
    LastOfBoth(front, Filled(r, we, col1, false, indent, cs));
  }

  /** What filling does next. */
  lemma NextPart(r: seq<byte>, pos: nat, col: nat, first: bool, indent: nat, cs: Charset)
    returns (front: seq<byte>, we: nat, col1: nat)
    requires pos < |r|
    ensures pos < we <= |r| && (we < |r| ==> IsSpace(r[we])) && front != []
    ensures Filled(r, pos, col, first, indent, cs) == front + Filled(r, we, col1, false, indent, cs)
    ensures we == |r| && r[|r| - 1] == NEWLINE ==> front[|front| - 1] == NEWLINE
  {
    hide Filled, NewGap, NextCol, Width, SpacesEnd, WordEnd;
    Progress(r, pos);
    we := WordEnd(r, SpacesEnd(r, pos));
    if first {
      front, col1 := FirstPart(r, pos, we, col, indent, cs);
    } else {
      front, col1 := GapPart(r, pos, we, col, indent, cs);
    }
  }

  lemma FirstPart(r: seq<byte>, pos: nat, we: nat, col: nat, indent: nat, cs: Charset)
    returns (front: seq<byte>, col1: nat)
    requires pos < we <= |r| && we == WordEnd(r, SpacesEnd(r, pos))
    ensures front != [] && (we == |r| ==> front[|front| - 1] == r[|r| - 1])
    ensures Filled(r, pos, col, true, indent, cs) == front + Filled(r, we, col1, false, indent, cs)
  {
    hide Filled, Width, SpacesEnd, WordEnd;
    FirstUnfolds(r, pos, we, col, indent, cs);
    SliceLast(r, pos, we);
    front, col1 := r[pos..we], col + Width(r, pos, we, cs);
  }

  lemma GapPart(r: seq<byte>, pos: nat, we: nat, col: nat, indent: nat, cs: Charset)
    returns (front: seq<byte>, col1: nat)
    requires pos < we <= |r| && we == WordEnd(r, SpacesEnd(r, pos))
    ensures front != [] && (we == |r| && r[|r| - 1] == NEWLINE ==> front[|front| - 1] == NEWLINE)
    ensures Filled(r, pos, col, false, indent, cs) == front + Filled(r, we, col1, false, indent, cs)
  {
    var ws := SpacesEnd(r, pos);
    var gap, word := NewGap(r, ws, we, col, indent, cs), r[ws..we];
    assert we == |r| ==> gap == [NEWLINE];
    hide Filled, NewGap, NextCol, Width, SpacesEnd, WordEnd;
    GapUnfolds(r, pos, ws, we, col, indent, cs);
    front, col1 := gap + word, NextCol(r, ws, we, col, indent, cs);
    LastOfBoth(gap, word);
    if we == |r| && word != [] {
      SliceLast(r, ws, we);
    }
  }

  lemma FirstUnfolds(r: seq<byte>, pos: nat, we: nat, col: nat, indent: nat, cs: Charset)
    requires pos < we <= |r| && we == WordEnd(r, SpacesEnd(r, pos))
    ensures Filled(r, pos, col, true, indent, cs)
         == r[pos..we] + Filled(r, we, col + Width(r, pos, we, cs), false, indent, cs)
  {
    hide SpacesEnd, WordEnd, Width, NewGap, NextCol;
  }

  lemma GapUnfolds(r: seq<byte>, pos: nat, ws: nat, we: nat, col: nat, indent: nat, cs: Charset)
    requires pos < |r| && ws == SpacesEnd(r, pos) && we == WordEnd(r, ws)
    ensures Filled(r, pos, col, false, indent, cs)
         == NewGap(r, ws, we, col, indent, cs) + r[ws..we]
            + Filled(r, we, NextCol(r, ws, we, col, indent, cs), false, indent, cs)
  {
    hide SpacesEnd, WordEnd, Width, NewGap, NextCol;
  }

  lemma SliceLast(r: seq<byte>, a: nat, b: nat)
    requires a < b <= |r|
    ensures r[a..b] != [] && r[a..b][|r[a..b]| - 1] == r[b - 1]
  {
  }

  lemma FilledNone(r: seq<byte>, pos: nat, col: nat, first: bool, indent: nat, cs: Charset)
    requires pos == |r|
    ensures Filled(r, pos, col, first, indent, cs) == []
  {
  }

  lemma LastOfBoth(a: seq<byte>, b: seq<byte>)
    ensures a != [] || b != [] ==> (a + b)[|a + b| - 1] == if b != [] then b[|b| - 1] else a[|a| - 1]
  {
  }

  /** The whole text keeps its words when a paragraph is filled that begins at the start of a line and ends
      with a newline or at the end of the text. */
  lemma FillKeepsAllWords(t: seq<byte>, a: nat, b: nat, indent: nat, cs: Charset)
    requires a <= b <= |t| && (a == 0 || a == |t| || t[a - 1] == NEWLINE)
             && (b == |t| || (a < b && t[b - 1] == NEWLINE))
    ensures Words(t[..a] + FilledParagraph(t[a..b], indent, cs) + t[b..]) == Words(t)
  {
    hide Words, Filled, FilledParagraph;
    var x, r, y := t[..a], t[a..b], t[b..];
    var f := FilledParagraph(r, indent, cs);
    FillKeepsWords(r, indent, cs);
    assert t == x + r + y;
    if r == [] {
      FilledNothing(indent, cs);
      assert f == r;
    } else {
      if y != [] {
        ParagraphEnds(r, indent, cs);
      }
      WordsBetween(x, r, y);
      WordsBetween(x, f, y);
    }
  }

  /** A text in three parts, with spaces where they meet. */
  lemma WordsBetween(x: seq<byte>, r: seq<byte>, y: seq<byte>)
    requires x == [] || IsSpace(x[|x| - 1])
    requires y == [] || (r != [] && IsSpace(r[|r| - 1]))
    ensures Words(x + r + y) == Words(x) + Words(r) + Words(y)
  {
    hide Words;
    WordsJoin(x, r);
    LastOfBoth(x, r);
    WordsJoin(x + r, y);
  }

  lemma ParagraphEnds(r: seq<byte>, indent: nat, cs: Charset)
    requires r != [] && r[|r| - 1] == NEWLINE
    ensures var f := FilledParagraph(r, indent, cs); f != [] && f[|f| - 1] == NEWLINE
  {
    FilledEnds(r, 0, 0, true, indent, cs);
  }

  lemma FilledNothing(indent: nat, cs: Charset)
    ensures FilledParagraph([], indent, cs) == []
  {
  }

  // ---- no line with two words is too long ----

  predicate OneLine(t: seq<byte>, i: nat, j: nat)
    requires i <= j <= |t|
  {
    forall k :: i <= k < j ==> t[k] != NEWLINE
  }

  /** Whatever lies on one line and holds more than one word is not wider than a paragraph. */
  ghost predicate Narrow(t: seq<byte>, cs: Charset) {
    forall i: nat, j: nat :: i <= j <= |t| && OneLine(t, i, j) && |Words(t[i..j])| > 1 ==>
          Width(t, i, j, cs) <= PARAGRAPH_WIDTH
  }

  /** Spaces, then at most one word. */
  lemma OneWord(t: seq<byte>, k: nat)
    requires k <= |t| && AllSpaces(t[..k]) && NoSpaces(t[k..])
    ensures forall i: nat, j: nat :: i <= j <= |t| ==> |Words(t[i..j])| <= 1
  {
    forall i: nat, j: nat | i <= j <= |t| ensures |Words(t[i..j])| <= 1 {
      var m := if i >= k then i else if j <= k then j else k;
      assert t[i..j] == t[i..m] + t[m..j] + [];
      assert forall n {:trigger t[n]} :: i <= n < m ==> t[n] == t[..k][n];
      assert forall n {:trigger t[n]} :: m <= n < j ==> t[n] == t[k..][n - k];
      GapAndWord(t[i..m], t[m..j], []);
    }
  }

  /** What lies on one line up to the end of a text is part of its last line. */
  lemma InLastLine(t: seq<byte>, i: nat, cs: Charset)
    requires i <= |t| && OneLine(t, i, |t|)
    ensures Width(t, i, |t|, cs) <= Chars(LastLine(t), cs)
  {
    assert t == t[..i] + t[i..];
    LastLineConcat(t[..i], t[i..]);
    NoLines(t[i..]);
    CharsConcat(LastLine(t[..i]), t[i..], cs);
    assert t[i..|t|] == t[i..];
  }

  lemma SameLine(a: seq<byte>, x: seq<byte>, i: nat, j: nat)
    requires i <= j <= |a|
    ensures (a + x)[i..j] == a[i..j] && (OneLine(a + x, i, j) ==> OneLine(a, i, j))
  {
    assert forall k {:trigger a[k]} :: i <= k < j ==> (a + x)[k] == a[k];
  }

  /** A word more on the same line. */
  lemma NarrowSameLine(done: seq<byte>, x: seq<byte>, col: nat, cs: Charset)
    requires Narrow(done, cs) && Chars(LastLine(done), cs) <= col && NoNewline(x)
             && col + Chars(x, cs) <= PARAGRAPH_WIDTH
    ensures Narrow(done + x, cs) && Chars(LastLine(done + x), cs) <= col + Chars(x, cs)
  {
    hide Words, LastLine, Chars, OneLine;
    var t := done + x;
    LastLineConcat(done, x);
    NoLines(x);
    CharsConcat(LastLine(done), x, cs);
    forall i: nat, j: nat | i <= j <= |t| && OneLine(t, i, j) && |Words(t[i..j])| > 1
      ensures Width(t, i, j, cs) <= PARAGRAPH_WIDTH
    {
      if j <= |done| {
        SameLine(done, x, i, j);
      } else {
        WithinLine(done, x, i, j, cs);
      }
    }
  }

  lemma WithinLine(done: seq<byte>, x: seq<byte>, i: nat, j: nat, cs: Charset)
    requires i <= j && |done| < j <= |done + x| && OneLine(done + x, i, j) && NoNewline(x)
    ensures Width(done + x, i, j, cs) <= Chars(LastLine(done), cs) + Chars(x, cs)
  {
    hide LastLine, Chars;
    var t, y := done + x, x[..j - |done|];
    var u := t[..j];
    assert u == done + y && x == y + x[j - |done|..];
    LastLineConcat(done, y);
    NoLines(y);
    assert forall k {:trigger u[k]} :: i <= k < j ==> u[k] == t[k];
    InLastLine(u, i, cs);
    CharsConcat(LastLine(done), y, cs);
    CharsConcat(y, x[j - |done|..], cs);
    assert u[i..|u|] == t[i..j];
  }

  predicate NoNewline(x: seq<byte>) {
    forall i :: 0 <= i < |x| ==> x[i] != NEWLINE
  }

  /** A word on a new line. */
  lemma NarrowNewLine(done: seq<byte>, x: seq<byte>, k: nat, cs: Charset)
    requires Narrow(done, cs) && k <= |x| && AllSpaces(x[..k]) && NoSpaces(x[k..]) && NoNewline(x)
    ensures Narrow(done + [NEWLINE] + x, cs) && LastLine(done + [NEWLINE] + x) == x
  {
    hide Words, OneLine, LastLine;
    var d := done + [NEWLINE];
    var t := d + x;
    LastLineConcat(d, x);
    LastLineGrows(done, NEWLINE);
    NoLines(x);
    forall i: nat, j: nat | i <= j <= |t| && OneLine(t, i, j) && |Words(t[i..j])| > 1
      ensures Width(t, i, j, cs) <= PARAGRAPH_WIDTH
    {
      NewLineSegment(done, x, k, i, j, cs);
    }
  }

  lemma NewLineSegment(done: seq<byte>, x: seq<byte>, k: nat, i: nat, j: nat, cs: Charset)
    requires Narrow(done, cs) && k <= |x| && AllSpaces(x[..k]) && NoSpaces(x[k..])
    requires var t := done + [NEWLINE] + x; i <= j <= |t| && OneLine(t, i, j) && |Words(t[i..j])| > 1
    ensures Width(done + [NEWLINE] + x, i, j, cs) <= PARAGRAPH_WIDTH
  {
    hide Words, OneLine;
    var t := done + [NEWLINE] + x;
    if j <= |done| {
      assert t == done + ([NEWLINE] + x);
      SameLine(done, [NEWLINE] + x, i, j);
    } else {
      assert t[|done|] == NEWLINE && t[|done| + 1..] == x;
      NotAcross(t, i, j, |done|, x);
      OneWord(x, k);
    }
  }

  lemma SliceShift(t: seq<byte>, m: nat, i: nat, j: nat)
    requires m <= i <= j <= |t|
    ensures t[m..][i - m..j - m] == t[i..j]
  {
  }

  /** What lies on one line does not go across the newline at `n`. */
  lemma NotAcross(t: seq<byte>, i: nat, j: nat, n: nat, x: seq<byte>)
    requires i <= j <= |t| && n < j && OneLine(t, i, j) && t[n] == NEWLINE && t[n + 1..] == x
    ensures n < i && i - n - 1 <= j - n - 1 <= |x| && t[i..j] == x[i - n - 1..j - n - 1]
  {
    SliceShift(t, n + 1, i, j);
  }

  lemma NothingNarrow(cs: Charset)
    ensures Narrow([], cs) && LastLine([]) == []
  {
    var none: seq<byte> := [];
    forall i: nat, j: nat | i <= j <= 0 ensures |Words(none[i..j])| == 0 {
      assert none[i..j] == [];
    }
  }

  /** One gap and one word more. */
  lemma NarrowStep(done: seq<byte>, r: seq<byte>, ws: nat, we: nat, col: nat, indent: nat, cs: Charset)
    requires ws <= we <= |r| && NoSpaces(r[ws..we]) && Narrow(done, cs) && Chars(LastLine(done), cs) <= col
    ensures var after := done + (NewGap(r, ws, we, col, indent, cs) + r[ws..we]);
            Narrow(after, cs) && Chars(LastLine(after), cs) <= NextCol(r, ws, we, col, indent, cs)
  {
    hide Words, Narrow, LastLine, Chars;
    var word, gap := r[ws..we], NewGap(r, ws, we, col, indent, cs);
    WordHasNoNewline(word);
    CharsAscii(gap, cs);
    if we == |r| || col + 1 + Width(r, ws, we, cs) > PARAGRAPH_WIDTH {
      var spaces := gap[1..];
      SpacesThenWord(spaces, word);
      CharsAscii(spaces, cs);
      CharsConcat(spaces, word, cs);
      NarrowNewLine(done, spaces + word, |spaces|, cs);
      BreakFirst(done, gap, spaces, word);
    } else {
      SpacesThenWord([SPACE], word);
      CharsConcat([SPACE], word, cs);
      NarrowSameLine(done, [SPACE] + word, col, cs);
    }
  }

  lemma BreakFirst(done: seq<byte>, gap: seq<byte>, spaces: seq<byte>, word: seq<byte>)
    requires gap == [NEWLINE] + spaces
    ensures done + [NEWLINE] + (spaces + word) == done + (gap + word)
  {
  }

  /** The paragraph is filled up to `pos`, and the line in progress is not wider than `col`. */
  lemma {:induction false} FilledIsNarrow(done: seq<byte>, r: seq<byte>, pos: nat, col: nat, indent: nat, cs: Charset)
    requires pos <= |r| && Narrow(done, cs) && Chars(LastLine(done), cs) <= col
    ensures Narrow(done + Filled(r, pos, col, false, indent, cs), cs)
    decreases |r| - pos
  {
    hide Words, Narrow, LastLine, NewGap, NextCol, SpacesEnd, WordEnd;
    if pos == |r| {
      assert done + [] == done;
    } else {
      var ws := SpacesEnd(r, pos);
      var we := WordEnd(r, ws);
      Progress(r, pos);
      NarrowStep(done, r, ws, we, col, indent, cs);
      var more, col1 := NewGap(r, ws, we, col, indent, cs) + r[ws..we], NextCol(r, ws, we, col, indent, cs);
      FilledIsNarrow(done + more, r, we, col1, indent, cs);
      Regroup(done, more, Filled(r, we, col1, false, indent, cs));
    }
  }

  lemma Progress(r: seq<byte>, pos: nat)
    requires pos < |r|
    ensures var ws := SpacesEnd(r, pos); pos < WordEnd(r, ws) && NoSpaces(r[ws..WordEnd(r, ws)])
  {
  }

  lemma Regroup(a: seq<byte>, b: seq<byte>, c: seq<byte>)
    ensures a + b + c == a + (b + c)
  {
  }

  lemma WordHasNoNewline(w: seq<byte>)
    requires NoSpaces(w)
    ensures NoNewline(w)
  {
  }

  lemma SpacesThenWord(spaces: seq<byte>, w: seq<byte>)
    requires NoSpaces(w) && forall i :: 0 <= i < |spaces| ==> spaces[i] == SPACE
    ensures NoNewline(spaces + w) && (spaces + w)[..|spaces|] == spaces && (spaces + w)[|spaces|..] == w
            && AllSpaces(spaces)
  {
  }

  /** In a filled paragraph only a line with one word can be too long. */
  lemma FillIsNarrow(r: seq<byte>, indent: nat, cs: Charset)
    ensures Narrow(FilledParagraph(r, indent, cs), cs)
  {
    hide Words, Narrow;
    NothingNarrow(cs);
    if r != [] {
      var ws := SpacesEnd(r, 0);
      var we := WordEnd(r, ws);
      var first := r[0..we];
      assert first[..ws] == r[0..ws] && first[ws..] == r[ws..we];
      OneWord(first, ws);
      OneWordNarrow(first, cs);
      FilledIsNarrow(first, r, we, Width(r, 0, we, cs), indent, cs);
    }
  }

  lemma OneWordNarrow(t: seq<byte>, cs: Charset)
    requires forall i: nat, j: nat :: i <= j <= |t| ==> |Words(t[i..j])| <= 1
    ensures Narrow(t, cs) && Chars(LastLine(t), cs) <= Chars(t, cs)
  {
    LastLineStart(t);
    var k := |t| - |LastLine(t)|;
    assert t == t[..k] + LastLine(t);
    CharsConcat(t[..k], LastLine(t), cs);
  }

  /** Bytes below 0x80 take one column each. */
  lemma {:induction false} CharsAscii(x: seq<byte>, cs: Charset)
    requires forall i :: 0 <= i < |x| ==> x[i] < 0x80
    ensures Chars(x, cs) == |x|
  {
    if x != [] {
      CharsAscii(x[1..], cs);
    }
  }
}
