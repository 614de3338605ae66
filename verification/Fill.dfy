/** Paragraphs of a buffer, and filling one in place. */
module Fill {
  import opened PageText
  import opened TextCounts
  import opened UndoLog
  import opened LogBytes
  import opened Utf8
  import opened EditBuffers
  import opened TextIndex
  import opened Positions
  import opened FillText
  import opened FillGaps

  // ---- lines ----

  predicate IsLineStart(t: seq<byte>, o: nat) {
    o <= |t| && (o == 0 || t[o - 1] == NEWLINE)
  }

  /** The line from `o` on has nothing but spaces. */
  predicate Blank(t: seq<byte>, o: nat)
    requires o <= |t|
  {
    forall i :: o <= i < LineEnd(t, o) ==> IsSpace(t[i])
  }

  ghost predicate BlankLine(t: seq<byte>, o: nat) {
    IsLineStart(t, o) && Blank(t, o)
  }

  ghost predicate TextLine(t: seq<byte>, o: nat) {
    IsLineStart(t, o) && !Blank(t, o)
  }

  function LineStartOf(t: seq<byte>, o: nat): (s: nat)
    requires o <= |t|
    ensures s <= o
  {
    o - |LastLine(t[..o])|
  }

  function NextLineOf(t: seq<byte>, o: nat): (n: nat)
    requires o <= |t|
    ensures o <= n <= |t|
  {
    if LineEnd(t, o) < |t| then LineEnd(t, o) + 1 else |t|
  }

  lemma {:induction false} LastLineIs(t: seq<byte>)
    ensures var k := |t| - |LastLine(t)|; OneLine(t, k, |t|) && (k > 0 ==> t[k - 1] == NEWLINE)
  {
    if Lines(t) > 0 {
      LastLineIs(t[1..]);
      var k := |t[1..]| - |LastLine(t[1..])|;
      assert forall i {:trigger t[i]} :: 1 <= i < |t| ==> t[i] == t[1..][i - 1];
      if k == 0 {
        NoLinesInside(t[1..]);
      }
    } else {
      NoneThere(t);
    }
  }

  lemma NoLinesInside(t: seq<byte>)
    requires OneLine(t, 0, |t|)
    ensures Lines(t) == 0
  {
    NoLines(t);
  }

  lemma NoneThere(t: seq<byte>)
    requires Lines(t) == 0
    ensures OneLine(t, 0, |t|)
  {
    forall i | 0 <= i < |t| ensures t[i] != NEWLINE {
      if t[i] == NEWLINE {
        SomeLine(t, i);
      }
    }
  }

  /** The start of the line of `o`, and no other start of a line between. */
  lemma LineStartIs(t: seq<byte>, o: nat)
    requires o <= |t|
    ensures IsLineStart(t, LineStartOf(t, o)) && OneLine(t, LineStartOf(t, o), o)
    ensures IsLineStart(t, o) ==> LineStartOf(t, o) == o
  {
    LastLineIs(t[..o]);
    assert forall i {:trigger t[i]} :: 0 <= i < o ==> t[i] == t[..o][i];
  }

  /** A line is blank exactly if only spaces stand between its beginning and some newline or the end. */
  lemma BlankMeans(t: seq<byte>, o: nat)
    requires o <= |t|
    ensures Blank(t, o) <==> exists e :: BlankUpTo(t, o, e)
  {
    var e := LineEnd(t, o);
    assert Blank(t, o) ==> BlankUpTo(t, o, e);
    if e1 :| BlankUpTo(t, o, e1) {
      assert e <= e1;
    }
  }

  predicate BlankUpTo(t: seq<byte>, o: nat, e: int) {
    o <= e <= |t| && (e < |t| ==> t[e] == 10) && forall x :: o <= x < e ==> t[x] == 32 || 9 <= t[x] <= 13
  }

  /** Whether the line from `from` on is blank, in either charset and for any bytes. */
  method EbIsEmptyLine(b: EditBuffer, from: nat) returns (empty: bool)
    requires b.Valid() && from <= |b.Text()|
    modifies b`curPage, b`curOffset
    ensures b.Valid() && empty == Blank(b.Text(), from)
  {
    hide Flat, EditBuffer.TableValid, EditBuffer.CacheValid, EditBuffer.IsLog, Encoding, StartsWith, SteppedOver;
    ghost var t := b.Text();
    var offset := from;
    while true
      invariant b.Valid() && b.Text() == t && from <= offset <= |t| && LineEnd(t, offset) == LineEnd(t, from)
      invariant forall i :: from <= i < offset ==> IsSpace(t[i])
      decreases |t| - offset
    {
      ghost var o := offset;
      var c;
      c, offset := Nextc(b, offset);
      if c == NEWLINE {
        return true;
      }
      if b.charset == Charset.Utf8 {
        SpaceIsByte(t, o, c, offset);
      }
      if !IsSpace(c) {
        break;
      }
    }
    empty := false;
  }

  /** A character is a space exactly if it is one byte that is a space. */
  lemma SpaceIsByte(t: seq<byte>, o: nat, ch: int, next: nat)
    requires o < |t| && o < next && SteppedOver(t[o..], ch, next - o)
    ensures IsSpace(ch) <==> IsSpace(t[o])
    ensures IsSpace(ch) ==> ch == t[o] && next == o + 1
  {
    hide Encoding, StartsWith, Readable, Taken;
  }

  /** The start of the next line, in either charset and for any bytes: a malformed form swallows no newline. */
  method EbNextLine(b: EditBuffer, from: nat) returns (offset: nat)
    requires b.Valid() && from <= |b.Text()|
    modifies b`curPage, b`curOffset
    ensures b.Valid() && offset == NextLineOf(b.Text(), from)
    ensures var t := b.Text();
            && from <= offset <= |t| && (forall x :: from <= x < offset - 1 ==> t[x] != 10)
            && ((from < offset && t[offset - 1] == 10) || (offset == |t| && forall x :: from <= x < |t| ==> t[x] != 10))
  {
    hide Flat, EditBuffer.TableValid, EditBuffer.CacheValid, EditBuffer.IsLog, Encoding, StartsWith, SteppedOver;
    ghost var t := b.Text();
    offset := from;
    while true
      invariant b.Valid() && b.Text() == t && from <= offset
      invariant LineEnd(t, if offset <= |t| then offset else |t|) == LineEnd(t, from)
      decreases if offset <= |t| then |t| - offset else 0
    {
      ghost var o := offset;
      var c;
      c, offset := Nextc(b, offset);
      if c == NEWLINE {
        break;
      }
      if b.charset == Charset.Utf8 {
        StaysInLine(t, o, c, offset);
      }
    }
  }

  // ---- where a paragraph begins and ends ----

  /** The line after the last blank line at or above the line of `offset` (the first line does not count), or
      the beginning of the text. */
  ghost predicate StartsParagraph(t: seq<byte>, offset: nat, r: nat)
    requires offset <= |t|
  {
    var bol := LineStartOf(t, offset);
    || (r == 0 && forall p: nat :: 0 < p <= bol ==> !BlankLine(t, p))
    || (exists o: nat :: 0 < o <= bol && BlankLine(t, o) && r == NextLineOf(t, o) && forall p: nat :: o < p <= bol ==>
        !BlankLine(t, p))
  }

  /** The last blank line that begins at or before `offset`, behind the first line, ends right before the start of
      the paragraph; without such a line the paragraph starts where the text does. */
  lemma StartsMeans(t: seq<byte>, offset: nat, r: nat)
    requires offset <= |t|
    ensures StartsParagraph(t, offset, r) <==>
              || (r == 0 && forall p: nat :: 0 < p <= offset && t[p - 1] == 10 ==> !Blank(t, p))
              || (exists o: nat ::
                    && 0 < o <= offset && t[o - 1] == 10 && Blank(t, o) && r == NextLineOf(t, o)
                    && forall p: nat :: o < p <= offset && t[p - 1] == 10 ==> !Blank(t, p))
  {
    hide Blank, LineEnd, LastLine;
    LineStartIs(t, offset);
    var bol := LineStartOf(t, offset);
    forall p: nat | 0 < p <= offset ensures p <= bol && BlankLine(t, p) <==> t[p - 1] == 10 && Blank(t, p) {
    }
    hide LineStartOf, BlankLine, IsLineStart, NextLineOf;
  }

  method EbStartParagraph(b: EditBuffer, from: nat) returns (offset: nat)
    requires b.Valid() && from <= |b.Text()| && (b.charset == Charset.Utf8 ==> Boundary(b.Text(), from))
    modifies b`curPage, b`curOffset
    ensures b.Valid() && offset <= |b.Text()| && StartsParagraph(b.Text(), from, offset)
  {
    hide Flat, EditBuffer.TableValid, EditBuffer.CacheValid, EditBuffer.IsLog, Encoding, EndsWith, Boundary, LastLine,
         LineStartOf, Blank, IsLineStart, LineEnd;
    ghost var t, bol := b.Text(), LineStartOf(b.Text(), from);
    offset := from;
    LineStartIs(t, from);
    while true
      invariant b.Valid() && b.Text() == t && offset <= from && (b.charset == Charset.Utf8 ==> Boundary(t, offset))
      invariant LineStartOf(t, offset) <= bol && forall p: nat :: LineStartOf(t, offset) < p <= bol ==> !BlankLine(t, p)
      decreases offset
    {
      LineStartOfIs(t, offset);
      offset := GotoBol(b, offset);
      if offset <= 0 {
        break;
      }
      // up to the newline or the end
      var empty := EbIsEmptyLine(b, offset);
      if empty {
        assert BlankLine(t, offset);
        offset := EbNextLine(b, offset);
        break;
      }
      LineBefore(t, offset);
      if b.charset == Charset.Utf8 {
        NewlineBefore(t, offset);
      }
      var c, prev := Prevc(b, offset);
      offset := prev;
    }
  }

  /** The character before the start of a line is the newline. */
  lemma NewlineBefore(t: seq<byte>, o: nat)
    requires Boundary(t, o) && 0 < o && IsLineStart(t, o)
    ensures Boundary(t, o - 1) && EndsWith(t[..o], NEWLINE) && |Encoding(NEWLINE)| == 1
  {
    assert o <= |t| && t[o - 1] == NEWLINE;
    hide Encoding, Boundary, EndsWith, WellFormed;
    var c := StepBack(t, o);
    OctetsAt(t, o - |Encoding(c)|, o, c);
    EncodingOctets(NEWLINE);
  }

  lemma LineStartOfIs(t: seq<byte>, o: nat)
    requires o <= |t|
    ensures LineStartOf(t, o) == o - |LastLine(t[..o])| && IsLineStart(t, LineStartOf(t, o))
    ensures LineStartOf(t, LineStartOf(t, o)) == LineStartOf(t, o)
  {
    LineStartIs(t, o);
    LineStartIs(t, LineStartOf(t, o));
  }

  /** Between a line and the one before it no line starts. */
  lemma LineBefore(t: seq<byte>, o: nat)
    requires 0 < o <= |t| && IsLineStart(t, o)
    ensures LineStartOf(t, o - 1) < o && forall p: nat :: LineStartOf(t, o - 1) < p < o ==> !IsLineStart(t, p)
  {
    LineStartIs(t, o - 1);
  }

  /** From the line of `s` on: the first blank line after a line of text, or the end of the text. */
  ghost predicate EndsParagraph(t: seq<byte>, s: nat, q: nat)
    requires s <= |t|
  {
    && LineStartOf(t, s) <= q <= |t|
    && (q == |t| || (BlankLine(t, q) && exists n: nat :: LineStartOf(t, s) <= n < q && TextLine(t, n)))
    && forall n: nat, m: nat :: LineStartOf(t, s) <= n < m < q && TextLine(t, n) ==> !BlankLine(t, m)
  }

  /** On from the beginning `bol` of the line of `s`, the paragraph ends where the first blank line begins that has
      a line of text before it, or at the end of the text. */
  lemma EndsMeans(t: seq<byte>, s: nat, bol: nat, q: nat)
    requires bol <= s <= |t| && (bol > 0 ==> t[bol - 1] == 10) && forall x :: bol <= x < s ==> t[x] != 10
    ensures EndsParagraph(t, s, q) <==>
              && bol <= q <= |t|
              && (q < |t| ==>
                    && (q > 0 ==> t[q - 1] == 10) && Blank(t, q)
                    && exists n: nat :: bol <= n < q && (n > 0 ==> t[n - 1] == 10) && !Blank(t, n))
              && forall n: nat, m: nat ::
                   bol <= n < m < q && (n > 0 ==> t[n - 1] == 10) && !Blank(t, n) && t[m - 1] == 10 ==> !Blank(t, m)
  {
    hide Blank, LineEnd, LastLine;
    LineStartIs(t, s);
    assert LineStartOf(t, s) == bol;
    forall n: nat | n <= |t|
      ensures TextLine(t, n) <==> (n > 0 ==> t[n - 1] == 10) && !Blank(t, n)
      ensures BlankLine(t, n) <==> (n > 0 ==> t[n - 1] == 10) && Blank(t, n)
    {
    }
    hide LineStartOf, BlankLine, TextLine, IsLineStart;
  }

  method EbNextParagraph(b: EditBuffer, from: nat) returns (offset: nat)
    requires b.Valid() && from <= |b.Text()| && (b.charset == Charset.Utf8 ==> Boundary(b.Text(), from))
    modifies b`curPage, b`curOffset
    ensures b.Valid() && offset <= |b.Text()| && EndsParagraph(b.Text(), from, offset)
  {
    hide Flat, Boundary, EditBuffer.TableValid, EditBuffer.CacheValid, EditBuffer.IsLog, LastLine, LineStartOf, Blank,
         IsLineStart, LineEnd, NextLineOf;
    ghost var t, s := b.Text(), LineStartOf(b.Text(), from);
    LineStartOfIs(t, from);
    offset := GotoBol(b, from);
    // on from the last line of text
    var textFound := false;
    while true
      invariant b.Valid() && b.Text() == t && s <= offset <= |t| && (offset == |t| || IsLineStart(t, offset))
      invariant textFound <==> exists n: nat :: s <= n < offset && TextLine(t, n)
      invariant forall n: nat, m: nat :: s <= n < m < offset && TextLine(t, n) ==> !BlankLine(t, m)
      decreases |t| - offset
    {
      if offset >= b.totalSize {
        break;
      }
      var empty := EbIsEmptyLine(b, offset);
      assert empty ==> BlankLine(t, offset);
      if empty {
        if textFound {
          break;
        }
      } else {
        assert TextLine(t, offset);
        textFound := true;
      }
      LineAfter(t, offset);
      offset := EbNextLine(b, offset);
    }
  }

  /** The next line starts right after this one; between the two no line starts. */
  lemma LineAfter(t: seq<byte>, o: nat)
    requires o < |t|
    ensures o < NextLineOf(t, o) && (NextLineOf(t, o) == |t| || IsLineStart(t, NextLineOf(t, o)))
    ensures forall p: nat :: o < p < NextLineOf(t, o) ==> !IsLineStart(t, p)
  {
  }

  /** The paragraph begins at the start of a line and ends with a newline, unless at the end of the text. */
  lemma ParagraphBounds(t: seq<byte>, offset: nat, a: nat, b: nat)
    requires offset <= |t| && a <= |t| && StartsParagraph(t, offset, a) && EndsParagraph(t, a, b)
    ensures a <= b <= |t| && (a == 0 || a == |t| || t[a - 1] == NEWLINE) && (b == |t| || (a < b && t[b - 1] == NEWLINE))
  {
    hide LastLine, LineStartOf, Blank, LineEnd;
    LineStartIs(t, a);
    if !IsLineStart(t, a) {
      var o: nat :| 0 < o && BlankLine(t, o) && a == NextLineOf(t, o);
      NotAfterLast(t, o, a, b);
    }
  }

  lemma NotAfterLast(t: seq<byte>, o: nat, a: nat, b: nat)
    requires BlankLine(t, o) && a <= |t| && a == NextLineOf(t, o) && !IsLineStart(t, a) && EndsParagraph(t, a, b)
    ensures a == |t| == b
  {
    hide LastLine, Blank, LineStartOf;
    LineStartIs(t, a);
    if o < |t| {
      LineAfter(t, o);
    }
    assert o == 0 || t[o - 1] == NEWLINE;
    assert LineStartOf(t, a) >= o;
    assert LineStartOf(t, a) == o;
  }

  // ---- filling ----

  /** The spaces at the beginning of the second line of the paragraph. */
  function IndentOf(t: seq<byte>, a: nat, b: nat): nat
    requires a <= b <= |t|
  {
    var n := NextLineOf(t, a);
    if Blank(t, n) || n >= b then 0 else SpacesEnd(t[n..b], 0)
  }

  /** The line from `n` to `e` is the one after the line that begins at `a`. */
  predicate SecondLine(t: seq<byte>, a: nat, n: nat, e: nat) {
    && a < n <= e <= |t| && t[n - 1] == 10 && (forall x :: a <= x < n - 1 ==> t[x] != 10)
    && (e < |t| ==> t[e] == 10) && (forall x :: n <= x < e ==> t[x] != 10)
  }

  /** How far the paragraph from `a` to `b` is indented: not at all if its second line is blank or is not part of it,
      and else by the number of spaces that this line begins with. */
  ghost predicate IndentIs(t: seq<byte>, a: nat, b: nat, k: nat)
    requires a <= b <= |t|
  {
    && ((forall x :: a <= x < b ==> t[x] != 10) ==> k == 0)
    && forall n: nat, e: nat :: SecondLine(t, a, n, e) ==>
         if n >= b || forall x :: n <= x < e ==> t[x] == 32 || 9 <= t[x] <= 13 then k == 0
         else
           && n + k <= b && (forall x :: n <= x < n + k ==> t[x] == 32 || 9 <= t[x] <= 13)
           && (n + k < b ==> !(t[n + k] == 32 || 9 <= t[n + k] <= 13))
  }

  lemma IndentOfIs(t: seq<byte>, a: nat, b: nat)
    requires a <= b <= |t|
    ensures IndentIs(t, a, b, IndentOf(t, a, b))
  {
    if forall x :: a <= x < b ==> t[x] != 10 {
      LineEndSkip(t, a, b);
    }
    forall n: nat, e: nat | SecondLine(t, a, n, e)
      ensures NextLineOf(t, a) == n && (Blank(t, n) <==> forall x :: n <= x < e ==> t[x] == 32 || 9 <= t[x] <= 13)
    {
      SecondLineIs(t, a, n, e);
    }
    hide NextLineOf, SecondLine, Blank;
    var n := NextLineOf(t, a);
    assert n < b ==> forall x :: n <= x < b ==> t[x] == t[n..b][x - n];
  }

  lemma SecondLineIs(t: seq<byte>, a: nat, n: nat, e: nat)
    requires SecondLine(t, a, n, e)
    ensures NextLineOf(t, a) == n && (Blank(t, n) <==> forall x :: n <= x < e ==> t[x] == 32 || 9 <= t[x] <= 13)
  {
    LineEndSkip(t, a, n - 1);
    LineEndSkip(t, n, e);
  }

  /** Under UTF-8 the stretch from `a` to `b` is made of whole characters. */
  ghost predicate Whole(t: seq<byte>, a: nat, b: nat, cs: Charset)
    requires a <= b <= |t|
  {
    cs == Charset.Utf8 ==> WellFormed(t[a..b])
  }

  /** One character on in such a stretch. */
  lemma WholeOn(t: seq<byte>, o: nat, end: nat, ch: int, next: nat, cs: Charset)
    requires o < end <= |t| && o < next && Whole(t, o, end, cs)
    requires if cs == EightBit then ch == t[o] && next == o + 1 else SteppedOver(t[o..], ch, next - o)
    ensures next <= end && Whole(t, next, end, cs) && Width(t, o, next, cs) == 1
    ensures !IsSpace(ch) ==> forall k :: o <= k < next ==> !IsSpace(t[k])
  {
    hide Encoding, WellFormed, Readable, Taken;
    if cs == Charset.Utf8 {
      var c := FirstCode(t[o..end]);
      assert t[o..end] <= t[o..];
      assert StartsWith(t[o..], c) && next == o + |Encoding(c)|;
      assert t[o..end][next - o..] == t[next..end] && t[o..end][..next - o] == t[o..next];
      OneStart(c);
      OctetsAt(t, o, next, c);
    } else {
      OneByte(t, o, cs);
    }
  }

  lemma OneByte(t: seq<byte>, o: nat, cs: Charset)
    requires o < |t| && StartsChar(t[o], cs)
    ensures Width(t, o, o + 1, cs) == 1
  {
    assert t[o..o + 1] == [t[o]];
    assert Chars([t[o]][1..], cs) == 0;
  }


  /** A character starts once in its encoding. */
  lemma OneStart(c: int)
    requires Decodable(c)
    ensures Chars(Encoding(c), Charset.Utf8) == 1
  {
    hide Encoding, Gather;
    var e := Encoding(c);
    if c >= 0x80 {
      EncodingParts(c);
      assert StartsChar(e[0], Charset.Utf8);
      NoneBegin(e[1..]);
    } else {
      EncodingIs(c);
      NoneBegin([]);
      assert e[1..] == [];
    }
  }

  lemma WidthSplit(t: seq<byte>, a: nat, b: nat, c: nat, cs: Charset)
    requires a <= b <= c <= |t|
    ensures Width(t, a, c, cs) == Width(t, a, b, cs) + Width(t, b, c, cs)
  {
    assert t[a..c] == t[a..b] + t[b..c];
    CharsConcat(t[a..b], t[b..c], cs);
  }

  lemma WordEndOn(r: seq<byte>, o: nat, next: nat)
    requires o <= next <= |r| && forall k :: o <= k < next ==> !IsSpace(r[k])
    ensures WordEnd(r, next) == WordEnd(r, o)
  {
    WordEndIs(r, o, WordEnd(r, next));
  }

  /** Skips spaces, or a word, up to `end`, and counts the characters. */
  method Skip(b: EditBuffer, from: nat, end: nat, spaces: bool) returns (offset: nat, size: nat)
    requires b.Valid() && from <= end <= |b.Text()| && (spaces || Whole(b.Text(), from, end, b.charset))
    modifies b`curPage, b`curOffset
    ensures b.Valid() && from <= offset <= end && size == Width(b.Text(), from, offset, b.charset)
    ensures offset == from + if spaces then SpacesEnd(b.Text()[from..end], 0) else WordEnd(b.Text()[from..end], 0)
    ensures Whole(b.Text(), from, end, b.charset) ==> Whole(b.Text(), offset, end, b.charset)
  {
    hide Flat, Whole, SteppedOver, Width, EditBuffer.TableValid, EditBuffer.CacheValid, EditBuffer.IsLog, Encoding,
         StartsWith;
    ghost var t, r := b.Text(), b.Text()[from..end];
    offset, size := from, 0;
    NoWidth(t, from, b.charset);
    while offset < end
      invariant b.Valid() && b.Text() == t && from <= offset <= end && size == Width(t, from, offset, b.charset)
      invariant spaces ==> SpacesEnd(r, offset - from) == SpacesEnd(r, 0)
      invariant !spaces ==> WordEnd(r, offset - from) == WordEnd(r, 0) && Whole(t, offset, end, b.charset)
      invariant Whole(t, from, end, b.charset) ==> Whole(t, offset, end, b.charset)
    {
      assert t[offset] == r[offset - from];
      var c, next := Nextc(b, offset);
      if b.charset == Charset.Utf8 {
        SpaceIsByte(t, offset, c, next);
      }
      if IsSpace(c) != spaces {
        break;
      }
      SkipOn(t, from, offset, end, c, next, b.charset, spaces);
      offset, size := next, size + 1;
    }
  }

  lemma SkipOn(t: seq<byte>, from: nat, o: nat, end: nat, ch: int, next: nat, cs: Charset, spaces: bool)
    requires from <= o < end <= |t| && o < next && IsSpace(ch) == spaces == IsSpace(t[o])
             && (spaces || Whole(t, o, end, cs))
    requires if cs == EightBit then ch == t[o] && next == o + 1 else SteppedOver(t[o..], ch, next - o)
    ensures next <= end && Width(t, from, next, cs) == Width(t, from, o, cs) + 1
    ensures Whole(t, o, end, cs) ==> Whole(t, next, end, cs)
    ensures !spaces ==> WordEnd(t[from..end], next - from) == WordEnd(t[from..end], o - from)
    ensures spaces ==> next == o + 1
  {
    hide Whole, SteppedOver, Width, WordEnd;
    if spaces {
      if cs == Charset.Utf8 {
        SpaceIsByte(t, o, ch, next);
      }
      OneByte(t, o, cs);
    }
    if Whole(t, o, end, cs) {
      WholeOn(t, o, end, ch, next, cs);
    }
    WidthSplit(t, from, o, next, cs);
    if !spaces {
      assert forall k {:trigger t[from..end][k]} :: o - from <= k < next - from ==> t[from..end][k] == t[from + k];
      WordEndOn(t[from..end], o - from, next - from);
    }
  }

  lemma NoWidth(t: seq<byte>, o: nat, cs: Charset)
    requires o <= |t|
    ensures Width(t, o, o, cs) == 0
  {
  }

  /** Spaces are as wide as they are long. */
  lemma SpacesWidth(t: seq<byte>, a: nat, b: nat, cs: Charset)
    requires a <= b <= |t| && forall i :: a <= i < b ==> IsSpace(t[i])
    ensures Width(t, a, b, cs) == b - a
  {
    CharsAscii(t[a..b], cs);
  }

  method IndentSize(b: EditBuffer, parStart: nat, parEnd: nat) returns (indent: nat)
    requires b.Valid() && parStart <= parEnd <= |b.Text()|
    modifies b`curPage, b`curOffset
    ensures b.Valid() && indent == IndentOf(b.Text(), parStart, parEnd)
  {
    hide Flat, EditBuffer.TableValid, EditBuffer.CacheValid, EditBuffer.IsLog, Blank, NextLineOf;
    indent := 0;
    var offset := EbNextLine(b, parStart);
    var empty := EbIsEmptyLine(b, offset);
    if !empty && offset < parEnd {
      var end;
      end, indent := Skip(b, offset, parEnd, true);
      ghost var t := b.Text();
      assert forall i :: offset <= i < end ==> t[i] == t[offset..parEnd][i - offset];
      SpacesWidth(t, offset, end, b.charset);
    }
  }

  /** `t` with `c` and `k` spaces in place of the byte at `at`. */
  function WithGap(t: seq<byte>, at: nat, c: byte, k: nat): (s: seq<byte>)
    requires at < |t|
    ensures |s| == |t| + k
  {
    t[..at] + ([c] + Spaces(k)) + t[at + 1..]
  }

  lemma OverOne(t: seq<byte>, at: nat, c: byte)
    requires at < |t|
    ensures [c][..1] == [c] && Splice(t, at, 1, [c]) == WithGap(t, at, c, 0)
  {
    assert [c] + Spaces(0) == [c];
  }

  lemma OneSpaceMore(t: seq<byte>, at: nat, c: byte, k: nat)
    requires at < |t|
    ensures Splice(WithGap(t, at, c, k), at + 1, 0, [SPACE]) == WithGap(t, at, c, k + 1)
  {
  }

  lemma CutRest(t: seq<byte>, at: nat, n: nat, c: byte, k: nat)
    requires n > 0 && at + n <= |t|
    ensures var s := WithGap(t, at, c, k);
            && (n == 1 ==> s == t[..at] + ([c] + Spaces(k)) + t[at + n..])
            && Splice(s, at + 1 + k, n - 1, []) == t[..at] + ([c] + Spaces(k)) + t[at + n..]
  {
  }

  /** Writes one byte over another. */
  method WriteByte(b: EditBuffer, at: nat, c: byte)
    requires b.Valid() && at < |b.Text()| && (b.saveLog ==> |b.Text()| <= MAX_INT)
    modifies b, b.own, b.LogFrame()
    ensures b.Valid() && b.saveLog == old(b.saveLog) && b.Text() == WithGap(old(b.Text()), at, c, 0)
    ensures fresh(b.own - old(b.own)) && fresh(b.LogFrame() - old(b.LogFrame()))
  {
    hide Flat, Splice, WithGap, EditBuffer.TableValid, EditBuffer.CacheValid, EditBuffer.IsLog;
    OverOne(b.Text(), at, c);
    b.Write(at, [c]);
  }

  /** Inserts `indent` spaces, one at a time. */
  method Indent(b: EditBuffer, ghost t: seq<byte>, at: nat, ghost c: byte, indent: nat)
    requires b.Valid() && at < |t| && b.Text() == WithGap(t, at, c, 0)
    requires b.saveLog ==> |t| + indent <= MAX_INT
    modifies b, b.own, b.LogFrame()
    ensures b.Valid() && b.saveLog == old(b.saveLog) && b.Text() == WithGap(t, at, c, indent)
    ensures fresh(b.own - old(b.own)) && fresh(b.LogFrame() - old(b.LogFrame()))
  {
    hide Flat, Apply, WithGap, EditBuffer.TableValid, EditBuffer.CacheValid, EditBuffer.IsLog;
    var k := 0;
    while k < indent
      invariant b.Valid() && b.saveLog == old(b.saveLog) && 0 <= k <= indent && b.Text() == WithGap(t, at, c, k)
      invariant fresh(b.own - old(b.own)) && fresh(b.LogFrame() - old(b.LogFrame()))
    {
      OneSpaceMore(t, at, c, k);
      b.Insert(at + 1, [SPACE]);
      k := k + 1;
    }
  }

  /** Puts a space, or a newline and an indentation, in place of the `n` spaces at `at`. */
  method ReplaceGap(b: EditBuffer, at: nat, n: nat, c: byte, indent: nat)
    requires b.Valid() && n > 0 && at + n <= |b.Text()|
    requires b.saveLog ==> |b.Text()| + indent <= MAX_INT
    modifies b, b.own, b.LogFrame()
    ensures b.Valid() && b.saveLog == old(b.saveLog)
    ensures b.Text() == old(b.Text()[..at] + ([c] + Spaces(indent)) + b.Text()[at + n..])
    ensures fresh(b.own - old(b.own)) && fresh(b.LogFrame() - old(b.LogFrame()))
  {
    hide Flat, Apply, WithGap, Spaces, Splice, EditBuffer.TableValid, EditBuffer.CacheValid, EditBuffer.IsLog;
    ghost var t := b.Text();
    WriteByte(b, at, c);
    Indent(b, t, at, c, indent);
    // one space or newline was written over the gap, the rest of it goes
    CutRest(t, at, n, c, indent);
    if n > 1 {
      DeleteAt(b, at + 1 + indent, n - 1);
    }
  }

  method DeleteAt(b: EditBuffer, at: nat, n: nat)
    requires b.Valid() && n > 0 && at + n <= |b.Text()| && (b.saveLog ==> |b.Text()| <= MAX_INT)
    modifies b, b.own, b.LogFrame()
    ensures b.Valid() && b.saveLog == old(b.saveLog) && b.Text() == Splice(old(b.Text()), at, n, [])
    ensures fresh(b.own - old(b.own)) && fresh(b.LogFrame() - old(b.LogFrame()))
  {
    hide Flat, Splice, EditBuffer.TableValid, EditBuffer.CacheValid, EditBuffer.IsLog;
    b.Delete(at, n);
  }

  /** While the rest of the paragraph is filled, the text, now `len` bytes long, does not outgrow an int. */
  predicate RoomToFill(r: seq<byte>, pos: nat, col: nat, first: bool, indent: nat, len: int, cs: Charset)
    requires pos <= |r|
    decreases |r| - pos
  {
    len <= MAX_INT &&
    (pos < |r| ==>
       var ws := SpacesEnd(r, pos);
       var we := WordEnd(r, ws);
       if first then RoomToFill(r, we, col + Width(r, pos, we, cs), false, indent, len, cs)
       else
         var gap := NewGap(r, ws, we, col, indent, cs);
         len + |gap| - 1 <= MAX_INT && RoomToFill(r, we, NextCol(r, ws, we, col, indent, cs), false, indent,
                                                  len + |gap| - (ws - pos), cs))
  }

  /** The paragraph `r` between `before` and `after` is filled up to `pos`. */
  ghost predicate Filling(s: seq<byte>, before: seq<byte>, r: seq<byte>, after: seq<byte>, indent: nat,
                          pos: nat, col: nat, first: bool, done: seq<byte>, cs: Charset) {
    && pos <= |r| && s == before + done + (r[pos..] + after)
    && done + Filled(r, pos, col, first, indent, cs) == FilledParagraph(r, indent, cs)
    && (first ==> pos == 0 && done == []) && (!first && pos < |r| ==> IsSpace(r[pos]))
  }

  lemma FillingBegins(t: seq<byte>, a: nat, b: nat, indent: nat, cs: Charset)
    requires a <= b <= |t|
    ensures Filling(t, t[..a], t[a..b], t[b..], indent, 0, 0, true, [], cs)
  {
    assert t[a..b][0..] == t[a..b];
  }

  lemma FillingEnds(s: seq<byte>, before: seq<byte>, r: seq<byte>, after: seq<byte>, indent: nat,
                    pos: nat, col: nat, first: bool, done: seq<byte>, cs: Charset)
    requires Filling(s, before, r, after, indent, pos, col, first, done, cs) && pos == |r|
    ensures s == before + FilledParagraph(r, indent, cs) + after
  {
    assert Filled(r, pos, col, first, indent, cs) == [];
    hide Filled;
    assert r[pos..] + after == after && done + [] == done;
  }

  /** What is left to fill stands at its place in the text. */
  lemma FillingAt(s: seq<byte>, before: seq<byte>, r: seq<byte>, after: seq<byte>, indent: nat,
                  pos: nat, col: nat, first: bool, done: seq<byte>, cs: Charset)
    requires Filling(s, before, r, after, indent, pos, col, first, done, cs)
    ensures var o := |before| + |done|; o + |r| - pos <= |s| && s[o..o + |r| - pos] == r[pos..]
  {
  }

  lemma {:induction false} SkipInside(r: seq<byte>, pos: nat, o: nat)
    requires pos <= o <= |r|
    ensures SpacesEnd(r[pos..], o - pos) + pos == SpacesEnd(r, o) && WordEnd(r[pos..], o - pos) + pos == WordEnd(r, o)
    decreases |r| - o
  {
    if o < |r| {
      assert r[pos..][o - pos] == r[o];
      SkipInside(r, pos, o + 1);
    }
  }

  /** The first word stays as it is. */
  lemma FillingFirst(s: seq<byte>, before: seq<byte>, r: seq<byte>, after: seq<byte>, indent: nat, done: seq<byte>,
                     cs: Charset)
    requires Filling(s, before, r, after, indent, 0, 0, true, done, cs) && r != []
    ensures var we := WordEnd(r, SpacesEnd(r, 0)); Filling(s, before, r, after, indent, we, Width(r, 0, we, cs), false,
                                                           r[0..we], cs)
  {
    var we := WordEnd(r, SpacesEnd(r, 0));
    assert r[0..we] + (r[we..] + after) == r[0..] + after;
    assert before + done == before && done == [];
    Shift(before, r[0..we], r[we..] + after);
  }

  lemma Shift(a: seq<byte>, b: seq<byte>, c: seq<byte>)
    ensures a + b + c == a + (b + c)
  {
  }

  lemma FilledStep(r: seq<byte>, pos: nat, col: nat, indent: nat, done: seq<byte>, cs: Charset)
    requires pos < |r| && IsSpace(r[pos])
    ensures var ws := SpacesEnd(r, pos); var we := WordEnd(r, ws); var gap := NewGap(r, ws, we, col, indent, cs);
            && pos < ws
            && done + Filled(r, pos, col, false, indent, cs)
               == done + gap + r[ws..we] + Filled(r, we, NextCol(r, ws, we, col, indent, cs), false, indent, cs)
  {
    var ws := SpacesEnd(r, pos);
    var we := WordEnd(r, ws);
    FillParts(done, NewGap(r, ws, we, col, indent, cs), r[ws..we],
              Filled(r, we, NextCol(r, ws, we, col, indent, cs), false, indent, cs));
  }

  /** A gap is replaced, and the word after it stays. */
  lemma FillingOn(s: seq<byte>, before: seq<byte>, r: seq<byte>, after: seq<byte>, indent: nat, pos: nat, col: nat,
                  done: seq<byte>, cs: Charset)
    requires Filling(s, before, r, after, indent, pos, col, false, done, cs) && pos < |r|
    ensures var ws := SpacesEnd(r, pos); var we := WordEnd(r, ws);
            var gap, o := NewGap(r, ws, we, col, indent, cs), |before| + |done|;
            && pos < ws && o + (ws - pos) <= |s|
            && Filling(s[..o] + gap + s[o + (ws - pos)..], before, r, after, indent, we,
                       NextCol(r, ws, we, col, indent, cs), false,
                       done + gap + r[ws..we], cs)
  {
    hide Filled, NewGap, NextCol, SpacesEnd, WordEnd;
    var ws := SpacesEnd(r, pos);
    var we := WordEnd(r, ws);
    FilledStep(r, pos, col, indent, done, cs);
    GapParts(before, done, r, after, pos, ws, we, NewGap(r, ws, we, col, indent, cs));
  }

  lemma FillParts(done: seq<byte>, gap: seq<byte>, w: seq<byte>, rest: seq<byte>)
    ensures done + (gap + w + rest) == done + gap + w + rest
  {
  }

  lemma GapParts(before: seq<byte>, done: seq<byte>, r: seq<byte>, after: seq<byte>, pos: nat, ws: nat, we: nat,
                 gap: seq<byte>)
    requires pos <= ws <= we <= |r|
    ensures var s, o := before + done + (r[pos..] + after), |before| + |done|;
            && o + (ws - pos) <= |s| && s[..o] + gap + s[o + (ws - pos)..]
               == before + (done + gap + r[ws..we]) + (r[we..] + after)
  {
    var s, o := before + done + (r[pos..] + after), |before| + |done|;
    assert s[..o] == before + done && s[o + (ws - pos)..] == r[ws..] + after;
    assert r[ws..] == r[ws..we] + r[we..];
  }

  /** The next gap and the next word of what is left between `offset` and `end`. */
  method NextWord(b: EditBuffer, offset: nat, end: nat, ghost r: seq<byte>, ghost pos: nat)
    returns (wordStart: nat, wordEnd: nat, spaceSize: nat, wordSize: nat)
    requires b.Valid() && offset <= end <= |b.Text()|
    requires pos <= |r| && b.Text()[offset..end] == r[pos..] && Whole(r, pos, |r|, b.charset)
    modifies b`curPage, b`curOffset
    ensures b.Valid()
    ensures var ws := SpacesEnd(r, pos); var we := WordEnd(r, ws);
            && wordStart == offset + (ws - pos) && wordEnd == offset + (we - pos)
            && spaceSize == Width(r, pos, ws, b.charset) && wordSize == Width(r, ws, we, b.charset)
            && Whole(r, we, |r|, b.charset)
  {
    hide Flat, SpacesEnd, WordEnd, Whole, Width, EditBuffer.TableValid, EditBuffer.CacheValid, EditBuffer.IsLog;
    ghost var t, ws := b.Text(), SpacesEnd(r, pos);
    SkipInside(r, pos, pos);
    SamePart(t, offset, end, r, pos, ws, b.charset);
    wordStart, spaceSize := Skip(b, offset, end, true);
    SkipInside(r, ws, ws);
    ghost var we := WordEnd(r, ws);
    SamePart(t, wordStart, end, r, ws, we, b.charset);
    wordEnd, wordSize := Skip(b, wordStart, end, false);
  }

  /** What is said of a part of the text is said of the same part of the paragraph. */
  lemma SamePart(t: seq<byte>, offset: nat, end: nat, r: seq<byte>, pos: nat, k: nat, cs: Charset)
    requires offset <= end <= |t| && pos <= k <= |r| && t[offset..end] == r[pos..]
    ensures var o := offset + (k - pos);
            && o <= end && t[o..end] == r[k..] && Width(t, offset, o, cs) == Width(r, pos, k, cs)
    ensures Whole(t, offset, end, cs) == Whole(r, pos, |r|, cs)
    ensures Whole(t, offset + (k - pos), end, cs) == Whole(r, k, |r|, cs)
  {
    hide WellFormed;
    var o := offset + (k - pos);
    assert end - offset == |t[offset..end]| == |r| - pos;
    assert t[o..end] == t[offset..end][k - pos..] && r[k..] == r[pos..][k - pos..];
    assert t[offset..end][..k - pos] == t[offset..o];
    assert r[pos..][..k - pos] == r[pos..k];
    assert r[pos..|r|] == r[pos..] && r[k..|r|] == r[k..];
  }

  /** One gap that is not the first one. */
  method FillGap(b: EditBuffer, chunkStart: nat, wordStart: nat, wordEnd: nat, parEnd: nat, wordSize: nat, col: nat,
                 indent: nat)
    returns (gap: nat, col1: nat)
    requires b.Valid() && chunkStart < wordStart <= wordEnd <= parEnd <= |b.Text()|
    requires b.saveLog ==>
               var more := if wordEnd < parEnd && col + 1 + wordSize > PARAGRAPH_WIDTH then indent else 0;
               |b.Text()| + more <= MAX_INT
    modifies b, b.own, b.LogFrame()
    ensures b.Valid() && b.saveLog == old(b.saveLog)
    ensures fresh(b.own - old(b.own)) && fresh(b.LogFrame() - old(b.LogFrame()))
    ensures var n, broken := wordSize, wordEnd == parEnd || col + 1 + wordSize > PARAGRAPH_WIDTH;
            var g := if wordEnd == parEnd then [NEWLINE] else if broken then [NEWLINE] + Spaces(indent) else [SPACE];
            && gap == |g| && col1 == (if broken then n + indent else col + 1 + n)
            && b.Text() == old(b.Text()[..chunkStart] + g + b.Text()[wordStart..])
    ensures |b.Text()| == |old(b.Text())| + gap - (wordStart - chunkStart)
  {
    hide Flat, Spaces, EditBuffer.TableValid, EditBuffer.CacheValid, EditBuffer.IsLog;
    NoSpacesAdded();
    if wordEnd == parEnd || col + 1 + wordSize > PARAGRAPH_WIDTH {
      var spaces := 0;
      if wordEnd < parEnd {
        spaces := indent;
      }
      ReplaceGap(b, chunkStart, wordStart - chunkStart, NEWLINE, spaces);
      gap := 1 + spaces;
      col1 := wordSize + indent;
    } else {
      ReplaceGap(b, chunkStart, wordStart - chunkStart, SPACE, 0);
      gap := 1;
      col1 := col + 1 + wordSize;
    }
  }

  lemma NoSpacesAdded()
    ensures forall c: byte {:trigger [c] + Spaces(0)} :: [c] + Spaces(0) == [c]
  {
  }

  /** One word: the first one stays as it is, another one gets a new gap in front of it. */
  method FillWord(b: EditBuffer, offset: nat, parEnd: nat, col: nat, first: bool, indent: nat,
                  ghost before: seq<byte>, ghost r: seq<byte>, ghost after: seq<byte>, ghost pos: nat,
                  ghost done: seq<byte>)
    returns (offset1: nat, parEnd1: nat, col1: nat, ghost pos1: nat, ghost done1: seq<byte>)
    requires b.Valid() && pos < |r| && Whole(r, pos, |r|, b.charset)
    requires Filling(b.Text(), before, r, after, indent, pos, col, first, done, b.charset)
             && (first ==> pos == 0 && col == 0)
    requires offset == |before| + |done| && parEnd == offset + (|r| - pos)
    requires b.saveLog ==> RoomToFill(r, pos, col, first, indent, |b.Text()|, b.charset)
    modifies b, b.own, b.LogFrame()
    ensures b.Valid() && b.saveLog == old(b.saveLog) && pos < pos1 <= |r| && Whole(r, pos1, |r|, b.charset)
    ensures fresh(b.own - old(b.own)) && fresh(b.LogFrame() - old(b.LogFrame()))
    ensures Filling(b.Text(), before, r, after, indent, pos1, col1, false, done1, b.charset)
    ensures offset1 == |before| + |done1| && parEnd1 == offset1 + (|r| - pos1)
    ensures b.saveLog ==> RoomToFill(r, pos1, col1, false, indent, |b.Text()|, b.charset)
  {
    hide Flat, Filling, Filled, FilledParagraph, NewGap, NextCol, SpacesEnd, WordEnd, RoomToFill, Spaces, Whole, Width,
         EditBuffer.TableValid, EditBuffer.CacheValid, EditBuffer.IsLog;
    ghost var s := b.Text();
    FillingAt(s, before, r, after, indent, pos, col, first, done, b.charset);
    var wordStart, wordEnd, spaceSize, wordSize := NextWord(b, offset, parEnd, r, pos);
    ghost var ws := SpacesEnd(r, pos);
    pos1 := WordEnd(r, ws);
    RoomNext(r, pos, col, first, indent, |s|, b.charset);
    if first {
      // the indentation of the first line stays
      FillingFirst(s, before, r, after, indent, done, b.charset);
      FirstHasNothingDone(s, before, r, after, indent, pos, col, done, b.charset);
      WidthSplit(r, pos, ws, pos1, b.charset);
      col1, offset1, parEnd1 := col + spaceSize + wordSize, wordEnd, parEnd;
      done1 := r[0..pos1];
    } else {
      offset1, parEnd1, col1, done1 := FillNext(b, offset, wordStart, wordEnd, parEnd, wordSize, col, indent, before,
                                                r, after, pos, done);
    }
  }

  /** A word that is not the first one: the gap before it, up to `wordStart`, is replaced. */
  method FillNext(b: EditBuffer, offset: nat, wordStart: nat, wordEnd: nat, parEnd: nat, wordSize: nat, col: nat,
                  indent: nat,
                  ghost before: seq<byte>, ghost r: seq<byte>, ghost after: seq<byte>, ghost pos: nat,
                  ghost done: seq<byte>)
    returns (offset1: nat, parEnd1: nat, col1: nat, ghost done1: seq<byte>)
    requires b.Valid() && pos < |r| && Filling(b.Text(), before, r, after, indent, pos, col, false, done, b.charset)
    requires offset == |before| + |done| && parEnd == offset + (|r| - pos)
    requires var ws := SpacesEnd(r, pos); var we := WordEnd(r, ws);
             && wordStart == offset + (ws - pos) && wordEnd == offset + (we - pos)
             && wordSize == Width(r, ws, we, b.charset)
    requires b.saveLog ==> RoomToFill(r, pos, col, false, indent, |b.Text()|, b.charset)
    modifies b, b.own, b.LogFrame()
    ensures b.Valid() && b.saveLog == old(b.saveLog)
    ensures fresh(b.own - old(b.own)) && fresh(b.LogFrame() - old(b.LogFrame()))
    ensures var we := WordEnd(r, SpacesEnd(r, pos));
            && Filling(b.Text(), before, r, after, indent, we, col1, false, done1, b.charset)
            && offset1 == |before| + |done1| && parEnd1 == offset1 + (|r| - we)
            && (b.saveLog ==> RoomToFill(r, we, col1, false, indent, |b.Text()|, b.charset))
  {
    hide Flat, Filling, Filled, FilledParagraph, NewGap, NextCol, SpacesEnd, WordEnd, RoomToFill, Spaces, Width,
         EditBuffer.TableValid, EditBuffer.CacheValid, EditBuffer.IsLog;
    ghost var s, ws, we := b.Text(), SpacesEnd(r, pos), WordEnd(r, SpacesEnd(r, pos));
    FillingAt(s, before, r, after, indent, pos, col, false, done, b.charset);
    RoomNext(r, pos, col, false, indent, |s|, b.charset);
    FillingOn(s, before, r, after, indent, pos, col, done, b.charset);
    GapIs(r, ws, we, col, indent, b.charset);
    var gap;
    gap, col1 := FillGap(b, offset, wordStart, wordEnd, parEnd, wordSize, col, indent);
    done1 := done + NewGap(r, ws, we, col, indent, b.charset) + r[ws..we];
    var removed := wordStart - offset;
    offset1 := wordEnd - removed + gap;
    parEnd1 := parEnd - removed + gap;
  }

  lemma FirstHasNothingDone(s: seq<byte>, before: seq<byte>, r: seq<byte>, after: seq<byte>, indent: nat, pos: nat,
                            col: nat, done: seq<byte>, cs: Charset)
    requires Filling(s, before, r, after, indent, pos, col, true, done, cs)
    ensures done == []
  {
  }

  /** Fills the paragraph between `parStart` and `parEnd0`. */
  method FillRegion(b: EditBuffer, parStart: nat, parEnd0: nat, indent: nat)
    requires b.Valid() && parStart <= parEnd0 <= |b.Text()| && Whole(b.Text(), parStart, parEnd0, b.charset)
    requires b.saveLog ==> RoomToFill(b.Text()[parStart..parEnd0], 0, 0, true, indent, |b.Text()|, b.charset)
    modifies b, b.own, b.LogFrame()
    ensures b.Valid()
    ensures b.Text() == old(b.Text()[..parStart] + FilledParagraph(b.Text()[parStart..parEnd0], indent, b.charset)
                            + b.Text()[parEnd0..])
  {
    hide Flat, Filling, Filled, FilledParagraph, RoomToFill, EditBuffer.TableValid, EditBuffer.CacheValid,
         EditBuffer.IsLog;
    ghost var t := b.Text();
    ghost var before, r, after := t[..parStart], t[parStart..parEnd0], t[parEnd0..];
    ghost var pos, done: seq<byte> := 0, [];
    var col: nat, offset: nat, parEnd: nat, first := 0, parStart, parEnd0, true;
    FillingBegins(t, parStart, parEnd0, indent, b.charset);
    assert r[0..|r|] == r;
    while offset < parEnd
      invariant b.Valid() && b.saveLog == old(b.saveLog) && pos <= |r|
      invariant fresh(b.own - old(b.own)) && fresh(b.LogFrame() - old(b.LogFrame()))
      invariant Filling(b.Text(), before, r, after, indent, pos, col, first, done, b.charset)
      invariant offset == |before| + |done| && parEnd == offset + (|r| - pos) && (first ==> pos == 0 && col == 0)
      invariant b.saveLog ==> RoomToFill(r, pos, col, first, indent, |b.Text()|, b.charset)
      invariant Whole(r, pos, |r|, b.charset)
      decreases |r| - pos
    {
      offset, parEnd, col, pos, done := FillWord(b, offset, parEnd, col, first, indent, before, r, after, pos, done);
      first := false;
    }
    FillingEnds(b.Text(), before, r, after, indent, pos, col, first, done, b.charset);
  }

  lemma GapIs(r: seq<byte>, ws: nat, we: nat, col: nat, indent: nat, cs: Charset)
    requires ws <= we <= |r|
    ensures var n := Width(r, ws, we, cs);
            && NewGap(r, ws, we, col, indent, cs)
               == (if we == |r| then [NEWLINE] else if col + 1 + n > PARAGRAPH_WIDTH then [NEWLINE] + Spaces(indent)
                   else [SPACE])
            && NextCol(r, ws, we, col, indent, cs)
               == if we == |r| || col + 1 + n > PARAGRAPH_WIDTH then n + indent else col + 1 + n
  {
  }

  lemma RoomNext(r: seq<byte>, pos: nat, col: nat, first: bool, indent: nat, len: int, cs: Charset)
    requires pos < |r|
    ensures var ws := SpacesEnd(r, pos); var we := WordEnd(r, ws); var gap := NewGap(r, ws, we, col, indent, cs);
            RoomToFill(r, pos, col, first, indent, len, cs) ==>
              && len <= MAX_INT
              && if first then RoomToFill(r, we, col + Width(r, pos, we, cs), false, indent, len, cs)
                 else len + |gap| - 1 <= MAX_INT
                      && RoomToFill(r, we, NextCol(r, ws, we, col, indent, cs), false, indent,
                                    len + |gap| - (ws - pos), cs)
    ensures WordEnd(r, SpacesEnd(r, pos)) > pos
  {
  }

  /** Between places at the ends of the text or behind newlines, well-formed text is well-formed. */
  lemma ParagraphIsWhole(t: seq<byte>, o: nat, a: nat, b: nat, cs: Charset)
    requires cs == Charset.Utf8 ==> Boundary(t, o)
    requires a <= b <= |t| && (a == 0 || a == |t| || t[a - 1] == NEWLINE)
             && (b == |t| || (a < b && t[b - 1] == NEWLINE))
    ensures Whole(t, a, b, cs)
  {
    hide WellFormed, Boundary;
    if cs == Charset.Utf8 {
      BoundaryWhole(t, o);
      BehindNewline(t, a);
      TailWellFormed(t, a);
      BehindNewline(t[a..], b - a);
      HeadWellFormed(t, a, b);
    }
  }

  lemma StartIsBoundary(t: seq<byte>, o: nat, a: nat, cs: Charset)
    requires o <= |t| && a <= |t| && StartsParagraph(t, o, a) && (cs == Charset.Utf8 ==> Boundary(t, o))
    ensures cs == Charset.Utf8 ==> Boundary(t, a)
  {
    hide WellFormed, LineStartOf, Blank;
    assert a == 0 || a == |t| || t[a - 1] == NEWLINE;
    hide Boundary;
    if cs == Charset.Utf8 {
      BoundaryWhole(t, o);
      BehindNewline(t, a);
    }
  }

  /** There is room to fill the paragraph of `offset`. */
  ghost predicate Fillable(t: seq<byte>, offset: nat, cs: Charset)
    requires offset <= |t|
  {
    forall a: nat, b: nat :: a <= b <= |t| && StartsParagraph(t, offset, a) && EndsParagraph(t, a, b) ==>
                               RoomToFill(t[a..b], 0, 0, true, IndentOf(t, a, b), |t|, cs)
  }

  /** The layout of the paragraph, when it is filled. */
  lemma SetOutIn(t: seq<byte>, a: nat, b: nat, k: nat, cs: Charset) returns (m: nat)
    requires a <= b <= |t| && k == IndentOf(t, a, b)
    ensures IndentIs(t, a, b, k)
    ensures var par, filled := t[a..b], FilledParagraph(t[a..b], k, cs);
            && m == WordEnd(par, SpacesEnd(par, 0)) <= |filled| && filled[..m] == par[..m]
            && SetOut(filled, m, 0, k, cs)
            && forall i: nat, e: nat ::
                 && m <= i < e < |filled| && filled[i] == 10 && !IsSpace(filled[e])
                 && (forall x :: i < x < e ==> IsSpace(filled[x]))
                 ==> if forall x :: e <= x < |filled| ==> !IsSpace(filled[x]) then e == i + 1
                     else e == i + 1 + k && forall x :: i < x < e ==> filled[x] == 32
  {
    hide SetOut, IndentIs, FilledParagraph, IndentOf, Narrow;
    var par, filled := t[a..b], FilledParagraph(t[a..b], k, cs);
    IndentOfIs(t, a, b);
    FillIsSetOut(par, k, cs);
    m := WordEnd(par, SpacesEnd(par, 0));
    if par == [] {
      FilledNothing(k, cs);
    } else {
      WordBefore(par, filled, m, k, cs);
      EveryNewline(filled, m, k, cs);
    }
  }

  /** Behind the first word there is nothing, or the word was not empty. */
  lemma WordBefore(par: seq<byte>, filled: seq<byte>, m: nat, k: nat, cs: Charset)
    requires par != [] && filled == FilledParagraph(par, k, cs) && m == WordEnd(par, SpacesEnd(par, 0)) <= |filled|
             && filled[..m] == par[..m]
    ensures 0 < m < |filled| ==> !IsSpace(filled[m - 1])
  {
    hide FilledParagraph, Filled;
    FilledFirst(par, k, cs);
    FilledNone(par, |par|, Width(par, 0, m, cs), false, k, cs);
    if 0 < m < |filled| {
      assert m < |par|;
      assert filled[m - 1] == filled[..m][m - 1] && par[m - 1] == par[..m][m - 1];
    }
  }

  /** Fills the paragraph of the cursor. All words are kept; what is before and after the paragraph is left
      alone; and in the paragraph only a line with one word can be wider than allowed. Up to its first word, the
      first `m` bytes, it stays as it is; behind that each newline in front of a word, but for the last word, is
      followed by `k` spaces. */
  method DoFillParagraph(b: EditBuffer, cursor: nat)
    returns (ghost parStart: nat, ghost parEnd: nat, ghost k: nat, ghost m: nat)
    requires b.Valid() && cursor <= |b.Text()| && (b.charset == Charset.Utf8 ==> Boundary(b.Text(), cursor))
    requires b.saveLog ==> Fillable(b.Text(), cursor, b.charset)
    modifies b, b.own, b.LogFrame()
    ensures b.Valid()
    ensures var t := old(b.Text());
            && StartsParagraph(t, cursor, parStart) && EndsParagraph(t, parStart, parEnd) && parStart <= parEnd <= |t|
            && IndentIs(t, parStart, parEnd, k) && Words(b.Text()) == Words(t)
            && var par := t[parStart..parEnd];
               var filled := FilledParagraph(par, k, b.charset);
               && b.Text() == t[..parStart] + filled + t[parEnd..]
               && m == WordEnd(par, SpacesEnd(par, 0)) <= |filled| && filled[..m] == par[..m]
               && SetOut(filled, m, 0, k, b.charset) && Narrow(filled, b.charset)
               && forall i: nat, e: nat ::
                    && m <= i < e < |filled| && filled[i] == 10 && !IsSpace(filled[e])
                    && (forall x :: i < x < e ==> IsSpace(filled[x]))
                    ==> if forall x :: e <= x < |filled| ==> !IsSpace(filled[x]) then e == i + 1
                        else e == i + 1 + k && forall x :: i < x < e ==> filled[x] == 32
  {
    hide SetOut, IndentIs, SpacesEnd, WordEnd, Flat, FilledParagraph, RoomToFill, StartsParagraph, EndsParagraph,
         IndentOf, Narrow, Words, Whole, Boundary, EditBuffer.TableValid, EditBuffer.CacheValid, EditBuffer.IsLog;
    // the cursor may be anywhere in it
    var start := EbStartParagraph(b, cursor);
    ghost var t := b.Text();
    StartIsBoundary(t, cursor, start, b.charset);
    var end := EbNextParagraph(b, start);
    ParagraphBounds(t, cursor, start, end);
    ParagraphIsWhole(t, cursor, start, end, b.charset);
    // the second line sets the indentation of those after it
    var indent := IndentSize(b, start, end);
    FillKeepsAllWords(t, start, end, indent, b.charset);
    FillIsNarrow(t[start..end], indent, b.charset);
    m := SetOutIn(t, start, end, indent, b.charset);
    // from here on each gap becomes one space or one newline
    FillRegion(b, start, end, indent);
    parStart, parEnd, k := start, end, indent;
  }
}
