/** Offsets, lines, columns and character numbers of a buffer, with the counts kept page by page. */
module Positions {
  import opened PageText
  import opened PageEdits
  import opened TextCounts
  import opened EditBuffers
  import opened TextIndex
  import opened Utf8

  // ---- counting in plain bytes ----

  /** The index of the first `c` from `from` on, or -1. */
  method MemChr(buf: seq<byte>, from: nat, c: byte) returns (k: int)
    requires from <= |buf|
    ensures k == -1 ==> forall i :: from <= i < |buf| ==> buf[i] != c
    ensures k != -1 ==> from <= k < |buf| && buf[k] == c && forall i :: from <= i < k ==> buf[i] != c
  {
    k := from;
    while k < |buf|
      invariant from <= k <= |buf| && forall i :: from <= i < k ==> buf[i] != c
    {
      if buf[k] == c {
        return;
      }
      k := k + 1;
    }
    k := -1;
  }

  lemma {:induction false} NoLines(t: seq<byte>)
    requires forall i :: 0 <= i < |t| ==> t[i] != NEWLINE
    ensures Lines(t) == 0 && LastLine(t) == t
  {
    if t != [] {
      NoLines(t[1..]);
    }
  }

  /** A text whose first newline is at `k`. */
  lemma FirstLine(t: seq<byte>, k: nat)
    requires k < |t| && t[k] == NEWLINE && forall i :: 0 <= i < k ==> t[i] != NEWLINE
    ensures Lines(t) == 1 + Lines(t[k + 1..]) && LastLine(t) == LastLine(t[k + 1..])
  {
    var a, b := t[..k + 1], t[k + 1..];
    assert t == a + b;
    NoLines(t[..k]);
    assert a == t[..k] + [NEWLINE];
    LinesConcat(t[..k], [NEWLINE]);
    LastLineConcat(t[..k], [NEWLINE]);
    LinesConcat(a, b);
    LastLineConcat(a, b);
    assert Lines([NEWLINE]) == 1 && LastLine([NEWLINE]) == [];
  }

  lemma StepSlices(t: seq<byte>, p: nat, k: nat)
    requires p <= k < |t|
    ensures t[p..][k - p + 1..] == t[k + 1..]
  {
  }

  /** The number of lines of `buf`, and the columns after the last newline. */
  method CountPos(buf: seq<byte>, cs: Charset) returns (line: nat, col: nat)
    ensures line == Lines(buf) && col == Columns(LastLine(buf), cs)
  {
    hide Lines, LastLine, Columns;
    line := 0;
    var lp := 0;
    assert buf[0..] == buf;
    var p := MemChr(buf, 0, NEWLINE);
    while p != -1
      invariant 0 <= lp <= |buf| && line + Lines(buf[lp..]) == Lines(buf) && LastLine(buf[lp..]) == LastLine(buf)
      invariant p == -1 ==> forall i :: lp <= i < |buf| ==> buf[i] != NEWLINE
      invariant p != -1 ==> lp <= p < |buf| && buf[p] == NEWLINE && forall i :: lp <= i < p ==> buf[i] != NEWLINE
      decreases |buf| - lp, if p == -1 then 0 else 1
    {
      FirstLine(buf[lp..], p - lp);
      StepSlices(buf, lp, p);
      lp := p + 1;
      line := line + 1;
      p := MemChr(buf, lp, NEWLINE);
    }
    NoLines(buf[lp..]);
    col := CountColumns(buf, lp, cs);
  }

  /** The columns from `lp` on. */
  method CountColumns(buf: seq<byte>, lp0: nat, cs: Charset) returns (col: nat)
    requires lp0 <= |buf|
    ensures col == Columns(buf[lp0..], cs)
  {
    var lp := lp0;
    col := 0;
    while lp < |buf|
      invariant lp0 <= lp
      invariant Columns(buf[lp0..], cs) == col + if lp <= |buf| then Columns(buf[lp..], cs) else 0
    {
      var len := if cs == Utf8 then Utf8Length(buf[lp]) else 1;
      assert lp + len <= |buf| ==> buf[lp..][len..] == buf[lp + len..];
      lp := lp + len;
      col := col + 1;
    }
  }

  // ---- the counts of a page ----

  lemma OnePageKept(b: EditBuffer, i: nat, p: Page)
    requires b.TableValid() && i < |b.text|
    requires p.data == b.pageTable[i].data && p.readOnly == b.pageTable[i].readOnly && PageOk(p, b.text[i], b.charset)
    ensures BlocksOk(b.pageTable[i := p], b.own, b.shared)
  {
  }

  /** The lines of page `i`, and its columns after the last newline, counted if they are not known. */
  method PagePos(b: EditBuffer, i: nat) returns (lines: nat, col: nat)
    requires b.Valid() && i < |b.text|
    modifies b`pageTable
    ensures b.Valid()
    ensures lines == Lines(b.text[i]) && col == Columns(LastLine(b.text[i]), b.charset)
  {
    hide Flat, Lines, LastLine, Columns, Chars, EditBuffer.CacheValid, EditBuffer.IsLog;
    var p := b.pageTable[i];
    if !p.validPos {
      var n, c := CountPos(b.Data(i), b.charset);
      p := p.(validPos := true, nbLines := n, col := c);
      OnePageKept(b, i, p);
      b.pageTable := b.pageTable[i := p];
    }
    return p.nbLines, p.col;
  }

  // ---- from an offset to its line and column ----

  lemma PageLines(pages: seq<seq<byte>>, i: nat)
    requires i < |pages|
    ensures var a, b := Flat(pages[..i]), Flat(pages[..i + 1]);
            && b == a + pages[i] && Lines(b) == Lines(a) + Lines(pages[i])
            && |LastLine(b)| == if Lines(pages[i]) == 0 then |LastLine(a)| + |LastLine(pages[i])|
               else |LastLine(pages[i])|
  {
    hide Flat, Lines, LastLine;
    FlatUpTo(pages, i);
    LinesConcat(Flat(pages[..i]), pages[i]);
    LastLineConcat(Flat(pages[..i]), pages[i]);
    LastLineConcat([], pages[i]);
    assert [] + pages[i] == pages[i];
    NoLines([]);
  }

  /** What lies before `off` in page `i`. */
  lemma PartLines(pages: seq<seq<byte>>, i: nat, off: nat)
    requires i < |pages| && off <= |pages[i]|
    ensures var a, part := Flat(pages[..i]), pages[i][..off]; var o := |a| + off;
            && o <= |Flat(pages)| && Lines(Flat(pages)[..o]) == Lines(a) + Lines(part)
            && |LastLine(Flat(pages)[..o])| == if Lines(part) == 0 then |LastLine(a)| + |LastLine(part)|
               else |LastLine(part)|
  {
    hide Flat, Lines, LastLine;
    var a, part := Flat(pages[..i]), pages[i][..off];
    FlatAround(pages, i);
    CutMiddle(a, pages[i], Flat(pages[i + 1..]), off);
    LinesConcat(a, part);
    LastLineConcat(a, part);
    LastLineConcat([], part);
    assert [] + part == part;
    NoLines([]);
  }

  lemma AllPages(pages: seq<seq<byte>>)
    ensures Flat(pages[..|pages|]) == Flat(pages) == Flat(pages)[..|Flat(pages)|]
  {
    assert pages[..|pages|] == pages;
  }

  /** The first `o` bytes of a text, cut as the text is cut into pages. */
  function Fragments(pages: seq<seq<byte>>, o: nat): (fr: seq<seq<byte>>) {
    if pages == [] then []
    else if o < |pages[0]| then [pages[0][..o]]
    else [pages[0]] + Fragments(pages[1..], o - |pages[0]|)
  }

  lemma {:induction false} FragmentsAre(pages: seq<seq<byte>>, i: nat, left: nat)
    requires i <= |pages| && (i < |pages| ==> left < |pages[i]|)
    ensures Fragments(pages, |Flat(pages[..i])| + left) == pages[..i] + if i < |pages| then [pages[i][..left]] else []
    decreases i
  {
    if i > 0 {
      var rest := pages[1..];
      assert pages[..i][1..] == rest[..i - 1] && pages[..i][0] == pages[0];
      assert Flat(pages[..i]) == pages[0] + Flat(rest[..i - 1]);
      FragmentsAre(rest, i - 1, left);
      assert pages[..i] == [pages[0]] + rest[..i - 1];
    } else {
      assert Flat(pages[..0]) == [];
    }
  }

  /** The column after some pieces of text, each counted for itself. */
  function ColumnAfter(fr: seq<seq<byte>>, cs: Charset): nat {
    if fr == [] then 0
    else
      var last := fr[|fr| - 1];
      (if Lines(last) > 0 then 0 else ColumnAfter(fr[..|fr| - 1], cs)) + Columns(LastLine(last), cs)
  }

  lemma ColumnAfterMore(fr: seq<seq<byte>>, x: seq<byte>, cs: Charset)
    ensures ColumnAfter(fr + [x], cs) == (if Lines(x) > 0 then 0 else ColumnAfter(fr, cs)) + Columns(LastLine(x), cs)
  {
    assert (fr + [x])[..|fr|] == fr;
  }

  /** The line and the column of `offset`: the newlines before it and, with 8 bit characters, the bytes
      after the last of them; in general, the columns page by page. */
  method GetPos(b: EditBuffer, offset: nat) returns (line: nat, col: nat)
    requires b.Valid()
    modifies b`pageTable
    ensures b.Valid()
    ensures var o := if offset > |b.Text()| then |b.Text()| else offset;
            line == Lines(b.Text()[..o]) && (b.charset == EightBit ==> col == |LastLine(b.Text()[..o])|)
    ensures col == ColumnAfter(Fragments(b.text, offset), b.charset)
  {
    hide Flat, Lines, LastLine, Columns, ColumnAfter, Fragments, EditBuffer.TableValid, EditBuffer.CacheValid,
         EditBuffer.IsLog;
    line, col := 0, 0;
    var i, left := 0, offset;
    NoText();
    NoColumn(b.charset);
    assert b.text[..0] == [];
    while true
      invariant b.Valid() && i <= |b.text| && 0 <= left && left + |Flat(b.text[..i])| == offset
      invariant line == Lines(Flat(b.text[..i])) && (b.charset == EightBit ==> col == |LastLine(Flat(b.text[..i]))|)
      invariant col == ColumnAfter(b.text[..i], b.charset)
      decreases |b.text| - i
    {
      b.PageCount();
      if i >= |b.pageTable| {
        AllPages(b.text);
        FragmentsAre(b.text, i, left);
        assert b.text[..i] + [] == b.text[..i];
        return;
      }
      PageLines(b.text, i);
      ColumnAfterMore(b.text[..i], b.text[i], b.charset);
      assert b.text[..i] + [b.text[i]] == b.text[..i + 1];
      if left < |b.Data(i)| {
        break;
      }
      var n, c := PagePos(b, i);
      ColumnsEightBit(LastLine(b.text[i]));
      line := line + n;
      if n != 0 {
        col := 0;
      }
      col := col + c;
      left := left - |b.Data(i)|;
      i := i + 1;
    }
    var part := b.Data(i)[..left];
    var line1, col1 := CountPos(part, b.charset);
    PartLines(b.text, i, left);
    FragmentsAre(b.text, i, left);
    ColumnAfterMore(b.text[..i], part, b.charset);
    ColumnsEightBit(LastLine(part));
    line := line + line1;
    if line1 != 0 {
      col := 0;
    }
    col := col + col1;
  }

  lemma NoColumn(cs: Charset)
    ensures ColumnAfter([], cs) == 0
  {
  }

  lemma NoText()
    ensures Flat([]) == [] && Lines([]) == 0 && LastLine([]) == []
  {
  }

  // ---- from a line and a column to an offset ----

  /** Where the line that `o` is in ends: at the next newline, or at the end of the text. */
  function LineEnd(t: seq<byte>, o: nat): (e: nat)
    requires o <= |t|
    ensures o <= e <= |t| && (e < |t| ==> t[e] == NEWLINE) && forall i :: o <= i < e ==> t[i] != NEWLINE
    decreases |t| - o
  {
    if o == |t| || t[o] == NEWLINE then o else LineEnd(t, o + 1)
  }

  /** Column `c` of the line that begins at `start`, or the end of the line if it is shorter. */
  function ColumnOffset(t: seq<byte>, start: nat, c: nat): (o: nat)
    requires start <= |t|
    ensures start <= o <= |t|
  {
    if start + c <= LineEnd(t, start) then start + c else LineEnd(t, start)
  }

  lemma {:induction false} SomeLine(t: seq<byte>, i: nat)
    requires i < |t| && t[i] == NEWLINE
    ensures Lines(t) > 0
  {
    if i > 0 {
      SomeLine(t[1..], i - 1);
    }
  }

  /** Whether a line that begins before `e` also ends before it. */
  lemma LineSpan(t: seq<byte>, e: nat, l: nat)
    requires e <= |t| && l <= Lines(t[..e])
    ensures l <= Lines(t) && LineStart(t, l) <= e
    ensures if l < Lines(t[..e]) then LineEnd(t, LineStart(t, l)) < e
            else LineEnd(t, LineStart(t, l)) == LineEnd(t, e) && LineStart(t, l) == e - |LastLine(t[..e])|
  {
    hide Lines, LastLine;
    var a, b := t[..e], t[e..];
    assert t == a + b;
    LineStartConcat(a, b, l);
    var s := LineStart(t, l);
    LinesBeforeStart(a, l);
    var r := a[s..];
    assert a == a[..s] + r;
    LinesConcat(a[..s], r);
    assert r == t[s..e];
    if l < Lines(a) {
      if LineEnd(t, s) >= e {
        NoLinesIn(t, s, e);
      }
    } else {
      LastLineStart(a);
      forall i | s <= i < e ensures t[i] != NEWLINE {
        if t[i] == NEWLINE {
          SomeLine(r, i - s);
        }
      }
      LineEndSkip(t, s, e);
    }
  }

  lemma NoLinesIn(t: seq<byte>, s: nat, e: nat)
    requires s <= e <= |t| && forall i :: s <= i < e ==> t[i] != NEWLINE
    ensures Lines(t[s..e]) == 0
  {
    NoLines(t[s..e]);
  }

  lemma {:induction false} LinesBeforeStart(t: seq<byte>, l: nat)
    requires l <= Lines(t)
    ensures Lines(t[..LineStart(t, l)]) == l
  {
    if l > 0 {
      var m := if t[0] == NEWLINE then l - 1 else l;
      LinesBeforeStart(t[1..], m);
      assert t[..LineStart(t, l)][1..] == t[1..][..LineStart(t[1..], m)];
    }
  }

  lemma {:induction false} LineEndSkip(t: seq<byte>, s: nat, e: nat)
    requires s <= e <= |t| && forall i :: s <= i < e ==> t[i] != NEWLINE
    ensures LineEnd(t, s) == LineEnd(t, e)
    decreases e - s
  {
    if s < e {
      LineEndSkip(t, s + 1, e);
    }
  }

  /** Where line `n` of a page begins. */
  method SeekLine(page: seq<byte>, n: nat) returns (q: nat)
    requires n <= Lines(page)
    ensures q == LineStart(page, n)
  {
    hide Lines, LastLine, LineStart;
    q := 0;
    var line := 0;
    assert page[0..] == page;
    FirstStart(page);
    while line < n
      invariant 0 <= line <= n && q <= |page| && Lines(page[q..]) == Lines(page) - line && q == LineStart(page, line)
    {
      var k := MemChr(page, q, NEWLINE);
      if k == -1 {
        NoLines(page[q..]);
        assert false;
      }
      FirstLine(page[q..], k - q);
      StepSlices(page, q, k);
      NextStart(page, line, k);
      q := k + 1;
      line := line + 1;
    }
  }

  lemma FirstStart(t: seq<byte>)
    ensures LineStart(t, 0) == 0
  {
  }

  /** The line after one that ends at the newline `k` begins after it. */
  lemma {:induction false} NextStart(t: seq<byte>, l: nat, k: nat)
    requires l <= Lines(t) && LineStart(t, l) <= k < |t| && t[k] == NEWLINE
    requires forall i :: LineStart(t, l) <= i < k ==> t[i] != NEWLINE
    ensures l + 1 <= Lines(t) && LineStart(t, l + 1) == k + 1
  {
    if t[0] == NEWLINE && l == 0 {
      assert k == 0;
    } else {
      NextStart(t[1..], if t[0] == NEWLINE then l - 1 else l, k - 1);
    }
  }

  /** Under UTF-8: where `n` steps forward from `o` lead, which end at the end of the line. */
  function GoOn(t: seq<byte>, o: nat, n: nat): (r: nat)
    requires o <= |t|
    ensures o <= r <= |t|
    decreases n
  {
    if n == 0 || o == |t| || t[o] == NEWLINE then o else GoOn(t, o + Taken(t[o..], 1), n - 1)
  }

  /** In a well-formed text every step is one over whole octets, even from inside a character. */
  lemma StepIs(t: seq<byte>, o: nat, ch: int, next: nat)
    requires WellFormed(t) && o < |t| && o < next && SteppedOver(t[o..], ch, next - o)
    ensures next == o + Taken(t[o..], 1) <= |t|
  {
    if IsContinuation(t[o]) {
      assert t[o..][0] == t[o] && Utf8Length(t[o]) == 1;
      assert Readable(t[o..]);
    } else {
      StartBoundary(t, o);
      var c := StepOver(t, o);
      StartsReadable(c, t[o..]);
    }
  }

  /** Goes on from `offset`, which is at column `col`, to column `col1`, but not past the end of the line. */
  method GoRight(b: EditBuffer, from: nat, col0: int, col1: int) returns (offset: nat)
    requires b.Valid() && from <= |b.Text()|
    modifies b`curPage, b`curOffset
    ensures b.Valid()
    ensures col1 <= col0 ==> offset == from
    ensures b.charset == EightBit && col0 <= col1 ==> offset == ColumnOffset(b.Text(), from, col1 - col0)
    ensures b.charset == Utf8 && col0 <= col1 && WellFormed(b.Text()) ==> offset == GoOn(b.Text(), from, col1 - col0)
  {
    hide Flat, EditBuffer.TableValid, EditBuffer.CacheValid, EditBuffer.IsLog, Encoding, StartsWith, WellFormed,
         SteppedOver,
         Taken;
    offset := from;
    var col := col0;
    ghost var t := b.Text();
    while col < col1
      invariant b.Valid() && b.Text() == t
      invariant col1 <= col0 ==> offset == from
      invariant b.charset == EightBit && col0 <= col1 ==>
                  && offset <= |t| && col0 <= col <= col1 && offset == from + (col - col0)
                  && LineEnd(t, offset) == LineEnd(t, from)
      invariant b.charset == Utf8 && col0 <= col1 && WellFormed(t) ==>
                  && offset <= |t| && col0 <= col <= col1
                  && GoOn(t, offset, col1 - col) == GoOn(t, from, col1 - col0)
    {
      var ch, next := Nextc(b, offset);
      if ch == NEWLINE {
        break;
      }
      if b.charset == Utf8 && col0 <= col1 && WellFormed(t) {
        StepIs(t, offset, ch, next);
      }
      col := col + 1;
      offset := next;
    }
  }

  // ---- the columns that the search for a line and a column carries from page to page ----

  /** What the pages before page `i` have after their last newlines, added up. */
  function Trailing(pages: seq<seq<byte>>, i: nat): nat
    requires i <= |pages|
  {
    if i == 0 then 0 else Trailing(pages, i - 1) + |LastLine(pages[i - 1])|
  }

  /** The first page, from page `i` on, in which or right after which line `l` begins. */
  function Home(pages: seq<seq<byte>>, l: nat, i: nat): (k: nat)
    requires i <= |pages|
    ensures i <= k <= |pages|
    decreases |pages| - i
  {
    if i == |pages| || l <= Lines(Flat(pages[..i + 1])) then i else Home(pages, l, i + 1)
  }

  /** How much of line `l` is known when the search leaves the page in which it begins. */
  function HomePart(pages: seq<seq<byte>>, l: nat): int
    requires l <= Lines(Flat(pages))
  {
    var t, k := Flat(pages), Home(pages, l, 0);
    var end := |Flat(pages[..if k < |pages| then k + 1 else k])|;
    var s := LineStart(t, l);
    (if end < LineEnd(t, s) then end else LineEnd(t, s)) - s
  }

  /** Columns found before the page of the line are counted as columns of the line, if the line does not
      reach column `c` in that page. */
  predicate Skewed(pages: seq<seq<byte>>, l: nat, c: nat)
    requires l <= Lines(Flat(pages))
  {
    var skew := Trailing(pages, Home(pages, l, 0));
    skew < c && skew + HomePart(pages, l) < c
  }

  /** Where line `l` and column `c` are found. */
  function GotoOffset(pages: seq<seq<byte>>, l: nat, c: nat): nat {
    var t := Flat(pages);
    if l > Lines(t) then |t|
    else if Skewed(pages, l, c) then ColumnOffset(t, LineStart(t, l), c - Trailing(pages, Home(pages, l, 0)))
    else ColumnOffset(t, LineStart(t, l), c)
  }

  /** Where they are. */
  function TrueOffset(t: seq<byte>, l: nat, c: nat): nat {
    if l > Lines(t) then |t| else ColumnOffset(t, LineStart(t, l), c)
  }

  /** The true offset is in the line asked for, as far behind its beginning as the column says or the line is long. */
  lemma TrueOffsetMeans(t: seq<byte>, l: nat, c: nat) returns (s: nat)
    requires l <= multiset(t)[10]
    ensures var r := TrueOffset(t, l, c);
            && r <= |t| && multiset(t[..r])[10] == l
            && s <= r && (s > 0 ==> t[s - 1] == 10) && (forall i :: s <= i < r ==> t[i] != 10)
            && r - s <= c && (r - s == c || r == |t| || t[r] == 10)
  {
    LinesMeans(t);
    LineStartMeans(t, l);
    hide Lines, LineStart;
    s := LineStart(t, l);
    var r := TrueOffset(t, l, c);
    assert t[..r] == t[..s] + t[s..r];
    assert 10 !in t[s..r];
    assert multiset(t[s..r])[10] == 0;
  }

  /** From an offset to its line and column and back. */
  lemma TrueThereAndBack(t: seq<byte>, o: nat)
    requires o <= |t|
    ensures TrueOffset(t, Lines(t[..o]), |LastLine(t[..o])|) == o
  {
    hide Lines, LastLine, LineStart, LineEnd;
    LineStartOfOffset(t, o);
    LineSpan(t, o, Lines(t[..o]));
  }

  /** Exactly when the search is right: always for column 0 and for a line in the first page; otherwise
      it stops short unless what it carries is nothing or the line is short enough. */
  lemma GotoExact(pages: seq<seq<byte>>, l: nat, c: nat)
    ensures GotoOffset(pages, l, c) == TrueOffset(Flat(pages), l, c)
       <==> (l > Lines(Flat(pages)) || !Skewed(pages, l, c) || Trailing(pages, Home(pages, l, 0)) == 0
             || LineStart(Flat(pages), l) + c - Trailing(pages, Home(pages, l, 0)) >= LineEnd(Flat(pages),
                    LineStart(Flat(pages), l)))
    ensures GotoOffset(pages, l, 0) == TrueOffset(Flat(pages), l, 0) == if l > Lines(Flat(pages)) then |Flat(pages)|
            else LineStart(Flat(pages), l)
    ensures GotoOffset(pages, 0, c) == TrueOffset(Flat(pages), 0, c)
  {
    hide Flat, Lines, LineStart, HomePart;
  }

  lemma FourPages()
    ensures var pages: seq<seq<byte>>, t: seq<byte> := [[97], [NEWLINE], [98], [99]], [97, NEWLINE, 98, 99];
            Flat(pages) == t && Flat(pages[..1]) == t[..1] && Flat(pages[..2]) == t[..2]
  {
    var pages: seq<seq<byte>> := [[97], [NEWLINE], [98], [99]];
    assert pages[..0] == [] && pages[..4] == pages;
    FlatUpTo(pages, 0);
    FlatUpTo(pages, 1);
    FlatUpTo(pages, 2);
    FlatUpTo(pages, 3);
  }

  lemma FourBytes()
    ensures var t: seq<byte> := [97, NEWLINE, 98, 99];
            && Lines(t) == 1 && LineStart(t, 1) == 2 && LineEnd(t, 2) == 4
            && Lines(t[..1]) == 0 && Lines(t[..2]) == 1 && LastLine([97]) == [97]
  {
    var t: seq<byte> := [97, NEWLINE, 98, 99];
    NoLines(t[..1]);
    FirstLine(t, 1);
    NoLines(t[2..]);
    FirstStart(t);
    NextStart(t, 0, 1);
    FirstLine(t[..2], 1);
    NoLines(t[..2][2..]);
    assert t[..1] == [97];
    assert LineEnd(t, 4) == 4 && LineEnd(t, 3) == 4;
  }

  /** The search can stop short: of four pages with one byte each, "a", newline, "b" and "c", the second
      line has two columns, and column 2 is looked for. */
  lemma GotoFails()
    ensures var pages: seq<seq<byte>> := [[97], [NEWLINE], [98], [99]];
            GotoOffset(pages, 1, 2) == 3 && TrueOffset(Flat(pages), 1, 2) == 4
  {
    hide Flat, Lines, LastLine, LineStart;
    var pages: seq<seq<byte>> := [[97], [NEWLINE], [98], [99]];
    FourPages();
    FourBytes();
    assert Home(pages, 1, 1) == 1 && Home(pages, 1, 0) == 1;
    assert Trailing(pages, 0) == 0 && Trailing(pages, 1) == 1;
  }

  /** The page `i` is the one that line `l` begins in. */
  lemma GotoHere(pages: seq<seq<byte>>, i: nat, l: nat, c: nat)
    requires i < |pages| && Home(pages, l, 0) == Home(pages, l, i)
    requires Lines(Flat(pages[..i])) < l || i == l == 0
    requires l <= Lines(Flat(pages[..i + 1]))
    requires i == 0 || l < Lines(Flat(pages[..i + 1])) || Trailing(pages, i) + |LastLine(pages[i])| >= c
    ensures var t, n := Flat(pages), l - Lines(Flat(pages[..i]));
            && l <= Lines(t) && n <= Lines(pages[i]) && LineStart(t, l) == |Flat(pages[..i])| + LineStart(pages[i], n)
            && GotoOffset(pages, l, c) == ColumnOffset(t, LineStart(t, l), c)
  {
    hide Flat, Lines, LastLine, LineStart, LineEnd;
    StartsHere(pages, i, l);
    FlatSplit(pages, i + 1);
    var e, t := |Flat(pages[..i + 1])|, Flat(pages);
    Halves(Flat(pages[..i + 1]), Flat(pages[i + 1..]));
    LineSpan(t, e, l);
  }

  /** Line `l` begins in page `i`. */
  lemma StartsHere(pages: seq<seq<byte>>, i: nat, l: nat)
    requires i < |pages| && l <= Lines(Flat(pages[..i + 1])) && (Lines(Flat(pages[..i])) < l || i == l == 0)
    ensures var t, n := Flat(pages), l - Lines(Flat(pages[..i]));
            && l <= Lines(t) && 0 <= n <= Lines(pages[i])
            && LineStart(t, l) == |Flat(pages[..i])| + LineStart(pages[i], n)
    ensures Lines(Flat(pages[..i + 1])) == Lines(Flat(pages[..i])) + Lines(pages[i])
    ensures |LastLine(Flat(pages[..i + 1]))|
         == if Lines(pages[i]) == 0 then |LastLine(Flat(pages[..i]))| + |LastLine(pages[i])| else |LastLine(pages[i])|
    ensures i == 0 ==> LastLine(Flat(pages[..0])) == []
  {
    hide Flat, Lines, LastLine, LineStart;
    PageLines(pages, i);
    FlatSplit(pages, i + 1);
    var a, b, t := Flat(pages[..i]), Flat(pages[..i + 1]), Flat(pages);
    LineStartConcat(b, Flat(pages[i + 1..]), l);
    LineStartConcat(a, pages[i], l);
    NoText();
    assert pages[..0] == [];
    FirstStart(t);
    FirstStart(pages[i]);
  }

  /** Line `l` begins in page `k`, and page `i` after it is reached before column `c` is. */
  lemma GotoAlong(pages: seq<seq<byte>>, k: nat, i: nat, l: nat, c: nat)
    requires k < i <= |pages| && Home(pages, l, 0) == k && Lines(Flat(pages[..i])) == l
    requires l <= Lines(Flat(pages[..k + 1]))
    requires Trailing(pages, k) + |LastLine(Flat(pages[..i]))| < c
    ensures var t, o, col := Flat(pages), |Flat(pages[..i])|, Trailing(pages, k) + |LastLine(Flat(pages[..i]))|;
            && l <= Lines(t) && o <= |t| && GotoOffset(pages, l, c) == ColumnOffset(t, o, c - col)
            && (i == |pages| ==> GotoOffset(pages, l, c) == |t|)
  {
    hide Flat, Lines, LastLine, LineStart;
    var t, e := Flat(pages), |Flat(pages[..i])|;
    FlatSplit(pages, i);
    Halves(Flat(pages[..i]), Flat(pages[i..]));
    assert t[..e] == Flat(pages[..i]);
    LineSpan(t, e, l);
    FlatRange(pages, k + 1, i);
    AllPages(pages);
  }

  /** The search for line `l` and column `c` has come to page `i`, and line `l`, if it has begun, began in
      page `k`. Columns are exact if each byte is a character (`eight`). */
  ghost predicate Going(pages: seq<seq<byte>>, eight: bool, l: nat, c: nat, i: nat, line: nat, col: nat, offset: nat,
                        k: nat) {
    && i <= |pages| && offset == |Flat(pages[..i])| && line == Lines(Flat(pages[..i]))
    && (i == 0 ==> line == col == 0) && (i > 0 ==> line < l || (line == l && col < c))
    && (line < l || i == 0 ==> Home(pages, l, 0) == Home(pages, l, i))
    && (i > 0 && line == l ==> k < i && Home(pages, l, 0) == k && l <= Lines(Flat(pages[..k + 1])))
    && (eight ==> col == Trailing(pages, i))
    && (eight && i > 0 && line == l ==> col == Trailing(pages, k) + |LastLine(Flat(pages[..i]))|)
  }

  lemma TrailingStep(pages: seq<seq<byte>>, i: nat)
    requires i < |pages|
    ensures Trailing(pages, i + 1) == Trailing(pages, i) + |LastLine(pages[i])|
  {
  }

  lemma GoingBegins(pages: seq<seq<byte>>, eight: bool, l: nat, c: nat)
    ensures Going(pages, eight, l, c, 0, 0, 0, 0, 0)
  {
    hide Lines, LastLine, Home;
    NoText();
    assert pages[..0] == [];
  }

  lemma GoingOn(pages: seq<seq<byte>>, eight: bool, l: nat, c: nat, i: nat, line: nat, col: nat, offset: nat, k: nat,
                col1: nat)
    requires Going(pages, eight, l, c, i, line, col, offset, k) && i < |pages|
    requires eight ==> col1 == |LastLine(pages[i])|
    requires var line2 := line + Lines(pages[i]); line2 < l || (line2 == l && col + col1 < c)
    ensures Going(pages, eight, l, c, i + 1, line + Lines(pages[i]), col + col1, offset + |pages[i]|,
                  if line < l || i == 0 then i else k)
  {
    hide Flat, Lines, LastLine, Trailing;
    PageLines(pages, i);
    TrailingStep(pages, i);
    NoText();
    assert i == 0 ==> pages[..i] == [];
  }

  /** The search ends in page `i`. */
  lemma GoingStops(pages: seq<seq<byte>>, eight: bool, l: nat, c: nat, i: nat, line: nat, col: nat, offset: nat,
                   k: nat, col1: nat)
    requires Going(pages, eight, l, c, i, line, col, offset, k) && i < |pages|
    requires eight ==> col1 == |LastLine(pages[i])|
    requires var line2 := line + Lines(pages[i]); line2 > l || (line2 == l && (i == 0 || col + col1 >= c))
    ensures offset == |Flat(pages[..i])| && offset + |pages[i]| <= |Flat(pages)|
            && (line >= l ==> line == l && col <= c)
    ensures line < l ==>
              && l - line <= Lines(pages[i])
              && (eight || c == 0 ==>
                  GotoOffset(pages, l, c) == ColumnOffset(Flat(pages), offset + LineStart(pages[i], l - line), c))
    ensures line >= l && (eight || c == 0) ==>
              col <= c && GotoOffset(pages, l, c) == ColumnOffset(Flat(pages), offset, c - col)
  {
    hide Flat, Lines, LastLine, LineStart, GotoOffset, Home;
    PageLines(pages, i);
    FlatAround(pages, i);
    if line < l {
      if eight || c == 0 {
        GotoHere(pages, i, l, c);
      }
    } else if i == 0 {
      GotoHere(pages, i, l, c);
      FirstStart(pages[0]);
    } else if eight {
      GotoAlong(pages, k, i, l, c);
    }
  }

  lemma GoingEnds(pages: seq<seq<byte>>, eight: bool, l: nat, c: nat, i: nat, line: nat, col: nat, offset: nat, k: nat)
    requires Going(pages, eight, l, c, i, line, col, offset, k) && i == |pages|
    ensures eight || c == 0 ==> GotoOffset(pages, l, c) == |Flat(pages)|
  {
    hide Flat, Lines, LastLine, LineStart, GotoOffset, Home;
    NoText();
    if line < l || i == 0 {
      assert i == 0 ==> pages == [] && pages[..0] == [];
      NoPageGoto(pages, l, c);
    } else if eight {
      GotoAlong(pages, k, i, l, c);
    }
  }

  lemma NoPageGoto(pages: seq<seq<byte>>, l: nat, c: nat)
    requires pages == [] || Lines(Flat(pages[..|pages|])) < l
    ensures GotoOffset(pages, l, c) == |Flat(pages)|
  {
    AllPages(pages);
    if l == 0 {
      assert pages == [] && Flat(pages) == [];
    }
  }

  lemma PageInside(pages: seq<seq<byte>>, i: nat)
    requires i < |pages|
    ensures |Flat(pages[..i])| + |pages[i]| <= |Flat(pages)|
  {
    FlatAround(pages, i);
  }

  /** The page ends the search for line `l` and column `c` that comes to it at column `col` of line `line`. */
  predicate StopsIn(page: seq<byte>, l: nat, c: nat, line: nat, col: nat) {
    line + Lines(page) > l || (line + Lines(page) == l && col + Columns(LastLine(page), Utf8) >= c)
  }

  /** Under UTF-8: the place that the search, having come to page `i`, finds. */
  function PlaceFrom(pages: seq<seq<byte>>, l: nat, c: nat, i: nat, line: nat, col: nat): (found: nat)
    requires i <= |pages|
    decreases |pages| - i
  {
    if i == |pages| then |Flat(pages)|
    else if StopsIn(pages[i], l, c, line, col) then
      PageInside(pages, i);
      if line < l then GoOn(Flat(pages), |Flat(pages[..i])| + LineStart(pages[i], l - line), c)
      else GoOn(Flat(pages), |Flat(pages[..i])|, if col <= c then c - col else 0)
    else PlaceFrom(pages, l, c, i + 1, line + Lines(pages[i]), col + Columns(LastLine(pages[i]), Utf8))
  }

  /** Goes to column `col1` of line `line1`, or as far as it can. */
  method GotoPos(b: EditBuffer, line1: int, col1: nat) returns (found: nat)
    requires b.Valid()
    modifies b`pageTable, b`curPage, b`curOffset
    ensures b.Valid()
    ensures b.charset == EightBit || col1 == 0 ==> found == GotoOffset(b.text, if line1 < 0 then 0 else line1, col1)
    ensures b.charset == Utf8 && WellFormed(b.Text()) && line1 >= 0 ==> found == PlaceFrom(b.text, line1, col1, 0, 0, 0)
  {
    hide Flat, Lines, LastLine, LineStart, GotoOffset, Going, WellFormed, PlaceFrom, GoOn, EditBuffer.TableValid,
         EditBuffer.CacheValid, EditBuffer.IsLog;
    ghost var l: nat, k: nat, eight := if line1 < 0 then 0 else line1, 0, b.charset == EightBit;
    var line: nat, col: nat, offset: nat, i: nat := 0, 0, 0, 0;
    GoingBegins(b.text, eight, l, col1);
    b.PageCount();
    while i < |b.pageTable|
      invariant b.Valid() && i <= |b.pageTable| == |b.text| && Going(b.text, eight, l, col1, i, line, col, offset, k)
      invariant line1 < 0 ==> i == 0
      invariant b.charset == Utf8 ==> PlaceFrom(b.text, l, col1, i, line, col) == PlaceFrom(b.text, l, col1, 0, 0, 0)
      decreases |b.text| - i
    {
      b.PageCount();
      var n, c := PagePos(b, i);
      b.PageCount();
      ColumnsEightBit(LastLine(b.text[i]));
      PlaceStep(b.text, l, col1, i, line, col);
      var line2, col2 := line + n, col + c;
      if line2 > line1 || (line2 == line1 && col2 >= col1) {
        assert i == 0 || line2 > l || col + c >= col1;
        GoingStops(b.text, eight, l, col1, i, line, col, offset, k, c);
        found := Found(b, line1, col1, i, line, col, offset);
        return;
      }
      GoingOn(b.text, eight, l, col1, i, line, col, offset, k, c);
      k := if line < l || i == 0 then i else k;
      line, col := line2, col2;
      offset := offset + |b.Data(i)|;
      i := i + 1;
    }
    b.PageCount();
    GoingEnds(b.text, eight, l, col1, i, line, col, offset, k);
    PlaceEnds(b.text, l, col1, line, col);
    found := b.totalSize;
  }

  lemma PlaceStep(pages: seq<seq<byte>>, l: nat, c: nat, i: nat, line: nat, col: nat)
    requires i < |pages|
    ensures |Flat(pages[..i])| + |pages[i]| <= |Flat(pages)|
    ensures PlaceFrom(pages, l, c, i, line, col)
         == if StopsIn(pages[i], l, c, line, col) then
              (if line < l then GoOn(Flat(pages), |Flat(pages[..i])| + LineStart(pages[i], l - line), c)
               else GoOn(Flat(pages), |Flat(pages[..i])|, if col <= c then c - col else 0))
            else PlaceFrom(pages, l, c, i + 1, line + Lines(pages[i]), col + Columns(LastLine(pages[i]), Utf8))
  {
    hide Flat, Lines, LastLine, LineStart, GoOn;
    PageInside(pages, i);
  }

  lemma PlaceEnds(pages: seq<seq<byte>>, l: nat, c: nat, line: nat, col: nat)
    ensures PlaceFrom(pages, l, c, |pages|, line, col) == |Flat(pages)|
  {
  }

  /** Seeks to the line in page `i`, then to the column. */
  method Found(b: EditBuffer, line1: int, col1: nat, i: nat, line: nat, col: nat, offset: nat) returns (found: nat)
    requires b.Valid() && i < |b.text| && offset + |b.text[i]| <= |b.Text()|
    requires line < line1 ==> line1 - line <= Lines(b.text[i])
    modifies b`curPage, b`curOffset
    ensures b.Valid()
    ensures line < line1 && (b.charset == EightBit || col1 == 0) ==>
              found == ColumnOffset(b.Text(), offset + LineStart(b.text[i], line1 - line), col1)
    ensures line >= line1 && col <= col1 && (b.charset == EightBit || col1 == 0) ==>
              found == ColumnOffset(b.Text(), offset, col1 - col)
    ensures b.charset == Utf8 && WellFormed(b.Text()) && (line < line1 || col <= col1) ==>
              found == if line < line1 then GoOn(b.Text(), offset + LineStart(b.text[i], line1 - line), col1)
                       else GoOn(b.Text(), offset, col1 - col)
  {
    hide Flat, Lines, LineStart, WellFormed, GoOn, EditBuffer.TableValid, EditBuffer.CacheValid, EditBuffer.IsLog;
    if line < line1 {
      var q := SeekLine(b.Data(i), line1 - line);
      found := GoRight(b, offset + q, 0, col1);
    } else {
      found := GoRight(b, offset, col, col1);
    }
  }

  // ---- lines ----

  /** The start of the line that `offset` is in, from its line number. */
  method TextBackwardOffset(b: EditBuffer, offset: nat) returns (found: nat)
    requires b.Valid()
    modifies b`pageTable, b`curPage, b`curOffset
    ensures b.Valid()
    ensures var o := if offset > |b.Text()| then |b.Text()| else offset;
            found == o - |LastLine(b.Text()[..o])|
  {
    hide Flat, Lines, LastLine, LineStart, GotoOffset, EditBuffer.TableValid, EditBuffer.CacheValid, EditBuffer.IsLog;
    var line, col := GetPos(b, offset);
    found := GotoPos(b, line, 0);
    GotoExact(b.text, line, 0);
    LineStartOfOffset(b.Text(), if offset > |b.Text()| then |b.Text()| else offset);
  }

  lemma {:induction false} LastLineGrows(t: seq<byte>, c: byte)
    ensures LastLine(t + [c]) == if c == NEWLINE then [] else LastLine(t) + [c]
  {
    LastLineConcat(t, [c]);
    assert Lines([c][1..]) == 0 && LastLine([]) == [];
  }

  /** The newline is the only code whose encoding has a newline in it. */
  lemma OneNewline(c: int)
    requires Decodable(c)
    ensures if c == NEWLINE then Encoding(c) == [NEWLINE] else forall k :: 0 <= k < |Encoding(c)| ==>
              Encoding(c)[k] != NEWLINE
  {
    hide Encoding;
    EncodingOctets(c);
  }

  /** What a step back over one character does to the line so far. */
  lemma LineShrinks(t: seq<byte>, o: nat, ch: int, prev: nat, cs: Charset)
    requires 0 < o <= |t| && prev < o
    requires if cs == EightBit then prev == o - 1 && ch == t[prev]
             else Decodable(ch) && prev == o - |Encoding(ch)| && t[prev..o] == Encoding(ch)
    ensures |LastLine(t[..o])| == if ch == NEWLINE then 0 else |LastLine(t[..prev])| + o - prev
  {
    hide Encoding, Decodable;
    assert t[..o] == t[..prev] + t[prev..o];
    LastLineConcat(t[..prev], t[prev..o]);
    if ch == NEWLINE {
      if cs == Utf8 {
        OneNewline(ch);
      }
      assert t[prev..o] == [NEWLINE];
      assert Lines([NEWLINE]) == 1 && LastLine([NEWLINE]) == [];
    } else {
      if cs == Utf8 {
        OneNewline(ch);
      }
      NoLines(t[prev..o]);
    }
  }

  /** Walks back to the start of the line that `offset` is in; under UTF-8 from a place between two characters. */
  method GotoBol(b: EditBuffer, offset: nat) returns (found: nat)
    requires b.Valid() && offset <= |b.Text()| && (b.charset == Utf8 ==> Boundary(b.Text(), offset))
    modifies b`curPage, b`curOffset
    ensures b.Valid() && found == offset - |LastLine(b.Text()[..offset])|
    ensures b.charset == Utf8 ==> Boundary(b.Text(), found)
  {
    hide Flat, Lines, LastLine, EditBuffer.TableValid, EditBuffer.CacheValid, EditBuffer.IsLog, Encoding, EndsWith,
         Boundary;
    ghost var t := b.Text();
    found := offset;
    while true
      invariant b.Valid() && b.Text() == t && found <= offset <= |t| && (b.charset == Utf8 ==> Boundary(t, found))
      invariant found - |LastLine(t[..found])| == offset - |LastLine(t[..offset])|
      decreases found
    {
      ghost var c;
      if found > 0 && b.charset == Utf8 {
        c := StepBack(t, found);
        EndsWithParts(t[..found], c, 0);
      }
      var ch, prev := Prevc(b, found);
      if found > 0 {
        LineShrinks(t, found, ch, prev, b.charset);
      }
      if ch == NEWLINE {
        break;
      }
      found := prev;
    }
  }

  /** Both ways to the start of a line agree. */
  method StartsAgree(b: EditBuffer, offset: nat) returns (one: nat, other: nat)
    requires b.Valid() && offset <= |b.Text()| && (b.charset == Utf8 ==> Boundary(b.Text(), offset))
    modifies b`pageTable, b`curPage, b`curOffset
    ensures b.Valid() && one == other
  {
    hide Flat, Lines, LastLine, EditBuffer.TableValid, EditBuffer.CacheValid, EditBuffer.IsLog, Boundary;
    one := TextBackwardOffset(b, offset);
    other := GotoBol(b, offset);
  }

  /** The code at the beginning of `s`, or the invalid character if none begins there. */
  ghost function CodeOf(s: seq<byte>): (c: int)
    ensures forall d :: StartsWith(s, d) ==> c == d
    ensures c != INVALID_CHAR ==> StartsWith(s, c)
  {
    if c :| StartsWith(s, c) then
      OneCodeOf(s, c);
      c
    else INVALID_CHAR
  }

  lemma OneCodeOf(s: seq<byte>, c: int)
    requires StartsWith(s, c)
    ensures forall d :: StartsWith(s, d) ==> c == d
  {
    hide StartsWith;
    forall d | StartsWith(s, d) ensures c == d {
      PrefixFree(c, d, s);
    }
  }

  /** The characters of some bytes: under UTF-8 the codes, and the invalid character wherever none begins. */
  ghost function CharsOf(t: seq<byte>, charset: Charset): (cs: seq<int>)
    ensures cs == [] <==> t == []
    decreases |t|
  {
    if t == [] then []
    else if charset == EightBit then [t[0] as int] + CharsOf(t[1..], charset)
    else [CodeOf(t)] + CharsOf(t[Taken(t, 1)..], charset)
  }

  /** Under UTF-8 the text does not end inside a form. */
  ghost predicate Settled(t: seq<byte>, charset: Charset)
    decreases |t|
  {
    charset == Utf8 ==> t == [] || (Readable(t) && Settled(t[Taken(t, 1)..], charset))
  }

  /** A text that ends with an ASCII character does not end inside a form, whatever stands before it. */
  lemma {:induction false} AsciiSettles(t: seq<byte>, charset: Charset)
    requires t == [] || t[|t| - 1] < 0x80
    ensures Settled(t, charset)
    decreases |t|
  {
    if t != [] {
      assert !IsContinuation(t[|t| - 1]);
      assert Readable(t);
      AsciiSettles(t[Taken(t, 1)..], charset);
    }
  }

  lemma {:induction false} CharsAreBytes(t: seq<byte>)
    ensures CharsOf(t, EightBit) == t
    decreases |t|
  {
    if t != [] {
      CharsAreBytes(t[1..]);
    }
  }

  /** A newline ends every form. */
  lemma NewlineEnds(s: seq<byte>, n: nat)
    requires 0 < n < |s| && s[n] == NEWLINE
    ensures Readable(s) && Taken(s[..n], 1) == Taken(s, 1) <= n && CodeOf(s[..n]) == CodeOf(s)
  {
    assert !IsContinuation(s[n]);
    SameTaken(s, n, 1);
    hide Encoding, Readable, Taken;
    forall c ensures StartsWith(s, c) <==> StartsWith(s[..n], c) {
      if StartsWith(s, c) {
        FormBefore(s, n, c);
      }
    }
  }

  lemma {:induction false} SameTaken(s: seq<byte>, n: nat, i: nat)
    requires 1 <= i <= n < |s| && !IsContinuation(s[n])
    ensures Taken(s[..n], i) == Taken(s, i) <= n
    decreases n - i
  {
    if i < n {
      SameTaken(s, n, i + 1);
    }
  }

  lemma FormBefore(s: seq<byte>, n: nat, c: int)
    requires 0 < n < |s| && !IsContinuation(s[n]) && StartsWith(s, c)
    ensures StartsWith(s[..n], c)
  {
    StartsWithParts(s, c);
    hide Encoding, Gather;
    assert |Encoding(c)| <= n;
    assert s[..n][..|Encoding(c)|] == s[..|Encoding(c)|];
  }

  /** Reading on by one character, in a line that ends with a newline or does not end inside a form. */
  lemma ReadsOn(t: seq<byte>, o: nat, e: nat, ch: int, next: nat, charset: Charset)
    requires o < e <= |t| && o < next && (if e < |t| then t[e] == NEWLINE else Settled(t[o..e], charset))
    requires if charset == EightBit then ch == t[o] && next == o + 1 else SteppedOver(t[o..], ch, next - o)
    ensures next <= e && (e == |t| ==> Settled(t[next..e], charset))
    ensures CharsOf(t[o..e], charset) == [ch] + CharsOf(t[next..e], charset)
  {
    hide CharsOf, SteppedOver, Settled;
    if charset == Utf8 {
      var s, n := t[o..], e - o;
      SlicesFrom(t, o, e, next - o);
      ReadsCode(s, n, ch, next - o);
    } else {
      ReadsByte(t[o..e]);
      assert t[o..e][1..] == t[next..e];
    }
  }

  lemma SlicesFrom(t: seq<byte>, o: nat, e: nat, len: nat)
    requires o <= e <= |t|
    ensures t[o..][..e - o] == t[o..e] && (len <= e - o ==> t[o..][len..e - o] == t[o + len..e])
    ensures e == |t| ==> t[o..] == t[o..e]
  {
  }

  lemma ReadsByte(r: seq<byte>)
    requires r != []
    ensures CharsOf(r, EightBit) == [r[0] as int] + CharsOf(r[1..], EightBit) && Settled(r[1..], EightBit)
  {
  }

  lemma ReadsCode(s: seq<byte>, n: nat, ch: int, len: nat)
    requires 0 < n <= |s| && SteppedOver(s, ch, len) && if n < |s| then s[n] == NEWLINE else Settled(s, Utf8)
    ensures len <= n && CharsOf(s[..n], Utf8) == [ch] + CharsOf(s[len..n], Utf8)
    ensures n == |s| ==> Settled(s[len..n], Utf8)
  {
    if n < |s| {
      NewlineEnds(s, n);
    } else {
      assert s[..n] == s;
    }
    hide Readable, Taken, SteppedOver, CodeOf;
    CodeSteppedOver(s, ch, len);
    assert s[..n][len..] == s[len..n];
  }

  /** A step over a readable character gives its code. */
  lemma CodeSteppedOver(s: seq<byte>, ch: int, len: nat)
    requires SteppedOver(s, ch, len) && Readable(s)
    ensures ch == CodeOf(s) && len == Taken(s, 1) <= |s|
  {
    hide Readable, Taken, StartsWith, Encoding, CodeOf;
  }

  /** The text that some characters make. */
  function Spelled(cs: seq<int>): (t: seq<byte>)
    requires forall i :: 0 <= i < |cs| ==> Decodable(cs[i])
    ensures cs != [] ==> t != []
  {
    if cs == [] then [] else (assert Decodable(cs[0]); Encoding(cs[0])) + Spelled(cs[1..])
  }

  /** Well-formed UTF-8 ends inside no form, and its characters spell it. */
  lemma {:induction false} CharsSpell(t: seq<byte>)
    requires WellFormed(t)
    ensures var cs := CharsOf(t, Utf8);
            Settled(t, Utf8) && (forall i :: 0 <= i < |cs| ==> Decodable(cs[i])) && Spelled(cs) == t
    decreases |t|
  {
    hide WellFormed, Encoding, Readable, Taken;
    if t != [] {
      var c := FirstCode(t);
      WholeForm(t, c);
      var rest := t[|Encoding(c)|..];
      CharsSpell(rest);
      hide Settled, CharsOf, Decodable;
      FirstChar(t, c, rest);
      SpelledFirst(c, CharsOf(rest, Utf8));
      assert t == Encoding(c) + rest;
    }
  }

  lemma FirstChar(t: seq<byte>, c: int, rest: seq<byte>)
    requires t != [] && Readable(t) && CodeOf(t) == c && rest == t[Taken(t, 1)..]
    ensures CharsOf(t, Utf8) == [c] + CharsOf(rest, Utf8) && (Settled(rest, Utf8) ==> Settled(t, Utf8))
  {
  }

  lemma SpelledFirst(c: int, cs: seq<int>)
    requires Decodable(c) && forall i :: 0 <= i < |cs| ==> Decodable(cs[i])
    ensures (forall i :: 0 <= i < |[c] + cs| ==> Decodable(([c] + cs)[i]))
            && Spelled([c] + cs) == Encoding(c) + Spelled(cs)
  {
    hide Encoding, Decodable;
    assert ([c] + cs)[1..] == cs;
  }

  lemma WholeForm(t: seq<byte>, c: int)
    requires StartsWith(t, c)
    ensures t != [] && Readable(t) && Taken(t, 1) == |Encoding(c)| && CodeOf(t) == c
  {
    StartsReadable(c, t);
    StartsWithParts(t, c);
    hide Encoding, Gather;
    AllTaken(t, |Encoding(c)|, 1);
  }

  lemma {:induction false} AllTaken(t: seq<byte>, n: nat, i: nat)
    requires t != [] && 1 <= i <= n <= |t| && n == Utf8Length(t[0]) && forall k :: 1 <= k < n ==> IsContinuation(t[k])
    ensures Taken(t, i) == n
    decreases n - i
  {
    if i < n {
      AllTaken(t, n, i + 1);
    }
  }

  lemma LineEndOn(t: seq<byte>, o: nat, next: nat)
    requires o <= next <= |t| && forall i :: o <= i < next ==> t[i] != NEWLINE
    ensures LineEnd(t, next) == LineEnd(t, o)
  {
  }

  /** A step over a character that is no newline stays in the line. */
  lemma StaysInLine(t: seq<byte>, o: nat, ch: int, next: nat)
    requires o < |t| && o < next && ch != NEWLINE && SteppedOver(t[o..], ch, next - o)
    ensures LineEnd(t, if next <= |t| then next else |t|) == LineEnd(t, o)
  {
    hide Readable, Taken, StartsWith, Encoding;
    var m := if next <= |t| then next else |t|;
    forall i | o <= i < m ensures t[i] != NEWLINE {
      assert t[i] == t[o..][i - o];
      assert i > o ==> IsContinuation(t[o..][i - o]);
    }
    LineEndOn(t, o, m);
  }

  /** The characters from `from` to the end of its line, cut to `size` of them, and where the next line begins.
      The latter holds of any bytes; the former too unless the text ends inside a form. */
  method GetLine(b: EditBuffer, from: nat, size: nat) returns (line: seq<int>, offset: nat)
    requires b.Valid() && from <= |b.Text()|
    modifies b`curPage, b`curOffset
    ensures b.Valid()
    ensures var t, e := b.Text(), LineEnd(b.Text(), from);
            && (e < |t| || Settled(t[from..e], b.charset) ==>
                  var cs := CharsOf(t[from..e], b.charset);
                  line == Cut(cs, size) && line <= cs && |line| == if |cs| <= size then |cs| else size)
            && offset == if e < |t| then e + 1 else e
  {
    hide Flat, EditBuffer.TableValid, EditBuffer.CacheValid, EditBuffer.IsLog, Encoding, StartsWith, CharsOf, Cut,
         SteppedOver, Settled;
    ghost var t, e := b.Text(), LineEnd(b.Text(), from);
    ghost var cs := CharsOf(t[from..e], b.charset);
    ghost var k, settled := 0, e < |t| || Settled(t[from..e], b.charset);
    line, offset := [], from;
    CutNone(cs, size);
    assert cs[0..] == cs;
    while true
      invariant b.Valid() && b.Text() == t && from <= offset
      invariant LineEnd(t, if offset <= |t| then offset else |t|) == e
      invariant settled ==>
                  && k <= |cs| && offset <= e && line == Cut(cs[..k], size)
                  && cs[k..] == CharsOf(t[offset..e], b.charset)
      invariant settled && e == |t| ==> Settled(t[offset..e], b.charset)
      decreases if offset <= |t| then |t| - offset else 0
    {
      ghost var o := offset;
      var c;
      c, offset := Nextc(b, offset);
      if c == NEWLINE {
        assert settled ==> t[o..e] == [] && cs[..k] == cs;
        break;
      }
      if b.charset == Utf8 {
        StaysInLine(t, o, c, offset);
      }
      if settled {
        ReadsOn(t, o, e, c, offset, b.charset);
        CutMore(cs, k, size);
        assert cs[k] == cs[k..][0] && cs[k + 1..] == cs[k..][1..];
        k := k + 1;
      }
      if |line| < size {
        line := line + [c];
      }
    }
  }

  /** At most `size` characters of a line. */
  function Cut(cs: seq<int>, size: nat): (l: seq<int>)
    ensures l <= cs && |l| == if |cs| <= size then |cs| else size
  {
    if |cs| <= size then cs else cs[..size]
  }

  lemma CutNone(cs: seq<int>, size: nat)
    ensures Cut(cs[..0], size) == []
  {
  }

  lemma CutMore(cs: seq<int>, k: nat, size: nat)
    requires k < |cs|
    ensures Cut(cs[..k + 1], size) == if k < size then Cut(cs[..k], size) + [cs[k]] else Cut(cs[..k], size)
  {
  }

  // ---- character numbers ----

  lemma {:induction false} CharsEightBit(t: seq<byte>, n: nat)
    ensures Chars(t, EightBit) == |t| && CharPos(t, n, EightBit) == if n <= |t| then n else |t|
  {
    if t != [] {
      CharsEightBit(t[1..], if n > 0 then n - 1 else 0);
    }
  }

  lemma {:induction false} CharsMore(t: seq<byte>, k: nat, cs: Charset)
    requires k < |t|
    ensures Chars(t[..k + 1], cs) == Chars(t[..k], cs) + if StartsChar(t[k], cs) then 1 else 0
  {
    assert t[..k + 1] == t[..k] + [t[k]];
    CharsConcat(t[..k], [t[k]], cs);
    assert Chars([t[k]][1..], cs) == 0;
  }

  /** The characters that start in `buf`. */
  method GetChars(buf: seq<byte>, cs: Charset) returns (n: nat)
    ensures n == Chars(buf, cs)
  {
    if cs != Utf8 {
      CharsEightBit(buf, 0);
      return |buf|;
    }
    hide Chars;
    n := 0;
    var k := 0;
    NoChars(cs);
    assert buf[..0] == [];
    while k < |buf|
      invariant 0 <= k <= |buf| && n == Chars(buf[..k], cs)
    {
      CharsMore(buf, k, cs);
      var c := buf[k];
      k := k + 1;
      if c < 0x80 || c >= 0xc0 {
        n := n + 1;
      }
    }
    assert buf[..k] == buf;
  }

  lemma NoChars(cs: Charset)
    ensures Chars([], cs) == 0
  {
  }

  /** The first character start at or after `k`, with `n` of them before `k`, is character `n`. */
  lemma {:induction false} CharPosAt(t: seq<byte>, k: nat, cs: Charset)
    requires k < |t| && StartsChar(t[k], cs)
    ensures CharPos(t, Chars(t[..k], cs), cs) == k
  {
    CharPosOfOffset(t, k, cs);
  }

  /** Where character `pos` of `buf` starts. */
  method GotoCharIn(buf: seq<byte>, pos: nat, cs: Charset) returns (k: nat)
    requires pos < Chars(buf, cs)
    ensures k == CharPos(buf, pos, cs)
  {
    if cs != Utf8 {
      CharsEightBit(buf, pos);
      return pos;
    }
    hide Chars, CharPos;
    var n := 0;
    k := 0;
    NoChars(cs);
    assert buf[..0] == [];
    while true
      invariant k <= |buf| && n == Chars(buf[..k], cs) <= pos
      decreases |buf| - k
    {
      // there is a character `pos`, so the end is not reached
      assert k < |buf| by {
        assert buf[..|buf|] == buf;
      }
      CharsMore(buf, k, cs);
      var c := buf[k];
      if c < 0x80 || c >= 0xc0 {
        if n >= pos {
          CharPosAt(buf, k, cs);
          break;
        }
        n := n + 1;
      }
      k := k + 1;
    }
  }

  /** The characters of page `i`, counted if their number is not known. */
  method PageChars(b: EditBuffer, i: nat) returns (chars: nat)
    requires b.Valid() && i < |b.text|
    modifies b`pageTable
    ensures b.Valid()
    ensures chars == Chars(b.text[i], b.charset)
  {
    hide Flat, Lines, LastLine, Columns, Chars, EditBuffer.CacheValid, EditBuffer.IsLog;
    var p := b.pageTable[i];
    if !p.validChar {
      var n := GetChars(b.Data(i), b.charset);
      p := p.(validChar := true, nbChars := n);
      OnePageKept(b, i, p);
      b.pageTable := b.pageTable[i := p];
    }
    return p.nbChars;
  }

  lemma PageCharPos(pages: seq<seq<byte>>, i: nat, pos: nat, cs: Charset)
    requires i < |pages|
    ensures var here, rest := Flat(pages[i..]), Flat(pages[i + 1..]);
            CharPos(here, pos, cs) == if pos < Chars(pages[i], cs) then CharPos(pages[i], pos, cs)
                                      else |pages[i]| + CharPos(rest, pos - Chars(pages[i], cs), cs)
  {
    hide Flat, Chars, CharPos;
    FlatFrom(pages, i);
    CharPosConcat(pages[i], Flat(pages[i + 1..]), pos, cs);
  }

  /** The offset of character `pos`, or the end of the text. */
  method GotoChar(b: EditBuffer, pos: nat) returns (offset: nat)
    requires b.Valid()
    modifies b`pageTable
    ensures b.Valid()
    ensures offset == CharPos(b.Text(), pos, b.charset)
  {
    hide Flat, Chars, CharPos, EditBuffer.TableValid, EditBuffer.CacheValid, EditBuffer.IsLog;
    if b.charset != Utf8 {
      CharsEightBit(b.Text(), pos);
      offset := pos;
      if offset > b.totalSize {
        offset := b.totalSize;
      }
      return;
    }
    offset := 0;
    var left, i: nat := pos, 0;
    assert b.text[0..] == b.text;
    b.PageCount();
    while i < |b.pageTable|
      invariant b.Valid() && i <= |b.text| == |b.pageTable| && 0 <= left
      invariant CharPos(b.Text(), pos, b.charset) == offset + CharPos(Flat(b.text[i..]), left, b.charset)
      decreases |b.text| - i
    {
      var n := PageChars(b, i);
      b.PageCount();
      PageCharPos(b.text, i, left, b.charset);
      if left < n {
        var k := GotoCharIn(b.Data(i), left, b.charset);
        return offset + k;
      }
      left := left - n;
      offset := offset + |b.Data(i)|;
      i := i + 1;
    }
    NoCharPos(b.text, left, b.charset);
  }

  lemma NoCharPos(pages: seq<seq<byte>>, n: nat, cs: Charset)
    ensures CharPos(Flat(pages[|pages|..]), n, cs) == 0
  {
  }

  lemma PartChars(pages: seq<seq<byte>>, i: nat, off: nat, cs: Charset)
    requires i < |pages| && off <= |pages[i]|
    ensures var a := Flat(pages[..i]);
            |a| + off <= |Flat(pages)| && Chars(Flat(pages)[..|a| + off], cs)
                == Chars(a, cs) + Chars(pages[i][..off], cs)
    ensures Chars(Flat(pages[..i + 1]), cs) == Chars(Flat(pages[..i]), cs) + Chars(pages[i], cs)
  {
    hide Flat, Chars;
    var a := Flat(pages[..i]);
    FlatAround(pages, i);
    CutMiddle(a, pages[i], Flat(pages[i + 1..]), off);
    CharsConcat(a, pages[i][..off], cs);
    FlatUpTo(pages, i);
    CharsConcat(a, pages[i], cs);
  }

  /** The number of characters before `offset`. */
  method GetCharOffset(b: EditBuffer, offset: nat) returns (pos: nat)
    requires b.Valid()
    modifies b`pageTable
    ensures b.Valid()
    ensures pos == Chars(b.Text()[..if offset > |b.Text()| then |b.Text()| else offset], b.charset)
  {
    hide Flat, Chars, EditBuffer.TableValid, EditBuffer.CacheValid, EditBuffer.IsLog;
    if b.charset == EightBit {
      pos := offset;
      if pos > b.totalSize {
        pos := b.totalSize;
      }
      CharsEightBit(b.Text()[..pos], 0);
      return;
    }
    pos := 0;
    var i: nat, left: nat := 0, offset;
    NoText();
    NoChars(b.charset);
    assert b.text[..0] == [];
    while true
      invariant b.Valid() && i <= |b.text| && left + |Flat(b.text[..i])| == offset
      invariant pos == Chars(Flat(b.text[..i]), b.charset)
      decreases |b.text| - i
    {
      b.PageCount();
      if i >= |b.pageTable| {
        AllPages(b.text);
        FragmentsAre(b.text, i, left);
        assert b.text[..i] + [] == b.text[..i];
        return;
      }
      PageLines(b.text, i);
      ColumnAfterMore(b.text[..i], b.text[i], b.charset);
      assert b.text[..i] + [b.text[i]] == b.text[..i + 1];
      if left < |b.Data(i)| {
        break;
      }
      PartChars(b.text, i, 0, b.charset);
      var n := PageChars(b, i);
      pos := pos + n;
      left := left - |b.Data(i)|;
      i := i + 1;
    }
    PartChars(b.text, i, left, b.charset);
    var n := GetChars(b.Data(i)[..left], b.charset);
    pos := pos + n;
  }

  /** From a character number to its offset and back, whatever the bytes are. */
  method CharThereAndBack(b: EditBuffer, pos: nat) returns (offset: nat, back: nat)
    requires b.Valid() && pos <= Chars(b.Text(), b.charset)
    modifies b`pageTable
    ensures b.Valid() && offset <= |b.Text()| && back == pos
  {
    hide Flat, Chars, CharPos, EditBuffer.TableValid, EditBuffer.CacheValid, EditBuffer.IsLog;
    offset := GotoChar(b, pos);
    back := GetCharOffset(b, offset);
    CharsBeforeCharPos(b.Text(), pos, b.charset);
  }

  /** From the offset of a character, or the end of the text, to its number and back. */
  method OffsetThereAndBack(b: EditBuffer, offset: nat) returns (pos: nat, back: nat)
    requires b.Valid() && offset <= |b.Text()| && (offset < |b.Text()| ==> StartsChar(b.Text()[offset], b.charset))
    modifies b`pageTable
    ensures b.Valid() && back == offset
  {
    hide Flat, Chars, CharPos, EditBuffer.TableValid, EditBuffer.CacheValid, EditBuffer.IsLog;
    pos := GetCharOffset(b, offset);
    back := GotoChar(b, pos);
    CharPosOfOffset(b.Text(), offset, b.charset);
  }
}
