/** Where a line and a column are found under UTF-8, and exactly when that is the true place. */
module GotoCodes {
  import opened PageText
  import opened PageEdits
  import opened TextCounts
  import opened Utf8
  import opened TextIndex
  import opened Positions
  import opened CodeColumns

  /** The characters that begin between two places. */
  function Count(t: seq<byte>, a: nat, b: nat): nat
    requires a <= b <= |t|
  {
    Chars(t[a..b], Charset.Utf8)
  }

  lemma CountSplit(t: seq<byte>, a: nat, b: nat, c: nat)
    requires a <= b <= c <= |t|
    ensures Count(t, a, c) == Count(t, a, b) + Count(t, b, c)
  {
    assert t[a..c] == t[a..b] + t[b..c];
    CharsConcat(t[a..b], t[b..c], Charset.Utf8);
  }

  /** A character begins at `o`, or nothing does. */
  predicate Begins(t: seq<byte>, o: nat) {
    o <= |t| && (o < |t| ==> !IsContinuation(t[o]))
  }

  /** One form: one character. */
  lemma OneStep(t: seq<byte>, o: nat)
    requires WellFormed(t) && o < |t| && Begins(t, o) && t[o] != NEWLINE
    ensures var next := o + Taken(t[o..], 1);
            && o < next <= |t| && Begins(t, next) && Count(t, o, next) == 1
            && LineEnd(t, next) == LineEnd(t, o)
  {
    hide WellFormed;
    var n := FormAt(t, o);
    var s := t[o..];
    assert s[0] == t[o];
    assert forall k :: 1 <= k < n ==> s[k] == t[o + k];
    AllTaken(s, n, 1);
    assert t[o..o + n][0] == t[o] && t[o..o + n][1..] == t[o + 1..o + n];
    NoneBegin(t[o + 1..o + n]);
    LineEndOn(t, o, o + n);
  }

  /** Steps from the beginning of a character go on by that many characters, up to the end of the line. */
  lemma {:induction false} StepsCount(t: seq<byte>, o: nat, n: nat)
    requires WellFormed(t) && Begins(t, o)
    ensures var r, e := GoOn(t, o, n), LineEnd(t, o);
            && o <= r <= e && (r == e || Begins(t, r))
            && Count(t, o, r) == (if n <= Count(t, o, e) then n else Count(t, o, e))
    decreases n
  {
    hide WellFormed, Taken, Count;
    CountNone(t, o);
    if n > 0 && o < |t| && t[o] != NEWLINE {
      OneStep(t, o);
      var next := o + Taken(t[o..], 1);
      StepsCount(t, next, n - 1);
      CountSplit(t, o, next, GoOn(t, next, n - 1));
      CountSplit(t, o, next, LineEnd(t, o));
    } else if n > 0 {
      assert LineEnd(t, o) == o;
    }
  }

  lemma CountNone(t: seq<byte>, o: nat)
    requires o <= |t|
    ensures Count(t, o, o) == 0
  {
  }

  /** Inside a character each step is one byte. */
  lemma {:induction false} StepsInside(t: seq<byte>, o: nat, n: nat)
    requires o <= |t|
    ensures var l := Lead(t[o..]);
            if n < l then GoOn(t, o, n) == o + n && o + n < |t| && IsContinuation(t[o + n])
            else o + l <= |t| && GoOn(t, o, n) == GoOn(t, o + l, n - l) && Begins(t, o + l)
    decreases n
  {
    hide Lead, Taken;
    LeadAt(t, o);
    if o < |t| && IsContinuation(t[o]) && n > 0 {
      StepsInside(t, o + 1, n - 1);
    }
  }

  lemma LeadAt(t: seq<byte>, o: nat)
    requires o <= |t|
    ensures if o < |t| && IsContinuation(t[o])
            then Lead(t[o..]) == 1 + Lead(t[o + 1..]) && Taken(t[o..], 1) == 1 && t[o] != NEWLINE
            else Lead(t[o..]) == 0
  {
    if o < |t| && IsContinuation(t[o]) {
      assert t[o..][0] == t[o] && t[o..][1..] == t[o + 1..];
      assert Utf8Length(t[o]) == 1;
    }
  }

  /** Between two places with the same count no character begins. */
  lemma SamePlace(t: seq<byte>, s: nat, a: nat, b: nat)
    requires s <= a <= b <= |t| && (a < b ==> Begins(t, a)) && Count(t, s, a) == Count(t, s, b)
    ensures a == b
  {
    CountSplit(t, s, a, b);
    if a < b {
      SomeBegins(t, a, b);
    }
  }

  lemma SomeBegins(t: seq<byte>, a: nat, b: nat)
    requires a < b <= |t| && Begins(t, a)
    ensures Count(t, a, b) > 0
  {
    assert t[a..b][0] == t[a];
  }

  lemma LeadLine(t: seq<byte>, o: nat)
    requires o <= |t|
    ensures o + Lead(t[o..]) <= LineEnd(t, o) && LineEnd(t, o + Lead(t[o..])) == LineEnd(t, o)
    ensures Count(t, o, o + Lead(t[o..])) == 0
    decreases |t| - o
  {
    hide Count;
    CountNone(t, o);
    if o < |t| && IsContinuation(t[o]) {
      assert t[o..][1..] == t[o + 1..];
      LeadLine(t, o + 1);
      LeadStep(t, o);
    }
  }

  lemma LeadStep(t: seq<byte>, o: nat)
    requires o < |t| && IsContinuation(t[o]) && o + 1 + Lead(t[o + 1..]) <= |t|
    ensures Lead(t[o..]) == 1 + Lead(t[o + 1..])
    ensures Count(t, o, o + Lead(t[o..])) == Count(t, o + 1, o + 1 + Lead(t[o + 1..]))
  {
    assert t[o..][1..] == t[o + 1..];
    var b := o + 1 + Lead(t[o + 1..]);
    assert t[o..b][0] == t[o] && t[o..b][1..] == t[o + 1..b];
  }

  /** Going on from `o`, counted as column `x` of the line that begins at `s`, instead of from `s`. */
  lemma Meet(t: seq<byte>, s: nat, o: nat, c: nat, x: nat)
    requires WellFormed(t) && Begins(t, s) && s <= o <= LineEnd(t, s) && LineEnd(t, o) == LineEnd(t, s)
    requires Count(t, s, o) <= x <= c
    ensures var e, excess := LineEnd(t, s), x - Count(t, s, o) + Lead(t[o..]);
            GoOn(t, o, c - x) == GoOn(t, s, c) <==> excess == 0 || Count(t, s, e) + excess <= c
  {
    hide WellFormed, Count, GoOn, Begins, LineEnd;
    LeadLine(t, o);
    CountSplit(t, s, o, LineEnd(t, s));
    if c - x < Lead(t[o..]) {
      MeetInside(t, s, o, c, c - x);
    } else {
      MeetBehind(t, s, o, c, c - x);
    }
  }

  /** The column is used up inside a character: the true place is elsewhere. */
  lemma MeetInside(t: seq<byte>, s: nat, o: nat, c: nat, n: nat)
    requires WellFormed(t) && Begins(t, s) && s <= o <= |t| && LineEnd(t, o) == LineEnd(t, s) && n < Lead(t[o..])
    ensures GoOn(t, o, n) != GoOn(t, s, c)
  {
    hide WellFormed, Count, GoOn;
    StepsCount(t, s, c);
    StepsInside(t, o, n);
    LeadLine(t, o);
  }

  lemma MeetBehind(t: seq<byte>, s: nat, o: nat, c: nat, n: nat)
    requires WellFormed(t) && Begins(t, s) && s <= o <= LineEnd(t, s) && LineEnd(t, o) == LineEnd(t, s)
    requires Lead(t[o..]) <= n <= c && Count(t, s, o) <= c - n
    ensures var behind := Count(t, s, o) + n - Lead(t[o..]);
            GoOn(t, o, n) == GoOn(t, s, c) <==> behind == c || Count(t, s, LineEnd(t, s)) <= behind
  {
    hide WellFormed, Count, GoOn, Lead, LineEnd, Begins;
    StepsCount(t, s, c);
    StepsBehind(t, s, o, n);
    OnePlace(t, s, LineEnd(t, s), GoOn(t, o, n), GoOn(t, s, c));
  }

  /** Steps from inside the line, counted from its beginning. */
  lemma StepsBehind(t: seq<byte>, s: nat, o: nat, n: nat)
    requires WellFormed(t) && s <= o <= |t| && o <= LineEnd(t, s) == LineEnd(t, o) && Lead(t[o..]) <= n
    ensures var r, e, behind := GoOn(t, o, n), LineEnd(t, s), Count(t, s, o) + n - Lead(t[o..]);
            && s <= r <= e && (r == e || Begins(t, r))
            && Count(t, s, r) == if behind <= Count(t, s, e) then behind else Count(t, s, e)
  {
    hide WellFormed, Count, GoOn, Lead, LineEnd, Begins;
    var e, l := LineEnd(t, s), Lead(t[o..]);
    StepsInside(t, o, n);
    LeadLine(t, o);
    StepsCount(t, o + l, n - l);
    CountSplit(t, s, o, e);
    CountSplit(t, o, o + l, e);
    CountSplit(t, o, o + l, GoOn(t, o, n));
    CountSplit(t, s, o, GoOn(t, o, n));
  }

  /** Two places of a line where characters begin, or at its end, are one if their counts are equal. */
  lemma OnePlace(t: seq<byte>, s: nat, e: nat, a: nat, b: nat)
    requires s <= a <= e <= |t| && s <= b <= e && (a == e || Begins(t, a)) && (b == e || Begins(t, b))
    ensures Count(t, s, a) == Count(t, s, b) <==> a == b
  {
    hide Count;
    if Count(t, s, a) == Count(t, s, b) {
      if a <= b {
        SamePlace(t, s, a, b);
      } else {
        SamePlace(t, s, b, a);
      }
    }
  }

  /** By how much the columns counted up to the place where the search stops exceed the characters before it. */
  function Excess(pages: seq<seq<byte>>, l: nat, c: nat, i: nat, line: nat, col: nat): int
    requires i <= |pages|
    decreases |pages| - i
  {
    if i == |pages| then 0
    else if StopsIn(pages[i], l, c, line, col) then
      PageInside(pages, i);
      if line < l then 0
      else
        col - Chars(LastLine(Flat(pages[..i])), Charset.Utf8) + Lead(Flat(pages)[|Flat(pages[..i])|..])
    else Excess(pages, l, c, i + 1, line + Lines(pages[i]), col + Columns(LastLine(pages[i]), Charset.Utf8))
  }

  /** The search has come to page `i`. */
  ghost predicate Searching(pages: seq<seq<byte>>, l: nat, c: nat, i: nat, line: nat, col: nat) {
    && i <= |pages| && line == Lines(Flat(pages[..i])) <= l <= Lines(Flat(pages))
    && (i == 0 ==> col == 0)
    && (line == l ==> Chars(LastLine(Flat(pages[..i])), Charset.Utf8) <= col && (i > 0 ==> col < c))
  }

  /** The place found is the true one. */
  ghost predicate Exact(pages: seq<seq<byte>>, l: nat, c: nat, found: nat, excess: int)
    requires l <= Lines(Flat(pages))
  {
    var t, s := Flat(pages), LineStart(Flat(pages), l);
    found == GoOn(t, s, c) <==> excess == 0 || Count(t, s, LineEnd(t, s)) + excess <= c
  }

  lemma ExcessStep(pages: seq<seq<byte>>, l: nat, c: nat, i: nat, line: nat, col: nat)
    requires i <= |pages|
    ensures |Flat(pages[..i])| <= |Flat(pages)|
    ensures Excess(pages, l, c, i, line, col)
         == if i == |pages| then 0
            else if StopsIn(pages[i], l, c, line, col) then
              (if line < l then 0
               else col - Chars(LastLine(Flat(pages[..i])), Charset.Utf8) + Lead(Flat(pages)[|Flat(pages[..i])|..]))
            else Excess(pages, l, c, i + 1, line + Lines(pages[i]), col + Columns(LastLine(pages[i]), Charset.Utf8))
  {
    hide Flat, Lines, LastLine, Columns, Chars, Lead;
    FlatSplit(pages, i);
  }

  lemma {:induction false} SearchExact(pages: seq<seq<byte>>, l: nat, c: nat, i: nat, line: nat, col: nat)
    requires WellFormed(Flat(pages)) && Searching(pages, l, c, i, line, col) && i <= |pages| && l <= Lines(Flat(pages))
    ensures Exact(pages, l, c, PlaceFrom(pages, l, c, i, line, col), Excess(pages, l, c, i, line, col))
    decreases |pages| - i
  {
    hide WellFormed, Flat, Searching, Exact, StopsIn, PlaceFrom, Excess, Lines, LastLine, Columns;
    SearchingIs(pages, l, c, i, line, col);
    if i == |pages| {
      AtTheEnd(pages, l, c, line, col);
    } else if !StopsIn(pages[i], l, c, line, col) {
      NextPage(pages, l, c, i, line, col);
      SearchExact(pages, l, c, i + 1, line + Lines(pages[i]), col + Columns(LastLine(pages[i]), Charset.Utf8));
    } else {
      InPage(pages, l, c, i, line, col);
    }
  }

  lemma SearchingIs(pages: seq<seq<byte>>, l: nat, c: nat, i: nat, line: nat, col: nat)
    requires Searching(pages, l, c, i, line, col)
    ensures i <= |pages| && line <= l <= Lines(Flat(pages)) && (line == l ==> col <= c)
  {
    hide Flat, Lines, LastLine, Chars;
  }

  lemma AtTheEnd(pages: seq<seq<byte>>, l: nat, c: nat, line: nat, col: nat)
    requires WellFormed(Flat(pages)) && Searching(pages, l, c, |pages|, line, col) && l <= Lines(Flat(pages))
    ensures Exact(pages, l, c, PlaceFrom(pages, l, c, |pages|, line, col), Excess(pages, l, c, |pages|, line, col))
  {
    hide WellFormed, Flat, Searching, Exact, Lines;
    SearchEnds(pages, l, c, line, col);
  }

  lemma NextPage(pages: seq<seq<byte>>, l: nat, c: nat, i: nat, line: nat, col: nat)
    requires WellFormed(Flat(pages)) && i < |pages| && Searching(pages, l, c, i, line, col)
    requires !StopsIn(pages[i], l, c, line, col)
    ensures var line1, col1 := line + Lines(pages[i]), col + Columns(LastLine(pages[i]), Charset.Utf8);
            && Searching(pages, l, c, i + 1, line1, col1)
            && PlaceFrom(pages, l, c, i, line, col) == PlaceFrom(pages, l, c, i + 1, line1, col1)
            && Excess(pages, l, c, i, line, col) == Excess(pages, l, c, i + 1, line1, col1)
  {
    hide WellFormed, Flat, Searching, StopsIn, Lines, LastLine, Columns;
    SearchOn(pages, l, c, i, line, col);
    ExcessStep(pages, l, c, i, line, col);
    PlaceStep(pages, l, c, i, line, col);
  }

  lemma InPage(pages: seq<seq<byte>>, l: nat, c: nat, i: nat, line: nat, col: nat)
    requires WellFormed(Flat(pages)) && i < |pages| && Searching(pages, l, c, i, line, col)
    requires StopsIn(pages[i], l, c, line, col) && l <= Lines(Flat(pages))
    ensures Exact(pages, l, c, PlaceFrom(pages, l, c, i, line, col), Excess(pages, l, c, i, line, col))
  {
    hide WellFormed, Flat, Searching, Exact, StopsIn, PlaceFrom, Excess, Lines, LastLine, LineStart, Columns, GoOn,
         Lead, Chars;
    SearchingIs(pages, l, c, i, line, col);
    ExcessStep(pages, l, c, i, line, col);
    PlaceStep(pages, l, c, i, line, col);
    if line < l {
      SearchInPage(pages, l, c, i, line, col);
    } else {
      SearchInLine(pages, l, c, i, line, col);
    }
  }

  /** No page is left: the line is the last one, and too short. */
  lemma SearchEnds(pages: seq<seq<byte>>, l: nat, c: nat, line: nat, col: nat)
    requires WellFormed(Flat(pages)) && Searching(pages, l, c, |pages|, line, col)
    ensures Exact(pages, l, c, |Flat(pages)|, 0)
  {
    hide WellFormed, Flat, Lines, LastLine, LineStart, Chars, GoOn;
    var t := Flat(pages);
    AllPages(pages);
    LastLineStart(t);
    var s := LineStart(t, l);
    assert t[s..|t|] == t[s..];
    LineOfStart(t, l);
    NotInLine(t, s);
    StepsCount(t, s, c);
    if pages == [] {
      NoText();
    } else if GoOn(t, s, c) < |t| {
      SamePlace(t, s, GoOn(t, s, c), |t|);
    }
  }

  /** Line `l` is the last line: it goes to the end of the text. */
  lemma LineOfStart(t: seq<byte>, l: nat)
    requires l <= Lines(t)
    ensures l == Lines(t) ==> LineEnd(t, LineStart(t, l)) == |t|
    ensures var s := LineStart(t, l); s == 0 || t[s - 1] == NEWLINE
  {
    hide LineStart;
    assert t[..|t|] == t;
    LineSpan(t, |t|, l);
    StartBehind(t, l);
  }

  lemma {:induction false} StartBehind(t: seq<byte>, l: nat)
    requires l <= Lines(t)
    ensures var s := LineStart(t, l); s == 0 || t[s - 1] == NEWLINE
    decreases |t|
  {
    if l > 0 {
      StartBehind(t[1..], if t[0] == NEWLINE then l - 1 else l);
    }
  }

  lemma NotInLine(t: seq<byte>, s: nat)
    requires WellFormed(t) && s <= |t| && (s == 0 || t[s - 1] == NEWLINE)
    ensures Begins(t, s)
  {
    hide WellFormed, Boundary;
    BehindNewline(t, s);
    if s < |t| {
      NotInside(t, s);
    }
  }

  /** The search goes on to the next page. */
  lemma SearchOn(pages: seq<seq<byte>>, l: nat, c: nat, i: nat, line: nat, col: nat)
    requires WellFormed(Flat(pages)) && i < |pages| && Searching(pages, l, c, i, line, col)
    requires !StopsIn(pages[i], l, c, line, col)
    ensures Searching(pages, l, c, i + 1, line + Lines(pages[i]), col + Columns(LastLine(pages[i]), Charset.Utf8))
  {
    hide WellFormed, Flat, Lines, LastLine, Chars, Columns;
    PageLines(pages, i);
    LastLineConcat(Flat(pages[..i]), pages[i]);
    CharsConcat(LastLine(Flat(pages[..i])), pages[i], Charset.Utf8);
    if Lines(pages[i]) == 0 {
      NoneThere(pages[i]);
    }
    PageColumns(pages, i);
  }

  lemma NoneThere(x: seq<byte>)
    requires Lines(x) == 0
    ensures LastLine(x) == x
  {
  }

  /** The last line of a page is counted as at least as many columns as characters begin in it. */
  lemma PageColumns(pages: seq<seq<byte>>, i: nat)
    requires WellFormed(Flat(pages)) && i < |pages|
    ensures Chars(LastLine(pages[i]), Charset.Utf8) <= Columns(LastLine(pages[i]), Charset.Utf8)
  {
    hide WellFormed, Flat, Chars, Columns, LastLine;
    var t, a, x := Flat(pages), |Flat(pages[..i])|, LastLine(pages[i]);
    FlatAround(pages, i);
    LastLineStart(pages[i]);
    var k := |pages[i]| - |x|;
    assert t[a..a + |pages[i]|] == pages[i];
    assert t[a + k..a + |pages[i]|] == t[a..a + |pages[i]|][k..];
    PartColumns(t, a + k, a + |pages[i]|);
  }

  /** The line begins in the page. */
  lemma SearchInPage(pages: seq<seq<byte>>, l: nat, c: nat, i: nat, line: nat, col: nat)
    requires i < |pages| && Searching(pages, l, c, i, line, col) && line < l && StopsIn(pages[i], l, c, line, col)
    ensures |Flat(pages[..i])| + LineStart(pages[i], l - line) <= |Flat(pages)|
    ensures Exact(pages, l, c, GoOn(Flat(pages), |Flat(pages[..i])| + LineStart(pages[i], l - line), c), 0)
  {
    hide Flat, Lines, LastLine, LineStart, GoOn, Count, Columns, Chars;
    PageLines(pages, i);
    FlatSplit(pages, i + 1);
    PageInside(pages, i);
    LineStartConcat(Flat(pages[..i + 1]), Flat(pages[i + 1..]), l);
    LineStartConcat(Flat(pages[..i]), pages[i], l);
  }

  /** The line began before the page. */
  lemma SearchInLine(pages: seq<seq<byte>>, l: nat, c: nat, i: nat, line: nat, col: nat)
    requires WellFormed(Flat(pages)) && i < |pages| && Searching(pages, l, c, i, line, col) && line == l && col <= c
    ensures |Flat(pages[..i])| <= |Flat(pages)|
    ensures Exact(pages, l, c, GoOn(Flat(pages), |Flat(pages[..i])|, c - col),
                  col - Chars(LastLine(Flat(pages[..i])), Charset.Utf8) + Lead(Flat(pages)[|Flat(pages[..i])|..]))
  {
    hide WellFormed, Flat, Lines, LastLine, LineStart, GoOn, Columns, Chars, Lead;
    var t, a := Flat(pages), Flat(pages[..i]);
    var o, s := |a|, LineStart(Flat(pages), l);
    FlatSplit(pages, i);
    Halves(a, Flat(pages[i..]));
    assert t[..o] == a;
    LineSpan(t, o, l);
    LineOfStart(t, l);
    NotInLine(t, s);
    LastLineStart(a);
    assert t[s..o] == a[s..];
    if i == 0 {
      NoText();
      assert pages[..0] == [];
    }
    Meet(t, s, o, c, col);
  }

  /** Exactly when the search is right under UTF-8: if nothing was counted too much, or the line ends before
      the column even so. What is counted too much are columns carried from earlier pages and bytes of
      characters that a page boundary cuts. */
  lemma GotoCodesExact(pages: seq<seq<byte>>, l: nat, c: nat)
    requires WellFormed(Flat(pages)) && l <= Lines(Flat(pages))
    ensures Exact(pages, l, c, PlaceFrom(pages, l, c, 0, 0, 0), Excess(pages, l, c, 0, 0, 0))
  {
    hide WellFormed, Flat, Exact, PlaceFrom, Excess;
    NoText();
    assert pages[..0] == [];
    assert Chars([], Charset.Utf8) == 0;
    SearchExact(pages, l, c, 0, 0, 0);
  }

  /** There is no such line. */
  lemma {:induction false} NoSuchLine(pages: seq<seq<byte>>, l: nat, c: nat, i: nat, line: nat, col: nat)
    requires i <= |pages| && line == Lines(Flat(pages[..i])) && l > Lines(Flat(pages))
    ensures PlaceFrom(pages, l, c, i, line, col) == |Flat(pages)|
    decreases |pages| - i
  {
    hide Flat, Lines, LastLine, LineStart, Columns, GoOn;
    if i < |pages| {
      PageLines(pages, i);
      FlatSplit(pages, i + 1);
      LinesConcat(Flat(pages[..i + 1]), Flat(pages[i + 1..]));
      NoSuchLine(pages, l, c, i + 1, line + Lines(pages[i]), col + Columns(LastLine(pages[i]), Charset.Utf8));
    }
  }

  lemma CutCharacter()
    ensures var pages: seq<seq<byte>>, t: seq<byte> := [[0xc3], [0xa9], [98]], [0xc3, 0xa9, 98];
            && Flat(pages) == t && Flat(pages[..0]) == [] && Flat(pages[..1]) == t[..1]
            && Lines([0xc3]) == 0 && Lines([0xa9]) == 0
            && Columns(LastLine([0xc3]), Charset.Utf8) == 1 && Columns(LastLine([0xa9]), Charset.Utf8) == 1
  {
    var pages: seq<seq<byte>> := [[0xc3], [0xa9], [98]];
    assert pages[..0] == [] && pages[..3] == pages;
    FlatUpTo(pages, 0);
    FlatUpTo(pages, 1);
    FlatUpTo(pages, 2);
    NoLines([0xc3]);
    NoLines([0xa9]);
    assert [0xa9][1..] == [];
  }

  /** A character of two bytes in two pages and a letter in the third: column 2 is found before the letter, not
      behind it. */
  lemma GotoCodesFail()
    ensures var pages: seq<seq<byte>> := [[0xc3], [0xa9], [98]];
            PlaceFrom(pages, 0, 2, 0, 0, 0) == 2 && GoOn(Flat(pages), 0, 2) == 3
  {
    var pages: seq<seq<byte>>, t: seq<byte> := [[0xc3], [0xa9], [98]], [0xc3, 0xa9, 98];
    CutCharacter();
    hide Flat, Lines, LastLine, LineStart, Columns;
    PlaceStep(pages, 0, 2, 0, 0, 0);
    PlaceStep(pages, 0, 2, 1, 0, 1);
    assert Taken(t[0..], 1) == 2 && Taken(t[1..], 1) == 1 && Taken(t[2..], 1) == 1;
    assert GoOn(t, 2, 0) == 2 && GoOn(t, 3, 0) == 3 && GoOn(t, 2, 1) == 3;
  }
}
