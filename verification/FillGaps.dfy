/** What stands between the words of a filled paragraph, byte by byte. */
module FillGaps {
  import opened PageText
  import opened TextCounts
  import opened Positions
  import opened FillText

  /** The spaces from `i` to `e` stand behind a word or at the beginning, and in front of the word that ends at `w`,
      which is empty at the end of the text only. */
  predicate Gap(f: seq<byte>, i: nat, e: nat, w: nat) {
    && i < e <= w <= |f| && (e == w ==> w == |f|)
    && (i == 0 || !IsSpace(f[i - 1])) && (forall x :: i <= x < e ==> IsSpace(f[x]))
    && (forall x :: e <= x < w ==> !IsSpace(f[x])) && (w < |f| ==> IsSpace(f[w]))
  }

  /** The line that `i` is on begins at `b`; newlines before `m` do not count. */
  predicate OnLine(f: seq<byte>, m: nat, b: nat, i: nat) {
    && b <= i <= |f| && m <= i && (b == 0 || (m < b && f[b - 1] == 10))
    && forall x :: m <= x < i && b <= x ==> f[x] != 10
  }

  /** One space between two words if the second one still fits in 76 columns, and else a newline and `k` spaces;
      one newline before the last word, or at the end if there is no word behind it. The first `m` bytes are not
      looked at, and `c` columns are in front of them. */
  ghost predicate SetOut(f: seq<byte>, m: nat, c: nat, k: nat, cs: Charset) {
    && (forall i: nat, e: nat, w: nat :: m <= i && Gap(f, i, e, w) ==>
          if w == |f| then f[i..e] == [10] else f[i..e] == [32] || f[i..e] == [10] + Spaces(k))
    && (forall b: nat, i: nat, e: nat, w: nat :: Gap(f, i, e, w) && w < |f| && OnLine(f, m, b, i) ==>
          (f[i..e] == [32] <==> (if b == 0 then c else 0) + Width(f, b, i, cs) + 1 + Width(f, e, w, cs) <= 76))
  }

  /** Filling from the gap at `pos` on. */
  lemma {:induction false} FilledSetOut(r: seq<byte>, pos: nat, col: nat, k: nat, cs: Charset)
    requires pos <= |r|
    ensures SetOut(Filled(r, pos, col, false, k, cs), 0, col, k, cs)
    ensures var g := Filled(r, pos, col, false, k, cs);
            && (g == [] <==> pos == |r|) && (pos < |r| ==> IsSpace(g[0]))
    decreases |r| - pos
  {
    hide SetOut, Filled, NewGap, NextCol, SpacesEnd, WordEnd, Width, IsSpace, Spaces;
    if pos == |r| {
      FilledNone(r, pos, col, false, k, cs);
      NothingSetOut(col, k, cs);
    } else {
      Progress(r, pos);
      var ws := SpacesEnd(r, pos);
      var we := WordEnd(r, ws);
      var col1 := NextCol(r, ws, we, col, k, cs);
      FilledSetOut(r, we, col1, k, cs);
      GapUnfolds(r, pos, ws, we, col, k, cs);
      var rest := Filled(r, we, col1, false, k, cs);
      NewGapIs(r, ws, we, col, k, cs);
      OnePart(NewGap(r, ws, we, col, k, cs), r[ws..we], rest, col, col1, k, cs);
    }
  }

  lemma NothingSetOut(col: nat, k: nat, cs: Charset)
    ensures SetOut([], 0, col, k, cs)
  {
  }

  /** The next gap, and the column after the next word. */
  lemma NewGapIs(r: seq<byte>, ws: nat, we: nat, col: nat, k: nat, cs: Charset)
    requires ws <= we <= |r| && NoSpaces(r[ws..we]) && (we < |r| ==> ws < we)
    ensures var gap, word := NewGap(r, ws, we, col, k, cs), r[ws..we];
            GapFits(gap, word, we == |r|, col, NextCol(r, ws, we, col, k, cs), k, cs)
  {
  }

  /** The gap that belongs before a word, at column `col`; after the word the column is `col1`. */
  ghost predicate GapFits(gap: seq<byte>, word: seq<byte>, last: bool, col: nat, col1: nat, k: nat, cs: Charset) {
    && NoSpaces(word) && (!last ==> word != [])
    && if last then gap == [10]
       else if col + 1 + Chars(word, cs) <= 76 then gap == [32] && col1 == col + 1 + Chars(word, cs)
       else gap == [10] + Spaces(k) && col1 == k + Chars(word, cs)
  }

  /** A gap and a word in front of what is set out already. */
  lemma OnePart(gap: seq<byte>, word: seq<byte>, rest: seq<byte>, col: nat, col1: nat, k: nat, cs: Charset)
    requires GapFits(gap, word, rest == [], col, col1, k, cs) && (rest == [] || IsSpace(rest[0]))
    requires SetOut(rest, 0, col1, k, cs)
    ensures SetOut(gap + word + rest, 0, col, k, cs) && IsSpace((gap + word + rest)[0])
  {
    hide SetOut, Width;
    var g := gap + word + rest;
    forall i: nat, e: nat, w: nat | Gap(g, i, e, w)
      ensures if w == |g| then g[i..e] == [10] else g[i..e] == [32] || g[i..e] == [10] + Spaces(k)
    {
      GapOfPart(gap, word, rest, col, col1, k, cs, i, e, w);
    }
    forall b: nat, i: nat, e: nat, w: nat | Gap(g, i, e, w) && w < |g| && OnLine(g, 0, b, i)
      ensures g[i..e] == [32] <==> (if b == 0 then col else 0) + Width(g, b, i, cs) + 1 + Width(g, e, w, cs) <= 76
    {
      BreakOfPart(gap, word, rest, col, col1, k, cs, b, i, e, w);
    }
    SetOutIs(g, 0, col, k, cs);
  }

  lemma SetOutIs(f: seq<byte>, m: nat, c: nat, k: nat, cs: Charset)
    requires forall i: nat, e: nat, w: nat :: m <= i && Gap(f, i, e, w) ==>
               if w == |f| then f[i..e] == [10] else f[i..e] == [32] || f[i..e] == [10] + Spaces(k)
    requires forall b: nat, i: nat, e: nat, w: nat :: Gap(f, i, e, w) && w < |f| && OnLine(f, m, b, i) ==>
               (f[i..e] == [32] <==> (if b == 0 then c else 0) + Width(f, b, i, cs) + 1 + Width(f, e, w, cs) <= 76)
    ensures SetOut(f, m, c, k, cs)
  {
  }

  lemma SetOutAt(f: seq<byte>, m: nat, c: nat, k: nat, cs: Charset, i: nat, e: nat, w: nat)
    requires SetOut(f, m, c, k, cs) && Gap(f, i, e, w) && m <= i
    ensures if w == |f| then f[i..e] == [10] else f[i..e] == [32] || f[i..e] == [10] + Spaces(k)
  {
    hide Gap, Width;
  }

  lemma BreakAt(f: seq<byte>, m: nat, c: nat, k: nat, cs: Charset, b: nat, i: nat, e: nat, w: nat)
    requires SetOut(f, m, c, k, cs) && Gap(f, i, e, w) && w < |f| && OnLine(f, m, b, i)
    ensures f[i..e] == [32] <==> (if b == 0 then c else 0) + Width(f, b, i, cs) + 1 + Width(f, e, w, cs) <= 76
  {
    hide Gap, OnLine, Width;
  }

  /** The first gap is `gap`, and the others are gaps of `rest`. */
  lemma WhichGap(gap: seq<byte>, word: seq<byte>, rest: seq<byte>, i: nat, e: nat, w: nat)
    requires AllSpaces(gap) && gap != [] && NoSpaces(word) && (rest == [] || (word != [] && IsSpace(rest[0])))
    requires Gap(gap + word + rest, i, e, w)
    ensures e <= w
    ensures var p := |gap| + |word|;
            if i == 0 then e == |gap| && w == p
            else p <= i < e <= w <= |gap + word + rest| && Gap(rest, i - p, e - p, w - p)
  {
    hide IsSpace;
    var g, p := gap + word + rest, |gap| + |word|;
    assert forall x :: 0 <= x < |gap| ==> g[x] == gap[x];
    assert forall x :: |gap| <= x < p ==> g[x] == word[x - |gap|];
    assert forall x :: p <= x < |g| ==> g[x] == rest[x - p];
    if i == 0 {
      FirstGap(g, |gap|, p, e, w);
    } else {
      assert IsSpace(g[i]) && !IsSpace(g[i - 1]);
      assert forall x {:trigger rest[x]} :: i - p <= x < w - p ==> rest[x] == g[x + p];
    }
  }

  lemma FirstGap(g: seq<byte>, n: nat, p: nat, e: nat, w: nat)
    requires 0 < n <= p <= |g| && (n < p || p == |g|) && Gap(g, 0, e, w)
    requires (forall x :: 0 <= x < n ==> IsSpace(g[x])) && (forall x :: n <= x < p ==> !IsSpace(g[x]))
    requires p < |g| ==> IsSpace(g[p])
    ensures e == n && w == p
  {
    hide IsSpace;
    var atEnd, atWord := if e < |g| then g[e] else 0, if n < |g| then g[n] else 0;
  }

  lemma GapOfPart(gap: seq<byte>, word: seq<byte>, rest: seq<byte>, col: nat, col1: nat, k: nat, cs: Charset,
                  i: nat, e: nat, w: nat)
    requires GapFits(gap, word, rest == [], col, col1, k, cs) && (rest == [] || IsSpace(rest[0]))
    requires SetOut(rest, 0, col1, k, cs) && Gap(gap + word + rest, i, e, w)
    ensures var g := gap + word + rest;
            if w == |g| then g[i..e] == [10] else g[i..e] == [32] || g[i..e] == [10] + Spaces(k)
  {
    hide SetOut, Gap, Chars;
    var g, p := gap + word + rest, |gap| + |word|;
    WhichGap(gap, word, rest, i, e, w);
    if i == 0 {
      assert g[0..e] == gap;
    } else {
      SetOutAt(rest, 0, col1, k, cs, i - p, e - p, w - p);
      assert g[i..e] == rest[i - p..e - p];
    }
  }

  lemma BreakOfPart(gap: seq<byte>, word: seq<byte>, rest: seq<byte>, col: nat, col1: nat, k: nat, cs: Charset,
                    b: nat, i: nat, e: nat, w: nat)
    requires GapFits(gap, word, rest == [], col, col1, k, cs) && (rest == [] || IsSpace(rest[0]))
    requires var g := gap + word + rest;
             SetOut(rest, 0, col1, k, cs) && Gap(g, i, e, w) && w < |g| && OnLine(g, 0, b, i)
    ensures var g := gap + word + rest;
            g[i..e] == [32] <==> (if b == 0 then col else 0) + Width(g, b, i, cs) + 1 + Width(g, e, w, cs) <= 76
  {
    hide SetOut, Gap, Chars;
    var g, p := gap + word + rest, |gap| + |word|;
    WhichGap(gap, word, rest, i, e, w);
    if i == 0 {
      assert g[0..e] == gap && g[0..0] == [] && g[e..w] == word;
      NoChars(cs);
      assert b == 0 && Width(g, 0, 0, cs) == 0 && Width(g, e, w, cs) == Chars(word, cs);
      NotSpace(k);
    } else {
      hide Gap;
      var b1 := LineOfPart(gap, word, rest, col, col1, k, cs, b, i);
      BreakAt(rest, 0, col1, k, cs, b1, i - p, e - p, w - p);
      assert g[i..e] == rest[i - p..e - p] && g[e..w] == rest[e - p..w - p];
    }
  }

  lemma NotSpace(k: nat)
    ensures [10] + Spaces(k) != [32]
  {
    assert ([10] + Spaces(k))[0] == 10;
  }

  /** The column of a gap of `rest`, counted in `rest` and in the whole. */
  lemma LineOfPart(gap: seq<byte>, word: seq<byte>, rest: seq<byte>, col: nat, col1: nat, k: nat, cs: Charset,
                   b: nat, i: nat) returns (b1: nat)
    requires GapFits(gap, word, rest == [], col, col1, k, cs) && rest != []
    requires |gap| + |word| <= i && OnLine(gap + word + rest, 0, b, i)
    ensures var g, p := gap + word + rest, |gap| + |word|;
            && OnLine(rest, 0, b1, i - p)
            && (if b == 0 then col else 0) + Width(g, b, i, cs)
               == (if b1 == 0 then col1 else 0) + Width(rest, b1, i - p, cs)
  {
    hide Chars;
    var g, p := gap + word + rest, |gap| + |word|;
    assert forall x :: |gap| <= x < p ==> g[x] == word[x - |gap|];
    assert forall x {:trigger rest[x]} :: 0 <= x < |rest| ==> rest[x] == g[x + p];
    assert !IsSpace(g[p - 1]);
    if b > p {
      b1 := b - p;
      assert g[b..i] == rest[b1..i - p];
    } else {
      b1 := 0;
      LineOverPart(gap, word, rest, b, i);
      var y := rest[..i - p];
      assert rest[0..i - p] == y;
      assert g[b..i] == gap[b..] + word + y;
      CharsConcat(gap[b..] + word, y, cs);
      CharsConcat(gap[b..], word, cs);
      CharsAscii(gap[b..], cs);
    }
  }

  /** A line that goes back before `rest` begins at the start of the gap, or after its newline. */
  lemma LineOverPart(gap: seq<byte>, word: seq<byte>, rest: seq<byte>, b: nat, i: nat)
    requires gap != [] && NoSpaces(word) && b <= |gap| + |word| <= i && OnLine(gap + word + rest, 0, b, i)
    requires word != [] && forall x :: 0 < x < |gap| ==> gap[x] == 32
    ensures b == if gap[0] == 10 then 1 else 0
  {
    var g := gap + word + rest;
    assert forall x :: 0 <= x < |gap| ==> g[x] == gap[x];
    assert forall x :: |gap| <= x < |gap| + |word| ==> g[x] == word[x - |gap|];
  }

  /** Behind the first word, with its columns in front. */
  lemma BehindFirst(first: seq<byte>, g: seq<byte>, k: nat, cs: Charset)
    requires SetOut(g, 0, Chars(first, cs), k, cs)
    ensures SetOut(first + g, |first|, 0, k, cs)
  {
    hide SetOut, Chars;
    var f, m := first + g, |first|;
    forall i: nat, e: nat, w: nat | m <= i && Gap(f, i, e, w)
      ensures if w == |f| then f[i..e] == [10] else f[i..e] == [32] || f[i..e] == [10] + Spaces(k)
    {
      GapBehind(first, g, i, e, w);
      SetOutAt(g, 0, Chars(first, cs), k, cs, i - m, e - m, w - m);
    }
    forall b: nat, i: nat, e: nat, w: nat | Gap(f, i, e, w) && w < |f| && OnLine(f, m, b, i)
      ensures f[i..e] == [32] <==> 0 + Width(f, b, i, cs) + 1 + Width(f, e, w, cs) <= 76
    {
      GapBehind(first, g, i, e, w);
      var b1 := LineBehind(first, g, b, i, cs);
      BreakAt(g, 0, Chars(first, cs), k, cs, b1, i - m, e - m, w - m);
    }
    SetOutIs(f, m, 0, k, cs);
  }

  lemma GapBehind(first: seq<byte>, g: seq<byte>, i: nat, e: nat, w: nat)
    requires |first| <= i && Gap(first + g, i, e, w)
    ensures var m, f := |first|, first + g;
            Gap(g, i - m, e - m, w - m) && f[i..e] == g[i - m..e - m] && f[e..w] == g[e - m..w - m]
  {
    hide IsSpace;
    var m, f := |first|, first + g;
    assert forall x {:trigger g[x]} :: 0 <= x < |g| ==> g[x] == f[x + m];
  }

  lemma LineBehind(first: seq<byte>, g: seq<byte>, b: nat, i: nat, cs: Charset) returns (b1: nat)
    requires OnLine(first + g, |first|, b, i)
    ensures var m := |first|;
            && OnLine(g, 0, b1, i - m)
            && Width(first + g, b, i, cs) == (if b1 == 0 then Chars(first, cs) else 0) + Width(g, b1, i - m, cs)
  {
    hide Chars;
    var m, f := |first|, first + g;
    assert forall x {:trigger g[x]} :: 0 <= x < |g| ==> g[x] == f[x + m];
    if b == 0 {
      b1 := 0;
      assert f[0..i] == first + g[0..i - m];
      CharsConcat(first, g[0..i - m], cs);
    } else {
      b1 := b - m;
      assert f[b..i] == g[b1..i - m];
    }
  }

  /** How a paragraph is filled: up to the end of its first word it stays as it is, and behind that each gap is
      a space, or where the next word does not fit a newline and `k` spaces, or at the end a newline. */
  lemma FillIsSetOut(r: seq<byte>, k: nat, cs: Charset)
    ensures var f, m := FilledParagraph(r, k, cs), WordEnd(r, SpacesEnd(r, 0));
            && m <= |f| && f[..m] == r[..m] && SetOut(f, m, 0, k, cs)
  {
    hide SetOut, Filled, FilledParagraph, IsSpace, Spaces, Width, SpacesEnd, WordEnd;
    if r == [] {
      FilledNothing(k, cs);
      NothingSetOut(0, k, cs);
    } else {
      var m := WordEnd(r, SpacesEnd(r, 0));
      FilledFirst(r, k, cs);
      var g := Filled(r, m, Width(r, 0, m, cs), false, k, cs);
      FilledSetOut(r, m, Width(r, 0, m, cs), k, cs);
      WidthOfAll(r, m, cs);
      BehindFirst(r[..m], g, k, cs);
    }
  }

  lemma WidthOfAll(r: seq<byte>, m: nat, cs: Charset)
    requires m <= |r|
    ensures r[0..m] == r[..m] && Width(r, 0, m, cs) == Chars(r[..m], cs)
  {
    assert r[0..m] == r[..m];
  }

  /** Every newline behind the first word with another word behind it: that word is the last one of the text and
      follows at once, or exactly `k` spaces stand between the two. */
  lemma EveryNewline(f: seq<byte>, m: nat, k: nat, cs: Charset)
    requires m <= |f| && SetOut(f, m, 0, k, cs) && (m > 0 && m < |f| ==> !IsSpace(f[m - 1]))
    ensures forall i: nat, e: nat ::
              && m <= i < e < |f| && f[i] == 10 && !IsSpace(f[e]) && (forall x :: i < x < e ==> IsSpace(f[x]))
              ==> if forall x :: e <= x < |f| ==> !IsSpace(f[x]) then e == i + 1
                  else e == i + 1 + k && forall x :: i < x < e ==> f[x] == 32
  {
    hide SetOut;
    forall i: nat, e: nat |
      && m <= i < e < |f| && f[i] == 10 && !IsSpace(f[e]) && (forall x :: i < x < e ==> IsSpace(f[x]))
      ensures if forall x :: e <= x < |f| ==> !IsSpace(f[x]) then e == i + 1
              else e == i + 1 + k && forall x :: i < x < e ==> f[x] == 32
    {
      var start := GapBegin(f, m, i);
      var w := WordEnd(f, e);
      SetOutAt(f, m, 0, k, cs, start, e, w);
      assert f[start..e][i - start] == 10;
      assert forall x :: i < x < e ==> f[x] == f[start..e][x - start];
    }
  }

  /** Where the spaces around `i` begin. */
  lemma {:induction false} GapBegin(f: seq<byte>, m: nat, i: nat) returns (start: nat)
    requires m <= i < |f| && IsSpace(f[i]) && (m > 0 ==> !IsSpace(f[m - 1]))
    ensures m <= start <= i && (start == 0 || !IsSpace(f[start - 1])) && forall x :: start <= x <= i ==> IsSpace(f[x])
  {
    if i == 0 || !IsSpace(f[i - 1]) {
      start := i;
    } else {
      start := GapBegin(f, m, i - 1);
    }
  }
}
