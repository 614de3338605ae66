/** Columns under UTF-8, which are counted page by page although a page can end inside a character. */
module CodeColumns {
  import opened PageText
  import opened TextCounts
  import opened Utf8
  import opened TextIndex
  import opened Positions

  /** The bytes in front that continue a form begun elsewhere. */
  function Lead(s: seq<byte>): (n: nat)
    ensures n <= |s| && (n == 0 <==> s == [] || !IsContinuation(s[0]))
  {
    if s != [] && IsContinuation(s[0]) then 1 + Lead(s[1..]) else 0
  }

  /** The form that begins at `a`: no character begins inside it, and one begins after it. */
  lemma FormAt(t: seq<byte>, a: nat) returns (n: nat)
    requires WellFormed(t) && a < |t| && !IsContinuation(t[a])
    ensures 0 < n == Utf8Length(t[a]) && a + n <= |t| && StartsChar(t[a], Charset.Utf8)
    ensures forall i :: a < i < a + n ==> IsContinuation(t[i])
    ensures a + n < |t| ==> !IsContinuation(t[a + n])
  {
    hide Encoding, WellFormed, StartsWith, EndsWith, Boundary, Gather;
    StartBoundary(t, a);
    var c := StepOver(t, a);
    CodeBytes(t, a, c);
    n := |Encoding(c)|;
    if a + n < |t| {
      NotInside(t, a + n);
    }
  }

  lemma CodeBytes(t: seq<byte>, a: nat, c: int)
    requires a < |t| && StartsWith(t[a..], c)
    ensures Decodable(c) && |Encoding(c)| == Utf8Length(t[a]) && a + |Encoding(c)| <= |t|
            && StartsChar(t[a], Charset.Utf8)
    ensures forall i :: a < i < a + |Encoding(c)| ==> IsContinuation(t[i])
  {
    StartsWithParts(t[a..], c);
    hide Encoding, StartsWith, Gather;
    assert t[a] == t[a..][0];
    assert forall i :: a < i < a + |Encoding(c)| ==> t[i] == t[a..][i - a];
  }

  /** Any part of a well-formed text takes a column for each character that begins in it, and one for each byte
      of a character that was begun before it. */
  lemma {:induction false} PartColumns(t: seq<byte>, a: nat, b: nat)
    requires WellFormed(t) && a <= b <= |t|
    ensures Columns(t[a..b], Charset.Utf8) == Chars(t[a..b], Charset.Utf8) + Lead(t[a..b])
    decreases b - a
  {
    hide WellFormed;
    if a < b {
      var s := t[a..b];
      assert s[0] == t[a] && s[1..] == t[a + 1..b];
      if IsContinuation(t[a]) {
        PartColumns(t, a + 1, b);
      } else {
        var n := FormAt(t, a);
        if a + n <= b {
          PartColumns(t, a + n, b);
          OneForm(t, a, b, n);
        } else {
          NoneBegin(t[a + 1..b]);
        }
      }
    }
  }

  lemma OneForm(t: seq<byte>, a: nat, b: nat, n: nat)
    requires 0 < n && a + n <= b <= |t| && n == Utf8Length(t[a]) && StartsChar(t[a], Charset.Utf8)
    requires forall i :: a < i < a + n ==> IsContinuation(t[i])
    ensures Columns(t[a..b], Charset.Utf8) == 1 + Columns(t[a + n..b], Charset.Utf8)
    ensures Chars(t[a..b], Charset.Utf8) == 1 + Chars(t[a + n..b], Charset.Utf8)
  {
    var s := t[a..b];
    assert s[n..] == t[a + n..b] && s[1..] == t[a + 1..a + n] + t[a + n..b];
    CharsConcat(t[a + 1..a + n], t[a + n..b], Charset.Utf8);
    NoneBegin(t[a + 1..a + n]);
  }

  /** In the last line of some pieces of text, the bytes at the front of a piece that continue a character. */
  function Broken(fr: seq<seq<byte>>): nat {
    if fr == [] then 0
    else
      var last := fr[|fr| - 1];
      if Lines(last) > 0 then 0 else Broken(fr[..|fr| - 1]) + Lead(last)
  }

  lemma FlatLast(fr: seq<seq<byte>>)
    requires fr != []
    ensures Flat(fr) == Flat(fr[..|fr| - 1]) + fr[|fr| - 1]
  {
    FlatUpTo(fr, |fr| - 1);
    assert fr[..|fr|] == fr;
  }

  /** What the source counts as the column: the characters of the line before the offset, and those bytes. */
  lemma {:induction false} ColumnIs(t: seq<byte>, fr: seq<seq<byte>>)
    requires WellFormed(t) && |Flat(fr)| <= |t| && Flat(fr) == t[..|Flat(fr)|]
    ensures ColumnAfter(fr, Charset.Utf8) == Chars(LastLine(Flat(fr)), Charset.Utf8) + Broken(fr)
    decreases |fr|
  {
    hide WellFormed, Flat, Lines, LastLine, Columns, Chars;
    NoText();
    if fr == [] {
      NoneBegin([]);
    } else {
      var front, last := fr[..|fr| - 1], fr[|fr| - 1];
      FlatLast(fr);
      var a, b := |Flat(front)|, |Flat(fr)|;
      LastPart(t, Flat(front), last);
      LastLineConcat(Flat(front), last);
      if Lines(last) > 0 {
        LineColumns(t, a, b);
      } else {
        ColumnIs(t, front);
        LinesNone(last);
        PartColumns(t, a, b);
        CharsConcat(LastLine(Flat(front)), last, Charset.Utf8);
      }
    }
  }

  lemma LinesNone(s: seq<byte>)
    requires Lines(s) == 0
    ensures LastLine(s) == s
  {
  }

  lemma LastPart(t: seq<byte>, x: seq<byte>, last: seq<byte>)
    requires |x| + |last| <= |t| && x + last == t[..|x| + |last|]
    ensures x == t[..|x|] && last == t[|x|..|x| + |last|]
  {
    assert x == (x + last)[..|x|] && last == (x + last)[|x|..];
  }

  /** After a newline no character is cut. */
  lemma LineColumns(t: seq<byte>, a: nat, b: nat)
    requires WellFormed(t) && a <= b <= |t| && Lines(t[a..b]) > 0
    ensures Columns(LastLine(t[a..b]), Charset.Utf8) == Chars(LastLine(t[a..b]), Charset.Utf8)
  {
    hide WellFormed, Columns, Chars;
    var s := t[a..b];
    LastLineBegins(s);
    LastLineStart(s);
    var k := |s| - |LastLine(s)|;
    assert s[k - 1] == t[a + k - 1] && LastLine(s) == t[a + k..b];
    PartColumns(t, a + k, b);
    if a + k < b {
      BehindNewline(t, a + k);
      NotInside(t, a + k);
    }
  }

  lemma {:induction false} LastLineBegins(s: seq<byte>)
    requires Lines(s) > 0
    ensures |LastLine(s)| < |s| && s[|s| - |LastLine(s)| - 1] == NEWLINE
  {
    if Lines(s[1..]) > 0 {
      LastLineBegins(s[1..]);
    }
  }

  lemma NotInside(t: seq<byte>, o: nat)
    requires Boundary(t, o) && o < |t|
    ensures !IsContinuation(t[o])
  {
    hide Encoding, WellFormed;
    var c := StepOver(t, o);
    StartsWithParts(t[o..], c);
    assert t[o] == t[o..][0];
  }

  lemma {:induction false} FlatFragments(pages: seq<seq<byte>>, o: nat)
    ensures Flat(Fragments(pages, o)) == Flat(pages)[..if o <= |Flat(pages)| then o else |Flat(pages)|]
  {
    if pages != [] {
      if o < |pages[0]| {
        assert Flat([pages[0][..o]]) == pages[0][..o] + Flat([]);
      } else {
        FlatFragments(pages[1..], o - |pages[0]|);
        assert Fragments(pages, o)[1..] == Fragments(pages[1..], o - |pages[0]|);
      }
    }
  }

  /** Exactly when the column is the number of characters before the offset: when no page begins inside a
      character of that part of the line. */
  lemma ColumnExact(pages: seq<seq<byte>>, o: nat)
    requires WellFormed(Flat(pages))
    ensures var before, fr := Flat(pages)[..if o <= |Flat(pages)| then o else |Flat(pages)|], Fragments(pages, o);
            && Flat(fr) == before
            && ColumnAfter(fr, Charset.Utf8) == Chars(LastLine(before), Charset.Utf8) + Broken(fr)
            && (ColumnAfter(fr, Charset.Utf8) == Chars(LastLine(before), Charset.Utf8)
                <==> forall i :: 0 <= i < |fr| && |Flat(fr[..i])| >= |before| - |LastLine(before)| ==> Lead(fr[i]) == 0)
  {
    hide WellFormed, Flat, Lines, LastLine, Columns, Chars, Fragments, ColumnAfter, Broken, Lead;
    FlatFragments(pages, o);
    ColumnIs(Flat(pages), Fragments(pages, o));
    NoneBroken(Fragments(pages, o));
  }

  /** The piece `i` begins in the last line. */
  predicate InLine(fr: seq<seq<byte>>, i: nat)
    requires i < |fr|
  {
    |Flat(fr[..i])| >= |Flat(fr)| - |LastLine(Flat(fr))|
  }

  lemma {:induction false} NoneBroken(fr: seq<seq<byte>>)
    ensures Broken(fr) == 0 <==> forall i :: 0 <= i < |fr| && InLine(fr, i) ==> Lead(fr[i]) == 0
    decreases |fr|
  {
    hide Flat, Lines, LastLine, Lead;
    if fr != [] {
      var n := |fr| - 1;
      var front, last := fr[..n], fr[n];
      NoneBroken(front);
      FlatLast(fr);
      LastLineConcat(Flat(front), last);
      forall i | 0 <= i < n ensures fr[..i] == front[..i] && |Flat(fr[..i])| <= |Flat(front)| {
        FlatSplit(front, i);
      }
      if Lines(last) > 0 {
        LastLineLess(last);
        assert forall i :: 0 <= i < |fr| ==> !InLine(fr, i);
      } else {
        assert InLine(fr, n);
        assert forall i :: 0 <= i < n ==> (InLine(fr, i) <==> InLine(front, i)) && front[i] == fr[i];
      }
    }
  }

  lemma LastLineLess(s: seq<byte>)
    requires Lines(s) > 0
    ensures |LastLine(s)| < |s|
  {
    LastLineBegins(s);
  }

  /** A character of two bytes with a page boundary between them counts twice. */
  lemma ColumnFails()
    ensures var pages: seq<seq<byte>> := [[0xc3], [0xa9]];
            && WellFormed(Flat(pages)) && Chars(LastLine(Flat(pages)), Charset.Utf8) == 1
            && ColumnAfter(Fragments(pages, 2), Charset.Utf8) == 2
  {
    var pages: seq<seq<byte>> := [[0xc3], [0xa9]];
    TwoBytes();
    OneCode(0xe9);
    ColumnExact(pages, 2);
    assert Fragments(pages[1..], 1) == [[0xa9]];
    assert Fragments(pages, 2) == pages;
    assert Flat(pages)[..2] == Flat(pages);
    assert pages[..1] == [[0xc3]] && pages[..1][..0] == [];
    assert Lead([0xa9][1..]) == 0;
  }

  lemma TwoBytes()
    ensures var pages: seq<seq<byte>> := [[0xc3], [0xa9]];
            && Flat(pages) == [0xc3, 0xa9] == Encoding(0xe9)
            && Lines([0xc3]) == 0 && Lines([0xa9]) == 0 && LastLine(Flat(pages)) == Flat(pages)
            && Chars([0xc3, 0xa9], Charset.Utf8) == 1
  {
    var pages: seq<seq<byte>> := [[0xc3], [0xa9]];
    assert pages[1..] == [[0xa9]] && Flat([[0xa9]]) == [0xa9] + Flat([[0xa9]][1..]);
    EncodingIs(0xe9);
    TailIs(0xe9);
    NoLines([0xc3]);
    NoLines([0xa9]);
    NoLines([0xc3, 0xa9]);
    NoneBegin([0xa9]);
    assert [0xc3, 0xa9][1..] == [0xa9];
  }
}
