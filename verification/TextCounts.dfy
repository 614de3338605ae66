/** Lines, columns and characters of a text: what the counts cached with a page count. */
module TextCounts {
  import opened PageText

  const NEWLINE: byte := 10

  /** How a buffer reads its bytes: one character a byte, or UTF-8. */
  datatype Charset = EightBit | Utf8

  /** The number of bytes announced by a first byte (1 for a byte that cannot begin a longer form). */
  function Utf8Length(b: byte): (l: nat)
    ensures 1 <= l <= 6
  {
    if b < 0xc0 then 1
    else if b < 0xe0 then 2
    else if b < 0xf0 then 3
    else if b < 0xf8 then 4
    else if b < 0xfc then 5
    else if b < 0xfe then 6
    else 1
  }

  /** A byte at which a character starts. */
  predicate StartsChar(b: byte, cs: Charset) {
    cs == EightBit || b < 0x80 || b >= 0xc0
  }

  // ---- lines ----

  /** The number of newlines. */
  function Lines(t: seq<byte>): nat {
    if t == [] then 0 else (if t[0] == NEWLINE then 1 else 0) + Lines(t[1..])
  }

  /** What follows the last newline. */
  function LastLine(t: seq<byte>): (r: seq<byte>)
    ensures |r| <= |t|
  {
    if Lines(t) == 0 then t else LastLine(t[1..])
  }

  /** Where line `n` begins: after the `n`-th newline. */
  function LineStart(t: seq<byte>, n: nat): (o: nat)
    requires n <= Lines(t)
    ensures o <= |t|
  {
    if n == 0 then 0 else 1 + LineStart(t[1..], if t[0] == NEWLINE then n - 1 else n)
  }

  lemma {:induction false} LinesConcat(a: seq<byte>, b: seq<byte>)
    ensures Lines(a + b) == Lines(a) + Lines(b)
  {
    if a == [] {
      assert a + b == b;
    } else {
      assert (a + b)[1..] == a[1..] + b;
      LinesConcat(a[1..], b);
    }
  }

  lemma {:induction false} LastLineConcat(a: seq<byte>, b: seq<byte>)
    ensures LastLine(a + b) == if Lines(b) == 0 then LastLine(a) + b else LastLine(b)
  {
    LinesConcat(a, b);
    if a == [] {
      assert a + b == b;
    } else if Lines(a) + Lines(b) > 0 {
      assert (a + b)[1..] == a[1..] + b;
      LastLineConcat(a[1..], b);
      LinesConcat(a[1..], b);
    }
  }

  /** A line that begins in the first part, or right after it. */
  lemma {:induction false} LineStartConcat(a: seq<byte>, b: seq<byte>, n: nat)
    requires n <= Lines(a) + Lines(b)
    ensures Lines(a + b) == Lines(a) + Lines(b)
    ensures LineStart(a + b, n) == if n <= Lines(a) then LineStart(a, n) else |a| + LineStart(b, n - Lines(a))
  {
    LinesConcat(a, b);
    if a == [] {
      assert a + b == b;
    } else if n > 0 {
      assert (a + b)[1..] == a[1..] + b;
      LineStartConcat(a[1..], b, if a[0] == NEWLINE then n - 1 else n);
    }
  }

  /** The line number of an offset and the start of that line fit together: the start of the line that
      `offset` is in is what is left when the last partial line is taken off. */
  lemma {:induction false} LineStartOfOffset(t: seq<byte>, offset: nat)
    requires offset <= |t|
    ensures Lines(t[..offset]) <= Lines(t)
    ensures LineStart(t, Lines(t[..offset])) == offset - |LastLine(t[..offset])|
  {
    var a, b := t[..offset], t[offset..];
    assert t == a + b;
    LineStartConcat(a, b, Lines(a));
    LastLineStart(a);
  }

  lemma {:induction false} LastLineStart(t: seq<byte>)
    ensures LineStart(t, Lines(t)) == |t| - |LastLine(t)|
    ensures LastLine(t) == t[|t| - |LastLine(t)|..]
  {
    if Lines(t) > 0 {
      LastLineStart(t[1..]);
      assert t[1..][|t[1..]| - |LastLine(t[1..])|..] == t[|t| - |LastLine(t)|..];
    } else {
      assert t[|t| - |LastLine(t)|..] == t;
    }
  }

  // ---- what the line functions mean ----

  lemma {:induction false} LinesMeans(t: seq<byte>)
    ensures Lines(t) == multiset(t)[10]
  {
    if t != [] {
      LinesMeans(t[1..]);
      assert t == [t[0]] + t[1..];
    }
  }

  /** The last line is what stands behind the last newline, or all of the text. */
  lemma {:induction false} LastLineMeans(t: seq<byte>)
    ensures var k := |t| - |LastLine(t)|;
            t[k..] == LastLine(t) && (k > 0 ==> t[k - 1] == 10) && forall i :: k <= i < |t| ==> t[i] != 10
  {
    LinesMeans(t);
    if Lines(t) > 0 {
      var r := t[1..];
      LastLineMeans(r);
      LinesMeans(r);
      var k := |r| - |LastLine(r)|;
      assert t[k + 1..] == r[k..];
      assert forall i {:trigger t[i]} :: 1 <= i < |t| ==> t[i] == r[i - 1];
      assert k == 0 ==> 10 !in r;
      assert k == 0 ==> multiset(r)[10] == 0;
    } else {
      assert 10 !in multiset(t);
      assert forall i :: 0 <= i < |t| ==> t[i] in multiset(t);
    }
  }

  /** A line begins behind a newline, or where the text does, and its number is that of the newlines before it. */
  lemma {:induction false} LineStartMeans(t: seq<byte>, n: nat)
    requires n <= Lines(t)
    ensures var o := LineStart(t, n); multiset(t[..o])[10] == n && (o > 0 ==> t[o - 1] == 10)
  {
    if n > 0 {
      var m := if t[0] == NEWLINE then n - 1 else n;
      LineStartMeans(t[1..], m);
      var o := LineStart(t[1..], m);
      assert t[..o + 1] == [t[0]] + t[1..][..o];
      assert m == 0 ==> o == 0;
    }
  }

  // ---- columns ----

  /** The columns taken by a text without newlines, as the source counts them: under UTF-8 it steps by the
      length that each first byte announces. */
  function Columns(t: seq<byte>, cs: Charset): nat
    decreases |t|
  {
    if t == [] then 0
    else
      var len := if cs == Utf8 then Utf8Length(t[0]) else 1;
      1 + if len <= |t| then Columns(t[len..], cs) else 0
  }

  lemma {:induction false} ColumnsEightBit(t: seq<byte>)
    ensures Columns(t, EightBit) == |t|
    decreases |t|
  {
    if t != [] {
      ColumnsEightBit(t[1..]);
    }
  }

  // ---- characters ----

  function Chars(t: seq<byte>, cs: Charset): nat {
    if t == [] then 0 else (if StartsChar(t[0], cs) then 1 else 0) + Chars(t[1..], cs)
  }

  /** Where character `n` begins, or the end of the text if there is none. */
  function CharPos(t: seq<byte>, n: nat, cs: Charset): (o: nat)
    ensures o <= |t|
  {
    if t == [] then 0
    else if StartsChar(t[0], cs) then (if n == 0 then 0 else 1 + CharPos(t[1..], n - 1, cs))
    else 1 + CharPos(t[1..], n, cs)
  }

  lemma {:induction false} CharsConcat(a: seq<byte>, b: seq<byte>, cs: Charset)
    ensures Chars(a + b, cs) == Chars(a, cs) + Chars(b, cs)
  {
    if a == [] {
      assert a + b == b;
    } else {
      assert (a + b)[1..] == a[1..] + b;
      CharsConcat(a[1..], b, cs);
    }
  }

  lemma {:induction false} CharPosConcat(a: seq<byte>, b: seq<byte>, n: nat, cs: Charset)
    ensures CharPos(a + b, n, cs) == if n < Chars(a, cs) then CharPos(a, n, cs)
            else |a| + CharPos(b, n - Chars(a, cs), cs)
  {
    if a == [] {
      assert a + b == b;
    } else {
      assert (a + b)[1..] == a[1..] + b;
      if StartsChar(a[0], cs) {
        if n > 0 {
          CharPosConcat(a[1..], b, n - 1, cs);
        }
      } else {
        CharPosConcat(a[1..], b, n, cs);
      }
    }
  }

  /** The bytes at which no character starts are left out, under UTF-8 only. */
  lemma {:induction false} CharsMeans(t: seq<byte>)
    ensures Chars(t, EightBit) == |t|
    ensures Chars(t, Utf8) == |set i | 0 <= i < |t| && !(0x80 <= t[i] <= 0xbf)|
  {
    if t != [] {
      var n := |t| - 1;
      var r := t[..n];
      CharsMeans(r);
      assert t == r + [t[n]] && [t[n]][1..] == [];
      CharsConcat(r, [t[n]], EightBit);
      CharsConcat(r, [t[n]], Utf8);
      OneStartMore(t);
    }
  }

  lemma OneStartMore(t: seq<byte>)
    requires t != []
    ensures var n := |t| - 1;
            |set i | 0 <= i < |t| && !(0x80 <= t[i] <= 0xbf)|
            == |set i | 0 <= i < n && !(0x80 <= t[..n][i] <= 0xbf)| + if 0x80 <= t[n] <= 0xbf then 0 else 1
  {
    var n := |t| - 1;
    var before := set i | 0 <= i < n && !(0x80 <= t[..n][i] <= 0xbf);
    var all := set i | 0 <= i < |t| && !(0x80 <= t[i] <= 0xbf);
    assert all == if 0x80 <= t[n] <= 0xbf then before else before + {n};
  }

  /** From a character number to its offset and back, for any bytes whatever. */
  lemma {:induction false} CharsBeforeCharPos(t: seq<byte>, n: nat, cs: Charset)
    requires n <= Chars(t, cs)
    ensures Chars(t[..CharPos(t, n, cs)], cs) == n
  {
    if t != [] && !(StartsChar(t[0], cs) && n == 0) {
      var m := if StartsChar(t[0], cs) then n - 1 else n;
      CharsBeforeCharPos(t[1..], m, cs);
      assert t[..CharPos(t, n, cs)][1..] == t[1..][..CharPos(t[1..], m, cs)];
    }
  }

  /** At the offset of a character one starts. */
  lemma {:induction false} CharPosMeans(t: seq<byte>, n: nat, cs: Charset)
    ensures var o := CharPos(t, n, cs); o < |t| ==> cs == EightBit || !(0x80 <= t[o] <= 0xbf)
  {
    if t != [] && !(StartsChar(t[0], cs) && n == 0) {
      CharPosMeans(t[1..], if StartsChar(t[0], cs) then n - 1 else n, cs);
    }
  }

  /** From the offset of a character, or the end, to its number and back. */
  lemma {:induction false} CharPosOfOffset(t: seq<byte>, offset: nat, cs: Charset)
    requires offset <= |t| && (offset < |t| ==> StartsChar(t[offset], cs))
    ensures CharPos(t, Chars(t[..offset], cs), cs) == offset
  {
    var a, b := t[..offset], t[offset..];
    assert t == a + b;
    CharPosConcat(a, b, Chars(a, cs), cs);
  }
}
