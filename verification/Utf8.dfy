/** The UTF-8 form of up to six octets (section 2 of RFC 2279), and the source's coder and decoder. */
module Utf8 {
  import opened PageText
  import opened TextCounts

  const INVALID_CHAR := 0xfffd
  const MAX_CODE := 0x7fff_ffff

  /** The codes that the decoder accepts: no surrogates, and neither 0xfffe nor 0xffff. */
  predicate Decodable(c: int) {
    0 <= c <= MAX_CODE && !(0xd800 <= c <= 0xdfff) && c != 0xfffe && c != 0xffff
  }

  predicate IsContinuation(b: byte) {
    0x80 <= b < 0xc0
  }

  // ---- the encoding, as the standard tabulates it ----

  /** The number of octets for a code. */
  function EncodingLength(c: int): (l: nat)
    requires 0 <= c <= MAX_CODE
    ensures 1 <= l <= 6
  {
    if c < 0x80 then 1 else if c < 0x800 then 2 else if c < 0x1_0000 then 3
    else if c < 0x20_0000 then 4 else if c < 0x400_0000 then 5 else 6
  }

  /** The marker bits of a first octet: as many ones as there are octets. */
  function Marker(l: nat): (m: int)
    requires 2 <= l <= 6
  {
    if l == 2 then 0xc0 else if l == 3 then 0xe0 else if l == 4 then 0xf0 else if l == 5 then 0xf8 else 0xfc
  }

  /** The number of values of the payload bits of a first octet. */
  function LeadValues(l: nat): (m: int)
    requires 2 <= l <= 6
  {
    if l == 2 then 32 else if l == 3 then 16 else if l == 4 then 8 else if l == 5 then 4 else 2
  }

  /** What is left of a code when `k` groups of six bits are taken off its end. */
  function Upper(c: nat, k: nat): nat {
    if k == 0 then c else Upper(c / 64, k - 1)
  }

  /** The last `k` groups of six bits, each in a continuation octet. */
  function Tail(c: nat, k: nat): (t: seq<byte>)
    ensures |t| == k
  {
    if k == 0 then [] else Tail(c / 64, k - 1) + [0x80 + c % 64]
  }

  function Encoding(c: int): (s: seq<byte>)
    requires 0 <= c <= MAX_CODE
    ensures |s| == EncodingLength(c)
  {
    var l := EncodingLength(c);
    if l == 1 then [c] else
      UpperBound(c, l);
      [Marker(l) + Upper(c, l - 1)] + Tail(c, l - 1)
  }

  lemma UpperBound(c: int, l: nat)
    requires 0 <= c <= MAX_CODE && l == EncodingLength(c) && l >= 2
    ensures 0 <= Upper(c, l - 1) < LeadValues(l)
  {
    UpperIs(c);
  }

  lemma UpperIs(c: nat)
    ensures Upper(c, 1) == c / 64 && Upper(c, 2) == c / 4096 && Upper(c, 3) == c / 262144
    ensures Upper(c, 4) == c / 16777216 && Upper(c, 5) == c / 1073741824
  {
    assert c / 64 / 64 == c / 4096 && c / 4096 / 64 == c / 262144;
    assert c / 262144 / 64 == c / 16777216 && c / 16777216 / 64 == c / 1073741824;
    assert Upper(c, 2) == Upper(c / 64, 1);
    assert Upper(c, 3) == Upper(c / 64 / 64, 1);
    assert Upper(c, 4) == Upper(c / 64 / 64 / 64, 1);
    assert Upper(c, 5) == Upper(c / 64 / 64 / 64 / 64, 1);
  }

  // ---- reading groups of six bits back ----

  /** The code `c` with the six bits of each octet of `t` appended. */
  function Gather(c: nat, t: seq<byte>): nat {
    if t == [] then c else Gather(c, t[..|t| - 1]) * 64 + t[|t| - 1] % 64
  }

  lemma {:induction false} GatherTail(c: nat, k: nat)
    ensures Gather(Upper(c, k), Tail(c, k)) == c
    ensures forall i :: 0 <= i < k ==> IsContinuation(Tail(c, k)[i])
  {
    if k > 0 {
      GatherTail(c / 64, k - 1);
      var t := Tail(c, k);
      assert t[..k - 1] == Tail(c / 64, k - 1);
      LastGroup(c);
      forall i | 0 <= i < k ensures IsContinuation(t[i]) {
        assert i < k - 1 ==> t[i] == Tail(c / 64, k - 1)[i];
      }
    }
  }

  lemma LastGroup(c: nat)
    ensures IsContinuation(0x80 + c % 64) && (0x80 + c % 64) % 64 == c % 64 && c / 64 * 64 + c % 64 == c
  {
  }

  lemma {:induction false} TailGather(c: nat, t: seq<byte>)
    requires forall i :: 0 <= i < |t| ==> IsContinuation(t[i])
    ensures Tail(Gather(c, t), |t|) == t && Upper(Gather(c, t), |t|) == c
    decreases |t|
  {
    if t != [] {
      var n := |t| - 1;
      var g := Gather(c, t[..n]);
      TailGather(c, t[..n]);
      var v := Gather(c, t);
      assert v == g * 64 + t[n] % 64;
      assert v / 64 == g && v % 64 == t[n] % 64 == t[n] - 0x80;
    }
  }

  // ---- the tables ----

  const MIN_CODE: seq<int> := [0, 0, 0x80, 0x800, 0x1_0000, 0x20_0000, 0x400_0000]
  const FIRST_CODE_MASK: seq<int> := [0, 0, 0x1f, 0xf, 0x7, 0x3, 0x1]
  const ESCAPE_CHAR := 0xffff

  /** What the UTF-8 table says of a byte: itself, the escape mark for the first byte of a longer form, or
      the invalid character. */
  function TableUtf8(b: byte): int {
    if b < 0x80 then b else if 0xc0 <= b < 0xfe then ESCAPE_CHAR else INVALID_CHAR
  }

  /** Fills the tables of lengths, of one-byte characters and of UTF-8. */
  method CharsetInit(utf8Length: array<int>, tableIdem: array<int>, tableUtf8: array<int>)
    requires utf8Length.Length == tableIdem.Length == tableUtf8.Length == 256
    requires utf8Length != tableIdem && utf8Length != tableUtf8 && tableIdem != tableUtf8
    modifies utf8Length, tableIdem, tableUtf8
    ensures forall b: byte :: utf8Length[b] == Utf8Length(b)
    ensures forall b: byte :: tableIdem[b] == b && tableUtf8[b] == TableUtf8(b)
    ensures forall b: byte ::
              && (b < 0x80 ==> utf8Length[b] == 1 && tableUtf8[b] == b)
              && (0x80 <= b <= 0xbf ==> utf8Length[b] == 1 && tableUtf8[b] == 0xfffd)
              && (0xc0 <= b <= 0xfd ==>
                    && tableUtf8[b] == 0xffff
                    && utf8Length[b] == if b <= 0xdf then 2 else if b <= 0xef then 3 else if b <= 0xf7 then 4
                                        else if b <= 0xfb then 5 else 6)
              && (0xfe <= b ==> utf8Length[b] == 1 && tableUtf8[b] == 0xfffd)
  {
    FillLengths(utf8Length);
    var i := 0;
    while i < 256
      invariant 0 <= i <= 256 && forall k :: 0 <= k < 256 ==> utf8Length[k] == Utf8Length(k)
      invariant forall k :: 0 <= k < i ==> tableIdem[k] == k
    {
      tableIdem[i] := i;
      i := i + 1;
    }
    // in UTF-8 only a byte below 0x80 stands for itself
    i := 0;
    while i < 256
      invariant 0 <= i <= 256 && forall k :: 0 <= k < 256 ==> utf8Length[k] == Utf8Length(k) && tableIdem[k] == k
      invariant forall k :: 0 <= k < i ==> tableUtf8[k] == INVALID_CHAR
    {
      tableUtf8[i] := INVALID_CHAR;
      i := i + 1;
    }
    i := 0;
    while i < 0x80
      invariant 0 <= i <= 0x80 && forall k :: 0 <= k < 256 ==> utf8Length[k] == Utf8Length(k) && tableIdem[k] == k
      invariant forall k :: 0 <= k < 256 ==> tableUtf8[k] == if k < i then k else INVALID_CHAR
    {
      tableUtf8[i] := i;
      i := i + 1;
    }
    i := 0xc0;
    while i < 0xfe
      invariant 0xc0 <= i <= 0xfe && forall k :: 0 <= k < 256 ==> utf8Length[k] == Utf8Length(k) && tableIdem[k] == k
      invariant forall k :: 0 <= k < 256 ==>
                              tableUtf8[k] == if k < 0x80 then k else if 0xc0 <= k < i then ESCAPE_CHAR
                                  else INVALID_CHAR
    {
      tableUtf8[i] := ESCAPE_CHAR;
      i := i + 1;
    }
  }

  method FillLengths(utf8Length: array<int>)
    requires utf8Length.Length == 256
    modifies utf8Length
    ensures forall k :: 0 <= k < 256 ==> utf8Length[k] == Utf8Length(k)
  {
    forall k | 0 <= k < 256 {
      utf8Length[k] := 1;
    }
    var i, l := 0xc0, 2;
    while l <= 6
      invariant 2 <= l <= 7 && i == if l == 7 then 0xfe else Marker(l)
      invariant forall k :: 0 <= k < 256 ==> utf8Length[k] == if k < i then Utf8Length(k) else 1
    {
      var n := FIRST_CODE_MASK[l] + 1;
      ghost var end := i + n;
      assert n == LeadValues(l) && end == if l == 6 then 0xfe else Marker(l + 1);
      while n > 0
        invariant 0 <= n && i + n == end && Marker(l) <= i
        invariant forall k :: 0 <= k < 256 ==> utf8Length[k] == if k < i then Utf8Length(k) else 1
      {
        utf8Length[i] := l;
        i := i + 1;
        n := n - 1;
      }
      l := l + 1;
    }
  }

  // ---- the coder ----

  lemma TailIs(c: nat)
    ensures Tail(c, 1) == [0x80 + c % 64]
    ensures Tail(c, 2) == [0x80 + c / 64 % 64, 0x80 + c % 64]
    ensures Tail(c, 3) == [0x80 + c / 4096 % 64, 0x80 + c / 64 % 64, 0x80 + c % 64]
    ensures Tail(c, 4) == [0x80 + c / 262144 % 64, 0x80 + c / 4096 % 64, 0x80 + c / 64 % 64, 0x80 + c % 64]
    ensures Tail(c, 5) == [0x80 + c / 16777216 % 64, 0x80 + c / 262144 % 64, 0x80 + c / 4096 % 64,
                           0x80 + c / 64 % 64, 0x80 + c % 64]
  {
    assert c / 64 / 64 == c / 4096 && c / 4096 / 64 == c / 262144 && c / 262144 / 64 == c / 16777216;
    TailStep(c, 0);
    TailStep(c / 64, 0);
    TailStep(c / 4096, 0);
    TailStep(c / 262144, 0);
    TailStep(c / 16777216, 0);
    TailStep(c, 1);
    TailStep(c / 64, 1);
    TailStep(c / 4096, 1);
    TailStep(c / 262144, 1);
    TailStep(c, 2);
    TailStep(c / 64, 2);
    TailStep(c / 4096, 2);
    TailStep(c, 3);
    TailStep(c / 64, 3);
    TailStep(c, 4);
    hide Tail;
  }

  lemma TailStep(c: nat, k: nat)
    ensures Tail(c, k + 1) == Tail(c / 64, k) + [0x80 + c % 64] && Tail(c, 0) == []
  {
  }

  /** The six forms, written out. */
  lemma EncodingIs(c: int)
    requires 0 <= c <= MAX_CODE
    ensures c < 0x80 ==> Encoding(c) == [c]
    ensures 0x80 <= c < 0x800 ==> Encoding(c) == [c / 64 + 0xc0] + Tail(c, 1)
    ensures 0x800 <= c < 0x1_0000 ==> Encoding(c) == [c / 4096 + 0xe0] + Tail(c, 2)
    ensures 0x1_0000 <= c < 0x20_0000 ==> Encoding(c) == [c / 262144 + 0xf0] + Tail(c, 3)
    ensures 0x20_0000 <= c < 0x400_0000 ==> Encoding(c) == [c / 16777216 + 0xf8] + Tail(c, 4)
    ensures 0x400_0000 <= c ==> Encoding(c) == [c / 1073741824 + 0xfc] + Tail(c, 5)
  {
    hide Tail, Upper;
    UpperIs(c);
  }

  /** Writes the encoding of `c`. A shift is a division by a power of two, and the marker bits do not
      overlap the bits they are put to. */
  method Encode(c: int) returns (q: seq<byte>)
    requires 0 <= c <= MAX_CODE
    ensures q == Encoding(c)
  {
    hide Encoding, Tail, Upper;
    q := [];
    EncodingIs(c);
    TailIs(c);
    if c < 0x80 {
      q := q + [c];
    } else {
      if c < 0x800 {
        q := q + [c / 64 + 0xc0];
      } else {
        if c < 0x1_0000 {
          q := q + [c / 4096 + 0xe0];
        } else {
          if c < 0x20_0000 {
            q := q + [c / 262144 + 0xf0];
          } else {
            if c < 0x400_0000 {
              q := q + [c / 16777216 + 0xf8];
            } else {
              q := q + [c / 1073741824 + 0xfc];
              q := q + [0x80 + c / 16777216 % 64];
            }
            q := q + [0x80 + c / 262144 % 64];
          }
          q := q + [0x80 + c / 4096 % 64];
        }
        q := q + [0x80 + c / 64 % 64];
      }
      q := q + [0x80 + c % 64];
    }
  }

  // ---- the decoder ----

  lemma MaskIs(l: nat)
    requires 2 <= l <= 6
    ensures FIRST_CODE_MASK[l] + 1 == LeadValues(l)
    ensures MIN_CODE[l] == if l == 2 then 0x80 else if l == 3 then 0x800 else if l == 4 then 0x1_0000
                           else if l == 5 then 0x20_0000 else 0x400_0000
  {
  }

  lemma LeadByte(l: nat, u: int)
    requires 2 <= l <= 6 && 0 <= u < LeadValues(l)
    ensures Utf8Length(Marker(l) + u) == l && (Marker(l) + u) % LeadValues(l) == u
  {
  }

  lemma ByteOfLength(b: byte)
    requires Utf8Length(b) >= 2
    ensures b == Marker(Utf8Length(b)) + b % LeadValues(Utf8Length(b))
  {
  }

  /** What an encoding of more than one octet looks like from its octets. */
  lemma EncodingParts(c: int)
    requires 0x80 <= c <= MAX_CODE
    ensures var s, l := Encoding(c), EncodingLength(c);
            && l >= 2 && Utf8Length(s[0]) == l && MIN_CODE[l] <= c
            && (forall i :: 1 <= i < l ==> IsContinuation(s[i]))
            && Gather(s[0] % LeadValues(l), s[1..]) == c
  {
    var s, l := Encoding(c), EncodingLength(c);
    hide Gather;
    UpperBound(c, l);
    LeadByte(l, Upper(c, l - 1));
    GatherTail(c, l - 1);
    MaskIs(l);
    assert s[1..] == Tail(c, l - 1);
    forall i | 1 <= i < l ensures IsContinuation(s[i]) {
      assert s[i] == Tail(c, l - 1)[i - 1];
    }
  }

  /** An ASCII character is one octet, and no octet of any other character is one. */
  lemma EncodingOctets(c: int)
    requires 0 <= c <= MAX_CODE
    ensures if c < 0x80 then Encoding(c) == [c] else forall k :: 0 <= k < |Encoding(c)| ==> Encoding(c)[k] >= 0x80
  {
    if c >= 0x80 {
      EncodingParts(c);
      hide Encoding, Gather;
      var e := Encoding(c);
      assert e[0] >= 0x80;
      forall k | 0 <= k < |e| ensures e[k] >= 0x80 {
        assert k > 0 ==> IsContinuation(e[k]);
      }
    }
  }

  /** Octets that pass the decoder's tests are the encoding of what it gathers from them. */
  lemma GatheredIsEncoding(s: seq<byte>, l: nat, c: int)
    requires s != [] && l == Utf8Length(s[0]) == |s| && l >= 2
    requires forall i :: 1 <= i < l ==> IsContinuation(s[i])
    requires c == Gather(s[0] % LeadValues(l), s[1..]) && c >= MIN_CODE[l]
    ensures c <= MAX_CODE && Encoding(c) == s
  {
    hide Gather;
    var u := s[0] % LeadValues(l);
    TailGather(u, s[1..]);
    ByteOfLength(s[0]);
    MaskIs(l);
    LengthFromUpper(c, l);
    assert s == [s[0]] + s[1..];
  }

  lemma LengthFromUpper(c: nat, l: nat)
    requires 2 <= l <= 6 && Upper(c, l - 1) < LeadValues(l) && c >= MIN_CODE[l]
    ensures c <= MAX_CODE && EncodingLength(c) == l
  {
    MaskIs(l);
    UpperIs(c);
  }

  /** The octets that the decoder may look at are there: all that the first one announces, or up to one
      that does not continue the form. */
  predicate Readable(s: seq<byte>) {
    s != [] && (Utf8Length(s[0]) <= |s| || exists i :: 1 <= i < |s| && !IsContinuation(s[i]))
  }

  /** How many octets are taken, with `i` taken so far: all that the first one announces, or those up to one
      that does not continue the form. */
  function Taken(s: seq<byte>, i: nat): (n: nat)
    requires s != [] && 1 <= i
    ensures i <= n && (i <= |s| ==> n <= |s|)
    decreases |s| - i
  {
    if i < Utf8Length(s[0]) && i < |s| && IsContinuation(s[i]) then Taken(s, i + 1) else i
  }

  /** `c` is the code at the beginning of `s`. */
  predicate StartsWith(s: seq<byte>, c: int) {
    Decodable(c) && Encoding(c) <= s
  }

  lemma StartsWithParts(s: seq<byte>, c: int)
    requires StartsWith(s, c)
    ensures |Encoding(c)| <= |s| && s[..|Encoding(c)|] == Encoding(c) && s != []
    ensures if c < 0x80 then s[0] == c else
              var l := EncodingLength(c);
              && l >= 2 && Utf8Length(s[0]) == l && MIN_CODE[l] <= c
              && (forall i :: 1 <= i < l ==> IsContinuation(s[i]))
              && Gather(s[0] % LeadValues(l), s[1..l]) == c
  {
    var e := Encoding(c);
    if c >= 0x80 {
      EncodingParts(c);
      assert s[1..|e|] == e[1..];
    }
  }

  /** Decodes the character at `p`. Strict: a form longer than needed is refused. */
  method Decode(buf: seq<byte>, p: nat) returns (code: int, q: nat)
    requires p < |buf| && Readable(buf[p..])
    ensures p < q <= |buf| && q == p + Taken(buf[p..], 1)
    ensures forall c :: StartsWith(buf[p..], c) ==> code == c && q == p + |Encoding(c)|
    ensures code == 0xfffd || (Decodable(code) && Encoding(code) == buf[p..q])
  {
    hide Gather, Encoding;
    ghost var s := buf[p..];
    q := p;
    var c: int := buf[q];
    q := q + 1;
    if c < 128 {
      // one octet
      EncodingIs(c);
      OneOctet(s);
    } else {
      var l := Utf8Length(buf[p]);
      if l == 1 {
        NoCode(s);
        return INVALID_CHAR, q; // no first octet
      }
      MaskIs(l);
      c := c % (FIRST_CODE_MASK[l] + 1);
      GatherNone(c);
      assert s[1..1] == [];
      var i := 1;
      while i < l
        invariant 1 <= i <= l && q == p + i <= |buf|
        invariant forall k :: 1 <= k < i ==> IsContinuation(s[k])
        invariant Taken(s, i) == Taken(s, 1)
        invariant c == Gather(s[0] % LeadValues(l), s[1..i])
      {
        assert i < |s|;
        var c1 := buf[q];
        if c1 < 0x80 || c1 >= 0xc0 {
          assert !IsContinuation(s[i]);
          NoCodeBroken(s, i);
          return INVALID_CHAR, q;
        }
        q := q + 1;
        GatherOne(s[0] % LeadValues(l), s, i);
        c := c * 64 + c1 % 64;
        i := i + 1;
      }
      OnlyGathered(s, l, c);
      if c < MIN_CODE[l] {
        return INVALID_CHAR, q;
      }
      // numbers that are no characters
      if 0xd800 <= c <= 0xdfff || c == 0xfffe || c == 0xffff {
        return INVALID_CHAR, q;
      }
      GatheredIsEncoding(s[..l], l, c);
    }
    code := c;
  }

  lemma GatherNone(c: nat)
    ensures Gather(c, []) == c
  {
  }

  lemma GatherOne(c: nat, s: seq<byte>, i: nat)
    requires 1 <= i < |s|
    ensures Gather(c, s[1..i + 1]) == Gather(c, s[1..i]) * 64 + s[i] % 64
  {
    assert s[1..i + 1][..i - 1] == s[1..i];
  }

  lemma OneOctet(s: seq<byte>)
    requires s != [] && s[0] < 0x80
    ensures forall c :: StartsWith(s, c) ==> c == s[0] && |Encoding(c)| == 1
  {
    forall c | StartsWith(s, c) ensures c == s[0] && |Encoding(c)| == 1 {
      StartsWithParts(s, c);
    }
  }

  lemma NoCode(s: seq<byte>)
    requires s != [] && s[0] >= 0x80 && Utf8Length(s[0]) == 1
    ensures forall c :: !StartsWith(s, c)
  {
    forall c | StartsWith(s, c) ensures false {
      StartsWithParts(s, c);
    }
  }

  lemma NoCodeBroken(s: seq<byte>, i: nat)
    requires i < |s| && s[0] >= 0x80 && 1 <= i < Utf8Length(s[0]) && !IsContinuation(s[i])
    ensures forall c :: !StartsWith(s, c)
  {
    forall c | StartsWith(s, c) ensures false {
      StartsWithParts(s, c);
    }
  }

  lemma OnlyGathered(s: seq<byte>, l: nat, g: int)
    requires 2 <= l <= |s| && l == Utf8Length(s[0]) && s[0] >= 0x80
    requires g == Gather(s[0] % LeadValues(l), s[1..l])
    ensures forall c :: StartsWith(s, c) ==> c == g && |Encoding(c)| == l && c >= MIN_CODE[l]
  {
    forall c | StartsWith(s, c) ensures c == g && |Encoding(c)| == l && c >= MIN_CODE[l] {
      StartsWithParts(s, c);
    }
  }

  /** No code has an encoding that begins with the encoding of another one. */
  lemma PrefixFree(a: int, b: int, s: seq<byte>)
    requires StartsWith(s, a) && StartsWith(s, b)
    ensures a == b
  {
    StartsWithParts(s, a);
    StartsWithParts(s, b);
  }

  /** Decoding what was encoded gives it back, whatever follows it, unless it is the number of no character:
      a surrogate, 0xfffe or 0xffff. For these the decoder gives the replacement character. */
  method RoundTrip(c: int, rest: seq<byte>) returns (code: int, q: nat)
    requires 0 <= c <= 0x7fff_ffff
    ensures code == if 0xd800 <= c <= 0xdfff || c == 0xfffe || c == 0xffff then 0xfffd else c
    ensures q == if c <= 0x7f then 1 else if c <= 0x7ff then 2 else if c <= 0xffff then 3
                 else if c <= 0x1f_ffff then 4 else if c <= 0x3ff_ffff then 5 else 6
  {
    var s := Encode(c);
    TakenWhole(c, s + rest);
    assert (s + rest)[0..] == s + rest;
    code, q := Decode(s + rest, 0);
    OneEncoding(c, code, s + rest, q);
  }

  /** All octets of an encoding are read, and no more. */
  lemma TakenWhole(c: int, s: seq<byte>)
    requires 0 <= c <= MAX_CODE && Encoding(c) <= s
    ensures Readable(s) && Taken(s, 1) == |Encoding(c)|
  {
    hide Encoding, Gather, Taken;
    if c < 0x80 {
      EncodingIs(c);
      TakenOn(s, 1);
    } else {
      EncodingParts(c);
      var e := Encoding(c);
      assert forall i {:trigger s[i]} :: 0 <= i < |e| ==> s[i] == e[i];
      TakenOn(s, 1);
    }
  }

  lemma {:induction false} TakenOn(s: seq<byte>, i: nat)
    requires s != [] && 1 <= i <= Utf8Length(s[0]) <= |s|
    requires forall k :: 1 <= k < Utf8Length(s[0]) ==> IsContinuation(s[k])
    ensures Taken(s, i) == Utf8Length(s[0])
    decreases Utf8Length(s[0]) - i
  {
    if i < Utf8Length(s[0]) {
      TakenOn(s, i + 1);
    }
  }

  /** Two numbers with one encoding are one. */
  lemma OneEncoding(c: int, d: int, s: seq<byte>, q: nat)
    requires 0 <= c <= MAX_CODE && Encoding(c) <= s && q == |Encoding(c)|
    ensures Decodable(d) && Encoding(d) == s[0..q] ==> c == d
  {
    if Decodable(d) && Encoding(d) == s[0..q] {
      assert Encoding(c) == s[..q] == s[0..q];
      if c >= 0x80 && d >= 0x80 {
        EncodingParts(c);
        EncodingParts(d);
      } else {
        EncodingOctets(c);
        EncodingOctets(d);
        hide Encoding;
        assert s[0..q][0] == Encoding(c)[0] == Encoding(d)[0];
      }
    }
  }

  lemma StartsReadable(c: int, s: seq<byte>)
    requires Decodable(c) && Encoding(c) <= s
    ensures Readable(s)
  {
    StartsWithParts(s, c);
    if c < 0x80 {
    }
  }
}
