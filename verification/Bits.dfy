/** The shifts, masks and ors of the UTF-8 coder and decoder, on 32 bit words: each is the division, remainder
    or sum that `Utf8` writes in its place, and so the coder and the loop of the decoder do the same on words. */
module Bits {
  import opened PageText
  import opened Utf8

  /** First octets: a shift and a marker. The bits do not overlap, so nothing is carried. */
  lemma LeadOctet(c: bv32)
    ensures c < 0x800 ==> (c >> 6) | 0xc0 == c / 64 + 0xc0 && c / 64 < 0x20
    ensures c < 0x1_0000 ==> (c >> 12) | 0xe0 == c / 4096 + 0xe0 && c / 4096 < 0x10
    ensures c < 0x20_0000 ==> (c >> 18) | 0xf0 == c / 262144 + 0xf0 && c / 262144 < 0x8
    ensures c < 0x400_0000 ==> (c >> 24) | 0xf8 == c / 16777216 + 0xf8 && c / 16777216 < 0x4
    ensures c < 0x8000_0000 ==> (c >> 30) | 0xfc == c / 1073741824 + 0xfc && c / 1073741824 < 0x2
  {
  }

  /** Continuation octets. */
  lemma TailOctet(c: bv32)
    ensures (c & 0x3f) | 0x80 == 0x80 + c % 64
    ensures ((c >> 6) & 0x3f) | 0x80 == 0x80 + c / 64 % 64
    ensures ((c >> 12) & 0x3f) | 0x80 == 0x80 + c / 4096 % 64
    ensures ((c >> 18) & 0x3f) | 0x80 == 0x80 + c / 262144 % 64
    ensures ((c >> 24) & 0x3f) | 0x80 == 0x80 + c / 16777216 % 64
  {
  }

  /** The payload of a first octet, for each length. */
  lemma LeadPayload(b: bv32)
    ensures b & 0x1f == b % 32 && b & 0xf == b % 16 && b & 0x7 == b % 8 && b & 0x3 == b % 4 && b & 0x1 == b % 2
  {
  }

  /** Six more bits: nothing is shifted out of a number that five octets can have given. */
  lemma GatherOctet(c: bv32, b: bv32)
    requires c < 0x400_0000
    ensures (c << 6) | (b & 0x3f) == c * 64 + b % 64
    ensures (c * 64 + b % 64) / 64 == c
  {
  }

  /** A number of up to 31 bits, cut up and put together again. */
  lemma GatherAll(c: bv32)
    requires c < 0x8000_0000
    ensures var g5 := ((c >> 30) << 6) | ((c >> 24) & 0x3f); var g4 := (g5 << 6) | ((c >> 18) & 0x3f);
            var g3 := (g4 << 6) | ((c >> 12) & 0x3f); var g2 := (g3 << 6) | ((c >> 6) & 0x3f);
            (g2 << 6) | (c & 0x3f) == c && g2 < 0x400_0000
  {
  }

  // ---- words and the numbers they stand for ----

  /** The number that a word stands for. */
  function Val(c: bv32): (n: int) {
    c as int
  }

  /** Six more bits in a word are six more bits in the number. */
  lemma Join(c: bv32, x: bv32)
    requires c < 0x400_0000
    ensures Val((c << 6) | (x & 0x3f)) == Val(c) * 64 + Val(x & 0x3f)
  {
  }

  lemma SixBits(c: bv32)
    ensures 0 <= Val(c & 0x3f) < 64
  {
  }

  lemma Whole(c: bv32)
    ensures Val(c) == Val(c >> 6) * 64 + Val(c & 0x3f)
  {
    hide Val;
    Join(c >> 6, c);
    assert ((c >> 6) << 6) | (c & 0x3f) == c;
  }

  /** A shift and a mask are a division and a remainder. */
  lemma ShiftMask(c: bv32)
    ensures Val(c >> 6) == Val(c) / 64 && Val(c & 0x3f) == Val(c) % 64
  {
    hide Val;
    Whole(c);
    SixBits(c);
  }

  lemma ShiftMore(d: bv32, e: bv32, n: int)
    requires e == d >> 6 && Val(d) == n
    ensures Val(e) == n / 64
  {
    hide Val;
    ShiftMask(d);
  }

  lemma DivideAgain(n: int)
    ensures n / 64 / 64 == n / 4096 && n / 4096 / 64 == n / 262144
    ensures n / 262144 / 64 == n / 16777216 && n / 16777216 / 64 == n / 1073741824
  {
  }

  /** So are the longer shifts. */
  lemma Shift12(c: bv32)
    ensures Val(c >> 12) == Val(c) / 4096
  {
    hide Val;
    ShiftMask(c);
    ShiftMore(c >> 6, c >> 12, Val(c) / 64);
    DivideAgain(Val(c));
  }

  lemma Shift18(c: bv32)
    ensures Val(c >> 18) == Val(c) / 262144
  {
    hide Val;
    Shift12(c);
    ShiftMore(c >> 12, c >> 18, Val(c) / 4096);
    DivideAgain(Val(c));
  }

  lemma Shift24(c: bv32)
    ensures Val(c >> 24) == Val(c) / 16777216
  {
    hide Val;
    Shift18(c);
    ShiftMore(c >> 18, c >> 24, Val(c) / 262144);
    DivideAgain(Val(c));
  }

  lemma Shift30(c: bv32)
    ensures Val(c >> 30) == Val(c) / 1073741824
  {
    hide Val;
    Shift24(c);
    ShiftMore(c >> 24, c >> 30, Val(c) / 16777216);
    DivideAgain(Val(c));
  }

  /** What the marker bits add. */
  lemma Marked(c: bv32)
    ensures Val((c & 0x3f) | 0x80) == 0x80 + Val(c & 0x3f)
    ensures c < 0x20 ==> Val(c | 0xc0) == Val(c) + 0xc0
    ensures c < 0x10 ==> Val(c | 0xe0) == Val(c) + 0xe0
    ensures c < 0x8 ==> Val(c | 0xf0) == Val(c) + 0xf0
    ensures c < 0x4 ==> Val(c | 0xf8) == Val(c) + 0xf8
    ensures c < 0x2 ==> Val(c | 0xfc) == Val(c) + 0xfc
  {
  }

  // ---- the coder on words ----

  /** The bounds that the coder compares with. */
  lemma LowBounds(c: bv32)
    ensures Val(c) >= 0 && (c < 0x80 <==> Val(c) < 0x80) && (c < 0x800 <==> Val(c) < 0x800)
            && (c < 0x1_0000 <==> Val(c) < 0x1_0000)
  {
  }

  lemma HighBounds(c: bv32)
    ensures c < 0x20_0000 <==> Val(c) < 0x20_0000
    ensures (c < 0x400_0000 <==> Val(c) < 0x400_0000) && (c < 0x8000_0000 <==> Val(c) < 0x8000_0000)
  {
  }

  /** A continuation octet. */
  lemma TailValue(c: bv32)
    ensures Val((c & 0x3f) | 0x80) == 0x80 + Val(c) % 64
  {
    hide Val;
    ShiftMask(c);
    Marked(c);
  }

  /** A first octet. */
  function Lead(c: bv32, k: nat, marker: bv32): int
    requires k < 32
  {
    Val((c >> k) | marker)
  }

  /** A continuation octet with six bits of `c`, from bit `k` on. */
  function Octet(c: bv32, k: nat): int
    requires k < 32
  {
    Val(((c >> k) & 0x3f) | 0x80)
  }

  lemma OctetsAre(c: bv32)
    ensures Octet(c, 0) == 0x80 + Val(c) % 64
    ensures Octet(c, 6) == 0x80 + Val(c) / 64 % 64
    ensures Octet(c, 12) == 0x80 + Val(c) / 4096 % 64
    ensures Octet(c, 18) == 0x80 + Val(c) / 262144 % 64
    ensures Octet(c, 24) == 0x80 + Val(c) / 16777216 % 64
  {
    hide Val;
    TailValue(c);
    TailValue(c >> 6);
    TailValue(c >> 12);
    TailValue(c >> 18);
    TailValue(c >> 24);
    ShiftMask(c);
    Shift12(c);
    Shift18(c);
    Shift24(c);
  }

  lemma LeadSmall(c: bv32)
    ensures c < 0x800 ==> c >> 6 < 0x20
    ensures c < 0x1_0000 ==> c >> 12 < 0x10
    ensures c < 0x20_0000 ==> c >> 18 < 0x8
    ensures c < 0x400_0000 ==> c >> 24 < 0x4
    ensures c < 0x8000_0000 ==> c >> 30 < 0x2
  {
  }

  lemma LeadsAre(c: bv32)
    ensures c < 0x800 ==> Lead(c, 6, 0xc0) == Val(c) / 64 + 0xc0
    ensures c < 0x1_0000 ==> Lead(c, 12, 0xe0) == Val(c) / 4096 + 0xe0
    ensures c < 0x20_0000 ==> Lead(c, 18, 0xf0) == Val(c) / 262144 + 0xf0
    ensures c < 0x400_0000 ==> Lead(c, 24, 0xf8) == Val(c) / 16777216 + 0xf8
    ensures c < 0x8000_0000 ==> Lead(c, 30, 0xfc) == Val(c) / 1073741824 + 0xfc
  {
    hide Val;
    LeadSmall(c);
    Marked(c >> 6);
    Marked(c >> 12);
    Marked(c >> 18);
    Marked(c >> 24);
    Marked(c >> 30);
    ShiftMask(c);
    Shift12(c);
    Shift18(c);
    Shift24(c);
    Shift30(c);
  }

  /** The octets of a number in its six forms. */
  lemma SixForms(n: int, leads: seq<int>, tails: seq<int>)
    requires 0 <= n <= MAX_CODE && |leads| == |tails| == 5
    requires n < 0x800 ==> leads[0] == n / 64 + 0xc0
    requires n < 0x1_0000 ==> leads[1] == n / 4096 + 0xe0
    requires n < 0x20_0000 ==> leads[2] == n / 262144 + 0xf0
    requires n < 0x400_0000 ==> leads[3] == n / 16777216 + 0xf8
    requires leads[4] == n / 1073741824 + 0xfc
    requires tails[0] == 0x80 + n % 64 && tails[1] == 0x80 + n / 64 % 64 && tails[2] == 0x80 + n / 4096 % 64
    requires tails[3] == 0x80 + n / 262144 % 64 && tails[4] == 0x80 + n / 16777216 % 64
    ensures n < 0x80 ==> Encoding(n) == [n]
    ensures 0x80 <= n < 0x800 ==> Encoding(n) == [leads[0], tails[0]]
    ensures 0x800 <= n < 0x1_0000 ==> Encoding(n) == [leads[1], tails[1], tails[0]]
    ensures 0x1_0000 <= n < 0x20_0000 ==> Encoding(n) == [leads[2], tails[2], tails[1], tails[0]]
    ensures 0x20_0000 <= n < 0x400_0000 ==> Encoding(n) == [leads[3], tails[3], tails[2], tails[1], tails[0]]
    ensures 0x400_0000 <= n ==> Encoding(n) == [leads[4], tails[4], tails[3], tails[2], tails[1], tails[0]]
  {
    hide Encoding, Tail, Upper;
    EncodingIs(n);
    TailIs(n);
  }

  lemma WordForms(c: bv32)
    requires c < 0x8000_0000
    ensures 0 <= Val(c) <= MAX_CODE
    ensures var e := Encoding(Val(c)); var o0 := Octet(c, 0);
            && (c < 0x80 ==> e == [Val(c)])
            && (0x80 <= c < 0x800 ==> e == [Lead(c, 6, 0xc0), o0])
            && (0x800 <= c < 0x1_0000 ==> e == [Lead(c, 12, 0xe0), Octet(c, 6), o0])
            && (0x1_0000 <= c < 0x20_0000 ==> e == [Lead(c, 18, 0xf0), Octet(c, 12), Octet(c, 6), o0])
            && (0x20_0000 <= c < 0x400_0000 ==>
                  e == [Lead(c, 24, 0xf8), Octet(c, 18), Octet(c, 12), Octet(c, 6), o0])
            && (0x400_0000 <= c ==>
                  e == [Lead(c, 30, 0xfc), Octet(c, 24), Octet(c, 18), Octet(c, 12), Octet(c, 6), o0])
  {
    LowBounds(c);
    HighBounds(c);
    LeadsAre(c);
    OctetsAre(c);
    hide Val, Lead, Octet, Encoding;
    SixForms(Val(c), [Lead(c, 6, 0xc0), Lead(c, 12, 0xe0), Lead(c, 18, 0xf0), Lead(c, 24, 0xf8), Lead(c, 30, 0xfc)],
             [Octet(c, 0), Octet(c, 6), Octet(c, 12), Octet(c, 18), Octet(c, 24)]);
  }

  /** The coder with shifts, masks and ors: the octets are those of the number. */
  method EncodeWord(c: bv32) returns (q: seq<int>)
    requires c < 0x8000_0000
    ensures 0 <= Val(c) <= MAX_CODE && q == Encoding(Val(c))
  {
    hide Val, Lead, Octet, Encoding, Tail, Upper;
    WordForms(c);
    q := [];
    if c < 0x80 {
      q := q + [Val(c)];
    } else {
      if c < 0x800 {
        q := q + [Lead(c, 6, 0xc0)];
      } else {
        if c < 0x1_0000 {
          q := q + [Lead(c, 12, 0xe0)];
        } else {
          if c < 0x20_0000 {
            q := q + [Lead(c, 18, 0xf0)];
          } else {
            if c < 0x400_0000 {
              q := q + [Lead(c, 24, 0xf8)];
              assert q == [Lead(c, 24, 0xf8)];
            } else {
              q := q + [Lead(c, 30, 0xfc)];
              q := q + [Octet(c, 24)];
              assert q == [Lead(c, 30, 0xfc), Octet(c, 24)];
            }
            q := q + [Octet(c, 18)];
          }
          q := q + [Octet(c, 12)];
        }
        q := q + [Octet(c, 6)];
      }
      q := q + [Octet(c, 0)];
    }
  }

  // ---- the decoder on words ----

  /** The number that an octet stands for. */
  function Num(b: bv8): (n: byte) {
    b as int
  }

  /** The octets as numbers. */
  function Numbers(s: seq<bv8>): (t: seq<byte>)
    ensures |t| == |s| && forall i :: 0 <= i < |s| ==> t[i] == Num(s[i])
  {
    seq(|s|, i requires 0 <= i < |s| => Num(s[i]))
  }

  /** The number so far, and six bits more. */
  function Gathered(c: bv32, b: bv8): bv32 {
    (c << 6) | (b as bv32 & 0x3f)
  }

  lemma OctetBits(b: bv8)
    ensures Val(b as bv32 & 0x3f) == Num(b) % 64
  {
  }

  lemma GatheredIs(c: bv32, b: bv8)
    requires c < 0x400_0000
    ensures Val(Gathered(c, b)) == Val(c) * 64 + Num(b) % 64
  {
    hide Val, Num;
    Join(c, b as bv32);
    OctetBits(b);
  }

  /** The mask for the first octet of a form of `l` octets. */
  function MaskOf(l: nat): bv32
    requires 2 <= l <= 6
  {
    if l == 2 then 0x1f else if l == 3 then 0xf else if l == 4 then 0x7 else if l == 5 then 0x3 else 0x1
  }

  lemma FiveOrFourBits(b: bv8)
    ensures Val(b as bv32 & 0x1f) == Num(b) % 32 && Val(b as bv32 & 0xf) == Num(b) % 16
  {
  }

  lemma ThreeBits(b: bv8)
    ensures Val(b as bv32 & 0x7) == Num(b) % 8
  {
  }

  lemma TwoBits(b: bv8)
    ensures Val(b as bv32 & 0x3) == Num(b) % 4
  {
  }

  lemma OneBit(b: bv8)
    ensures Val(b as bv32 & 0x1) == Num(b) % 2
  {
  }

  lemma LeadBits(b: bv8, l: nat)
    requires 2 <= l <= 6
    ensures Val(b as bv32 & MaskOf(l)) == Num(b) % LeadValues(l)
  {
    hide Val, Num;
    FiveOrFourBits(b);
    ThreeBits(b);
    TwoBits(b);
    OneBit(b);
  }

  /** How many numbers `i` groups of six bits can give. */
  function Groups(i: nat): nat {
    if i == 0 then 1 else 64 * Groups(i - 1)
  }

  lemma GroupsAre()
    ensures Groups(0) == 1 && Groups(1) == 64 && Groups(2) == 4096 && Groups(3) == 262144 && Groups(4) == 16777216
  {
  }

  lemma GatherMore(c: nat, t: seq<byte>, i: nat)
    requires i < |t|
    ensures Gather(c, t[..i + 1]) == Gather(c, t[..i]) * 64 + t[i] % 64
  {
    assert t[..i + 1][..i] == t[..i];
  }

  /** One octet more: nothing is shifted out. */
  lemma GatherStep(c: bv32, b: bv8, l: nat, i: nat)
    requires 2 <= l <= 6 && i < l - 1 && 0 <= Val(c) < LeadValues(l) * Groups(i)
    ensures Val(Gathered(c, b)) == Val(c) * 64 + Num(b) % 64
    ensures 0 <= Val(c) * 64 + Num(b) % 64 < LeadValues(l) * Groups(i + 1)
  {
    hide Val, Num, Groups, LeadValues, Gathered;
    GatherRoom(l, i);
    StepValue(c, b);
  }

  lemma StepValue(c: bv32, b: bv8)
    requires Val(c) < 0x400_0000
    ensures Val(Gathered(c, b)) == Val(c) * 64 + Num(b) % 64
  {
    hide Val, Num, Gathered;
    HighBounds(c);
    GatheredIs(c, b);
  }

  lemma GatherRoom(l: nat, i: nat)
    requires 2 <= l <= 6 && i < l - 1
    ensures LeadValues(l) * Groups(i) <= 0x400_0000
    ensures LeadValues(l) * Groups(i + 1) == LeadValues(l) * Groups(i) * 64
  {
    GroupsAre();
  }

  /** The loop of the decoder, with masks, shifts and ors: the word is the number that `Decode` gathers. */
  method GatherWord(first: bv8, s: seq<bv8>) returns (c: bv32)
    requires 1 <= |s| <= 5
    ensures Val(c) == Gather(Num(first) % LeadValues(|s| + 1), Numbers(s))
  {
    hide Val, Num, Gather, Gathered;
    ghost var l, n := |s| + 1, Num(first) % LeadValues(|s| + 1);
    c := first as bv32 & MaskOf(|s| + 1);
    LeadBits(first, l);
    GatherNone(n);
    assert Numbers(s)[..0] == [];
    var i := 0;
    while i < |s|
      invariant 0 <= i <= |s| && Val(c) == Gather(n, Numbers(s)[..i]) && 0 <= Val(c) < LeadValues(l) * Groups(i)
    {
      GatherStep(c, s[i], l, i);
      GatherMore(n, Numbers(s), i);
      c := Gathered(c, s[i]);
      i := i + 1;
    }
    assert Numbers(s)[..i] == Numbers(s);
  }
}
