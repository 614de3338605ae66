/** Characters of a buffer: from an offset to the next character and to the one before, and back again. */
module TextIndex {
  import opened PageText
  import opened TextCounts
  import opened Utf8
  import opened EditBuffers

  const MAX_CHAR_BYTES := 6

  // ---- stepping by characters ----

  lemma TableStarts(s: seq<byte>)
    requires s != []
    ensures TableUtf8(s[0]) != ESCAPE_CHAR ==>
              forall c :: StartsWith(s, c) ==> c == TableUtf8(s[0]) && |Encoding(c)| == 1
  {
    if s[0] < 0x80 {
      OneOctet(s);
    } else if Utf8Length(s[0]) == 1 {
      NoCode(s);
    }
  }

  /** A step takes the octets up to the first one that continues no form, but no more than the first octet announces. */
  lemma TakenMeans(s: seq<byte>)
    requires s != [] && Readable(s)
    ensures var n := Taken(s, 1);
            && 1 <= n <= |s| && forall k :: 1 <= k < n ==> 0x80 <= s[k] <= 0xbf
    ensures var n := Taken(s, 1);
            var announced := if s[0] < 0xc0 then 1 else if s[0] < 0xe0 then 2 else if s[0] < 0xf0 then 3
                             else if s[0] < 0xf8 then 4 else if s[0] < 0xfc then 5 else if s[0] < 0xfe then 6 else 1;
            n == announced || (n < announced && n < |s| && !(0x80 <= s[n] <= 0xbf))
  {
    TakenRuns(s, 1);
  }

  lemma {:induction false} TakenRuns(s: seq<byte>, i: nat)
    requires s != [] && 1 <= i <= |s| && i <= Utf8Length(s[0])
    ensures var n := Taken(s, i);
            && i <= n <= |s| && n <= Utf8Length(s[0]) && (forall k :: i <= k < n ==> IsContinuation(s[k]))
            && (n == Utf8Length(s[0]) || n == |s| || !IsContinuation(s[n]))
    decreases |s| - i
  {
    if i < Utf8Length(s[0]) && i < |s| && IsContinuation(s[i]) {
      TakenRuns(s, i + 1);
    }
  }

  /** Bytes that follow the end of the text do not matter to a character inside it. */
  lemma StartsWithin(s: seq<byte>, buf: seq<byte>, c: int)
    requires StartsWith(s, c) && |buf| == MAX_CHAR_BYTES
    requires forall i :: 0 <= i < |s| && i < MAX_CHAR_BYTES ==> buf[i] == s[i]
    ensures StartsWith(buf, c)
  {
    StartsWithParts(s, c);
    assert buf[..|Encoding(c)|] == s[..|Encoding(c)|];
  }

  /** How far the decoder goes into `buf`, which holds the text `s` as far as that goes. */
  lemma TakenWithin(s: seq<byte>, buf: seq<byte>, i: nat)
    requires s != [] && |buf| == MAX_CHAR_BYTES && 1 <= i <= |s| && i <= MAX_CHAR_BYTES
    requires forall k :: 0 <= k < |s| && k < MAX_CHAR_BYTES ==> buf[k] == s[k]
    requires forall k :: 1 <= k < i ==> IsContinuation(s[k])
    ensures Readable(s) ==> i <= Taken(buf, i) == Taken(s, i) <= |s|
    ensures !Readable(s) ==> |s| <= Taken(buf, i)
    ensures forall k :: 1 <= k < Taken(buf, i) && k < |s| ==> IsContinuation(s[k])
    decreases MAX_CHAR_BYTES - i
  {
    if i < Utf8Length(s[0]) && i < |s| && IsContinuation(s[i]) {
      TakenWithin(s, buf, i + 1);
    }
  }

  /** What stepping over the character at the beginning of `s` gives. Where the text ends in the middle of a
      form, bytes that are no text decide the result. */
  ghost predicate SteppedOver(s: seq<byte>, ch: int, len: nat) {
    && s != [] && 0 < len <= MAX_CHAR_BYTES && (if s[0] < 0x80 then ch == s[0] && len == 1 else ch >= 0x80)
    && (forall c :: StartsWith(s, c) ==> ch == c && len == |Encoding(c)|)
    && (forall k :: 1 <= k < len && k < |s| ==> IsContinuation(s[k]))
    && if Readable(s) then
         && len == Taken(s, 1) && len <= |s|
         && (ch != INVALID_CHAR ==> StartsWith(s, ch) && Encoding(ch) == s[..len])
       else |s| <= len
  }

  /** The character at `offset`, and the offset after it. Past the end of the text there are newlines. Under
      UTF-8 the invalid character stands where no code begins. */
  method Nextc(b: EditBuffer, offset: nat) returns (ch: int, next: nat)
    requires b.Valid()
    modifies b`curPage, b`curOffset
    ensures b.Valid()
    ensures offset >= |b.Text()| ==> ch == NEWLINE && next == |b.Text()|
    ensures offset < |b.Text()| ==>
              offset < next <= offset + MAX_CHAR_BYTES && (ch == NEWLINE <==> b.Text()[offset] == NEWLINE)
    ensures offset < |b.Text()| && (b.charset == EightBit || ch == NEWLINE) ==>
              ch == b.Text()[offset] && next == offset + 1
    ensures offset < |b.Text()| && b.charset == Utf8 ==> SteppedOver(b.Text()[offset..], ch, next - offset)
  {
    hide Flat, Readable, Taken, EditBuffer.TableValid, EditBuffer.CacheValid, EditBuffer.IsLog, Encoding, StartsWith;
    if offset >= b.Size() {
      return NEWLINE, b.Size();
    }
    ghost var s := b.Text()[offset..];
    var first := b.Read(offset, 1);
    assert first == [s[0]];
    // bytes that the table decides need no decoder
    ch := if b.charset == EightBit then first[0] else TableUtf8(first[0]);
    next := offset + 1;
    if b.charset == Utf8 {
      if ch == ESCAPE_CHAR {
        var more := b.Read(next, MAX_CHAR_BYTES - 1);
        var len;
        ch, len := DecodeEscape(first[0], more, s);
        next := next + len - 1;
      } else {
        TableSteps(s);
      }
    }
  }

  /** The bytes that need no decoder. */
  lemma TableSteps(s: seq<byte>)
    requires s != [] && TableUtf8(s[0]) != ESCAPE_CHAR
    ensures SteppedOver(s, TableUtf8(s[0]), 1)
  {
    TableStarts(s);
    if s[0] < 0x80 {
      EncodingIs(s[0]);
    }
  }

  /** A form of more than one octet stands for no ASCII character. */
  lemma CodeOver(buf: seq<byte>, c: int, len: nat)
    requires buf != [] && buf[0] >= 0x80 && 0 < len <= |buf|
    requires c != INVALID_CHAR ==> Decodable(c) && Encoding(c) == buf[..len]
    ensures c >= 0x80
  {
    hide Encoding;
    assert buf[..len][0] == buf[0];
    if 0 <= c < 0x80 {
      EncodingIs(c);
    }
  }

  lemma EscapeReadable(buf: seq<byte>)
    requires |buf| == MAX_CHAR_BYTES
    ensures Readable(buf)
  {
  }

  lemma CodeWithin(s: seq<byte>, buf: seq<byte>, c: int, len: nat)
    requires |buf| == MAX_CHAR_BYTES && len <= MAX_CHAR_BYTES
    requires forall k :: 0 <= k < |s| && k < MAX_CHAR_BYTES ==> buf[k] == s[k]
    ensures len <= |s| && Decodable(c) && Encoding(c) == buf[..len] ==> StartsWith(s, c) && Encoding(c) == s[..len]
  {
    if len <= |s| {
      assert buf[..len] == s[..len];
    }
  }

  /** Decodes the character that begins with `first`; `more` is what could be read after it, and the rest of
      the buffer holds anything. */
  method DecodeEscape(first: byte, more: seq<byte>, ghost s: seq<byte>) returns (ch: int, len: nat)
    requires s != [] && first == s[0] && |more| <= MAX_CHAR_BYTES - 1 && Utf8Length(first) >= 2 && first >= 0x80
    requires forall i :: 1 <= i < |s| && i < MAX_CHAR_BYTES ==> i - 1 < |more| && more[i - 1] == s[i]
    ensures SteppedOver(s, ch, len)
  {
    hide Encoding, StartsWith, Readable, Taken;
    var zeros: seq<byte> := [0, 0, 0, 0, 0, 0];
    assert |zeros| == MAX_CHAR_BYTES;
    var garbage: seq<byte> :| |garbage| == MAX_CHAR_BYTES;
    var buf: seq<byte> := [first] + more + garbage[1 + |more|..];
    assert buf[0..] == buf;
    EscapeReadable(buf);
    ch, len := Decode(buf, 0);
    forall c | StartsWith(s, c) ensures ch == c && len == |Encoding(c)| {
      StartsWithin(s, buf, c);
    }
    CodeOver(buf, ch, len);
    TakenWithin(s, buf, 1);
    CodeWithin(s, buf, ch, len);
  }

  /** The code `c` is at the end of `s`. */
  predicate EndsWith(s: seq<byte>, c: int) {
    Decodable(c) && |Encoding(c)| <= |s| && s[|s| - |Encoding(c)|..] == Encoding(c)
  }

  lemma EndsWithParts(s: seq<byte>, c: int, k: nat)
    requires EndsWith(s, c) && k < |Encoding(c)|
    ensures 0 <= c <= MAX_CODE && k < |Encoding(c)| <= |s| && |Encoding(c)| <= MAX_CHAR_BYTES
    ensures IsContinuation(s[|s| - 1 - k]) <==> k < |Encoding(c)| - 1
  {
    var e := Encoding(c);
    StartsWithParts(e, c);
    assert s[|s| - |e|..][|e| - 1 - k] == e[|e| - 1 - k];
  }

  /** How many octets right before `o` continue a form. */
  function Conts(t: seq<byte>, o: nat): (n: nat)
    requires o <= |t|
    ensures n <= o
  {
    if o == 0 || !IsContinuation(t[o - 1]) then 0 else 1 + Conts(t, o - 1)
  }

  /** What stepping back from `offset` gives, for any bytes. Over an octet that begins no form the step is that
      of the decoder from there; if only octets that continue a form are found, six of
      them or all there are, it goes seven places back. */
  ghost predicate SteppedBack(t: seq<byte>, offset: nat, ch: int, prev: int)
    requires 0 < offset <= |t|
  {
    var n := Conts(t, offset);
    if n >= MAX_CHAR_BYTES || n == offset then ch == t[offset - 1] && prev == offset - MAX_CHAR_BYTES - 1
    else prev == offset - 1 - n && exists len :: SteppedOver(t[prev..offset], ch, len)
  }

  /** A step back goes to the nearest of the six octets before `offset` that continues no form; if there is none,
      seven places back, and the last octet is taken for a character. */
  lemma SteppedBackMeans(t: seq<byte>, offset: nat, ch: int, prev: int)
    requires 0 < offset <= |t| && SteppedBack(t, offset, ch, prev)
    ensures forall p: nat ::
              p < offset <= p + 6 && !(0x80 <= t[p] <= 0xbf) && (forall k :: p < k < offset ==> 0x80 <= t[k] <= 0xbf)
              ==> prev == p
    ensures (forall k :: offset - 6 <= k < offset && 0 <= k ==> 0x80 <= t[k] <= 0xbf) ==>
              prev == offset - 7 && ch == t[offset - 1]
  {
    ContsMeans(t, offset);
    hide SteppedOver;
  }

  lemma {:induction false} ContsMeans(t: seq<byte>, o: nat)
    requires o <= |t|
    ensures var n := Conts(t, o);
            && (forall k :: o - n <= k < o ==> IsContinuation(t[k])) && (n < o ==> !IsContinuation(t[o - n - 1]))
    decreases o
  {
    if o > 0 && IsContinuation(t[o - 1]) {
      ContsMeans(t, o - 1);
    }
  }

  /** The character that ends at `offset`, and the offset at which it starts. */
  method Prevc(b: EditBuffer, offset: nat) returns (ch: int, prev: int)
    requires b.Valid() && offset <= |b.Text()|
    modifies b`curPage, b`curOffset
    ensures b.Valid()
    ensures offset == 0 ==> ch == NEWLINE && prev == 0
    ensures offset > 0 && b.charset == EightBit ==> ch == b.Text()[offset - 1] && prev == offset - 1
    ensures offset > 0 && b.charset == Utf8 ==> SteppedBack(b.Text(), offset, ch, prev)
    ensures offset > 0 && b.charset == Utf8 ==>
              forall c :: EndsWith(b.Text()[..offset], c) ==> ch == c && prev == offset - |Encoding(c)|
  {
    hide Flat, EditBuffer.TableValid, EditBuffer.CacheValid, EditBuffer.IsLog, Encoding, EndsWith, StartsWith,
         SteppedBack;
    if offset <= 0 {
      return NEWLINE, 0;
    }
    prev := offset - 1;
    var last := b.Read(prev, 1);
    assert last == [b.Text()[prev]];
    if b.charset == EightBit {
      return last[0], prev;
    }
    ch, prev := LastOf(b, offset, last);
    EndsAreSteps(b.Text(), offset, ch, prev);
  }

  /** Walks back from the byte at `offset - 1` to the first byte of a character, and decodes it. */
  method LastOf(b: EditBuffer, offset: nat, last: seq<byte>) returns (ch: int, prev: int)
    requires b.Valid() && 0 < offset <= |b.Text()| && last == [b.Text()[offset - 1]]
    modifies b`curPage, b`curOffset
    ensures b.Valid() && SteppedBack(b.Text(), offset, ch, prev)
  {
    hide Flat, SteppedOver, Conts, EditBuffer.TableValid, EditBuffer.CacheValid, EditBuffer.IsLog;
    ghost var t := b.Text();
    var q, stop := WalkBack(b, offset, last);
    prev := offset - |q|;
    if stop {
      // only octets that continue a form: back to one before the first that the buffer could hold
      return q[|q| - 1], prev + |q| - MAX_CHAR_BYTES - 1;
    }
    var len;
    ch, len := DecodeAt(q);
  }

  /** The bytes from the one at `offset - 1` back to the first that continues no form, or `stop`. */
  method WalkBack(b: EditBuffer, offset: nat, last: seq<byte>) returns (q: seq<byte>, stop: bool)
    requires b.Valid() && 0 < offset <= |b.Text()| && last == [b.Text()[offset - 1]]
    modifies b`curPage, b`curOffset
    ensures b.Valid() && 0 < |q| <= MAX_CHAR_BYTES && |q| <= offset && q == b.Text()[offset - |q|..offset]
    ensures stop == (Conts(b.Text(), offset) >= MAX_CHAR_BYTES || Conts(b.Text(), offset) == offset)
    ensures !stop ==> |q| == Conts(b.Text(), offset) + 1 && !IsContinuation(q[0])
  {
    hide Flat, EditBuffer.TableValid, EditBuffer.CacheValid, EditBuffer.IsLog, EditBuffer.LogFrame,
         EditBuffer.LogShared;
    ghost var t, s := b.Text(), b.Text()[..offset];
    // the bytes read so far, which the source keeps at the end of a buffer of MAX_CHAR_BYTES
    q := last;
    var prev := offset - 1;
    OneMore(s, prev, []);
    assert forall k {:trigger s[k..]} :: 0 <= k <= offset ==> s[k..] == t[k..offset];
    while IsContinuation(q[0])
      invariant b.Valid() && b.Text() == t
      invariant 0 < |q| <= MAX_CHAR_BYTES && 0 <= prev == offset - |q| && q == s[prev..]
      invariant Conts(t, offset) == |q| - 1 + Conts(t, prev + 1)
      decreases prev
    {
      if prev == 0 || |q| == MAX_CHAR_BYTES {
        return q, true;
      }
      prev := prev - 1;
      var more := b.Read(prev, 1);
      OneMore(s, prev, q);
      q := more + q;
    }
    stop := false;
  }

  /** Decodes the character at the beginning of `q`; the decoder may read on past its end. */
  method DecodeAt(q: seq<byte>) returns (ch: int, len: nat)
    requires 0 < |q| <= MAX_CHAR_BYTES && !IsContinuation(q[0])
    ensures SteppedOver(q, ch, len)
  {
    hide SteppedOver;
    if q[0] < 0x80 || Utf8Length(q[0]) == 1 {
      TableSteps(q);
      ch, len := TableUtf8(q[0]), 1;
    } else {
      ch, len := DecodeEscape(q[0], q[1..], q);
    }
  }

  lemma EndsAreSteps(t: seq<byte>, offset: nat, ch: int, prev: int)
    requires 0 < offset <= |t| && SteppedBack(t, offset, ch, prev)
    ensures forall c :: EndsWith(t[..offset], c) ==> ch == c && prev == offset - |Encoding(c)|
  {
    hide Encoding, SteppedBack;
    forall c | EndsWith(t[..offset], c) ensures ch == c && prev == offset - |Encoding(c)| {
      EndIsStep(t, offset, ch, prev, c);
    }
  }

  /** A code that ends at `offset` is what the step gives. */
  lemma EndIsStep(t: seq<byte>, offset: nat, ch: int, prev: int, c: int)
    requires 0 < offset <= |t| && SteppedBack(t, offset, ch, prev) && EndsWith(t[..offset], c)
    ensures Decodable(c) && ch == c && prev == offset - |Encoding(c)|
  {
    hide Encoding, Readable, Taken;
    EndsWithParts(t[..offset], c, 0);
    ContsOfCode(t, offset, c, 0);
    assert t[..offset][offset - |Encoding(c)|..] == t[offset - |Encoding(c)|..offset];
    assert StartsWith(t[prev..offset], c);
  }

  lemma {:induction false} ContsOfCode(t: seq<byte>, offset: nat, c: int, j: nat)
    requires offset <= |t| && EndsWith(t[..offset], c) && j < |Encoding(c)|
    ensures Conts(t, offset - j) == |Encoding(c)| - 1 - j
    decreases |Encoding(c)| - j
  {
    hide Encoding, EndsWith;
    EndsWithParts(t[..offset], c, j);
    if j < |Encoding(c)| - 1 {
      ContsOfCode(t, offset, c, j + 1);
    }
  }

  lemma OneMore(s: seq<byte>, prev: nat, q: seq<byte>)
    requires prev < |s| && q == s[prev + 1..]
    ensures [s[prev]] + q == s[prev..]
  {
  }

  /** The bytes of a character in a text. */
  lemma OctetsAt(t: seq<byte>, o: nat, next: nat, c: int)
    requires Decodable(c) && o < next <= |t| && t[o..next] == Encoding(c)
    ensures if c < 0x80 then next == o + 1 && t[o] == c else forall k :: o <= k < next ==> t[k] >= 0x80
  {
    EncodingOctets(c);
    hide Encoding;
    assert forall k :: o <= k < next ==> t[k] == t[o..next][k - o];
  }

  /** Where octets only continue forms, no character begins. */
  lemma {:induction false} NoneBegin(s: seq<byte>)
    requires forall i :: 0 <= i < |s| ==> IsContinuation(s[i])
    ensures Chars(s, Charset.Utf8) == 0
  {
    if s != [] {
      NoneBegin(s[1..]);
    }
  }

  // ---- there and back ----

  /** A text that is made of encodings. */
  ghost predicate WellFormed(t: seq<byte>)
    decreases |t|
  {
    t == [] || exists c :: StartsWith(t, c) && WellFormed(t[|Encoding(c)|..])
  }

  /** `o` lies between two characters of `t`. */
  ghost predicate Boundary(t: seq<byte>, o: nat) {
    o <= |t| && WellFormed(t[..o]) && WellFormed(t[o..])
  }

  lemma FirstCode(t: seq<byte>) returns (c: int)
    requires WellFormed(t) && t != []
    ensures Decodable(c) && Encoding(c) <= t && WellFormed(t[|Encoding(c)|..])
  {
    hide Encoding;
    c :| StartsWith(t, c) && WellFormed(t[|Encoding(c)|..]);
  }

  lemma CodeInFront(c: int, rest: seq<byte>)
    requires Decodable(c) && WellFormed(rest)
    ensures WellFormed(Encoding(c) + rest)
  {
    hide Encoding;
    var t := Encoding(c) + rest;
    assert StartsWith(t, c) && t[|Encoding(c)|..] == rest;
  }

  lemma EndOfRest(a: seq<byte>, rest: seq<byte>, m: nat)
    requires m <= |rest|
    ensures var t := a + rest; t[..|t| - m] == a + rest[..|rest| - m] && t[|t| - m..] == rest[|rest| - m..]
  {
  }

  /** A text made of encodings ends with one, and without it is made of encodings too. */
  lemma {:induction false} LastCode(t: seq<byte>) returns (c: int)
    requires WellFormed(t) && t != []
    ensures EndsWith(t, c) && WellFormed(t[..|t| - |Encoding(c)|])
    decreases |t|
  {
    hide Encoding, WellFormed;
    var d := FirstCode(t);
    var n := |Encoding(d)|;
    var rest := t[n..];
    assert t == Encoding(d) + rest;
    if rest == [] {
      c := d;
      assert t[..0] == rest;
    } else {
      c := LastCode(rest);
      CodeInFront(d, rest[..|rest| - |Encoding(c)|]);
      EndOfRest(Encoding(d), rest, |Encoding(c)|);
    }
  }

  lemma {:induction false} WellFormedConcat(a: seq<byte>, b: seq<byte>)
    requires WellFormed(a) && WellFormed(b)
    ensures WellFormed(a + b)
    decreases |a|
  {
    hide Encoding, WellFormed;
    if a == [] {
      assert a + b == b;
    } else {
      var c := FirstCode(a);
      var rest := a[|Encoding(c)|..];
      WellFormedConcat(rest, b);
      CodeInFront(c, rest + b);
      assert a + b == Encoding(c) + (rest + b);
    }
  }

  lemma OneCode(c: int)
    requires Decodable(c)
    ensures WellFormed(Encoding(c))
  {
    hide Encoding;
    CodeInFront(c, []);
    assert Encoding(c) + [] == Encoding(c);
  }

  /** The character after a boundary ends at the next one. */
  lemma StepOver(t: seq<byte>, o: nat) returns (c: int)
    requires Boundary(t, o) && o < |t|
    ensures Decodable(c) && StartsWith(t[o..], c) && o + |Encoding(c)| <= |t|
    ensures var next := o + |Encoding(c)|; Boundary(t, next) && EndsWith(t[..next], c) && t[o..next] == Encoding(c)
  {
    hide Encoding, WellFormed;
    c := FirstCode(t[o..]);
    var next := o + |Encoding(c)|;
    assert t[o..][|Encoding(c)|..] == t[next..];
    assert t[o..next] == t[o..][..|Encoding(c)|];
    OneCode(c);
    WellFormedConcat(t[..o], Encoding(c));
    assert t[..next] == t[..o] + Encoding(c);
  }

  lemma StepBack(t: seq<byte>, o: nat) returns (c: int)
    requires Boundary(t, o) && o > 0
    ensures Decodable(c) && EndsWith(t[..o], c)
    ensures var prev := o - |Encoding(c)|; Boundary(t, prev) && StartsWith(t[prev..], c) && t[prev..o] == Encoding(c)
  {
    hide Encoding, WellFormed;
    c := LastCode(t[..o]);
    var prev := o - |Encoding(c)|;
    assert t[..o][..prev] == t[..prev] && t[..o][prev..] == t[prev..o];
    OneCode(c);
    WellFormedConcat(Encoding(c), t[o..]);
    assert t[prev..] == Encoding(c) + t[o..];
  }

  /** One character on and back: the offset is the same again, and so is the character. */
  method NextThenPrev(b: EditBuffer, offset: nat) returns (ch: int, next: nat, ch1: int, back: nat)
    requires b.Valid() && b.charset == Utf8 && offset < |b.Text()| && Boundary(b.Text(), offset)
    modifies b`curPage, b`curOffset
    ensures b.Valid() && Boundary(b.Text(), next) && next > offset
    ensures back == offset && ch1 == ch && StartsWith(b.Text()[offset..], ch)
  {
    hide Flat, EditBuffer.TableValid, EditBuffer.CacheValid, EditBuffer.IsLog, Encoding, EndsWith, StartsWith, Boundary;
    ghost var c := StepOver(b.Text(), offset);
    ch, next := Nextc(b, offset);
    var before;
    ch1, before := Prevc(b, next);
    back := before;
  }

  /** One character back and on. */
  method PrevThenNext(b: EditBuffer, offset: nat) returns (ch: int, prev: nat, ch1: int, back: nat)
    requires b.Valid() && b.charset == Utf8 && 0 < offset <= |b.Text()| && Boundary(b.Text(), offset)
    modifies b`curPage, b`curOffset
    ensures b.Valid() && Boundary(b.Text(), prev) && prev < offset
    ensures back == offset && ch1 == ch && StartsWith(b.Text()[prev..], ch)
  {
    hide Flat, EditBuffer.TableValid, EditBuffer.CacheValid, EditBuffer.IsLog, Encoding, EndsWith, StartsWith, Boundary;
    ghost var c := StepBack(b.Text(), offset);
    EndsWithParts(b.Text()[..offset], c, 0);
    var before;
    ch, before := Prevc(b, offset);
    prev := before;
    ch1, back := Nextc(b, prev);
  }

  /** In a well-formed text a byte that continues no form begins a character. */
  lemma {:induction false} StartBoundary(t: seq<byte>, o: nat)
    requires WellFormed(t) && o < |t| && !IsContinuation(t[o])
    ensures Boundary(t, o)
    decreases |t|
  {
    hide Encoding, WellFormed;
    if o == 0 {
      assert t[0..] == t;
      EmptyIsWellFormed(t[..0]);
    } else {
      var c := FirstCode(t);
      var n := |Encoding(c)|;
      StartsWithParts(t, c);
      assert o >= n;
      StartBoundary(t[n..], o - n);
      assert t[n..][o - n..] == t[o..];
      CodeInFront(c, t[n..][..o - n]);
      assert t[..o] == Encoding(c) + t[n..][..o - n];
    }
  }

  lemma EmptyIsWellFormed(t: seq<byte>)
    requires t == []
    ensures WellFormed(t)
  {
  }

  lemma BoundaryWhole(t: seq<byte>, o: nat)
    requires Boundary(t, o)
    ensures WellFormed(t)
  {
    hide WellFormed;
    assert t == t[..o] + t[o..];
    WellFormedConcat(t[..o], t[o..]);
  }

  lemma TailWellFormed(t: seq<byte>, a: nat)
    requires Boundary(t, a)
    ensures a <= |t| && WellFormed(t[a..])
  {
  }

  lemma HeadWellFormed(t: seq<byte>, a: nat, b: nat)
    requires a <= b <= |t| && Boundary(t[a..], b - a)
    ensures WellFormed(t[a..b])
  {
    assert t[a..][..b - a] == t[a..b];
  }

  /** The start of a line lies between two characters. */
  lemma BehindNewline(t: seq<byte>, o: nat)
    requires WellFormed(t) && o <= |t| && (o == 0 || o == |t| || t[o - 1] == NEWLINE)
    ensures Boundary(t, o)
  {
    hide WellFormed, Encoding, StartsWith, EndsWith;
    EmptyIsWellFormed([]);
    if o == 0 {
      assert t[..0] == [] && t[0..] == t;
    } else if o == |t| {
      assert t[..o] == t && t[o..] == [];
    } else {
      StartBoundary(t, o - 1);
      var c := StepOver(t, o - 1);
      OctetsAt(t, o - 1, o - 1 + |Encoding(c)|, c);
    }
  }
}
