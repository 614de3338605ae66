/** Going from a bracket to the one that matches it. */
module Brackets {
  import opened PageText
  import opened TextCounts
  import opened Utf8
  import opened EditBuffers
  import opened TextIndex

  /** The closing bracket that belongs to an opening one, or the opening one that belongs to a closing one. */
  function Other(c: byte): (o: byte) {
    if c == 40 then 41 else if c == 41 then 40       // ( )
    else if c == 91 then 93 else if c == 93 then 91  // [ ]
    else if c == 123 then 125 else if c == 125 then 123 // { }
    else c
  }

  predicate Opens(c: byte) {
    c == 40 || c == 91 || c == 123
  }

  predicate Closes(c: byte) {
    c == 41 || c == 93 || c == 125
  }

  /** How many more opening than closing brackets of one kind there are from `a` to before `b`. */
  function Balance(t: seq<byte>, a: nat, b: nat, open: byte): int
    requires a <= b <= |t|
    decreases b - a
  {
    if a == b then 0
    else Balance(t, a, b - 1, open) + if t[b - 1] == open then 1 else if t[b - 1] == Other(open) then -1 else 0
  }

  /** The opening bracket at `i` and the closing one at `j` belong together: between them the brackets of
      their kind are balanced, and nowhere before `j` is the one at `i` closed. */
  ghost predicate Pair(t: seq<byte>, i: int, j: int) {
    && 0 <= i < j < |t| && Opens(t[i]) && t[j] == Other(t[i]) && Balance(t, i, j + 1, t[i]) == 0
    && Unclosed(t, i, j, t[i])
  }

  /** From `i` on up to anywhere not after `j` there are more opening than closing brackets. */
  ghost predicate Unclosed(t: seq<byte>, i: nat, j: nat, open: byte)
    requires i <= j <= |t|
  {
    forall k :: i < k <= j ==> Balance(t, i, k, open) > 0
  }

  /** The three kinds of brackets. */
  predicate Kinds(open: byte, close: byte) {
    || (open == '(' as int && close == ')' as int)
    || (open == '[' as int && close == ']' as int)
    || (open == '{' as int && close == '}' as int)
  }

  lemma KindsAre(open: byte, close: byte)
    ensures Kinds(open, close) <==> Opens(open) && close == Other(open)
    ensures Kinds(open, close) <==> Closes(close) && open == Other(close)
  {
  }

  /** What two brackets that belong together are: up to the second one there are as many opening as closing brackets
      of the kind, and up to nowhere before it. */
  lemma PairMeans(t: seq<byte>, i: int, j: int)
    ensures Pair(t, i, j) <==>
              && 0 <= i < j < |t| && Kinds(t[i], t[j])
              && multiset(t[i..j + 1])[t[i]] == multiset(t[i..j + 1])[t[j]]
              && forall k :: i < k <= j ==> multiset(t[i..k])[t[i]] > multiset(t[i..k])[t[j]]
  {
    hide Balance;
    if 0 <= i < j < |t| && Kinds(t[i], t[j]) {
      forall k | i < k <= j + 1
        ensures Balance(t, i, k, t[i]) == multiset(t[i..k])[t[i]] as int - multiset(t[i..k])[t[j]] as int
      {
        BalanceCounts(t, i, k, t[i]);
      }
    }
  }

  lemma {:induction false} BalanceCounts(t: seq<byte>, a: nat, b: nat, open: byte)
    requires a <= b <= |t| && Opens(open)
    ensures Balance(t, a, b, open) == multiset(t[a..b])[open] as int - multiset(t[a..b])[Other(open)] as int
    decreases b - a
  {
    if a < b {
      BalanceCounts(t, a, b - 1, open);
      assert t[a..b] == t[a..b - 1] + [t[b - 1]];
    }
  }

  lemma UnclosedAt(t: seq<byte>, i: nat, j: nat, open: byte, k: nat)
    requires i < k <= j <= |t| && Unclosed(t, i, j, open)
    ensures Balance(t, i, k, open) > 0
  {
  }

  /** Back from `e` to anywhere after `i` there are more closing than opening brackets. */
  ghost predicate Unopened(t: seq<byte>, i: nat, e: nat, open: byte)
    requires i <= e <= |t|
  {
    forall k :: i < k < e ==> Balance(t, k, e, open) < 0
  }

  /** One of the two is the partner of the other. */
  ghost predicate Partners(t: seq<byte>, i: int, j: int) {
    Pair(t, i, j) || Pair(t, j, i)
  }

  lemma {:induction false} BalanceSplit(t: seq<byte>, a: nat, m: nat, b: nat, open: byte)
    requires a <= m <= b <= |t|
    ensures Balance(t, a, b, open) == Balance(t, a, m, open) + Balance(t, m, b, open)
    decreases b - m
  {
    if m < b {
      BalanceSplit(t, a, m, b - 1, open);
    }
  }

  /** A bracket has one partner at most. */
  lemma OnePartner(t: seq<byte>, i: int, j: int, k: int)
    requires Partners(t, i, j) && Partners(t, i, k)
    ensures j == k
  {
    hide Balance, Unclosed;
    if Pair(t, i, j) {
      if j < k {
        UnclosedAt(t, i, k, t[i], j + 1);
      } else if k < j {
        UnclosedAt(t, i, j, t[i], k + 1);
      }
    } else if j < k {
      BalanceSplit(t, j, k, i + 1, t[j]);
      UnclosedAt(t, j, i, t[j], k);
    } else if k < j {
      BalanceSplit(t, k, j, i + 1, t[k]);
      UnclosedAt(t, k, i, t[k], j);
    }
  }

  /** From the closing bracket a pair looks the same: no earlier bracket but the one at `i` balances it. */
  lemma PairFromBehind(t: seq<byte>, i: int, j: int)
    requires 0 <= i < j < |t| && Opens(t[i]) && t[j] == Other(t[i])
    ensures Pair(t, i, j) <==> (Balance(t, i, j + 1, t[i]) == 0 && Unopened(t, i, j + 1, t[i]))
  {
    hide Balance;
    var e, open := j + 1, t[i];
    forall k | i < k < e
      ensures Balance(t, i, e, open) == Balance(t, i, k, open) + Balance(t, k, e, open)
    {
      BalanceSplit(t, i, k, e, open);
    }
  }

  /** Goes to the partner of the bracket at `offset`. Without one the cursor stays where it is. */
  method DoMatchParenthesis(b: EditBuffer, offset: nat) returns (found: nat)
    requires b.Valid() && offset < |b.Text()| && (b.charset == Charset.Utf8 ==> WellFormed(b.Text()))
    modifies b`curPage, b`curOffset
    ensures b.Valid()
    ensures found == offset <==> forall j :: !Partners(b.Text(), offset, j)
    ensures found != offset ==> Partners(b.Text(), offset, found)
    ensures found != offset ==>
              var open, close := if offset < found then offset else found, if offset < found then found else offset;
              var x, y := b.Text()[open], b.Text()[close];
              || (x == '(' as int && y == ')' as int)
              || (x == '[' as int && y == ']' as int)
              || (x == '{' as int && y == '}' as int)
  {
    PartnersKinds(b.Text(), offset);
    hide Flat, EditBuffer.TableValid, EditBuffer.CacheValid, EditBuffer.IsLog, Pair, Balance, WellFormed;
    var r := b.Read(offset, 1);
    NotAlone(b.Text(), offset);
    if Opens(r[0]) {
      found := MatchForward(b, offset);
    } else if Closes(r[0]) {
      if b.charset == Charset.Utf8 {
        StartBoundary(b.Text(), offset);
      }
      found := MatchBackward(b, offset);
    } else {
      // the cursor is on no bracket
      NoBracket(b.Text(), offset);
      found := offset;
    }
  }

  lemma PartnersKinds(t: seq<byte>, i: int)
    ensures forall j :: Partners(t, i, j) ==>
              && 0 <= i < |t| && 0 <= j < |t|
              && if i < j then Kinds(t[i], t[j]) else Kinds(t[j], t[i])
  {
    hide Balance, Unclosed;
  }

  lemma NotAlone(t: seq<byte>, i: int)
    ensures !Partners(t, i, i)
  {
  }

  lemma NoBracket(t: seq<byte>, i: nat)
    requires i < |t| && !Opens(t[i]) && !Closes(t[i])
    ensures forall j :: !Partners(t, i, j)
  {
  }

  lemma BalanceStep(t: seq<byte>, a: nat, b: nat, open: byte)
    requires a <= b < |t|
    ensures Balance(t, a, b + 1, open) == Balance(t, a, b, open) + if t[b] == open then 1
            else if t[b] == Other(open) then -1 else 0
  {
  }

  lemma BalanceFront(t: seq<byte>, a: nat, b: nat, open: byte)
    requires a < b <= |t|
    ensures Balance(t, a, b, open) == (if t[a] == open then 1 else if t[a] == Other(open) then -1 else 0)
            + Balance(t, a + 1, b, open)
  {
    BalanceSplit(t, a, a + 1, b, open);
    assert Balance(t, a, a, open) == 0;
  }

  lemma PairHere(t: seq<byte>, i: nat, j: nat)
    requires i < j < |t| && Opens(t[i]) && Balance(t, i, j + 1, t[i]) == 0
    requires Unclosed(t, i, j, t[i])
    ensures Pair(t, i, j)
  {
    BalanceStep(t, i, j, t[i]);
    UnclosedAt(t, i, j, t[i], j);
  }

  lemma NoPair(t: seq<byte>, i: nat)
    requires i < |t| && Opens(t[i]) && Unclosed(t, i, |t|, t[i])
    ensures forall j :: !Partners(t, i, j)
  {
    hide Balance, Unclosed;
    forall j ensures !Partners(t, i, j) {
      if Pair(t, i, j) {
        UnclosedAt(t, i, |t|, t[i], j + 1);
      }
    }
  }

  /** A stretch without brackets of the kind. */
  lemma {:induction false} BalanceSkip(t: seq<byte>, a: nat, m: nat, b: nat, open: byte)
    requires a <= m <= b <= |t| && forall k :: m <= k < b ==> t[k] != open && t[k] != Other(open)
    ensures forall k :: m <= k <= b ==> Balance(t, a, k, open) == Balance(t, a, m, open)
    decreases b - m
  {
    if m < b {
      BalanceSkip(t, a, m, b - 1, open);
    }
  }

  /** One character on: a bracket is one byte, and no other character holds one. */
  lemma StepOn(t: seq<byte>, i: nat, o: nat, ch: int, next: nat, cs: Charset, open: byte)
    requires i < o < |t| && o < next && Opens(open) && Unclosed(t, i, o, open)
    requires if cs == EightBit then ch == t[o] && next == o + 1 else SteppedOver(t[o..], ch, next - o)
    ensures (ch == open <==> t[o] == open) && (ch == Other(open) <==> t[o] == Other(open))
    ensures Balance(t, i, o, open) + (if ch == open then 1 else if ch == Other(open) then -1 else 0) > 0 ==>
              var m := if next <= |t| then next else |t|;
              && Unclosed(t, i, m, open)
              && Balance(t, i, m, open) == Balance(t, i, o, open) + if ch == open then 1
                 else if ch == Other(open) then -1 else 0
  {
    hide Encoding, StartsWith, Readable, Taken, Balance;
    var m := if next <= |t| then next else |t|;
    forall k | o < k < m ensures t[k] != open && t[k] != Other(open) {
      assert t[k] == t[o..][k - o] && IsContinuation(t[o..][k - o]);
    }
    BalanceStep(t, i, o, open);
    BalanceSkip(t, i, o + 1, m, open);
  }

  method MatchForward(b: EditBuffer, offset: nat) returns (found: nat)
    requires b.Valid() && offset < |b.Text()| && Opens(b.Text()[offset])
    modifies b`curPage, b`curOffset
    ensures b.Valid()
    ensures found == offset <==> forall j :: !Partners(b.Text(), offset, j)
    ensures found != offset ==> Partners(b.Text(), offset, found)
  {
    hide Flat, EditBuffer.TableValid, EditBuffer.CacheValid, EditBuffer.IsLog, Pair, Balance, Unclosed, Encoding,
         StartsWith, SteppedOver;
    ghost var t := b.Text();
    var here := b.Read(offset, 1);
    var open := here[0];
    var nest := 1;
    found := offset + 1;
    OneOpen(t, offset);
    while true
      invariant b.Valid() && b.Text() == t && open == t[offset] && offset < found <= |t|
      invariant nest == Balance(t, offset, found, open) > 0 && Unclosed(t, offset, found, open)
      decreases |t| - found
    {
      var c, next := Nextc(b, found);
      if found < |t| {
        StepOn(t, offset, found, c, next, b.charset, open);
        BalanceStep(t, offset, found, open);
      }
      if c == open {
        nest := nest + 1;
      } else if c == Other(open) {
        nest := nest - 1;
        if nest <= 0 {
          PairHere(t, offset, found);
          assert Partners(t, offset, found);
          return;
        }
      }
      if next >= b.totalSize {
        NoPair(t, offset);
        return offset;
      }
      found := next;
    }
  }

  lemma OneOpen(t: seq<byte>, i: nat)
    requires i < |t| && Opens(t[i])
    ensures Balance(t, i, i + 1, t[i]) == 1 && Unclosed(t, i, i + 1, t[i])
  {
    BalanceStep(t, i, i, t[i]);
  }

  lemma PairBehind(t: seq<byte>, i: nat, j: nat, open: byte)
    requires i < j < |t| && Opens(open) && t[j] == Other(open) && Balance(t, i, j + 1, open) == 0
    requires Unopened(t, i, j + 1, open)
    ensures Pair(t, i, j)
  {
    var e := j + 1;
    BalanceFront(t, i, e, open);
    UnopenedAt(t, i, e, open, i + 1);
    PairFromBehind(t, i, j);
  }

  lemma UnopenedAt(t: seq<byte>, i: nat, e: nat, open: byte, k: nat)
    requires i < k < e <= |t| && Unopened(t, i, e, open)
    ensures Balance(t, k, e, open) < 0
  {
  }

  lemma NoPairBehind(t: seq<byte>, j: nat, open: byte)
    requires j < |t| && Opens(open) && t[j] == Other(open)
    requires Unopened(t, 0, j + 1, open) && Balance(t, 0, j + 1, open) < 0
    ensures forall i :: !Partners(t, j, i)
  {
    hide Balance, Unopened;
    forall i ensures !Partners(t, j, i) {
      if Pair(t, i, j) && i > 0 {
        UnopenedAt(t, 0, j + 1, open, i);
      }
    }
  }

  lemma {:induction false} BalanceSkipBack(t: seq<byte>, a: nat, m: nat, e: nat, open: byte)
    requires a <= m <= e <= |t| && forall k :: a <= k < m ==> t[k] != open && t[k] != Other(open)
    ensures forall k :: a <= k <= m ==> Balance(t, k, e, open) == Balance(t, m, e, open)
    decreases m - a
  {
    if a < m {
      BalanceFront(t, a, e, open);
      BalanceSkipBack(t, a + 1, m, e, open);
    }
  }

  /** One character back. */
  lemma StepOff(t: seq<byte>, o: nat, ch: int, prev: nat, cs: Charset, e: nat, open: byte)
    requires prev < o < e <= |t| && Opens(open) && Unopened(t, o, e, open) && Balance(t, o, e, open) < 0
    requires if cs == EightBit then ch == t[prev] && prev == o - 1
             else Decodable(ch) && prev == o - |Encoding(ch)| && t[prev..o] == Encoding(ch)
    ensures Balance(t, prev, e, open)
         == Balance(t, o, e, open) + if ch == open then 1 else if ch == Other(open) then -1 else 0
    ensures Unopened(t, prev, e, open) && (ch == open || ch == Other(open) ==> t[prev] == ch)
  {
    hide Balance;
    var brackets := ch == open || ch == Other(open);
    if cs == Charset.Utf8 {
      OctetsAt(t, prev, o, ch);
    }
    if brackets {
      BalanceFront(t, prev, e, open);
    } else {
      BalanceSkipBack(t, prev, o, e, open);
    }
  }


  lemma OneClose(t: seq<byte>, j: nat, open: byte)
    requires j < |t| && Closes(t[j]) && open == Other(t[j])
    ensures Balance(t, j, j + 1, open) == -1 && Unopened(t, j, j + 1, open) && Opens(open) && t[j] == Other(open)
  {
    BalanceStep(t, j, j, open);
  }

  method MatchBackward(b: EditBuffer, offset: nat) returns (found: nat)
    requires b.Valid() && offset < |b.Text()| && Closes(b.Text()[offset])
    requires b.charset == Charset.Utf8 ==> Boundary(b.Text(), offset)
    modifies b`curPage, b`curOffset
    ensures b.Valid()
    ensures found == offset <==> forall j :: !Partners(b.Text(), offset, j)
    ensures found != offset ==> Partners(b.Text(), offset, found)
  {
    hide Flat, EditBuffer.TableValid, EditBuffer.CacheValid, EditBuffer.IsLog, Pair, Balance, Unopened, Encoding,
         EndsWith, Boundary;
    ghost var t := b.Text();
    var here := b.Read(offset, 1);
    var open := Other(here[0]);
    var nest := 1;
    found := offset;
    OneClose(t, offset, open);
    while true
      invariant b.Valid() && b.Text() == t && Opens(open) && t[offset] == Other(open) && 0 <= found <= offset
      invariant b.charset == Charset.Utf8 ==> Boundary(t, found)
      invariant nest == -Balance(t, found, offset + 1, open) > 0 && Unopened(t, found, offset + 1, open)
      decreases found
    {
      if found > 0 && b.charset == Charset.Utf8 {
        ghost var ch := StepBack(t, found);
      }
      var c, prev := Prevc(b, found);
      if found > 0 {
        StepOff(t, found, c, prev, b.charset, offset + 1, open);
      }
      if c == Other(open) {
        nest := nest + 1;
      } else if c == open {
        nest := nest - 1;
        if nest <= 0 {
          PairBehind(t, prev, offset, open);
          assert Partners(t, offset, prev);
          return prev;
        }
      }
      if prev <= 0 {
        NoPairBehind(t, offset, open);
        return offset;
      }
      found := prev;
    }
  }

  /** From a bracket that has a partner, going there and going on comes back. */
  method ThereAndBack(b: EditBuffer, offset: nat) returns (there: nat, back: nat)
    requires b.Valid() && offset < |b.Text()| && (b.charset == Charset.Utf8 ==> WellFormed(b.Text()))
    modifies b`curPage, b`curOffset
    ensures b.Valid() && back == offset
    ensures there != offset <==> exists j :: Partners(b.Text(), offset, j)
  {
    hide Flat, EditBuffer.TableValid, EditBuffer.CacheValid, EditBuffer.IsLog, Balance, WellFormed;
    there := DoMatchParenthesis(b, offset);
    back := DoMatchParenthesis(b, there);
    if there != offset {
      assert Partners(b.Text(), there, offset);
      OnePartner(b.Text(), there, back, offset);
    }
  }
}
