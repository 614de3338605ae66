/** Searching a buffer, and replacing all that is found. */
module Search {
  import opened PageText
  import opened UndoLog
  import opened LogBytes
  import opened EditBuffers

  const PATTERN_MAX := 1024

  datatype Flags = Flags(ignoreCase: bool, smartCase: bool, word: bool)

  predicate IsLower(c: byte) { 97 <= c <= 122 }

  predicate IsUpper(c: byte) { 65 <= c <= 90 }

  function ToUpper(c: byte): byte {
    if IsLower(c) then c - 32 else c
  }

  predicate IsWord(c: byte) {
    IsLower(c) || IsUpper(c) || 48 <= c <= 57 || c == 95 || c >= 128
  }

  // ---- what a match is ----

  /** Case does not matter: asked for, or the pattern has lower case letters and no upper case ones. */
  predicate FoldsCase(pat: seq<byte>, flags: Flags) {
    flags.ignoreCase || (flags.smartCase && (exists i :: 0 <= i < |pat| && IsLower(pat[i]))
                         && forall i :: 0 <= i < |pat| ==> !IsUpper(pat[i]))
  }

  function Folded(c: byte, fold: bool): byte {
    if fold then ToUpper(c) else c
  }

  /** The pattern stands at `o`: its bytes, and around them no other part of a word if words are searched for. */
  predicate MatchAt(t: seq<byte>, o: int, pat: seq<byte>, fold: bool, word: bool) {
    && 0 <= o <= |t| - |pat|
    && (forall i :: 0 <= i < |pat| ==> Folded(t[o + i], fold) == Folded(pat[i], fold))
    && (word ==> (o == 0 || !IsWord(t[o - 1])) && (o + |pat| >= |t| || !IsWord(t[o + |pat|])))
  }

  /** Case matters unless it is to be ignored, or smart case finds small letters and no capitals. */
  lemma CaseMatters(pat: seq<byte>, flags: Flags)
    ensures FoldsCase(pat, flags) <==>
              || flags.ignoreCase
              || (flags.smartCase && (exists i :: 0 <= i < |pat| && 'a' as int <= pat[i] <= 'z' as int)
                  && forall i :: 0 <= i < |pat| ==> !('A' as int <= pat[i] <= 'Z' as int))
  {
  }

  /** Which bytes are part of words: digits, letters, the underscore, and all that are not ASCII. */
  predicate WordByte(c: byte) {
    || '0' as int <= c <= '9' as int
    || 'A' as int <= c <= 'Z' as int
    || c == '_' as int
    || 'a' as int <= c <= 'z' as int
    || 128 <= c <= 255
  }

  /** Without flags, a match is the pattern itself, as it stands. */
  lemma PlainMatch(t: seq<byte>, o: int, pat: seq<byte>)
    ensures MatchAt(t, o, pat, false, false) <==> 0 <= o && o + |pat| <= |t| && t[o..o + |pat|] == pat
  {
    if 0 <= o && o + |pat| <= |t| {
      assert forall i {:trigger pat[i]} :: 0 <= i < |pat| ==> t[o + i] == t[o..o + |pat|][i];
    }
  }

  /** Which bytes agree: the same ones, and if case does not matter the two cases of one letter; no part of a
      word stands on either side exactly when words are searched for. */
  lemma MatchMeans(t: seq<byte>, o: int, pat: seq<byte>, fold: bool, word: bool)
    ensures MatchAt(t, o, pat, fold, word) <==>
              && 0 <= o && o + |pat| <= |t|
              && (forall i {:trigger pat[i]} :: 0 <= i < |pat| ==>
                    var x, y := t[o + i], pat[i];
                    || x == y
                    || (fold && 'A' as int <= x <= 'Z' as int && y - x == 'a' as int - 'A' as int)
                    || (fold && 'A' as int <= y <= 'Z' as int && x - y == 'a' as int - 'A' as int))
              && (word && o > 0 ==> !WordByte(t[o - 1]))
              && (word && o + |pat| < |t| ==> !WordByte(t[o + |pat|]))
  {
    forall x: byte, y: byte
      ensures Folded(x, fold) == Folded(y, fold) <==>
                || x == y
                || (fold && 'A' as int <= x <= 'Z' as int && y - x == 'a' as int - 'A' as int)
                || (fold && 'A' as int <= y <= 'Z' as int && x - y == 'a' as int - 'A' as int)
    {
    }
    hide Folded;
  }

  /** What a search without flags finds, in terms of the bytes. */
  lemma FoundPlain(t: seq<byte>, offset: nat, pat: seq<byte>, found: int)
    ensures FoundForward(t, offset, pat, false, false, found) ==>
              && (found == -1 || (offset <= found && found + |pat| <= |t| && t[found..found + |pat|] == pat))
              && forall o :: offset <= o <= |t| && (found == -1 || o < found) ==> !(pat <= t[o..])
    ensures FoundBackward(t, offset, pat, false, false, found) && found >= -1 ==>
              && (found == -1 || (0 <= found < offset && found < |t| - |pat| && t[found..found + |pat|] == pat))
              && forall o :: 0 <= o && found < o < offset && o < |t| - |pat| ==> !(pat <= t[o..])
  {
    forall o: int
      ensures MatchAt(t, o, pat, false, false) <==> 0 <= o && o + |pat| <= |t| && t[o..o + |pat|] == pat
    {
      PlainMatch(t, o, pat);
    }
    hide MatchAt;
    forall o: nat | o <= |t| && pat <= t[o..] ensures MatchAt(t, o, pat, false, false) {
      assert t[o..o + |pat|] == t[o..][..|pat|];
    }
  }

  /** The counts of letters that smart case looks at. */
  method CountCase(pat: seq<byte>) returns (lower: nat, upper: nat)
    ensures lower > 0 <==> exists i :: 0 <= i < |pat| && IsLower(pat[i])
    ensures upper == 0 <==> forall i :: 0 <= i < |pat| ==> !IsUpper(pat[i])
  {
    lower, upper := 0, 0;
    var i := 0;
    while i < |pat|
      invariant 0 <= i <= |pat|
      invariant lower > 0 <==> exists k :: 0 <= k < i && IsLower(pat[k])
      invariant upper == 0 <==> forall k :: 0 <= k < i ==> !IsUpper(pat[k])
    {
      if IsLower(pat[i]) {
        lower := lower + 1;
      }
      if IsUpper(pat[i]) {
        upper := upper + 1;
      }
      i := i + 1;
    }
  }

  /** Whether case matters in a search. */
  method FoldCase(pat: seq<byte>, flags: Flags) returns (fold: bool)
    ensures fold == FoldsCase(pat, flags)
  {
    fold := flags.ignoreCase;
    if flags.smartCase {
      var lower, upper := CountCase(pat);
      if lower > 0 && upper == 0 {
        fold := true;
      }
    }
  }

  /** One byte of the buffer. */
  method ByteAt(b: EditBuffer, o: nat) returns (c: byte)
    requires b.Valid() && o < |b.Text()|
    modifies b`curPage, b`curOffset
    ensures b.Valid() && c == b.Text()[o]
  {
    hide Flat, EditBuffer.TableValid, EditBuffer.CacheValid, EditBuffer.IsLog;
    var out := b.Read(o, 1);
    c := out[0];
  }

  /** Compares the pattern, already in upper case if case does not matter, with the bytes at `o`. */
  method Compare(b: EditBuffer, o: nat, pat: seq<byte>, ghost orig: seq<byte>, fold: bool, word: bool)
    returns (ok: bool)
    requires b.Valid() && pat != [] && o + |pat| <= |b.Text()|
    requires |orig| == |pat| && forall i :: 0 <= i < |pat| ==> pat[i] == Folded(orig[i], fold)
    modifies b`curPage, b`curOffset
    ensures b.Valid() && ok == MatchAt(b.Text(), o, orig, fold, word)
  {
    hide Flat, EditBuffer.TableValid, EditBuffer.CacheValid, EditBuffer.IsLog;
    ghost var t := b.Text();
    var ch;
    // what stands before must be no word character
    if word && o != 0 {
      ch := ByteAt(b, o - 1);
      if IsWord(ch) {
        return false;
      }
    }
    var i := 0;
    while i < |pat|
      invariant b.Valid() && b.Text() == t && 0 <= i <= |pat|
      invariant forall k :: 0 <= k < i ==> Folded(t[o + k], fold) == pat[k]
    {
      ch := ByteAt(b, o + i);
      if fold {
        ch := ToUpper(ch);
      }
      if ch != pat[i] {
        return false;
      }
      i := i + 1;
    }
    // nor what stands after
    if word && o + |pat| < b.totalSize {
      ch := ByteAt(b, o + |pat|);
      return !IsWord(ch);
    }
    ok := true;
  }

  /** Where a backward search from `offset` begins to look: below this offset. */
  function BackwardLimit(offset: nat, size: int): int {
    if offset > size then size else offset
  }

  /** `found` is the first match at or after `offset`, or -1 if there is none. */
  ghost predicate FoundForward(t: seq<byte>, offset: nat, pat: seq<byte>, fold: bool, word: bool, found: int) {
    && (found == -1 || (offset <= found && MatchAt(t, found, pat, fold, word)))
    && forall o :: offset <= o && (found == -1 || o < found) ==> !MatchAt(t, o, pat, fold, word)
  }

  /** `found` is the last match below the limit, or -1 if there is none. */
  ghost predicate FoundBackward(t: seq<byte>, offset: nat, pat: seq<byte>, fold: bool, word: bool, found: int) {
    var limit := BackwardLimit(offset, |t| - |pat|);
    && (found == -1 || (found < limit && MatchAt(t, found, pat, fold, word)))
    && forall o :: found < o < limit ==> !MatchAt(t, o, pat, fold, word)
  }

  /** Searches forward from `offset`, or backward from before it. */
  method EbSearch(b: EditBuffer, offset: nat, dir: int, pat: seq<byte>, flags: Flags) returns (found: int)
    requires b.Valid() && (dir == 1 || dir == -1)
    modifies b`curPage, b`curOffset
    ensures b.Valid() && b.Text() == old(b.Text())
    ensures pat == [] || |pat| >= 1024 ==> found == -1
    ensures 0 < |pat| < 1024 ==>
              if dir == 1 then FoundForward(b.Text(), offset, pat, FoldsCase(pat, flags), flags.word, found)
              else FoundBackward(b.Text(), offset, pat, FoldsCase(pat, flags), flags.word, found)
    ensures 0 < |pat| < 1024 && flags == NO_FLAGS && dir == 1 ==>
              var t := b.Text();
              && (found == -1 || (offset <= found && found + |pat| <= |t| && t[found..found + |pat|] == pat))
              && forall o :: offset <= o <= |t| && (found == -1 || o < found) ==> !(pat <= t[o..])
    ensures 0 < |pat| < 1024 && flags == NO_FLAGS && dir == -1 ==>
              var t := b.Text();
              && (found == -1 || (0 <= found < offset && found < |t| - |pat| && t[found..found + |pat|] == pat))
              && forall o :: 0 <= o && found < o < offset && o < |t| - |pat| ==> !(pat <= t[o..])
  {
    NotFolded(pat);
    hide Flat, FoldsCase, MatchAt, Folded, Unmatched, FoundForward, FoundBackward, EditBuffer.TableValid,
         EditBuffer.CacheValid, EditBuffer.IsLog;
    if pat == [] || |pat| >= PATTERN_MAX {
      return -1;
    }
    // capitals in the pattern make smart case exact
    var fold := FoldCase(pat, flags);
    var pat1 := seq(|pat|, i requires 0 <= i < |pat| => Folded(pat[i], fold));
    ghost var t := b.Text();
    found := offset;
    var last := b.totalSize - |pat|;
    if dir < 0 {
      if found > last {
        found := last;
      }
    } else {
      found := found - 1;
    }
    Unlooked(t, offset, BackwardLimit(offset, last), pat, fold, flags.word);
    while true
      invariant b.Valid() && b.Text() == t
      invariant dir == 1 ==> found >= offset - 1 && Unmatched(t, offset, found + 1, pat, fold, flags.word)
      invariant dir == -1 ==> found <= BackwardLimit(offset, last)
                              && Unmatched(t, found, BackwardLimit(offset, last), pat, fold, flags.word)
      decreases if dir == 1 then last - found else found
    {
      found := found + dir;
      if found < 0 || found > last {
        NothingFound(t, offset, pat, fold, flags.word, found, dir);
        FoundPlain(t, offset, pat, -1);
        return -1;
      }
      var ok := Compare(b, found, pat1, pat, fold, flags.word);
      if ok {
        MatchFound(t, offset, pat, fold, flags.word, found, dir);
        FoundPlain(t, offset, pat, found);
        return;
      }
      LookedAt(t, found, pat, fold, flags.word);
    }
  }

  /** Nothing matches from `lo` to before `hi`. */
  ghost predicate Unmatched(t: seq<byte>, lo: int, hi: int, pat: seq<byte>, fold: bool, word: bool) {
    forall o :: lo <= o < hi ==> !MatchAt(t, o, pat, fold, word)
  }

  lemma Unlooked(t: seq<byte>, offset: nat, limit: int, pat: seq<byte>, fold: bool, word: bool)
    ensures Unmatched(t, offset, offset, pat, fold, word) && Unmatched(t, limit, limit, pat, fold, word)
  {
  }

  /** One place more, at either end. */
  lemma LookedAt(t: seq<byte>, o: int, pat: seq<byte>, fold: bool, word: bool)
    requires !MatchAt(t, o, pat, fold, word)
    ensures forall lo :: Unmatched(t, lo, o, pat, fold, word) ==> Unmatched(t, lo, o + 1, pat, fold, word)
    ensures forall hi :: Unmatched(t, o + 1, hi, pat, fold, word) ==> Unmatched(t, o, hi, pat, fold, word)
  {
    hide MatchAt;
  }

  /** All places where the pattern fits were looked at. */
  lemma NothingFound(t: seq<byte>, offset: nat, pat: seq<byte>, fold: bool, word: bool, o: int, dir: int)
    requires o < 0 || o > |t| - |pat|
    requires dir == 1 ==> offset <= o && Unmatched(t, offset, o, pat, fold, word)
    requires dir == -1 ==>
               && o < BackwardLimit(offset, |t| - |pat|)
               && Unmatched(t, o + 1, BackwardLimit(offset, |t| - |pat|), pat, fold, word)
    ensures dir == 1 ==> FoundForward(t, offset, pat, fold, word, -1)
    ensures dir == -1 ==> FoundBackward(t, offset, pat, fold, word, -1)
  {
    MatchInside(t, pat, fold, word);
    hide MatchAt;
  }

  /** The first place that matches. */
  lemma MatchFound(t: seq<byte>, offset: nat, pat: seq<byte>, fold: bool, word: bool, o: int, dir: int)
    requires MatchAt(t, o, pat, fold, word)
    requires dir == 1 ==> offset <= o && Unmatched(t, offset, o, pat, fold, word)
    requires dir == -1 ==>
               && o < BackwardLimit(offset, |t| - |pat|)
               && Unmatched(t, o + 1, BackwardLimit(offset, |t| - |pat|), pat, fold, word)
    ensures dir == 1 ==> FoundForward(t, offset, pat, fold, word, o)
    ensures dir == -1 ==> FoundBackward(t, offset, pat, fold, word, o)
  {
    hide MatchAt;
  }

  lemma MatchInside(t: seq<byte>, pat: seq<byte>, fold: bool, word: bool)
    ensures forall o :: MatchAt(t, o, pat, fold, word) ==> 0 <= o <= |t| - |pat|
  {
  }

  /** What a backward search returns is the last match that begins before `offset`, exactly unless it starts
      past the last place where the pattern fits and the pattern stands there: that place is not looked at. */
  lemma BackwardExact(t: seq<byte>, offset: nat, pat: seq<byte>, fold: bool, word: bool, found: int)
    requires pat != [] && FoundBackward(t, offset, pat, fold, word, found)
    ensures (forall o :: found < o < offset ==> !MatchAt(t, o, pat, fold, word))
       <==> !(offset > |t| - |pat| && MatchAt(t, |t| - |pat|, pat, fold, word))
  {
    MatchInside(t, pat, fold, word);
    hide MatchAt;
    var last := |t| - |pat|;
    if offset > last && MatchAt(t, last, pat, fold, word) {
      assert found < last < offset;
    }
  }

  /** A backward search for "a" from the end of the text "a" finds nothing, although it stands before the end. */
  lemma BackwardMisses(found: int)
    ensures var t: seq<byte> := [97];
            MatchAt(t, 0, t, false, false) && (FoundBackward(t, 1, t, false, false, found) <==> found == -1)
  {
    var t: seq<byte> := [97];
    MatchInside(t, t, false, false);
    assert MatchAt(t, 0, t, false, false);
    assert BackwardLimit(1, |t| - |t|) == 0;
  }

  // ---- replacing ----

  /** The text from `from` on with each match replaced, from left to right; matches do not overlap. */
  function Replaced(t: seq<byte>, from: nat, pat: seq<byte>, rep: seq<byte>): seq<byte>
    requires from <= |t| && pat != []
    decreases |t| - from
  {
    if from == |t| then []
    else if MatchAt(t, from, pat, false, false) then rep + Replaced(t, from + |pat|, pat, rep)
    else [t[from]] + Replaced(t, from + 1, pat, rep)
  }

  /** Replacing by the pattern itself changes nothing. */
  lemma {:induction false} ReplacedBySame(t: seq<byte>, from: nat, pat: seq<byte>)
    requires from <= |t| && pat != []
    ensures Replaced(t, from, pat, pat) == t[from..]
    decreases |t| - from
  {
    hide MatchAt;
    if from < |t| {
      if MatchAt(t, from, pat, false, false) {
        MatchIs(t, from, pat);
        ReplacedBySame(t, from + |pat|, pat);
      } else {
        ReplacedBySame(t, from + 1, pat);
        assert t[from..] == [t[from]] + t[from + 1..];
      }
    }
  }

  lemma MatchIs(t: seq<byte>, o: nat, pat: seq<byte>)
    requires MatchAt(t, o, pat, false, false)
    ensures o + |pat| <= |t| && t[o..] == pat + t[o + |pat|..]
  {
    assert t[o..o + |pat|] == pat;
  }

  /** The pieces of a text with a separator between each two of them. */
  function Join(pieces: seq<seq<byte>>, between: seq<byte>): seq<byte>
    requires pieces != []
  {
    if |pieces| == 1 then pieces[0] else pieces[0] + between + Join(pieces[1..], between)
  }

  /** What lies between the matches of the text from `from` on. */
  ghost function Pieces(t: seq<byte>, from: nat, pat: seq<byte>): (pieces: seq<seq<byte>>)
    requires from <= |t| && pat != []
    ensures pieces != []
    decreases |t| - from
  {
    if from == |t| then [[]]
    else if MatchAt(t, from, pat, false, false) then [[]] + Pieces(t, from + |pat|, pat)
    else
      var rest := Pieces(t, from + 1, pat);
      [[t[from]] + rest[0]] + rest[1..]
  }

  /** `pieces` are what is left of a text when `pat` is cut out from left to right: the pattern stands behind
      each piece and not earlier, and it is not in the last one. */
  ghost predicate CutUp(t: seq<byte>, pat: seq<byte>, pieces: seq<seq<byte>>) {
    && pieces != [] && t == Join(pieces, pat)
    && (forall i, o :: 0 <= i < |pieces| - 1 && 0 <= o < |pieces[i]| ==> !(pat <= (pieces[i] + pat)[o..]))
    && var last := pieces[|pieces| - 1]; forall o :: 0 <= o <= |last| ==> !(pat <= last[o..])
  }

  /** Replacing is cutting the pattern out and putting the replacement between the pieces. */
  lemma {:induction false} ReplacedIsJoined(t: seq<byte>, from: nat, pat: seq<byte>, rep: seq<byte>)
    requires from <= |t| && pat != []
    ensures var pieces := Pieces(t, from, pat);
            && |pieces| == Matches(t, from, pat) + 1 && CutUp(t[from..], pat, pieces)
            && Replaced(t, from, pat, rep) == Join(pieces, rep)
    decreases |t| - from
  {
    hide MatchAt, CutUp;
    PlainMatch(t, from, pat);
    if from == |t| {
      NothingCut(t, pat);
    } else if MatchAt(t, from, pat, false, false) {
      ReplacedIsJoined(t, from + |pat|, pat, rep);
      MatchCut(t, from, pat, Pieces(t, from + |pat|, pat));
      JoinFirst(Pieces(t, from + |pat|, pat), rep);
    } else {
      ReplacedIsJoined(t, from + 1, pat, rep);
      ByteCut(t, from, pat, Pieces(t, from + 1, pat));
      JoinLonger(t[from], Pieces(t, from + 1, pat), rep);
    }
  }

  lemma NothingCut(t: seq<byte>, pat: seq<byte>)
    requires pat != []
    ensures CutUp(t[|t|..], pat, [[]])
  {
  }

  lemma JoinFirst(pieces: seq<seq<byte>>, between: seq<byte>)
    requires pieces != []
    ensures Join([[]] + pieces, between) == between + Join(pieces, between)
  {
    assert ([[]] + pieces)[1..] == pieces;
  }

  lemma JoinLonger(c: byte, pieces: seq<seq<byte>>, between: seq<byte>)
    requires pieces != []
    ensures Join([[c] + pieces[0]] + pieces[1..], between) == [c] + Join(pieces, between)
  {
    assert ([[c] + pieces[0]] + pieces[1..])[1..] == pieces[1..];
  }

  lemma MatchCut(t: seq<byte>, from: nat, pat: seq<byte>, rest: seq<seq<byte>>)
    requires pat != [] && from + |pat| <= |t| && t[from..from + |pat|] == pat && CutUp(t[from + |pat|..], pat, rest)
    ensures CutUp(t[from..], pat, [[]] + rest)
  {
    JoinFirst(rest, pat);
    hide Join;
    assert t[from..] == pat + t[from + |pat|..];
  }

  lemma ByteCut(t: seq<byte>, from: nat, pat: seq<byte>, rest: seq<seq<byte>>)
    requires pat != [] && from < |t| && !(pat <= t[from..]) && CutUp(t[from + 1..], pat, rest)
    ensures CutUp(t[from..], pat, [[t[from]] + rest[0]] + rest[1..])
  {
    var c, all := t[from], [[t[from]] + rest[0]] + rest[1..];
    JoinLonger(c, rest, pat);
    assert t[from..] == [c] + t[from + 1..];
    FirstPiece(t, from, pat, rest);
    hide Join;
    assert all[0] == [c] + rest[0];
    forall i, o | 0 <= i < |all| - 1 && 0 <= o < |all[i]| ensures !(pat <= (all[i] + pat)[o..]) {
      if i == 0 && o > 0 {
        LaterPart(c, rest[0], pat, o);
      }
    }
    var last := all[|all| - 1];
    forall o | 0 <= o <= |last| ensures !(pat <= last[o..]) {
      if |all| == 1 && o > 0 {
        assert last[o..] == rest[0][o - 1..];
      }
    }
  }

  lemma LaterPart(c: byte, piece: seq<byte>, pat: seq<byte>, o: nat)
    requires 0 < o <= |piece| + 1
    ensures (([c] + piece) + pat)[o..] == (piece + pat)[o - 1..]
  {
  }

  /** No match begins at the first byte of a piece that is one byte longer. */
  lemma FirstPiece(t: seq<byte>, from: nat, pat: seq<byte>, rest: seq<seq<byte>>)
    requires pat != [] && from < |t| && !(pat <= t[from..]) && CutUp(t[from + 1..], pat, rest)
    ensures !(pat <= [t[from]] + rest[0]) && (|rest| > 1 ==> !(pat <= [t[from]] + rest[0] + pat))
  {
    var c := t[from];
    var more := if |rest| == 1 then [] else Join(rest[1..], pat);
    assert t[from..] == [c] + t[from + 1..];
    assert t[from + 1..] == rest[0] + (if |rest| == 1 then [] else pat) + more;
    assert [c] + rest[0] <= t[from..];
    assert |rest| > 1 ==> [c] + rest[0] + pat <= t[from..];
  }

  /** `s` is the text `t` with the `nb` places of the pattern from `start` on replaced, and nothing else. */
  ghost predicate ReplacedAmong(t: seq<byte>, start: nat, pat: seq<byte>, rep: seq<byte>, s: seq<byte>, nb: nat)
    requires start <= |t|
  {
    if 0 < |pat| < 1024 then
      exists pieces ::
        CutUp(t[start..], pat, pieces) && s == t[..start] + Join(pieces, rep) && nb == |pieces| - 1
    else s == t && nb == 0
  }

  lemma JoinedIs(t: seq<byte>, start: nat, pat: seq<byte>, rep: seq<byte>)
    requires start <= |t|
    ensures ReplacedAmong(t, start, pat, rep, ReplacedText(t, start, pat, rep),
                          if 0 < |pat| < PATTERN_MAX then Matches(t, start, pat) else 0)
  {
    hide CutUp, Join, Replaced, Matches, Pieces;
    if 0 < |pat| < PATTERN_MAX {
      ReplacedIsJoined(t, start, pat, rep);
    }
  }

  /** How many matches that is. */
  function Matches(t: seq<byte>, from: nat, pat: seq<byte>): nat
    requires from <= |t| && pat != []
    decreases |t| - from
  {
    if from == |t| then 0
    else if MatchAt(t, from, pat, false, false) then 1 + Matches(t, from + |pat|, pat)
    else Matches(t, from + 1, pat)
  }

  function ReplacedText(t: seq<byte>, start: nat, pat: seq<byte>, rep: seq<byte>): seq<byte>
    requires start <= |t|
  {
    if pat == [] || |pat| >= PATTERN_MAX then t else t[..start] + Replaced(t, start, pat, rep)
  }

  /** The length of the result, from the number of matches. */
  lemma {:induction false} ReplacedLength(t: seq<byte>, from: nat, pat: seq<byte>, rep: seq<byte>)
    requires from <= |t| && pat != []
    ensures |Replaced(t, from, pat, rep)| == |t| - from + Matches(t, from, pat) * (|rep| - |pat|)
    decreases |t| - from
  {
    assert MatchAt(t, from, pat, false, false) ==> from + |pat| <= |t|;
    hide MatchAt;
    if from < |t| {
      if MatchAt(t, from, pat, false, false) {
        ReplacedLength(t, from + |pat|, pat, rep);
        OneMoreTimes(Matches(t, from + |pat|, pat), |rep| - |pat|);
      } else {
        ReplacedLength(t, from + 1, pat, rep);
      }
    }
  }

  lemma OneMoreTimes(n: nat, d: int)
    ensures (1 + n) * d == d + n * d && (d >= 0 ==> n * d >= 0) && (d <= 0 ==> n * d <= 0)
  {
  }

  lemma FrontByte(t: seq<byte>, k: nat, m: nat, rest: seq<byte>)
    requires k < m <= |t|
    ensures [t[k]] + (t[k + 1..m] + rest) == t[k..m] + rest
  {
  }

  lemma {:induction false} NoMatchSkips(t: seq<byte>, k: nat, m: nat, pat: seq<byte>, rep: seq<byte>)
    requires k <= m <= |t| && pat != [] && forall o :: k <= o < m ==> !MatchAt(t, o, pat, false, false)
    ensures Replaced(t, k, pat, rep) == t[k..m] + Replaced(t, m, pat, rep) && Matches(t, k, pat) == Matches(t, m, pat)
    decreases m - k
  {
    hide MatchAt;
    if k < m {
      NoMatchSkips(t, k + 1, m, pat, rep);
      FrontByte(t, k, m, Replaced(t, m, pat, rep));
    } else {
      assert t[k..m] == [];
    }
  }

  /** The text is `done`, then what was not yet looked at. */
  lemma MatchMoved(t: seq<byte>, k: nat, done: seq<byte>, o: nat, pat: seq<byte>)
    requires k <= |t| && pat != []
    ensures MatchAt(done + t[k..], |done| + o, pat, false, false) <==> MatchAt(t, k + o, pat, false, false)
  {
    var s := done + t[k..];
    if |done| + o <= |s| - |pat| {
      assert forall i {:trigger pat[i]} :: 0 <= i < |pat| ==> s[|done| + o + i] == t[k + o + i];
    }
  }

  /** Half way through: `done` is finished, and the original text from `k` on is still there. */
  ghost predicate Replacing(s: seq<byte>, t: seq<byte>, start: nat, k: nat, done: seq<byte>, nb: nat, pat: seq<byte>,
                            rep: seq<byte>) {
    && start <= |t| && k <= |t| && 0 < |pat| < PATTERN_MAX && s == done + t[k..]
    && done + Replaced(t, k, pat, rep) == ReplacedText(t, start, pat, rep)
    && nb + Matches(t, k, pat) == Matches(t, start, pat)
    && |s| == |t| + nb * (|rep| - |pat|)
  }

  lemma ReplacingBegins(t: seq<byte>, start: nat, pat: seq<byte>, rep: seq<byte>)
    requires start <= |t| && 0 < |pat| < PATTERN_MAX
    ensures Replacing(t, t, start, start, t[..start], 0, pat, rep)
  {
    assert t == t[..start] + t[start..];
  }

  /** The text never gets longer than it is at the beginning or at the end. */
  lemma ReplacingSize(s: seq<byte>, t: seq<byte>, start: nat, k: nat, done: seq<byte>, nb: nat, pat: seq<byte>,
                      rep: seq<byte>)
    requires Replacing(s, t, start, k, done, nb, pat, rep)
    ensures |s| <= |t| || |s| <= |ReplacedText(t, start, pat, rep)|
    ensures |done| <= |s|
  {
    hide Replaced, Matches;
    ReplacedLength(t, start, pat, rep);
    var d, n := |rep| - |pat|, Matches(t, k, pat);
    assert Matches(t, start, pat) * d == nb * d + n * d;
    OneMoreTimes(nb, d);
    OneMoreTimes(n, d);
  }

  lemma ReplacingEnds(s: seq<byte>, t: seq<byte>, start: nat, k: nat, done: seq<byte>, nb: nat, pat: seq<byte>,
                      rep: seq<byte>)
    requires Replacing(s, t, start, k, done, nb, pat, rep)
    requires forall o :: |done| <= o ==> !MatchAt(s, o, pat, false, false)
    ensures s == ReplacedText(t, start, pat, rep) && nb == Matches(t, start, pat)
  {
    hide MatchAt;
    forall o | k <= o < |t| ensures !MatchAt(t, o, pat, false, false) {
      MatchMoved(t, k, done, o - k, pat);
    }
    NoMatchSkips(t, k, |t|, pat, rep);
    NothingLeft(t, pat, rep);
    hide Replaced, Matches;
    assert t[k..|t|] == t[k..] && t[k..] + [] == t[k..];
  }

  lemma NothingLeft(t: seq<byte>, pat: seq<byte>, rep: seq<byte>)
    requires pat != []
    ensures Replaced(t, |t|, pat, rep) == [] && Matches(t, |t|, pat) == 0
  {
  }

  lemma HereReplaced(t: seq<byte>, m: nat, pat: seq<byte>, rep: seq<byte>)
    requires pat != [] && MatchAt(t, m, pat, false, false)
    ensures m + |pat| <= |t| && Replaced(t, m, pat, rep) == rep + Replaced(t, m + |pat|, pat, rep)
    ensures Matches(t, m, pat) == 1 + Matches(t, m + |pat|, pat)
  {
  }

  /** The match at `found` is the next one to replace. */
  lemma ReplacingOn(s: seq<byte>, t: seq<byte>, start: nat, k: nat, done: seq<byte>, nb: nat, pat: seq<byte>,
                    rep: seq<byte>, found: nat)
    requires Replacing(s, t, start, k, done, nb, pat, rep) && |done| <= found && MatchAt(s, found, pat, false, false)
    requires forall o :: |done| <= o < found ==> !MatchAt(s, o, pat, false, false)
    ensures found + |pat| <= |s| && k + (found - |done|) + |pat| <= |t|
    ensures Replacing(s[..found] + rep + s[found + |pat|..], t, start, k + (found - |done|) + |pat|, s[..found] + rep,
                      nb + 1, pat, rep)
  {
    hide Replaced, Matches, ReplacedText;
    var m := k + (found - |done|);
    MatchMoved(t, k, done, found - |done|, pat);
    NoneBefore(t, k, done, found, pat);
    NoMatchSkips(t, k, m, pat, rep);
    HereReplaced(t, m, pat, rep);
    hide MatchAt;
    ReplacedParts(t, k, done, m, pat, rep, Replaced(t, m + |pat|, pat, rep));
    OneMoreTimes(nb, |rep| - |pat|);
  }

  lemma NoneBefore(t: seq<byte>, k: nat, done: seq<byte>, found: nat, pat: seq<byte>)
    requires k <= |t| && pat != [] && |done| <= found
    requires forall o :: |done| <= o < found ==> !MatchAt(done + t[k..], o, pat, false, false)
    ensures forall o :: k <= o < k + (found - |done|) ==> !MatchAt(t, o, pat, false, false)
  {
    hide MatchAt;
    forall o | k <= o < k + (found - |done|) ensures !MatchAt(t, o, pat, false, false) {
      MatchMoved(t, k, done, o - k, pat);
    }
  }

  lemma ReplacedParts(t: seq<byte>, k: nat, done: seq<byte>, m: nat, pat: seq<byte>, rep: seq<byte>, rest: seq<byte>)
    requires k <= m && m + |pat| <= |t|
    ensures var s, found := done + t[k..], |done| + m - k;
            && s[..found] == done + t[k..m] && s[found + |pat|..] == t[m + |pat|..]
            && done + (t[k..m] + (rep + rest)) == s[..found] + rep + rest
  {
  }

  const NO_FLAGS := Flags(false, false, false)

  /** Deletes the match and puts the replacement in its place. */
  method ReplaceHere(b: EditBuffer, found: nat, pat: seq<byte>, rep: seq<byte>)
    requires b.Valid() && pat != [] && found + |pat| <= |b.Text()|
    requires b.saveLog ==> |b.Text()| <= MAX_INT && |rep| <= MAX_INT
    modifies b, b.own, b.LogFrame()
    ensures b.Valid() && b.Text() == old(b.Text()[..found] + rep + b.Text()[found + |pat|..])
    ensures b.saveLog == old(b.saveLog)
    ensures fresh(b.own - old(b.own)) && fresh(b.LogFrame() - old(b.LogFrame()))
  {
    hide Flat, Apply, Splice, EditBuffer.TableValid, EditBuffer.CacheValid, EditBuffer.IsLog;
    ghost var t := b.Text();
    b.Delete(found, |pat|);
    DeleteInsert(t, found, |pat|, rep);
    b.Insert(found, rep);
  }

  lemma DeleteInsert(t: seq<byte>, found: nat, n: nat, rep: seq<byte>)
    requires found + n <= |t|
    ensures Splice(Splice(t, found, n, []), found, 0, rep) == t[..found] + rep + t[found + n..]
  {
    var s := Splice(t, found, n, []);
    assert s[..found] == t[..found] && s[found..] == t[found + n..];
  }

  /** Replaces all matches from `start` on; the replacement may hold the pattern itself. */
  method ReplaceAll(b: EditBuffer, start: nat, pat: seq<byte>, rep: seq<byte>) returns (nb: nat)
    requires b.Valid() && start <= |b.Text()|
    requires b.saveLog ==>
               && |b.Text()| <= MAX_INT && |rep| <= MAX_INT
               && |ReplacedText(b.Text(), start, pat, rep)| <= MAX_INT
    modifies b, b.own, b.LogFrame()
    ensures b.Valid() && b.Text() == ReplacedText(old(b.Text()), start, pat, rep)
    ensures nb == if 0 < |pat| < PATTERN_MAX then Matches(old(b.Text()), start, pat) else 0
    ensures ReplacedAmong(old(b.Text()), start, pat, rep, b.Text(), nb)
  {
    hide Flat, MatchAt, ReplacedAmong, Replacing, Replaced, ReplacedText, Matches, EditBuffer.TableValid,
         EditBuffer.CacheValid, EditBuffer.IsLog;
    nb := 0;
    var found: int := start;
    ghost var t, k := b.Text(), start;
    JoinedIs(t, start, pat, rep);
    if 0 < |pat| < PATTERN_MAX {
      ReplacingBegins(t, start, pat, rep);
    } else {
      NothingReplaced(t, start, pat, rep);
    }
    while true
      invariant b.Valid() && b.saveLog == old(b.saveLog) && 0 <= found <= |b.Text()| && k <= |t|
      invariant fresh(b.own - old(b.own)) && fresh(b.LogFrame() - old(b.LogFrame()))
      invariant if 0 < |pat| < PATTERN_MAX then Replacing(b.Text(), t, start, k, b.Text()[..found], nb, pat, rep)
                else b.Text() == t && nb == 0
      decreases |t| - k
    {
      ghost var s, from := b.Text(), found;
      found := EbSearch(b, found, 1, pat, NO_FLAGS);
      NotFolded(pat);
      if found < 0 {
        if 0 < |pat| < PATTERN_MAX {
          ReplacingEnds(s, t, start, k, s[..from], nb, pat, rep);
        }
        return;
      }
      ReplacingSize(s, t, start, k, s[..from], nb, pat, rep);
      ReplacingOn(s, t, start, k, s[..from], nb, pat, rep, found);
      k := k + (found - from) + |pat|;
      ReplaceHere(b, found, pat, rep);
      ghost var s1 := s[..found] + rep;
      found := found + |rep|;
      assert b.Text()[..found] == s1;
      nb := nb + 1;
    }
  }

  lemma NotFolded(pat: seq<byte>)
    ensures !FoldsCase(pat, NO_FLAGS)
  {
  }

  lemma NothingReplaced(t: seq<byte>, start: nat, pat: seq<byte>, rep: seq<byte>)
    requires start <= |t| && !(0 < |pat| < PATTERN_MAX)
    ensures ReplacedText(t, start, pat, rep) == t
  {
  }
}
