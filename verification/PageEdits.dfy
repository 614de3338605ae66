/** Lists of pages, and what the steps of an insertion, a deletion or a splice do to their text. */
module PageEdits {
  import opened PageText

  /** A block enlarged or cut to `size` bytes; what is added is not initialised to anything useful. */
  function Realloc(s: seq<byte>, size: nat): (r: seq<byte>)
    ensures |r| == size
  {
    if size <= |s| then s[..size] else s + seq(size - |s|, i => 0)
  }

  function MemMove(s: seq<byte>, dst: nat, src: nat, size: nat): (r: seq<byte>)
    requires dst + size <= |s| && src + size <= |s|
    ensures |r| == |s|
  {
    s[..dst] + s[src..src + size] + s[dst + size..]
  }

  function MemCpy(s: seq<byte>, dst: nat, bytes: seq<byte>): (r: seq<byte>)
    requires dst + |bytes| <= |s|
    ensures |r| == |s|
  {
    s[..dst] + bytes + s[dst + |bytes|..]
  }

  /** Enlarge, shift up from `off`, fill the gap: an insertion, here losing the last `cut` bytes. */
  lemma MakeRoom(s: seq<byte>, off: nat, x: seq<byte>, cut: nat)
    requires off + cut <= |s| && cut <= |x|
    ensures MemCpy(MemMove(Realloc(s, |s| + |x| - cut), off + |x|, off, |s| - cut - off), off, x)
         == s[..off] + x + s[off..|s| - cut]
  {
    var b := s[off..|s| - cut];
    var r := Realloc(s, |s| + |x| - cut);
    var m := MemMove(r, off + |x|, off, |b|);
    assert r[..|s|] == s && r[off..off + |b|] == b && r[..off] == s[..off];
    assert m == r[..off + |x|] + b;
    Halves(r[..off + |x|], b);
    assert m[..off] == s[..off];
  }

  /** Shift down onto the gap, cut: a deletion. */
  lemma CloseGap(s: seq<byte>, off: nat, len: nat)
    requires off + len <= |s|
    ensures Realloc(MemMove(s, off, off + len, |s| - off - len), |s| - len) == s[..off] + s[off + len..]
  {
    var a, b, c := s[..off], s[off + len..], s[|s| - len..];
    assert s[off + len..off + len + (|s| - off - len)] == b;
    assert MemMove(s, off, off + len, |b|) == a + b + c;
    Halves(a + b, c);
  }

  /** One page is enough for `len` bytes, and the rest needs one page less. */
  lemma PageCountStep(size: nat, len: nat)
    requires 0 < size && len == if size > MAX_PAGE_SIZE then MAX_PAGE_SIZE else size
    ensures (size + MAX_PAGE_SIZE - 1) / MAX_PAGE_SIZE == 1 + (size - len + MAX_PAGE_SIZE - 1) / MAX_PAGE_SIZE
  {
    var m: int := MAX_PAGE_SIZE;
    if size > m {
      DivStep(size - 1, m);
    } else {
      DivStep(size - 1, m);
      DivSmall(size - 1, m);
      DivSmall(m - 1, m);
    }
  }

  lemma NoPageMeansEmpty(size: nat)
    ensures (size + MAX_PAGE_SIZE - 1) / MAX_PAGE_SIZE <= 0 ==> size == 0
  {
    if size > 0 {
      PageCountStep(size, if size > MAX_PAGE_SIZE then MAX_PAGE_SIZE else size);
    }
  }

  lemma FrontPlaced<T>(a: seq<T>, k: nat, added: seq<T>)
    requires k <= |a|
    ensures (a[..k] + added + a[k..])[..k] == a[..k]
  {
  }

  lemma PlaceNothing(pages: seq<seq<byte>>, k: nat)
    requires k <= |pages|
    ensures pages[..k] + [] + pages[k..] == pages && Flat([]) == []
  {
  }

  /** `grown` has the last bytes of `buf` in front of page `k`; pages with the first `size` are put before it. */
  lemma Insert1Text(before: seq<seq<byte>>, grown: seq<seq<byte>>, added: seq<seq<byte>>,
                    k: nat, buf: seq<byte>, size: nat)
    requires k <= |before| && size <= |buf| && Flat(added) == buf[..size]
    requires if size < |buf| then k < |before| && grown == before[k := InPage(before[k], 0, buf[size..], 0)]
             else grown == before
    ensures var after := grown[..k] + added + grown[k..];
            after[..k] == before[..k] && Flat(after[k..]) == buf + Flat(before[k..])
  {
    var after := grown[..k] + added + grown[k..];
    assert after[k..] == added + grown[k..];
    FlatConcat(added, grown[k..]);
    if size < |buf| {
      InFront(before[k], buf[size..]);
      assert grown[k + 1..] == before[k + 1..];
      FlatFrom(grown, k);
      FlatFrom(before, k);
      Associate(buf[size..], before[k], Flat(before[k + 1..]));
    }
    Associate(buf[..size], buf[size..], Flat(before[k..]));
    assert buf == buf[..size] + buf[size..];
  }

  /** A page with `x` inserted at `off` and its last `cut` bytes lost. */
  function InPage(t: seq<byte>, off: nat, x: seq<byte>, cut: nat): seq<byte>
    requires off + cut <= |t|
  {
    t[..off] + x + t[off..|t| - cut]
  }

  lemma InFront(t: seq<byte>, x: seq<byte>)
    ensures InPage(t, 0, x, 0) == x + t
  {
  }

  lemma NoRoom(t: seq<byte>, off: nat, buf: seq<byte>)
    requires off <= |t|
    ensures InPage(t, off, buf[..0], 0) == t
  {
  }

  lemma PagePieces(t: seq<byte>, off: nat, buf: seq<byte>, len: nat, cut: nat, rest: seq<byte>)
    requires off + cut <= |t| && len <= |buf| && (len < |buf| ==> off + cut == |t|)
    ensures InPage(t, off, buf[..len], cut) + (buf[len..] + (t[|t| - cut..] + rest)) == Splice(t, off, 0, buf) + rest
  {
    if len < |buf| {
      assert t[off..|t| - cut] == [] && buf == buf[..len] + buf[len..];
    } else {
      assert buf[len..] == [] && buf[..len] == buf && t[off..] == t[off..|t| - cut] + t[|t| - cut..];
    }
  }

  /** The page table before and after the three steps of an insertion at `off` in page `i`: the end of
      the page moved out, the first bytes put in, the rest of them put after. */
  lemma InsertAroundText(t0: seq<seq<byte>>, t1: seq<seq<byte>>, t3: seq<seq<byte>>,
                         i: nat, off: nat, buf: seq<byte>, len: nat, cut: nat)
    requires i < |t0| <= |t1| <= |t3| && off + cut <= |t0[i]| && len <= |buf|
    requires len < |buf| ==> off + cut == |t0[i]|
    requires t1[..i + 1] == t0[..i + 1] && Flat(t1[i + 1..]) == t0[i][|t0[i]| - cut..] + Flat(t0[i + 1..])
    requires t3[..i] == t1[..i] && t3[i] == InPage(t0[i], off, buf[..len], cut)
    requires Flat(t3[i + 1..]) == buf[len..] + Flat(t1[i + 1..])
    ensures t3[..i] == t0[..i]
    ensures Flat(t3[i..]) == Splice(t0[i], off, 0, buf) + Flat(t0[i + 1..])
  {
    assert t1[..i] == t1[..i + 1][..i];
    hide InPage, Splice;
    FlatFrom(t3, i);
    PagePieces(t0[i], off, buf, len, cut, Flat(t0[i + 1..]));
  }

  /** Two texts that agree before page `i` and differ after it by an insertion at `off` in that page. */
  lemma SplitAround(before: seq<seq<byte>>, after: seq<seq<byte>>, i: nat, off: nat, x: seq<byte>)
    requires i < |before| && i <= |after| && off <= |before[i]| && after[..i] == before[..i]
    requires Flat(after[i..]) == Splice(before[i], off, 0, x) + Flat(before[i + 1..])
    ensures |Flat(before[..i])| + off <= |Flat(before)|
    ensures Flat(after) == Splice(Flat(before), |Flat(before[..i])| + off, 0, x)
  {
    FlatSplit(after, i);
    FlatAround(before, i);
    SpliceMiddle(Flat(before[..i]), before[i], Flat(before[i + 1..]), off, 0, x);
    Associate(Flat(before[..i]), Splice(before[i], off, 0, x), Flat(before[i + 1..]));
  }

  lemma KeepsPage(before: seq<seq<byte>>, after: seq<seq<byte>>, i: nat)
    requires i < |before| <= |after| && after[..i + 1] == before[..i + 1]
    ensures after[i] == before[i] && after[..i] == before[..i]
  {
    assert after[..i + 1][i] == before[..i + 1][i];
    assert after[..i] == after[..i + 1][..i] && before[..i] == before[..i + 1][..i];
  }

  lemma InsertFirst(before: seq<seq<byte>>, after: seq<seq<byte>>, x: seq<byte>)
    requires Flat(after[0..]) == x + Flat(before[0..])
    ensures Flat(after) == Splice(Flat(before), 0, 0, x)
  {
    assert after[0..] == after && before[0..] == before;
  }

  /** The text without the pages that are to be dropped. */
  ghost function Rest(pages: seq<seq<byte>>, delStart: int, n: nat): seq<byte>
    requires n > 0 ==> 0 <= delStart && delStart + n <= |pages|
  {
    if n == 0 then Flat(pages) else Flat(pages[..delStart] + pages[delStart + n..])
  }

  /** Page `start + n` is dropped as well. */
  lemma RestDrop(pages: seq<seq<byte>>, start: nat, n: nat)
    requires start + n < |pages|
    ensures |Flat(pages[..start])| + |pages[start + n]| <= |Rest(pages, start, n)|
    ensures Rest(pages, start, n + 1)
         == Splice(Rest(pages, start, n), |Flat(pages[..start])|, |pages[start + n]|, [])
  {
    var a, t, c := pages[..start], pages[start + n], pages[start + n + 1..];
    assert pages[start + n..] == [t] + c;
    RestOf(pages, start, n, a, [t] + c);
    RestOf(pages, start, n + 1, a, c);
    PagesAssociate(a, t, c);
    hide Rest;
    FlatMiddle(a, t, c);
    FlatConcat(a, c);
    SpliceMiddle(Flat(a), t, Flat(c), 0, |t|, []);
    SpliceWhole(t);
  }

  lemma SpliceWhole(t: seq<byte>)
    ensures Splice(t, 0, |t|, []) == []
  {
  }

  lemma PagesAssociate(a: seq<seq<byte>>, t: seq<byte>, c: seq<seq<byte>>)
    ensures a + ([t] + c) == a + [t] + c
  {
  }

  lemma RestOf(pages: seq<seq<byte>>, start: nat, n: nat, a: seq<seq<byte>>, c: seq<seq<byte>>)
    requires start + n <= |pages| && a == pages[..start] && c == pages[start + n..]
    ensures Rest(pages, start, n) == Flat(a + c)
  {
    assert n == 0 ==> pages == a + c;
  }

  /** Page `i`, after the dropped ones or with none dropped, loses `len` bytes. */
  lemma RestCut(pages: seq<seq<byte>>, i: nat, off: nat, len: nat, start: nat, n: nat)
    requires i < |pages| && off + len <= |pages[i]| && start <= i && (n > 0 ==> start + n == i)
    ensures var pos := |Flat(pages[..if n == 0 then i else start])| + off;
            var after := pages[i := Splice(pages[i], off, len, [])];
            && pos + len <= |Rest(pages, start, n)|
            && Rest(after, start, n) == Splice(Rest(pages, start, n), pos, len, [])
  {
    var after := pages[i := Splice(pages[i], off, len, [])];
    if n == 0 {
      FlatSplice(pages, i, off, len, []);
    } else {
      RestCutAfter(pages, i, off, len, start, n);
    }
  }

  lemma Halves(a: seq<byte>, b: seq<byte>)
    ensures (a + b)[..|a|] == a && (a + b)[|a|..] == b
  {
  }

  lemma NoPages(s: seq<byte>)
    ensures Flat([]) == [] && s[|s|..] == [] && s[..|s|] == s
  {
  }

  /** The end of page `i` from `off` on is moved to the next pages, then page `i` is cut there. */
  lemma CutText(before: seq<seq<byte>>, moved: seq<seq<byte>>, after: seq<seq<byte>>, i: nat, off: nat)
    requires i < |before| <= |moved| && off <= |before[i]|
    requires moved[..i + 1] == before[..i + 1]
    requires Flat(moved[i + 1..]) == before[i][off..] + Flat(before[i + 1..])
    requires after == moved[i := before[i][..off]]
    ensures var pos := |Flat(before[..i])| + off;
            pos <= |Flat(before)| && Flat(after[..i + 1]) == Flat(before)[..pos]
                && Flat(after[i + 1..]) == Flat(before)[pos..]
  {
    KeepsPage(before, moved, i);
    assert after[..i] == before[..i] && after[i + 1..] == moved[i + 1..];
    FlatUpTo(after, i);
    FlatAround(before, i);
    CutMiddle(Flat(before[..i]), before[i], Flat(before[i + 1..]), off);
  }

  lemma CutMiddle(a: seq<byte>, t: seq<byte>, c: seq<byte>, off: nat)
    requires off <= |t|
    ensures (a + t + c)[..|a| + off] == a + t[..off] && (a + t + c)[|a| + off..] == t[off..] + c
  {
  }

  lemma PageLeftUnless(pages: seq<seq<byte>>, i: nat, left: int)
    requires i <= |pages| && |Flat(pages[..i])| + left <= |Flat(pages)|
    ensures left > 0 ==> i < |pages|
  {
    if left > 0 {
      PageLeft(pages, i);
    }
  }

  /** Whole pages `i` to `i + n - 1` of `src`, and `left` bytes of the next one, put between the two
      halves of a text. */
  lemma SplicePagesText(s: seq<byte>, offset: nat, cut: seq<seq<byte>>, k: nat,
                        src: seq<seq<byte>>, p: nat, n: nat, left: nat,
                        placed: seq<seq<byte>>, after: seq<seq<byte>>)
    requires k <= |cut| && offset <= |s| && Flat(cut[..k]) == s[..offset] && Flat(cut[k..]) == s[offset..]
    requires p + n <= |src| && (left > 0 ==> p + n < |src| && left <= |src[p + n]|)
    requires placed == cut[..k] + src[p..p + n] + cut[k..] && k + n <= |after|
    requires if left == 0 then after == placed
             else after[..k + n] == placed[..k + n]
                  && Flat(after[k + n..]) == src[p + n][..left] + Flat(placed[k + n..])
    ensures var pos, end := |Flat(src[..p])|, |Flat(src[..p + n])| + left;
            pos <= end <= |Flat(src)| && Flat(after) == Splice(s, offset, 0, Flat(src)[pos..end])
  {
    hide Splice;
    var whole := src[p..p + n];
    var rest := if left == 0 then [] else src[p + n][..left];
    RangeAndMore(src, p, n, left);
    assert placed[..k + n] == cut[..k] + whole && placed[k + n..] == cut[k..];
    FlatConcat(cut[..k], whole);
    FlatSplit(after, k + n);
    SpliceHalves(s, offset, Flat(whole), rest);
  }

  lemma RangeAndMore(src: seq<seq<byte>>, p: nat, n: nat, left: nat)
    requires p + n <= |src| && (left > 0 ==> p + n < |src| && left <= |src[p + n]|)
    ensures var pos, end := |Flat(src[..p])|, |Flat(src[..p + n])| + left;
            pos <= end <= |Flat(src)| && Flat(src)[pos..end] == Flat(src[p..p + n]) + if left == 0 then []
                else src[p + n][..left]
  {
    FlatRange(src, p, p + n);
    if left > 0 {
      hide Flat;
      var pos, mid := |Flat(src[..p])|, |Flat(src[..p + n])|;
      FlatSlice(src, p + n, 0, left);
      SliceMore(Flat(src), pos, mid, mid + left);
    }
  }

  lemma SpliceHalves(s: seq<byte>, offset: nat, x: seq<byte>, y: seq<byte>)
    requires offset <= |s|
    ensures s[..offset] + x + (y + s[offset..]) == Splice(s, offset, 0, x + y)
    ensures y == [] ==> s[..offset] + x + s[offset..] == Splice(s, offset, 0, x + y)
  {
    assert y == [] ==> x + y == x;
  }

  /** Half way through reading or overwriting `size` bytes at `offset` of `t0`, page by page: `done` bytes
      are done, and the next one is at `off` in page `i`. */
  ghost predicate Moving(pages: seq<seq<byte>>, i: int, off: int, t0: seq<byte>, offset: nat, size: nat, done: int,
                         data: seq<byte>, doWrite: bool, out: seq<byte>)
  {
    && 0 <= done <= size && offset + size <= |t0| && 0 <= i <= |pages| && 0 <= off
    && (doWrite ==> |data| == size && Flat(pages) == Splice(t0, offset, done, data[..done]))
    && (!doWrite ==> Flat(pages) == t0 && out == t0[offset..offset + done])
    && (done < size ==> i < |pages| && off < |pages[i]| && |Flat(pages[..i])| + off == offset + done)
  }

  lemma MovingBegins(pages: seq<seq<byte>>, i: nat, off: nat, offset: nat, size: nat, data: seq<byte>, doWrite: bool)
    requires i < |pages| && off < |pages[i]| && |Flat(pages[..i])| + off == offset && offset + size <= |Flat(pages)|
    requires doWrite ==> |data| == size
    ensures Moving(pages, i, off, Flat(pages), offset, size, 0, data, doWrite, [])
  {
    SpliceNothing(Flat(pages), offset, data);
  }

  lemma MovingAt(pages: seq<seq<byte>>, i: int, off: int, t0: seq<byte>, offset: nat, size: nat, done: int,
                 data: seq<byte>, doWrite: bool, out: seq<byte>)
    requires Moving(pages, i, off, t0, offset, size, done, data, doWrite, out) && done < size
    ensures 0 <= i < |pages| && 0 <= off < |pages[i]| && 0 <= done && (doWrite ==> |data| == size)
  {
  }

  lemma MovingStep(pages: seq<seq<byte>>, after: seq<seq<byte>>, i: nat, off: nat, t0: seq<byte>, offset: nat,
                   size: nat,
                   done: nat, len: nat, data: seq<byte>, doWrite: bool, read: seq<byte>, out: seq<byte>)
    requires Moving(pages, i, off, t0, offset, size, done, data, doWrite, read) && done < size
    requires len == if |pages[i]| - off > size - done then size - done else |pages[i]| - off
    requires after == if doWrite then pages[i := Splice(pages[i], off, len, data[done..done + len])] else pages
    requires !doWrite ==> out == read + pages[i][off..off + len]
    requires forall k :: 0 <= k < |pages| ==> pages[k] != []
    ensures |after| == |pages| && |after[i]| == |pages[i]|
    ensures var end := off + len >= |pages[i]|;
            Moving(after, if end then i + 1 else i, if end then 0
                   else off + len, t0, offset, size, done + len, data, doWrite, out)
  {
    hide Splice;
    if doWrite {
      var x := data[done..done + len];
      FlatSplice(pages, i, off, len, x);
      SpliceMore(t0, offset, done, len, data[..done], x);
      assert data[..done + len] == data[..done] + x;
    } else {
      FlatSlice(pages, i, off, len);
      SliceMore(t0, offset, offset + done, offset + done + len);
    }
    FrontKept(pages, after, i, i);
    hide Flat;
    MovingOn(pages, after, i, off, |t0|, offset, size, done, len);
  }

  /** Where the next byte is, after `len` more. */
  lemma MovingOn(pages: seq<seq<byte>>, after: seq<seq<byte>>, i: nat, off: nat, total: nat, offset: nat, size: nat,
                 done: nat, len: nat)
    requires i < |pages| == |after| && off < |pages[i]| && |Flat(pages[..i])| + off == offset + done
    requires after[..i] == pages[..i] && after == pages[i := after[i]] && |after[i]| == |pages[i]|
    requires done < size && offset + size <= total == |Flat(after)| && forall k :: 0 <= k < |pages| ==> pages[k] != []
    requires len == if |pages[i]| - off > size - done then size - done else |pages[i]| - off
    ensures done + len < size ==>
              off + len >= |pages[i]| && i + 1 < |after| && after[i + 1] != []
                  && |Flat(after[..i + 1])| == offset + done + len
  {
    hide Flat;
    if done + len < size {
      FlatUpTo(after, i);
      PageLeft(after, i + 1);
      assert after[i + 1] == pages[i + 1];
    }
  }

  lemma FrontKept(pages: seq<seq<byte>>, after: seq<seq<byte>>, i: nat, c: nat)
    requires i < |pages| == |after| && c <= i && after == pages[i := after[i]]
    ensures after[..c] == pages[..c]
  {
  }

  lemma MovingDone(pages: seq<seq<byte>>, i: int, off: int, t0: seq<byte>, offset: nat, size: nat, done: int,
                   data: seq<byte>, doWrite: bool, out: seq<byte>)
    requires Moving(pages, i, off, t0, offset, size, done, data, doWrite, out) && done >= size
    ensures offset + size <= |t0|
    ensures doWrite ==> |data| == size && Flat(pages) == Splice(t0, offset, size, data)
    ensures !doWrite ==> out == t0[offset..offset + size]
  {
    hide Splice, Flat;
    assert doWrite ==> data[..size] == data;
  }

  lemma RestCutAfter(pages: seq<seq<byte>>, i: nat, off: nat, len: nat, start: nat, n: nat)
    requires i < |pages| && off + len <= |pages[i]| && n > 0 && start + n == i
    ensures var pos := |Flat(pages[..start])| + off;
            var after := pages[i := Splice(pages[i], off, len, [])];
            && pos + len <= |Rest(pages, start, n)|
            && Rest(after, start, n) == Splice(Rest(pages, start, n), pos, len, [])
  {
    hide Splice, Flat;
    var page := Splice(pages[i], off, len, []);
    var after := pages[i := page];
    var kept := pages[..start] + pages[i..];
    FlatSplice(kept, start, off, len, []);
    assert kept[..start] == pages[..start];
    assert kept[start := page] == after[..start] + after[i..];
  }

  /** Half way through a deletion of `size` bytes at `offset` of `t0`, with `left` bytes to go from `off` in
      page `i` on: `n` whole pages from `delStart` on are still in the table but not in the text. */
  ghost predicate Deleting(pages: seq<seq<byte>>, i: int, off: int, delStart: int, n: int,
                           t0: seq<byte>, offset: nat, size: nat, left: int)
  {
    && 0 <= left <= size && offset + size <= |t0| && 0 <= n && 0 <= off && 0 <= i
    && (forall k :: 0 <= k < |pages| ==> pages[k] != [])
    && (if n == 0 then delStart == -1 else 0 <= delStart && delStart + n <= |pages|)
    && Rest(pages, delStart, n) == Splice(t0, offset, size - left, [])
    && (left > 0 ==> i < |pages| && off < |pages[i]|)
    && (left > 0 && n == 0 ==> |Flat(pages[..i])| + off == offset)
    && (left > 0 && n > 0 ==> i == delStart + n && off == 0 && |Flat(pages[..delStart])| == offset)
  }

  lemma DeletingBegins(pages: seq<seq<byte>>, i: nat, off: nat, offset: nat, size: nat)
    requires i < |pages| && off < |pages[i]| && |Flat(pages[..i])| + off == offset && offset + size <= |Flat(pages)|
    requires forall k :: 0 <= k < |pages| ==> pages[k] != []
    ensures Deleting(pages, i, off, -1, 0, Flat(pages), offset, size, size)
  {
    SpliceNothing(Flat(pages), offset, []);
  }

  lemma DeletingAt(pages: seq<seq<byte>>, i: int, off: int, delStart: int, n: int,
                   t0: seq<byte>, offset: nat, size: nat, left: int)
    requires Deleting(pages, i, off, delStart, n, t0, offset, size, left) && left > 0
    ensures 0 <= i < |pages| && 0 <= off < |pages[i]| && n >= 0 && left <= size && (n == 0 <==> delStart == -1)
  {
  }

  /** The whole of page `i` is to go. */
  lemma DeletingPage(pages: seq<seq<byte>>, i: int, off: int, delStart: int, n: int,
                     t0: seq<byte>, offset: nat, size: nat, left: int)
    requires Deleting(pages, i, off, delStart, n, t0, offset, size, left) && left > 0
    requires off == 0 && |pages[i]| <= left
    ensures Deleting(pages, i + 1, 0, if n == 0 then i else delStart, n + 1, t0, offset, size, left - |pages[i]|)
  {
    hide Splice;
    var start := if n == 0 then i else delStart;
    SpliceMore(t0, offset, size - left, |pages[i]|, [], []);
    RestDrop(pages, start, n);
    if left > |pages[i]| {
      RestLeft(pages, start, n + 1);
    }
  }

  /** A part of page `i` is to go: to its end, or the last bytes of the deletion. */
  lemma DeletingPart(pages: seq<seq<byte>>, i: int, off: int, delStart: int, n: int,
                     t0: seq<byte>, offset: nat, size: nat, left: int, len: int)
    requires Deleting(pages, i, off, delStart, n, t0, offset, size, left) && left > 0
    requires 0 < len == (if |pages[i]| - off > left then left else |pages[i]| - off) < |pages[i]|
    ensures var after := pages[i := Splice(pages[i], off, len, [])]; var end := off + len >= |after[i]|;
            Deleting(after, if end then i + 1 else i, if end then 0
                     else off + len, delStart, n, t0, offset, size, left - len)
  {
    hide Splice, Flat;
    var after := pages[i := Splice(pages[i], off, len, [])];
    SpliceMore(t0, offset, size - left, len, [], []);
    RestCut(pages, i, off, len, if n == 0 then 0 else delStart, n);
    assert forall k :: 0 <= k < |after| ==> after[k] != [];
    if left > len {
      RestNothing(after);
      DeletingNext(pages, after, i, offset);
    }
  }

  lemma RestNothing(pages: seq<seq<byte>>)
    ensures Rest(pages, -1, 0) == Flat(pages)
  {
  }

  lemma DeletingNext(pages: seq<seq<byte>>, after: seq<seq<byte>>, i: nat, offset: nat)
    requires i < |pages| == |after| && after == pages[i := after[i]]
    requires |Flat(pages[..i])| + |after[i]| == offset < |Flat(after)|
    ensures i + 1 < |after| && |Flat(after[..i + 1])| == offset
  {
    assert after[..i] == pages[..i];
    FlatUpTo(after, i);
    PageLeft(after, i + 1);
  }

  lemma DeletingDone(pages: seq<seq<byte>>, i: int, off: int, delStart: int, n: int,
                     t0: seq<byte>, offset: nat, size: nat, left: int)
    requires Deleting(pages, i, off, delStart, n, t0, offset, size, left) && left <= 0
    ensures offset + size <= |t0|
    ensures n > 0 ==> 0 <= delStart && delStart + n <= |pages|
                      && Flat(pages[..delStart] + pages[delStart + n..]) == Splice(t0, offset, size, [])
    ensures n <= 0 ==> Flat(pages) == Splice(t0, offset, size, [])
  {
    hide Splice, Flat;
  }

  lemma RestLeft(pages: seq<seq<byte>>, start: nat, n: nat)
    requires 0 < n && start + n <= |pages| && |Flat(pages[..start])| < |Rest(pages, start, n)|
    ensures start + n < |pages|
  {
    assert pages[..start] + [] == pages[..start];
    assert pages[|pages|..] == [];
  }

  lemma NothingBefore(x: seq<byte>)
    ensures [] + x == x
  {
  }

  lemma AddNothing(t: seq<byte>, x: seq<byte>)
    ensures x == [] ==> t + x == t
  {
  }

  lemma AddParts(t: seq<byte>, a: seq<byte>, b: seq<byte>, c: seq<byte>)
    ensures t + a + b + c == t + (a + b + c)
  {
  }

  lemma DivSmall(a: nat, m: nat)
    requires a < m
    ensures a / m == 0
  {
  }

  lemma DivStep(a: nat, m: nat)
    requires m > 0
    ensures (a + m) / m == 1 + a / m
  {
    DivUnique(a + m, m, 1 + a / m, a % m);
  }

  lemma DivUnique(a: nat, m: nat, q: nat, r: nat)
    requires m > 0 && a == q * m + r && r < m
    ensures a / m == q
  {
    var d := a / m - q;
    assert d * m == (a / m) * m - q * m;
    if d != 0 {
      AtLeast(if d > 0 then d else -d, m);
    }
  }

  lemma AtLeast(k: int, m: nat)
    requires k >= 1
    ensures k * m >= m
  {
  }
}
