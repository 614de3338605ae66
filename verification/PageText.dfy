/** Texts cut into pages: the plain byte sequence that a page table stands for. */
module PageText {

  type byte = x: int | 0 <= x < 256

  /** The largest number of bytes in one page; the sources use 4096, or 16 for tests. */
  const MAX_PAGE_SIZE: PageSize

  type PageSize = x: int | 1 <= x witness 1

  /** The bytes of the pages, one page after the other. */
  function Flat(pages: seq<seq<byte>>): seq<byte> {
    if pages == [] then [] else pages[0] + Flat(pages[1..])
  }

  lemma {:induction false} FlatConcat(a: seq<seq<byte>>, b: seq<seq<byte>>)
    ensures Flat(a + b) == Flat(a) + Flat(b)
  {
    if a == [] {
      assert a + b == b;
    } else {
      assert (a + b)[1..] == a[1..] + b;
      FlatConcat(a[1..], b);
    }
  }

  lemma FlatOne(t: seq<byte>)
    ensures Flat([t]) == t
  {
    assert [t][1..] == [];
  }

  lemma FlatThree(a: seq<seq<byte>>, b: seq<seq<byte>>, c: seq<seq<byte>>)
    ensures Flat(a + b + c) == Flat(a) + Flat(b) + Flat(c)
  {
    FlatConcat(a + b, c);
    FlatConcat(a, b);
  }

  lemma FlatSplit(pages: seq<seq<byte>>, i: nat)
    requires i <= |pages|
    ensures Flat(pages) == Flat(pages[..i]) + Flat(pages[i..])
  {
    assert pages == pages[..i] + pages[i..];
    FlatConcat(pages[..i], pages[i..]);
  }

  lemma FlatMiddle(a: seq<seq<byte>>, t: seq<byte>, c: seq<seq<byte>>)
    ensures Flat(a + [t] + c) == Flat(a) + t + Flat(c)
  {
    FlatThree(a, [t], c);
    FlatOne(t);
  }

  lemma FlatUpTo(pages: seq<seq<byte>>, i: nat)
    requires i < |pages|
    ensures Flat(pages[..i + 1]) == Flat(pages[..i]) + pages[i]
  {
    assert pages[..i + 1] == pages[..i] + [pages[i]];
    FlatConcat(pages[..i], [pages[i]]);
    FlatOne(pages[i]);
  }

  lemma FlatFrom(pages: seq<seq<byte>>, i: nat)
    requires i < |pages|
    ensures Flat(pages[i..]) == pages[i] + Flat(pages[i + 1..])
  {
    assert pages[i..][1..] == pages[i + 1..];
  }

  /** The text `s` with the `len` bytes at `pos` replaced by `x`. */
  function Splice(s: seq<byte>, pos: nat, len: nat, x: seq<byte>): (r: seq<byte>)
    requires pos + len <= |s|
    ensures |r| == |s| - len + |x|
  {
    s[..pos] + x + s[pos + len..]
  }

  /** The text around page `i`: what is before it, the page, and what follows. */
  lemma FlatAround(pages: seq<seq<byte>>, i: nat)
    requires i < |pages|
    ensures Flat(pages) == Flat(pages[..i]) + pages[i] + Flat(pages[i + 1..])
  {
    FlatSplit(pages, i);
    FlatFrom(pages, i);
    Associate(Flat(pages[..i]), pages[i], Flat(pages[i + 1..]));
  }

  lemma Associate(a: seq<byte>, b: seq<byte>, c: seq<byte>)
    ensures a + (b + c) == a + b + c
  {
  }

  lemma SpliceMiddle(a: seq<byte>, t: seq<byte>, c: seq<byte>, off: nat, len: nat, x: seq<byte>)
    requires off + len <= |t|
    ensures Splice(a + t + c, |a| + off, len, x) == a + Splice(t, off, len, x) + c
  {
    var s := a + t + c;
    assert s[..|a| + off] == a + t[..off];
    assert s[|a| + off + len..] == t[off + len..] + c;
  }

  /** Changing one page changes the text at the place where the page stands. */
  lemma FlatSplice(pages: seq<seq<byte>>, i: nat, off: nat, len: nat, x: seq<byte>)
    requires i < |pages| && off + len <= |pages[i]|
    ensures |Flat(pages[..i])| + off + len <= |Flat(pages)|
    ensures Flat(pages[i := Splice(pages[i], off, len, x)])
         == Splice(Flat(pages), |Flat(pages[..i])| + off, len, x)
  {
    var t := Splice(pages[i], off, len, x);
    FlatAround(pages, i);
    SpliceMiddle(Flat(pages[..i]), pages[i], Flat(pages[i + 1..]), off, len, x);
    assert pages[i := t] == pages[..i] + [t] + pages[i + 1..];
    FlatMiddle(pages[..i], t, pages[i + 1..]);
  }

  /** As long as the pages before `i` are not the whole text, there is a page `i`. */
  lemma PageLeft(pages: seq<seq<byte>>, i: nat)
    requires i <= |pages| && |Flat(pages[..i])| < |Flat(pages)|
    ensures i < |pages|
  {
    assert pages[..|pages|] == pages;
  }

  lemma FlatSlice(pages: seq<seq<byte>>, i: nat, off: nat, len: nat)
    requires i < |pages| && off + len <= |pages[i]|
    ensures var pos := |Flat(pages[..i])| + off;
            pos + len <= |Flat(pages)| && Flat(pages)[pos..pos + len] == pages[i][off..off + len]
  {
    FlatAround(pages, i);
    SliceMiddle(Flat(pages[..i]), pages[i], Flat(pages[i + 1..]), off, len);
  }

  lemma SliceMiddle(a: seq<byte>, t: seq<byte>, c: seq<byte>, off: nat, len: nat)
    requires off + len <= |t|
    ensures (a + t + c)[|a| + off..|a| + off + len] == t[off..off + len]
  {
  }

  lemma SliceMore(s: seq<byte>, from: nat, mid: nat, to: nat)
    requires from <= mid <= to <= |s|
    ensures s[from..mid] + s[mid..to] == s[from..to]
  {
  }

  /** Two splices side by side are one. */
  lemma SpliceMore(s: seq<byte>, pos: nat, done: nat, len: nat, x: seq<byte>, y: seq<byte>)
    requires pos + done + len <= |s|
    ensures Splice(Splice(s, pos, done, x), pos + |x|, len, y) == Splice(s, pos, done + len, x + y)
  {
    var t := Splice(s, pos, done, x);
    assert t[..pos + |x|] == s[..pos] + x;
    assert t[pos + |x| + len..] == s[pos + done + len..];
  }

  lemma SpliceNothing(s: seq<byte>, pos: nat, x: seq<byte>)
    requires pos <= |s|
    ensures Splice(s, pos, 0, x[..0]) == s
  {
  }

  lemma FlatRange(pages: seq<seq<byte>>, i: nat, j: nat)
    requires i <= j <= |pages|
    ensures |Flat(pages[..i])| <= |Flat(pages[..j])| <= |Flat(pages)|
    ensures Flat(pages[i..j]) == Flat(pages)[|Flat(pages[..i])|..|Flat(pages[..j])|]
  {
    FlatSplit(pages, j);
    FlatSplit(pages[..j], i);
    assert pages[..j][..i] == pages[..i] && pages[..j][i..] == pages[i..j];
  }
}
