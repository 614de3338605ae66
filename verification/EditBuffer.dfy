/** The edit buffer: a text cut into pages, some of them read-only and shared. */
module EditBuffers {
  import opened PageText
  import opened PageEdits
  import opened TextCounts
  import opened UndoLog
  import opened LogBytes

  /** A block of memory holding the bytes of a page; several pages may refer to one block. */
  class Block {
    var bytes: seq<byte>

    constructor (bytes: seq<byte>)
      ensures this.bytes == bytes
    {
      this.bytes := bytes;
    }
  }

  /** One page. Its size is the number of bytes in its block. */
  datatype Page = Page(
    data: Block,
    readOnly: bool,
    validPos: bool, nbLines: nat, col: nat,
    validChar: bool, nbChars: nat)

  ghost predicate PageOk(p: Page, t: seq<byte>, cs: Charset)
    reads p.data
  {
    && p.data.bytes == t
    && 1 <= |t| <= MAX_PAGE_SIZE
    && (p.validPos ==> p.nbLines == Lines(t) && p.col == Columns(LastLine(t), cs))
    && (p.validChar ==> p.nbChars == Chars(t, cs))
  }

  /** Pages that are not read-only lie in blocks of `own`, each in one of its own;
      read-only pages lie in blocks of `shared`. */
  ghost predicate BlocksOk(pages: seq<Page>, own: set<Block>, shared: set<Block>) {
    && own !! shared
    && (forall i :: 0 <= i < |pages| ==> pages[i].data in if pages[i].readOnly then shared else own)
    && (forall i, j :: 0 <= i < j < |pages| && !pages[i].readOnly ==> pages[i].data != pages[j].data)
  }

  function Lowered(offsets: seq<int>, offset: int): (r: seq<int>)
    ensures |r| == |offsets|
  {
    seq(|offsets|, i requires 0 <= i < |offsets| => if offset < offsets[i] then offset else offsets[i])
  }

  lemma LoweredTwice(offsets: seq<int>, a: int, b: int)
    requires a <= b
    ensures Lowered(Lowered(offsets, a), b) == Lowered(offsets, a)
  {
  }

  function UndoStart(d: Doc, lastWasUndo: bool): Doc {
    if lastWasUndo then d else NewChain(d)
  }

  /** Where the cursor is put by an undo. */
  function UndoPoint(r: Record): nat {
    if r.op == LogInsert then r.offset else r.offset + r.size
  }

  /** What dropping the oldest record means for the log in its buffer. */
  lemma DropFirst(log: seq<Record>, cur: int)
    requires LogFits(log) && log != [] && -1 <= cur <= |log|
    ensures RecordFits(log[0]) && LogFits(log[1..])
    ensures var t, r := LogText(log), log[0]; var len := HEADER_SIZE + |r.data| + INT_SIZE;
            && len <= |t| && t[0..HEADER_SIZE] == RecordHeader(r) && t[len..] == LogText(log[1..])
            && (cur > 0 ==> LogPos(log[1..], cur - 1) == LogPos(log, cur) - len && LogPos(log, cur) > 0)
            && (cur == 0 ==> LogPos(log[1..], 0) == LogPos(log, 0) == 0)
  {
    hide Flat, Header;
    assert log[0] in log;
    LogRecordAt(log, 0);
    LogEnds(log);
    LogDropFirst(log);
    LogEnds(log[1..]);
    if cur > 0 {
      LogGrows(log, cur);
    }
  }

  /** A write in terms of the edits that it is made of. */
  ghost function Written(d: Doc, offset: nat, buf: seq<byte>): Doc
    requires DocOk(d) && offset <= |d.text|
  {
    var n := if offset + |buf| <= |d.text| then |buf| else |d.text| - offset;
    var over := if n > 0 then Apply(d, UndoLog.Edit.Overwrite(offset, buf[..n])) else d;
    if n < |buf| then Apply(over, UndoLog.Edit.Insert(offset + n, buf[n..])) else over
  }

  /** A write is one that stays inside the text, and an insertion of what is left. */
  lemma WrittenParts(d: Doc, offset: nat, buf: seq<byte>, n: nat, over: Doc)
    requires DocOk(d) && offset <= |d.text| && n == if offset + |buf| <= |d.text| then |buf| else |d.text| - offset
    requires if n > 0 then over == Apply(d, UndoLog.Edit.Overwrite(offset, buf[..n])) else over == d
    ensures Written(d, offset, buf)
         == if n < |buf| then Apply(over, UndoLog.Edit.Insert(offset + n, buf[n..])) else over
  {
    hide Apply;
  }

  /** A write puts its bytes where the text has others, and goes on past its end. */
  lemma WrittenIs(d: Doc, offset: nat, buf: seq<byte>)
    requires DocOk(d) && offset <= |d.text|
    ensures Written(d, offset, buf).text
         == d.text[..offset] + buf + if offset + |buf| < |d.text| then d.text[offset + |buf|..] else []
  {
    hide AddRecord, RecordFor;
    var n := if offset + |buf| <= |d.text| then |buf| else |d.text| - offset;
    assert buf == buf[..n] + buf[n..];
    var over := d.text[..offset] + buf[..n] + d.text[offset + n..];
    assert over[..offset + n] == d.text[..offset] + buf[..n] && over[offset + n..] == d.text[offset + n..];
  }

  /** After an undo the cursor stands behind the bytes that came back, or where the inserted ones were. */
  lemma PointBehindRestored(d: Doc)
    requires CanUndo(d)
    ensures var r := d.log[Left(d) - 1]; var p, t := UndoPoint(r), UndoStep(d).text;
            if r.op == LogInsert then p + r.size <= |d.text| && t == d.text[..p] + d.text[p + r.size..]
            else |r.data| <= p <= |t| && t[p - |r.data|..p] == r.data
  {
    UndoStepText(d);
    hide UndoStep;
  }

  class EditBuffer {
    var pageTable: seq<Page>
    var totalSize: int
    var curPage: int      // -1 where the source has NULL
    var curOffset: int
    const charset: Charset

    // the log: on or off, its bytes, and where the chain of undos stands
    var modified: bool
    var saveLog: bool
    var logBuffer: EditBuffer?
    var logNewIndex: int
    var logCurrent: int    // 1 + the index in the log, 0 where no undo is going on
    var nbLogs: int

    // modification callbacks: the field that each registered colouring callback lowers
    var colorOffsets: seq<int>

    /** The contents of each page. */
    ghost var text: seq<seq<byte>>
    /** The blocks this buffer may write to, and the read-only ones it refers to. */
    ghost var own: set<Block>
    ghost var shared: set<Block>
    /** The records in the log, and how many are left below the last undone one (or -1). */
    ghost var records: seq<Record>
    ghost var cur: int

    ghost function Text(): seq<byte>
      reads this`text
    {
      Flat(text)
    }

    ghost predicate TableValid()
      reads this`pageTable, this`text, this`own, this`shared, own, shared
      ensures TableValid() ==> own !! shared
    {
      && |text| == |pageTable|
      && BlocksOk(pageTable, own, shared)
      && (forall i :: 0 <= i < |text| ==> PageOk(pageTable[i], text[i], charset))
    }

    lemma PageCount()
      requires TableValid()
      ensures |pageTable| == |text|
    {
    }

    lemma PagesNotEmpty()
      requires TableValid()
      ensures forall i :: 0 <= i < |text| ==> text[i] != []
    {
    }

    ghost predicate CacheValid()
      reads this`curPage, this`curOffset, this`text
    {
      curPage == -1 || (0 <= curPage < |text| && curOffset == |Flat(text[..curPage])|)
    }

    ghost predicate PagesValid()
      reads this`pageTable, this`text, this`curPage, this`curOffset, this`own, this`shared, own, shared
    {
      TableValid() && CacheValid()
    }

    /** The bytes of page `i`; its size is their number. */
    function Data(i: nat): (d: seq<byte>)
      requires TableValid() && i < |text|
      reads this`pageTable, this`text, this`own, this`shared, own, shared
      ensures i < |pageTable| && d == text[i] && 1 <= |d| <= MAX_PAGE_SIZE
    {
      pageTable[i].data.bytes
    }

    /** Finds the page of an offset, and the offset inside that page. */
    method FindPage(offset: nat) returns (i: nat, off: nat)
      requires PagesValid() && offset < |Text()|
      modifies this`curPage, this`curOffset
      ensures PagesValid()
      ensures i < |text| && off < |text[i]| && offset == |Flat(text[..i])| + off
      ensures curPage == i && curOffset == offset - off
    {
      if curPage != -1 && offset >= curOffset && offset < curOffset + |Data(curPage)| {
        return curPage, offset - curOffset;
      }
      i, off := 0, offset;
      FlatSplit(text, 0);
      while off >= |Data(i)|
        invariant i < |text| && offset == |Flat(text[..i])| + off
        invariant off < |Flat(text[i..])|
        decreases |text| - i
      {
        FlatUpTo(text, i);
        FlatFrom(text, i);
        off := off - |Data(i)|;
        i := i + 1;
        assert |Flat(text[i..])| > 0;
      }
      curPage, curOffset := i, offset - off;
    }

    /** Prepares a page to be written: a read-only page gets its own copy of the block. */
    method UpdatePage(i: nat)
      requires TableValid() && i < |text|
      modifies this`pageTable, this`own
      ensures TableValid()
      ensures pageTable == old(pageTable)[i := pageTable[i]]
      ensures !pageTable[i].readOnly && !pageTable[i].validPos && !pageTable[i].validChar
      ensures if old(pageTable)[i].readOnly then fresh(pageTable[i].data)
              else pageTable[i].data == old(pageTable)[i].data
      ensures fresh(own - old(own)) && shared == old(shared)
    {
      var p := pageTable[i];
      if p.readOnly {
        var buf := new Block(p.data.bytes);
        own := own + {buf};
        p := p.(data := buf, readOnly := false);
      }
      p := p.(validPos := false, validChar := false);
      pageTable := pageTable[i := p];
    }

    /** Inserts `x` in page `i` at `off`; the last `cut` bytes of the page are lost. */
    method InsertInPage(i: nat, off: nat, x: seq<byte>, cut: nat)
      requires TableValid() && i < |text| && off + cut <= |text[i]| && cut <= |x|
      requires |text[i]| + |x| - cut <= MAX_PAGE_SIZE
      modifies this`pageTable, this`text, this`own, this`shared, own
      ensures TableValid()
      ensures text == old(text)[i := InPage(old(text)[i], off, x, cut)]
      ensures pageTable == old(pageTable)[i := pageTable[i]]
      ensures fresh(own - old(own)) && shared == old(shared)
    {
      hide Flat, Realloc, MemMove, MemCpy;
      UpdatePage(i);
      var data, size := pageTable[i].data, |pageTable[i].data.bytes|;
      MakeRoom(data.bytes, off, x, cut);
      text := text[i := InPage(text[i], off, x, cut)];
      var bytes := Realloc(data.bytes, size + |x| - cut);
      bytes := MemMove(bytes, off + |x|, off, |bytes| - (off + |x|));
      data.bytes := MemCpy(bytes, off, x);
    }

    /** The new pages that hold `bytes`: as few as possible, every one but the last full. */
    static method NewPages(bytes: seq<byte>, n: nat, cs: Charset)
      returns (added: seq<Page>, ghost addedText: seq<seq<byte>>, ghost blocks: set<Block>)
      requires n == (|bytes| + MAX_PAGE_SIZE - 1) / MAX_PAGE_SIZE
      ensures |added| == |addedText| == n && Flat(addedText) == bytes
      ensures forall k :: 0 <= k < n ==> PageOk(added[k], addedText[k], cs)
      ensures fresh(blocks) && BlocksOk(added, blocks, {})
    {
      added, addedText, blocks := [], [], {};
      var done := 0;
      while done < |bytes|
        invariant done <= |bytes|
        invariant |added| + (|bytes| - done + MAX_PAGE_SIZE - 1) / MAX_PAGE_SIZE == n
        invariant |added| == |addedText| && Flat(addedText) == bytes[..done]
        invariant forall k :: 0 <= k < |added| ==> PageOk(added[k], addedText[k], cs)
        invariant fresh(blocks) && BlocksOk(added, blocks, {})
      {
        var len := if |bytes| - done > MAX_PAGE_SIZE then MAX_PAGE_SIZE else |bytes| - done;
        var data := new Block(bytes[done..done + len]);
        blocks := blocks + {data};
        added := added + [Page(data, false, false, 0, 0, false, 0)];
        FlatConcat(addedText, [data.bytes]);
        FlatOne(data.bytes);
        addedText := addedText + [data.bytes];
        PageCountStep(|bytes| - done, len);
        done := done + len;
      }
      DivSmall(MAX_PAGE_SIZE - 1, MAX_PAGE_SIZE);
    }

    /** Moves the pages from `k` on up and puts the pages `added` in their place. */
    method PlacePages(k: nat, added: seq<Page>, ghost addedText: seq<seq<byte>>,
                      ghost newOwn: set<Block>, ghost newShared: set<Block>)
      requires TableValid() && k <= |text|
      requires BlocksOk(added, newOwn, newShared) && newOwn !! own + shared && newShared !! own
      requires |added| == |addedText|
      requires forall i :: 0 <= i < |added| ==> PageOk(added[i], addedText[i], charset)
      modifies this`pageTable, this`text, this`own, this`shared
      ensures TableValid()
      ensures own == old(own) + newOwn && shared == old(shared) + newShared
      ensures text == old(text)[..k] + addedText + old(text)[k..]
      ensures pageTable == old(pageTable)[..k] + added + old(pageTable)[k..]
    {
      pageTable := pageTable[..k] + added + pageTable[k..];
      text := text[..k] + addedText + text[k..];
      own, shared := own + newOwn, shared + newShared;
    }

    /** Inserts at the beginning of page `pageIndex`: the end of `buf` goes into that page as far as
        there is room, the rest into new pages before it. */
    method Insert1(pageIndex: nat, buf: seq<byte>)
      requires TableValid() && pageIndex <= |text|
      modifies this`pageTable, this`text, this`own, this`shared, own
      ensures TableValid()
      ensures |text| >= |old(text)| && Flat(text[pageIndex..]) == buf + Flat(old(text)[pageIndex..])
      ensures text[..pageIndex] == old(text)[..pageIndex]
      ensures pageTable[..pageIndex] == old(pageTable)[..pageIndex]
      ensures fresh(own - old(own)) && shared == old(shared)
    {
      hide Flat, InPage, TableValid, BlocksOk, PageOk;
      PageCount();
      var size := |buf|;
      if pageIndex < |pageTable| {
        var len := MAX_PAGE_SIZE - |Data(pageIndex)|;
        if len > size {
          len := size;
        }
        if len > 0 {
          InsertInPage(pageIndex, 0, buf[size - len..], 0);
          size := size - len;
        }
      }
      ghost var grown, grownTable := text, pageTable;
      // what did not fit goes to pages of its own
      var n := (size + MAX_PAGE_SIZE - 1) / MAX_PAGE_SIZE;
      ghost var addedText := [];
      if n > 0 {
        var added;
        ghost var blocks;
        added, addedText, blocks := NewPages(buf[..size], n, charset);
        PlacePages(pageIndex, added, addedText, blocks, {});
        FrontPlaced(grownTable, pageIndex, added);
      } else {
        NoPageMeansEmpty(size);
        PlaceNothing(text, pageIndex);
      }
      Insert1Text(old(text), grown, addedText, pageIndex, buf, size);
    }

    /** Inserts `buf` at `offset`; what does not fit in the page goes into the pages after it. */
    method InsertLowlevel(offset: nat, buf: seq<byte>)
      requires PagesValid() && offset <= |Text()|
      modifies this`pageTable, this`text, this`own, this`shared, this`totalSize, this`curPage, this`curOffset, own
      ensures PagesValid()
      ensures Text() == Splice(old(Text()), offset, 0, buf) && totalSize == old(totalSize) + |buf|
      ensures fresh(own - old(own)) && shared == old(shared)
    {
      hide Flat, Splice;
      totalSize := totalSize + |buf|;
      if offset > 0 {
        var i, off := FindPage(offset - 1);
        InsertAround(i, off + 1, buf);
        SplitAround(old(text), text, i, off + 1, buf);
      } else {
        Insert1(0, buf);
        InsertFirst(old(text), text, buf);
      }
      curPage := -1;
    }

    /** Inserts at `off` in page `i`, past its first byte. */
    method InsertAround(i: nat, off: nat, buf: seq<byte>)
      requires TableValid() && i < |text| && 0 < off <= |text[i]|
      modifies this`pageTable, this`text, this`own, this`shared, own
      ensures TableValid()
      ensures |text| >= |old(text)| && text[..i] == old(text)[..i]
      ensures Flat(text[i..]) == Splice(old(text)[i], off, 0, buf) + Flat(old(text)[i + 1..])
      ensures fresh(own - old(own)) && shared == old(shared)
    {
      hide Flat, InPage, Splice;
      // what we can insert in the current page, and what goes from it to the next pages
      var len := MAX_PAGE_SIZE - off;
      if len > |buf| {
        len := |buf|;
      }
      var size := |Data(i)|;
      var lenOut := size + len - MAX_PAGE_SIZE;
      if lenOut > 0 {
        Insert1(i + 1, Data(i)[size - lenOut..]);
      } else {
        lenOut := 0;
      }
      ghost var t1 := text;
      KeepsPage(old(text), t1, i);
      // the page has room now
      if len > 0 {
        InsertInPage(i, off, buf[..len], lenOut);
      } else {
        NoRoom(text[i], off, buf);
      }
      ghost var t2 := text;
      // everything that spills, in the order of the text
      if |buf| - len > 0 {
        Insert1(i + 1, buf[len..]);
      }
      KeepsPage(t2, text, i);
      InsertAroundText(old(text), t1, text, i, off, buf, len, lenOut);
    }

    /** Copies `x` over the bytes at `off` in page `i`. */
    method WriteInPage(i: nat, off: nat, x: seq<byte>)
      requires TableValid() && i < |text| && off + |x| <= |text[i]|
      modifies this`pageTable, this`text, this`own, own
      ensures TableValid()
      ensures text == old(text)[i := Splice(old(text)[i], off, |x|, x)]
      ensures fresh(own - old(own)) && shared == old(shared)
    {
      hide Flat;
      UpdatePage(i);
      var data := pageTable[i].data;
      text := text[i := Splice(text[i], off, |x|, x)];
      data.bytes := MemCpy(data.bytes, off, x);
    }

    /** The fields that say nothing about the bytes of the buffer. */
    twostate predicate StateKept()
      reads this
    {
      && totalSize == old(totalSize) && modified == old(modified) && saveLog == old(saveLog)
      && logBuffer == old(logBuffer) && logNewIndex == old(logNewIndex) && logCurrent == old(logCurrent)
      && nbLogs == old(nbLogs) && colorOffsets == old(colorOffsets) && records == old(records) && cur == old(cur)
    }

    /** Reads or overwrites what there is to do in page `i`. */
    method RwPage(i: nat, off: nat, ghost t0: seq<byte>, ghost offset: nat, size: nat, done: nat, data: seq<byte>,
                  doWrite: bool, out: seq<byte>) returns (i1: nat, off1: nat, len: nat, out1: seq<byte>)
      requires TableValid() && Moving(text, i, off, t0, offset, size, done, data, doWrite, out) && done < size
      requires 0 <= curPage < |text| && curPage <= i
      modifies if doWrite then {this} + own else {}
      ensures TableValid() && fresh(own - old(own)) && shared == old(shared) && |text| == |old(text)|
      ensures curPage == old(curPage) && curOffset == old(curOffset) && text[..curPage] == old(text)[..curPage]
      ensures doWrite ==> StateKept()
      ensures i <= i1 && len > 0 && Moving(text, i1, off1, t0, offset, size, done + len, data, doWrite, out1)
    {
      hide Flat, Splice, TableValid, Moving;
      MovingAt(text, i, off, t0, offset, size, done, data, doWrite, out);
      PageCount();
      i1, off1, len, out1 := i, off, |Data(i)| - off, out;
      if len > size - done {
        len := size - done;
      }
      ghost var before := text;
      PagesNotEmpty();
      if doWrite {
        WriteInPage(i, off, data[done..done + len]);
        FrontKept(before, text, i, curPage);
      } else {
        out1 := out + Data(i)[off..off + len];
      }
      MovingStep(before, text, i, off, t0, offset, size, done, len, data, doWrite, out, out1);
      off1 := off + len;
      PageCount();
      if off1 >= |Data(i)| {
        i1 := i + 1;
        off1 := 0;
      }
    }

    /** Reads, or overwrites with `data`, the `size` bytes at `offset`, page by page. */
    method RwPages(offset: nat, size: nat, data: seq<byte>, doWrite: bool) returns (out: seq<byte>)
      requires PagesValid() && offset + size <= |Text()| && size > 0
      requires doWrite ==> |data| == size
      modifies this`curPage, this`curOffset, if doWrite then {this} + own else {}
      ensures PagesValid() && fresh(own - old(own)) && shared == old(shared)
      ensures doWrite ==> Text() == Splice(old(Text()), offset, size, data)
      ensures !doWrite ==> out == old(Text())[offset..offset + size]
      ensures doWrite ==> StateKept()
    {
      hide Flat, Splice, TableValid, Moving;
      var i, off := FindPage(offset);
      out := [];
      var done := 0;
      ghost var t0 := Text();
      PagesNotEmpty();
      MovingBegins(text, i, off, offset, size, data, doWrite);
      while done < size
        invariant TableValid() && fresh(own - old(own)) && shared == old(shared)
        invariant 0 <= curPage < |text| == |old(text)| && curPage <= i
        invariant text[..curPage] == old(text)[..curPage] && curOffset == |Flat(text[..curPage])|
        invariant doWrite ==> StateKept()
        invariant Moving(text, i, off, t0, offset, size, done, data, doWrite, out)
      {
        var len;
        i, off, len, out := RwPage(i, off, t0, offset, size, done, data, doWrite, out);
        done := done + len;
      }
      MovingDone(text, i, off, t0, offset, size, done, data, doWrite, out);
    }

    /** Removes `len` bytes at `off` in page `i`, which keeps at least one byte. */
    method DeleteInPage(i: nat, off: nat, len: nat)
      requires TableValid() && i < |text| && off + len <= |text[i]| && len < |text[i]|
      modifies this`pageTable, this`text, this`own, own
      ensures TableValid()
      ensures text == old(text)[i := Splice(old(text)[i], off, len, [])]
      ensures pageTable == old(pageTable)[i := pageTable[i]]
      ensures fresh(own - old(own)) && shared == old(shared)
    {
      hide Flat, Realloc, MemMove;
      UpdatePage(i);
      var data, size := pageTable[i].data, |pageTable[i].data.bytes|;
      CloseGap(data.bytes, off, len);
      text := text[i := Splice(text[i], off, len, [])];
      data.bytes := Realloc(MemMove(data.bytes, off, off + len, size - off - len), size - len);
    }

    method DropPages(start: nat, n: nat)
      requires TableValid() && start + n <= |text|
      modifies this`pageTable, this`text
      ensures TableValid() && text == old(text)[..start] + old(text)[start + n..]
    {
      hide Flat;
      pageTable := pageTable[..start] + pageTable[start + n..];
      text := text[..start] + text[start + n..];
    }

    /** Removes `size` bytes at `offset`: whole pages are dropped from the table at the end. */
    method DeletePages(offset: nat, size: nat)
      requires PagesValid() && offset < |Text()| && offset + size <= |Text()|
      modifies this`pageTable, this`text, this`own, this`curPage, this`curOffset, own
      ensures PagesValid() && fresh(own - old(own)) && shared == old(shared)
      ensures Text() == Splice(old(Text()), offset, size, [])
    {
      hide Flat, Splice, TableValid, Deleting;
      var i, off := FindPage(offset);
      var n: int, delStart: int := 0, -1;
      var left: int := size;
      ghost var t0 := Text();
      PagesNotEmpty();
      DeletingBegins(text, i, off, offset, size);
      while left > 0
        invariant TableValid() && fresh(own - old(own)) && shared == old(shared)
        invariant Deleting(text, i, off, delStart, n, t0, offset, size, left)
      {
        DeletingAt(text, i, off, delStart, n, t0, offset, size, left);
        var len := |Data(i)| - off;
        if len > left {
          len := left;
        }
        if len == |Data(i)| {
          DeletingPage(text, i, off, delStart, n, t0, offset, size, left);
          if delStart == -1 {
            delStart := i;
          }
          i := i + 1;
          off := 0;
          n := n + 1;
        } else {
          DeletingPart(text, i, off, delStart, n, t0, offset, size, left, len);
          DeleteInPage(i, off, len);
          off := off + len;
          if off >= |Data(i)| {
            i := i + 1;
            off := 0;
          }
        }
        left := left - len;
      }
      DeletingDone(text, i, off, delStart, n, t0, offset, size, left);
      if n > 0 {
        DropPages(delStart, n);
      }
      curPage := -1;
    }

    /** Keeps only the first `off` bytes of page `i`. */
    method CutPage(i: nat, off: nat)
      requires TableValid() && i < |text| && 0 < off <= |text[i]|
      modifies this`pageTable, this`text, this`own, own
      ensures TableValid()
      ensures text == old(text)[i := old(text)[i][..off]]
      ensures fresh(own - old(own)) && shared == old(shared)
    {
      hide Flat;
      UpdatePage(i);
      var data := pageTable[i].data;
      text := text[i := text[i][..off]];
      data.bytes := Realloc(data.bytes, off);
    }

    /** Makes `offset` a page boundary, and returns the page that begins there. */
    method CutAt(offset: nat) returns (k: nat)
      requires PagesValid() && totalSize == |Text()| && offset <= |Text()|
      modifies this`pageTable, this`text, this`own, this`shared, this`curPage, this`curOffset, own
      ensures TableValid() && fresh(own - old(own)) && shared == old(shared)
      ensures k <= |text|
      ensures Flat(text[..k]) == old(Text())[..offset] && Flat(text[k..]) == old(Text())[offset..]
    {
      hide Flat;
      if offset < totalSize {
        var i, off := FindPage(offset);
        k := i;
        if off > 0 {
          k := k + 1;
          Insert1(k, Data(i)[off..]);
          KeepsPage(old(text), text, i);
          ghost var moved := text;
          CutPage(i, off);
          CutText(old(text), moved, text, i, off);
        } else {
          FlatSplit(text, k);
          Halves(Flat(text[..k]), Flat(text[k..]));
        }
      } else {
        k := |pageTable|;
        assert text[..k] == text && text[k..] == [];
        NoPages(Text());
      }
    }

    /** How many whole pages from page `p` on lie within `size` bytes, and how many bytes are left. */
    method CountPages(p: nat, size: nat) returns (n: nat, left: nat)
      requires TableValid() && p <= |text| && |Flat(text[..p])| + size <= |Text()|
      ensures p + n <= |text| && |Flat(text[..p + n])| + left == |Flat(text[..p])| + size
      ensures left > 0 ==> p + n < |text| && left < |text[p + n]|
    {
      hide Flat, TableValid;
      n, left := 0, size;
      PageLeftUnless(text, p, left);
      while left > 0 && |Data(p + n)| <= left
        invariant p + n <= |text| && (left > 0 ==> p + n < |text|)
        invariant |Flat(text[..p + n])| + left == |Flat(text[..p])| + size
        decreases |text| - n
      {
        FlatUpTo(text, p + n);
        left := left - |Data(p + n)|;
        n := n + 1;
        PageLeftUnless(text, p + n, left);
      }
    }

    /** Copies `n` pages of `src` from page `p` on: read-only pages by reference, the others byte by byte. */
    static method CopyPages(src: EditBuffer, p: nat, n: nat, cs: Charset)
      returns (added: seq<Page>, ghost newOwn: set<Block>, ghost newShared: set<Block>)
      requires src.TableValid() && p + n <= |src.text|
      ensures |added| == n && forall j :: 0 <= j < n ==> PageOk(added[j], src.text[p + j], cs)
      ensures BlocksOk(added, newOwn, newShared) && fresh(newOwn) && newShared <= src.shared
    {
      added, newOwn, newShared := [], {}, {};
      while |added| < n
        invariant |added| <= n && forall j :: 0 <= j < |added| ==> PageOk(added[j], src.text[p + j], cs)
        invariant BlocksOk(added, newOwn, newShared) && fresh(newOwn) && newShared <= src.shared
      {
        var q := src.pageTable[p + |added|];
        var data := q.data;
        if q.readOnly {
          // both page tables may refer to a block that nobody writes to
          newShared := newShared + {data};
        } else {
          data := new Block(q.data.bytes);
          newOwn := newOwn + {data};
        }
        added := added + [Page(data, q.readOnly, false, 0, 0, false, 0)];
      }
    }

    /** No block that one buffer may write to is used by the other. */
    ghost predicate Apart(b: EditBuffer)
      reads this`own, this`shared, b`own, b`shared
    {
      b != this && own !! b.own && own !! b.shared && shared !! b.own
    }

    /** Inserts the first `size` bytes of the pages of `src` from page `p` on: whole pages, then what
        remains of the next one. */
    method SplicePages(offset: nat, src: EditBuffer, p: nat, size: nat)
      requires PagesValid() && totalSize == |Text()| && offset <= |Text()|
      requires Apart(src) && src.TableValid() && p <= |src.text|
      requires |Flat(src.text[..p])| + size <= |src.Text()|
      modifies this`pageTable, this`text, this`own, this`shared, this`totalSize, this`curPage, this`curOffset, own
      ensures PagesValid() && fresh(own - old(own)) && shared <= old(shared) + src.shared
      ensures totalSize == old(totalSize) + size
      ensures var pos := |Flat(src.text[..p])|;
              Text() == Splice(old(Text()), offset, 0, src.Text()[pos..pos + size])
    {
      hide Flat, Splice, TableValid, BlocksOk, PageOk;
      var k := CutAt(offset);
      totalSize := totalSize + size;
      // whole pages can be taken over as they are
      var n, left := src.CountPages(p, size);
      ghost var cut := text;
      PlaceCopies(k, src, p, n);
      ghost var placed := text;
      // the beginning of the page after them
      if left > 0 {
        Insert1(k + n, src.Data(p + n)[..left]);
      }
      curPage := -1;
      SplicePagesText(old(Text()), offset, cut, k, src.text, p, n, left, placed, text);
    }

    /** Puts copies of `n` pages of `src` in front of page `k`. */
    method PlaceCopies(k: nat, src: EditBuffer, p: nat, n: nat)
      requires TableValid() && Apart(src) && src.TableValid() && p + n <= |src.text| && k <= |text|
      modifies this`pageTable, this`text, this`own, this`shared
      ensures TableValid() && text == old(text)[..k] + src.text[p..p + n] + old(text)[k..]
      ensures fresh(own - old(own)) && old(own) <= own && shared <= old(shared) + src.shared && Apart(src)
    {
      hide Flat, TableValid, BlocksOk, PageOk;
      var added;
      ghost var newOwn, newShared;
      added, newOwn, newShared := CopyPages(src, p, n, charset);
      PlacePages(k, added, src.text[p..p + n], newOwn, newShared);
    }

    /** Inserts `size` bytes of `src`, from `srcOffset` on, at `offset`: read-only pages that are inserted
        whole are shared between the two buffers. */
    method SpliceBuffer(offset: nat, src: EditBuffer, srcOffset: nat, size: nat)
      requires PagesValid() && totalSize == |Text()| && offset <= |Text()|
      requires Apart(src) && src.PagesValid() && size > 0 && srcOffset + size <= |src.Text()|
      modifies this`pageTable, this`text, this`own, this`shared, this`totalSize, this`curPage, this`curOffset, own
      modifies src`curPage, src`curOffset
      ensures PagesValid() && src.PagesValid() && fresh(own - old(own)) && shared <= old(shared) + src.shared
      ensures totalSize == old(totalSize) + size
      ensures Text() == Splice(old(Text()), offset, 0, src.Text()[srcOffset..srcOffset + size])
    {
      hide Flat, Splice, TableValid;
      // the copy begins inside a page
      var p, off := src.FindPage(srcOffset);
      var done := 0;
      ghost var first: seq<byte> := [];
      if off > 0 {
        var len := |src.Data(p)| - off;
        if len > size {
          len := size;
        }
        FlatSlice(src.text, p, off, len);
        FlatUpTo(src.text, p);
        first := src.Data(p)[off..off + len];
        InsertLowlevel(offset, src.Data(p)[off..off + len]);
        done := len;
        p := p + 1;
      } else {
        SpliceNothing(Text(), offset, []);
      }
      if size - done == 0 {
        return;
      }
      SplicePages(offset + done, src, p, size - done);
      SpliceMore(old(Text()), offset, 0, 0, first, src.Text()[srcOffset + done..srcOffset + size]);
      SliceMore(src.Text(), srcOffset, srcOffset + done, srcOffset + size);
    }

    // ---- the undo log ----

    ghost function State(): Doc
      reads this`text, this`modified, this`saveLog, this`records, this`cur
    {
      Doc(Text(), modified, saveLog, records, cur)
    }

    ghost function LogFrame(): set<object>
      reads this`logBuffer, logBuffer
    {
      if logBuffer == null then {} else {logBuffer} + logBuffer.own
    }

    ghost function LogShared(): set<Block>
      reads this`logBuffer, logBuffer
    {
      if logBuffer == null then {} else logBuffer.shared
    }

    /** The log takes over no block but new ones and read-only ones of the buffer. */
    twostate predicate LogKept()
      reads this`logBuffer, this`saveLog, logBuffer
    {
      && (logBuffer == old(logBuffer) || (saveLog && logBuffer != null && fresh(logBuffer)))
      && fresh(LogFrame() - old(LogFrame())) && LogShared() <= old(LogShared()) + old(shared)
    }

    ghost predicate CoreValid()
      reads this, own, shared
    {
      PagesValid() && totalSize == |Text()|
    }

    /** A buffer that is itself a log is not logged. */
    ghost predicate IsLog(t: seq<byte>)
      reads this, own, shared
    {
      && CoreValid() && Text() == t
      && !saveLog && logBuffer == null && colorOffsets == []
      && records == [] && cur == -1 && logNewIndex == 0 && logCurrent == 0 && nbLogs == 0
    }

    ghost predicate LogValid()
      reads this`records, this`cur, this`nbLogs, this`logNewIndex, this`logCurrent, this`logBuffer, this`own,
            this`shared
      reads logBuffer, LogFrame(), LogShared()
    {
      && -1 <= cur <= |records| <= 49 && LogFits(records)
      && nbLogs == |records|
      && logNewIndex == |LogText(records)|
      && logCurrent == (if cur == -1 then 0 else 1 + LogPos(records, cur))
      && (logBuffer == null ==> records == [] && cur == -1)
      && (logBuffer != null ==> Apart(logBuffer) && logBuffer.IsLog(LogText(records)))
    }

    ghost predicate Valid()
      reads this, own, shared, logBuffer, LogFrame(), LogShared()
    {
      CoreValid() && LogValid()
    }

    lemma StateOk()
      requires LogValid()
      ensures DocOk(State())
    {
    }

    /** The log is another buffer. */
    lemma LogIsApart()
      requires LogValid()
      ensures this !in LogFrame()
    {
    }

    function Size(): (n: nat)
      requires Valid()
      reads this, own, shared, logBuffer, LogFrame(), LogShared()
      ensures n == |Text()|
    {
      totalSize
    }

    constructor (charset: Charset, saveLog: bool)
      ensures Valid() && fresh(own) && fresh(shared) && fresh(LogFrame())
      ensures State() == Doc([], false, saveLog, [], -1)
      ensures this.charset == charset && colorOffsets == [] && logBuffer == null && own == {} && shared == {}
    {
      this.charset := charset;
      pageTable, totalSize, curPage, curOffset := [], 0, -1, 0;
      modified, this.saveLog, logBuffer, logNewIndex, logCurrent, nbLogs := false, saveLog, null, 0, 0, 0;
      colorOffsets := [];
      text, own, shared, records, cur := [], {}, {}, [], -1;
    }

    /** The read-only pages of a mapped file. */
    static method MapPages(file: seq<byte>, n: nat, cs: Charset)
      returns (added: seq<Page>, ghost addedText: seq<seq<byte>>, ghost blocks: set<Block>)
      requires n == (|file| + MAX_PAGE_SIZE - 1) / MAX_PAGE_SIZE
      ensures |added| == |addedText| == n && Flat(addedText) == file
      ensures forall k :: 0 <= k < n ==> PageOk(added[k], addedText[k], cs) && added[k].readOnly
      ensures fresh(blocks) && BlocksOk(added, {}, blocks)
    {
      added, addedText, blocks := [], [], {};
      var done := 0;
      while done < |file|
        invariant done <= |file|
        invariant |added| + (|file| - done + MAX_PAGE_SIZE - 1) / MAX_PAGE_SIZE == n
        invariant |added| == |addedText| && Flat(addedText) == file[..done]
        invariant forall k :: 0 <= k < |added| ==> PageOk(added[k], addedText[k], cs) && added[k].readOnly
        invariant fresh(blocks) && BlocksOk(added, {}, blocks)
      {
        var len := if |file| - done > MAX_PAGE_SIZE then MAX_PAGE_SIZE else |file| - done;
        var data := new Block(file[done..done + len]);
        blocks := blocks + {data};
        added := added + [Page(data, true, false, 0, 0, false, 0)];
        FlatConcat(addedText, [data.bytes]);
        FlatOne(data.bytes);
        addedText := addedText + [data.bytes];
        PageCountStep(|file| - done, len);
        done := done + len;
      }
      DivSmall(MAX_PAGE_SIZE - 1, MAX_PAGE_SIZE);
    }

    /** Maps a file into an empty buffer: nothing is copied, so all pages are read-only. */
    method MmapBuffer(file: seq<byte>)
      requires Valid() && Text() == []
      modifies this`pageTable, this`text, this`own, this`shared, this`totalSize
      ensures Valid() && State() == old(State()).(text := file)
      ensures own == old(own) && fresh(shared - old(shared)) && forall i :: 0 <= i < |pageTable| ==>
                pageTable[i].readOnly
    {
      hide Flat, IsLog;
      NoPagesLeft();
      var n := (|file| + MAX_PAGE_SIZE - 1) / MAX_PAGE_SIZE;
      var added;
      ghost var addedText, blocks;
      added, addedText, blocks := MapPages(file, n, charset);
      pageTable, totalSize := added, |file|;
      text, shared := addedText, shared + blocks;
    }

    /** A buffer without text has no pages. */
    lemma NoPagesLeft()
      requires PagesValid() && Text() == []
      ensures text == [] && pageTable == [] && curPage == -1
    {
      PagesNotEmpty();
    }

    /** Each colouring callback lowers its offset to that of the modification. */
    method CallCallbacks(offset: int)
      modifies this`colorOffsets
      ensures colorOffsets == Lowered(old(colorOffsets), offset)
    {
      var l := 0;
      while l < |colorOffsets|
        invariant 0 <= l <= |colorOffsets| == |old(colorOffsets)|
        invariant forall j :: 0 <= j < l ==> colorOffsets[j] == Lowered(old(colorOffsets), offset)[j]
        invariant forall j :: l <= j < |colorOffsets| ==> colorOffsets[j] == old(colorOffsets)[j]
      {
        if offset < colorOffsets[l] {
          colorOffsets := colorOffsets[l := offset];
        }
        l := l + 1;
      }
    }

    /** Records an operation before it is done: the bytes it is about to destroy are copied to the log. */
    method AddLog(op: LogOp, offset: nat, size: nat)
      requires PagesValid() && LogValid()
      requires op == LogInsert || (offset + size <= |Text()| && (op == LogWrite ==> size > 0))
      requires saveLog ==> offset <= MAX_INT && size <= MAX_INT
      modifies this`modified, this`colorOffsets, this`curPage, this`curOffset, this`logBuffer
      modifies this`logNewIndex, this`logCurrent, this`nbLogs, this`records, this`cur
      modifies if saveLog then LogFrame() else {}
      ensures PagesValid() && LogValid()
      ensures State() == UndoLog.AddLog(old(State()), op, offset, size)
      ensures if saveLog then records == (if |old(records)| == 49 then old(records)[1..] else old(records))
                                         + [RecordFor(old(State()), op, offset, size)] && |records| <= 49
              else records == old(records)
      ensures colorOffsets == Lowered(old(colorOffsets), offset)
      ensures LogKept()
      decreases if saveLog then 1 else 0, 0
    {
      hide Flat, Splice, TableValid, CacheValid, IsLog, LogText, LogPos, LogFits;
      CallCallbacks(offset);
      var wasModified := modified;
      modified := true;
      if !saveLog {
        return;
      }
      LogOperation(op, wasModified, offset, size);
    }

    method LogOperation(op: LogOp, wasModified: bool, offset: nat, size: nat)
      requires PagesValid() && LogValid() && saveLog
      requires op == LogInsert || (offset + size <= |Text()| && (op == LogWrite ==> size > 0))
      requires offset <= MAX_INT && size <= MAX_INT
      modifies this`curPage, this`curOffset, this`logBuffer
      modifies this`logNewIndex, this`logCurrent, this`nbLogs, this`records, this`cur, LogFrame()
      ensures PagesValid() && LogValid() && LogKept()
      ensures var full := |old(records)| >= 49;
              && records == (if full then old(records)[1..] else old(records))
                            + [RecordFor(Doc(Text(), wasModified, true, [], -1), op, offset, size)]
              && cur == if full && old(cur) > 0 then old(cur) - 1 else old(cur)
      decreases 0, 12
    {
      hide Flat, Splice, PagesValid, LogValid, LogText, LogPos, LogFits;
      LogIsApart();
      RoomInLog();
      LogIsApart();
      AppendRecord(op, wasModified, offset, size);
    }

    /** Makes a log if there is none, and room in it for a record. */
    method RoomInLog()
      requires PagesValid() && LogValid() && saveLog
      modifies this`logBuffer, this`logNewIndex, this`logCurrent, this`nbLogs, this`records, this`cur, LogFrame()
      ensures PagesValid() && LogValid() && LogKept() && logBuffer != null && nbLogs < NB_LOGS_MAX - 1
      ensures var full := |old(records)| >= 49;
              && records == (if full then old(records)[1..] else old(records))
              && cur == if full && old(cur) > 0 then old(cur) - 1 else old(cur)
      decreases 0, 11
    {
      hide Flat, Splice, TableValid, CacheValid, IsLog, LogText, LogPos, LogFits;
      NewLog();
      if nbLogs >= NB_LOGS_MAX - 1 {
        // the log is full: its oldest record goes
        TrimLog();
      }
    }

    method NewLog()
      requires LogValid()
      modifies this`logBuffer
      ensures LogValid() && logBuffer != null
      ensures logBuffer == old(logBuffer) || (fresh(logBuffer) && fresh(logBuffer.own) && logBuffer.shared == {})
    {
      if logBuffer == null {
        logBuffer := new EditBuffer(EightBit, false);
        LogEmpty();
      }
    }

    /** Drops the log, as saving does. */
    method LogReset()
      requires Valid()
      modifies this`logBuffer, this`logNewIndex, this`logCurrent, this`nbLogs, this`modified, this`records, this`cur
      ensures Valid() && logBuffer == null
      ensures State() == old(State()).(modified := false, log := [], cur := -1)
    {
      hide Flat, TableValid, CacheValid, IsLog;
      LogEmpty();
      if logBuffer != null {
        logBuffer := null;
        logNewIndex := 0;
        logCurrent := 0;
        nbLogs := 0;
        records, cur := [], -1;
      }
      modified := false;
    }

    // What the edits below do to a buffer that is a log. Its own `saveLog` is off, so this goes no deeper.

    method ReadLog(pos: nat, size: nat, ghost t: seq<byte>) returns (out: seq<byte>)
      requires IsLog(t) && pos + size <= |t| && size > 0
      modifies this`curPage, this`curOffset
      ensures IsLog(t) && out == t[pos..pos + size]
      decreases 0, 8
    {
      hide Flat, Splice, TableValid, CacheValid, LogPos;
      LogEmpty();
      out := Read(pos, size);
    }

    method DropLogBytes(len: nat, ghost t: seq<byte>)
      requires IsLog(t) && 0 < len <= |t|
      modifies this, own
      ensures IsLog(t[len..]) && fresh(own - old(own)) && shared == old(shared)
      decreases 0, 8
    {
      hide Flat, TableValid, CacheValid, LogPos;
      LogEmpty();
      Delete(0, len);
      assert Splice(t, 0, len, []) == t[len..];
    }

    method AddLogBytes(pos: nat, x: seq<byte>, ghost t: seq<byte>)
      requires IsLog(t) && pos == |t| && x != []
      modifies this, own
      ensures IsLog(t + x) && fresh(own - old(own)) && shared == old(shared)
      decreases 0, 8
    {
      hide Flat, TableValid, CacheValid, LogPos;
      LogEmpty();
      Write(pos, x);
      assert x[0..] == x && Splice(t, pos, 0, x) == t + x;
    }

    method AddLogCopy(pos: nat, src: EditBuffer, offset: nat, size: nat, ghost t: seq<byte>)
      requires IsLog(t) && pos == |t| && Apart(src) && src.PagesValid() && offset + size <= |src.Text()|
      modifies this, own, src`curPage, src`curOffset
      ensures IsLog(t + src.Text()[offset..offset + size]) && src.PagesValid()
      ensures fresh(own - old(own)) && shared <= old(shared) + src.shared
      decreases 0, 8
    {
      hide Flat, TableValid, CacheValid, LogPos;
      LogEmpty();
      InsertBuffer(pos, src, offset, size);
      var x := src.Text()[offset..offset + size];
      assert Splice(t, pos, 0, x) == t + x;
    }

    /** Drops the oldest record from the log. */
    method TrimLog()
      requires LogValid() && logBuffer != null && records != []
      modifies this`logNewIndex, this`logCurrent, this`nbLogs, this`records, this`cur, LogFrame()
      ensures LogValid() && records == old(records)[1..] && cur == if old(cur) > 0 then old(cur) - 1 else old(cur)
      ensures fresh(LogFrame() - old(LogFrame())) && LogShared() == old(LogShared())
      decreases 0, 10
    {
      hide Flat, Splice, IsLog, TableValid, CacheValid, LogText, LogPos, LogFits, Header;
      DropFirst(records, cur);
      var len := TrimBytes(LogText(records), records[0]);
      logNewIndex := logNewIndex - len;
      if logCurrent > 1 {
        logCurrent := logCurrent - len;
      }
      nbLogs := nbLogs - 1;
      cur := if cur > 0 then cur - 1 else cur;
      records := records[1..];
    }

    /** Reads the size of the oldest record from its header, and deletes its bytes. */
    method TrimBytes(ghost t: seq<byte>, ghost r: Record) returns (len: int)
      requires logBuffer != null && Apart(logBuffer) && logBuffer.IsLog(t)
      requires RecordFits(r) && HEADER_SIZE + |r.data| + INT_SIZE <= |t| && t[0..HEADER_SIZE] == RecordHeader(r)
      modifies LogFrame()
      ensures len == HEADER_SIZE + |r.data| + INT_SIZE && Apart(logBuffer) && logBuffer.IsLog(t[len..])
      ensures fresh(LogFrame() - old(LogFrame())) && LogShared() == old(LogShared())
      decreases 0, 9
    {
      hide Flat, Splice, IsLog, TableValid, CacheValid, Header;
      var header := logBuffer.ReadLog(0, HEADER_SIZE, t);
      HeaderRoundTrip(r.op, r.wasModified, r.offset, r.size);
      len := SizeOf(header);
      if OpOf(header) == LogInsert {
        len := 0;
      }
      len := len + HEADER_SIZE + INT_SIZE;
      logBuffer.DropLogBytes(len, t);
    }

    /** Adds a record to the log: the header, the bytes about to be destroyed, the trailer. */
    method AppendRecord(op: LogOp, wasModified: bool, offset: nat, size: nat)
      requires PagesValid() && LogValid() && logBuffer != null && nbLogs < NB_LOGS_MAX - 1
      requires op == LogInsert || (offset + size <= |Text()| && (op == LogWrite ==> size > 0))
      requires offset <= MAX_INT && size <= MAX_INT
      modifies this`logNewIndex, this`nbLogs, this`records, this`curPage, this`curOffset, LogFrame()
      ensures PagesValid() && LogValid()
      ensures records == old(records) + [RecordFor(Doc(Text(), wasModified, true, [], -1), op, offset, size)]
      ensures fresh(LogFrame() - old(LogFrame())) && LogShared() <= old(LogShared()) + shared
      decreases 0, 10
    {
      hide Flat, Splice, IsLog, TableValid, CacheValid, LogText, LogPos, Header, RecordBytes;
      ghost var t := LogText(records);
      ghost var r := RecordFor(Doc(Text(), wasModified, true, [], -1), op, offset, size);
      LogAppend(records, r, if cur == -1 then 0 else cur);
      AppendBytes(op, wasModified, offset, size, t, r);
      nbLogs := nbLogs + 1;
      records := records + [r];
    }

    method AppendBytes(op: LogOp, wasModified: bool, offset: nat, size: nat, ghost t: seq<byte>, ghost r: Record)
      requires PagesValid() && logBuffer != null && Apart(logBuffer) && logBuffer.IsLog(t) && logNewIndex == |t|
      requires op == LogInsert || (offset + size <= |Text()| && (op == LogWrite ==> size > 0))
      requires offset <= MAX_INT && size <= MAX_INT
      requires r == RecordFor(Doc(Text(), wasModified, true, [], -1), op, offset, size)
      modifies this`logNewIndex, this`curPage, this`curOffset, LogFrame()
      ensures PagesValid() && Apart(logBuffer) && logBuffer.IsLog(t + RecordBytes(r))
      ensures logNewIndex == |t + RecordBytes(r)|
      ensures fresh(LogFrame() - old(LogFrame())) && LogShared() <= old(LogShared()) + shared
      decreases 0, 9
    {
      hide Flat, Splice, IsLog, TableValid, CacheValid, Header;
      var log := logBuffer;
      log.AddLogBytes(logNewIndex, Header(op, wasModified, offset, size), t);
      logNewIndex := logNewIndex + HEADER_SIZE;
      // the destroyed bytes, if any
      var sizeTrailer := 0;
      if op != LogInsert {
        log.AddLogCopy(logNewIndex, this, offset, size, t + RecordHeader(r));
        logNewIndex := logNewIndex + size;
        sizeTrailer := size;
      } else {
        AddNothing(t + RecordHeader(r), r.data);
      }
      // the length, so that the record can be found from its end
      log.AddLogBytes(logNewIndex, IntBytes(sizeTrailer), t + RecordHeader(r) + r.data);
      AddParts(t, RecordHeader(r), r.data, IntBytes(sizeTrailer));
      logNewIndex := logNewIndex + INT_SIZE;
    }

    // ---- reading and editing ----

    /** What the edits below do to the text leaves the log as it is. */
    method WriteBesideLog(offset: nat, x: seq<byte>)
      requires Valid() && x != [] && offset + |x| <= |Text()|
      modifies this, own
      ensures StateKept() && Valid() && fresh(own - old(own)) && shared == old(shared)
      ensures Text() == Splice(old(Text()), offset, |x|, x)
      ensures logBuffer == old(logBuffer) && LogFrame() == old(LogFrame()) && LogShared() == old(LogShared())
    {
      hide Flat, Splice, TableValid, CacheValid, IsLog, LogText, LogPos, LogFits;
      var _ := RwPages(offset, |x|, x, true);
    }

    method InsertBesideLog(offset: nat, x: seq<byte>)
      requires Valid() && offset <= |Text()|
      modifies this`pageTable, this`text, this`own, this`totalSize, this`curPage, this`curOffset, this`shared, own
      ensures Valid() && fresh(own - old(own)) && shared == old(shared)
      ensures Text() == Splice(old(Text()), offset, 0, x)
      ensures logBuffer == old(logBuffer) && LogFrame() == old(LogFrame()) && LogShared() == old(LogShared())
    {
      hide Flat, Splice, TableValid, CacheValid, IsLog, LogText, LogPos, LogFits;
      InsertLowlevel(offset, x);
    }

    /** The part of `Rw` that writes. */
    method Overwrite(offset: nat, x: seq<byte>)
      requires Valid() && x != [] && offset + |x| <= totalSize && (saveLog ==> totalSize <= MAX_INT)
      modifies this, own, if saveLog then LogFrame() else {}
      ensures Valid() && fresh(own - old(own)) && shared == old(shared)
      ensures State() == Apply(old(State()), UndoLog.Edit.Overwrite(offset, x))
      ensures colorOffsets == Lowered(old(colorOffsets), offset)
      ensures LogKept()
      decreases if saveLog then 1 else 0, 1
    {
      hide Flat, Splice, PagesValid, LogValid, LogFrame, LogShared, Apply, Edited, UndoLog.AddLog;
      StateOk();
      OverwriteIsLogged(State(), offset, x);
      LogIsApart();
      AddLog(LogWrite, offset, |x|);
      LogIsApart();
      WriteBesideLog(offset, x);
    }

    /** Reads, or overwrites with `buf`, up to `size` bytes at `offset`, never past the end. */
    method Rw(offset: nat, buf: seq<byte>, size: nat, doWrite: bool) returns (n: nat, out: seq<byte>)
      requires Valid() && (doWrite ==> |buf| == size && (saveLog ==> totalSize <= MAX_INT))
      modifies this`curPage, this`curOffset
      modifies if doWrite then {this} + own else {}, if saveLog && doWrite then LogFrame() else {}
      ensures Valid() && fresh(own - old(own)) && shared == old(shared) && LogKept()
      ensures n == if offset >= old(totalSize) then 0
              else if offset + size > old(totalSize) then old(totalSize) - offset else size
      ensures doWrite && n > 0 ==> State() == Apply(old(State()), UndoLog.Edit.Overwrite(offset, buf[..n]))
                                   && colorOffsets == Lowered(old(colorOffsets), offset)
      ensures doWrite && n == 0 ==> State() == old(State()) && colorOffsets == old(colorOffsets)
      ensures !doWrite ==> n == |out| && (n > 0 ==> out == Text()[offset..offset + n])
      decreases if saveLog then 1 else 0, 2
    {
      hide Flat, Splice, TableValid, CacheValid, IsLog, LogText, LogPos, LogFits, Apply;
      var size1: int := size;
      if offset + size1 > totalSize {
        size1 := totalSize - offset;
      }
      if size1 <= 0 {
        return 0, [];
      }
      n := size1;
      if doWrite {
        Overwrite(offset, buf[..n]);
        out := [];
      } else {
        out := RwPages(offset, n, [], false);
      }
    }

    /** Reads up to `size` bytes at `offset`. */
    method Read(offset: nat, size: nat) returns (out: seq<byte>)
      requires Valid()
      modifies this`curPage, this`curOffset
      ensures Valid()
      ensures out == if offset >= |Text()| then [] else if offset + size > |Text()| then Text()[offset..]
              else Text()[offset..offset + size]
      decreases if saveLog then 1 else 0, 3
    {
      hide Flat, Splice, TableValid, CacheValid, IsLog, LogText, LogPos, LogFits;
      var n;
      n, out := Rw(offset, [], size, false);
    }

    /** Inserts `buf` at `offset`. */
    method Insert(offset: nat, buf: seq<byte>)
      requires Valid() && offset <= totalSize && (saveLog ==> totalSize <= MAX_INT && |buf| <= MAX_INT)
      modifies this, own, if saveLog then LogFrame() else {}
      ensures Valid() && fresh(own - old(own)) && shared == old(shared)
      ensures State() == Apply(old(State()), UndoLog.Edit.Insert(offset, buf))
      ensures colorOffsets == Lowered(old(colorOffsets), offset)
      ensures LogKept()
      decreases if saveLog then 1 else 0, 1
    {
      hide Flat, Splice, PagesValid, LogValid, LogFrame, LogShared, Apply, Edited, UndoLog.AddLog;
      StateOk();
      InsertIsLogged(State(), offset, buf);
      LogIsApart();
      AddLog(LogInsert, offset, |buf|);
      LogIsApart();
      InsertBesideLog(offset, buf);
    }

    /** The size is that of the text without the bytes that are about to go. */
    method Shrink(size: nat)
      requires PagesValid() && LogValid()
      modifies this`totalSize
      ensures PagesValid() && LogValid() && totalSize == old(totalSize) - size
      ensures LogFrame() == old(LogFrame()) && LogShared() == old(LogShared())
    {
      hide Flat, TableValid, CacheValid, IsLog, LogText, LogPos, LogFits;
      totalSize := totalSize - size;
    }

    method DeleteBesideLog(offset: nat, size: nat)
      requires PagesValid() && LogValid() && totalSize + size == |Text()| && offset < |Text()|
               && offset + size <= |Text()|
      modifies this`pageTable, this`text, this`own, this`curPage, this`curOffset, own
      ensures Valid() && fresh(own - old(own)) && shared == old(shared)
      ensures Text() == Splice(old(Text()), offset, size, [])
      ensures logBuffer == old(logBuffer) && LogFrame() == old(LogFrame()) && LogShared() == old(LogShared())
    {
      hide Flat, Splice, TableValid, CacheValid, IsLog, LogText, LogPos, LogFits;
      DeletePages(offset, size);
    }

    /** Deletes `size` bytes at `offset`; at the end of the text nothing happens. */
    method Delete(offset: nat, size: nat)
      requires Valid() && (offset < totalSize ==> offset + size <= totalSize) && (saveLog ==> totalSize <= MAX_INT)
      modifies this, own, if saveLog then LogFrame() else {}
      ensures Valid() && fresh(own - old(own)) && shared == old(shared) && LogKept()
      ensures offset >= old(totalSize) ==> State() == old(State()) && colorOffsets == old(colorOffsets)
      ensures offset < old(totalSize) ==> State() == Apply(old(State()), UndoLog.Edit.Delete(offset, size))
                                          && colorOffsets == Lowered(old(colorOffsets), offset)
      decreases if saveLog then 1 else 0, 3
    {
      hide Flat, Splice, TableValid, CacheValid, IsLog, LogText, LogPos, LogFits, Apply, Edited;
      if offset >= totalSize {
        return;
      }
      DeleteLogged(offset, size);
    }

    method DeleteLogged(offset: nat, size: nat)
      requires Valid() && offset < totalSize && offset + size <= totalSize && (saveLog ==> totalSize <= MAX_INT)
      modifies this, own, if saveLog then LogFrame() else {}
      ensures Valid() && fresh(own - old(own)) && shared == old(shared) && LogKept()
      ensures State() == Apply(old(State()), UndoLog.Edit.Delete(offset, size))
      ensures colorOffsets == Lowered(old(colorOffsets), offset)
      decreases if saveLog then 1 else 0, 2
    {
      hide Flat, Splice, PagesValid, LogValid, LogFrame, LogShared, Apply, Edited, UndoLog.AddLog;
      StateOk();
      DeleteIsLogged(State(), offset, size);
      LogIsApart();
      LogDeletion(offset, size);
      LogIsApart();
      DeleteBesideLog(offset, size);
    }

    /** The size goes down and the record is added before the bytes go. */
    method LogDeletion(offset: nat, size: nat)
      requires PagesValid() && LogValid() && offset + size <= totalSize == |Text()|
      requires saveLog ==> totalSize <= MAX_INT
      modifies this`totalSize, this`modified, this`colorOffsets, this`curPage, this`curOffset, this`logBuffer
      modifies this`logNewIndex, this`logCurrent, this`nbLogs, this`records, this`cur
      modifies if saveLog then LogFrame() else {}
      ensures PagesValid() && LogValid() && totalSize == old(totalSize) - size
      ensures State() == UndoLog.AddLog(old(State()), LogDelete, offset, size)
      ensures colorOffsets == Lowered(old(colorOffsets), offset)
      ensures LogKept()
      decreases if saveLog then 1 else 0, 1
    {
      hide Flat, PagesValid, LogValid, UndoLog.AddLog, LogText, LogPos, LogFits;
      LogIsApart();
      Shrink(size);
      AddLog(LogDelete, offset, size);
    }

    /** Writes `buf` at `offset`: over the bytes that are there, and after the end if it is longer. */
    method Write(offset: nat, buf: seq<byte>)
      requires Valid() && offset <= totalSize && (saveLog ==> totalSize <= MAX_INT && |buf| <= MAX_INT)
      modifies this, own, if saveLog then LogFrame() else {}
      ensures Valid() && fresh(own - old(own)) && shared == old(shared)
      ensures State() == Written(old(State()), offset, buf)
      ensures colorOffsets == if buf == [] then old(colorOffsets) else Lowered(old(colorOffsets), offset)
      ensures LogKept()
      decreases if saveLog then 1 else 0, 3
    {
      hide Flat, Splice, TableValid, CacheValid, IsLog, LogText, LogPos, LogFits, Apply, Lowered, Written;
      ghost var d := State();
      StateOk();
      var len, _ := Rw(offset, buf, |buf|, true);
      WrittenParts(d, offset, buf, len, State());
      var left := |buf| - len;
      if left > 0 {
        Insert(offset + len, buf[len..]);
        LoweredTwice(old(colorOffsets), offset, offset + len);
      }
    }

    /** The splice leaves the log as it is, even when the bytes come from the log. */
    method SpliceBesideLog(offset: nat, src: EditBuffer, srcOffset: nat, size: nat)
      requires Valid() && offset <= totalSize && size > 0
      requires Apart(src) && src.PagesValid() && srcOffset + size <= |src.Text()|
      requires logBuffer != null && src != logBuffer ==> logBuffer.Apart(src)
      modifies this`pageTable, this`text, this`own, this`shared, this`totalSize, this`curPage, this`curOffset, own
      modifies src`curPage, src`curOffset
      ensures Valid() && src.PagesValid() && fresh(own - old(own)) && shared <= old(shared) + src.shared
      ensures Text() == Splice(old(Text()), offset, 0, src.Text()[srcOffset..srcOffset + size])
      ensures logBuffer == old(logBuffer) && LogFrame() == old(LogFrame()) && LogShared() == old(LogShared())
    {
      hide Flat, Splice, TableValid, CacheValid, LogText, LogPos, LogFits;
      SpliceBuffer(offset, src, srcOffset, size);
    }

    /** Inserts `size` bytes of `src`, from `srcOffset` on, at `offset`. */
    method InsertBuffer(offset: nat, src: EditBuffer, srcOffset: nat, size: nat)
      requires Valid() && offset <= totalSize && (saveLog ==> totalSize <= MAX_INT && size <= MAX_INT)
      requires Apart(src) && src.PagesValid() && srcOffset + size <= |src.Text()|
      requires logBuffer != null ==> if src == logBuffer then !saveLog else logBuffer.Apart(src)
      modifies this, own, if saveLog then LogFrame() else {}
      modifies src`curPage, src`curOffset
      ensures Valid() && fresh(own - old(own)) && shared <= old(shared) + src.shared && LogKept()
      ensures src.PagesValid()
      ensures size == 0 ==> State() == old(State()) && colorOffsets == old(colorOffsets)
      ensures size > 0 ==> State() == Apply(old(State()),
                                            UndoLog.Edit.Insert(offset, old(src.Text())[srcOffset..srcOffset + size]))
                           && colorOffsets == Lowered(old(colorOffsets), offset)
      decreases if saveLog then 1 else 0, 2
    {
      hide Flat, Splice, TableValid, CacheValid, IsLog, LogText, LogPos, LogFits, Apply, Edited;
      if size == 0 {
        return;
      }
      InsertCopy(offset, src, srcOffset, size, src.Text()[srcOffset..srcOffset + size]);
    }

    method InsertCopy(offset: nat, src: EditBuffer, srcOffset: nat, size: nat, ghost x: seq<byte>)
      requires Valid() && offset <= totalSize && (saveLog ==> totalSize <= MAX_INT && size <= MAX_INT)
      requires Apart(src) && src.PagesValid() && 0 < size == |x| && srcOffset + size <= |src.Text()|
      requires logBuffer != null ==> if src == logBuffer then !saveLog else logBuffer.Apart(src)
      requires x == src.Text()[srcOffset..srcOffset + size]
      modifies this, own, if saveLog then LogFrame() else {}
      modifies src`curPage, src`curOffset
      ensures Valid() && fresh(own - old(own)) && shared <= old(shared) + src.shared && LogKept()
      ensures src.PagesValid()
      ensures State() == Apply(old(State()), UndoLog.Edit.Insert(offset, x))
              && colorOffsets == Lowered(old(colorOffsets), offset)
      decreases if saveLog then 1 else 0, 1
    {
      hide Flat, Splice, PagesValid, LogValid, LogText, LogPos, LogFits, Apply, Edited, UndoLog.AddLog;
      StateOk();
      InsertIsLogged(State(), offset, x);
      LogIsApart();
      AddLog(LogInsert, offset, size);
      LogIsApart();
      if logBuffer != null && src != logBuffer {
        assert forall o: Block :: o in logBuffer.own ==> o in LogFrame();
        assert logBuffer.Apart(src);
      }
      SpliceBesideLog(offset, src, srcOffset, size);
    }

    // ---- undo ----

    /** Puts bytes back from the log, with logging off. */
    method PutBack(offset: nat, size: nat, logIndex: nat)
      requires Valid() && logBuffer != null && !saveLog && offset <= totalSize && logIndex + size <= |LogText(records)|
      modifies this, own, logBuffer`curPage, logBuffer`curOffset
      ensures Valid() && fresh(own - old(own)) && shared <= old(shared) + LogShared()
      ensures State() == old(State()).(text := Splice(old(Text()), offset, 0,
                                                      old(LogText(records))[logIndex..logIndex + size]),
                                       modified := old(modified) || size > 0)
      ensures logBuffer == old(logBuffer)
      ensures colorOffsets == if size == 0 then old(colorOffsets) else Lowered(old(colorOffsets), offset)
    {
      hide Flat, Splice, TableValid, CacheValid, LogText, LogPos, LogFits;
      if size == 0 {
        SpliceNothing(Text(), offset, LogText(records)[logIndex..logIndex + size]);
      }
      InsertBuffer(offset, logBuffer, logIndex, size);
    }

    /** Replaces bytes by bytes from the log, with logging off. */
    method PutBackOver(offset: nat, size: nat, logIndex: nat)
      requires Valid() && logBuffer != null && !saveLog && size > 0 && offset + size <= totalSize
      requires logIndex + size <= |LogText(records)|
      modifies this, own, logBuffer`curPage, logBuffer`curOffset
      ensures Valid() && fresh(own - old(own)) && shared <= old(shared) + LogShared()
      ensures State() == old(State()).(text := Splice(old(Text()), offset, size,
                                                      old(LogText(records))[logIndex..logIndex + size]),
                                       modified := true)
      ensures logBuffer == old(logBuffer)
      ensures colorOffsets == Lowered(old(colorOffsets), offset)
    {
      hide Flat, Splice, TableValid, CacheValid, IsLog, LogText, LogPos, LogFits, Lowered;
      Delete(offset, size);
      PutBack(offset, size, logIndex);
      SpliceMore(old(Text()), offset, size, 0, [], LogText(records)[logIndex..logIndex + size]);
      NothingBefore(LogText(records)[logIndex..logIndex + size]);
      LoweredTwice(old(colorOffsets), offset, offset);
    }

    /** Turns logging off, puts bytes back over the `len` bytes at `offset`, and turns logging on again. */
    method PutBackUnlogged(offset: nat, len: nat, size: nat, logIndex: nat)
      requires Valid() && logBuffer != null && offset + len <= totalSize && (len == 0 || len == size)
      requires logIndex + size <= |LogText(records)|
      modifies this, own, logBuffer`curPage, logBuffer`curOffset
      ensures Valid() && fresh(own - old(own)) && shared <= old(shared) + old(LogShared())
      ensures State() == old(State()).(text := Splice(old(Text()), offset, len,
                                                      old(LogText(records))[logIndex..logIndex + size]),
                                       modified := old(modified) || size > 0)
      ensures logBuffer == old(logBuffer) && LogFrame() == old(LogFrame()) && LogShared() == old(LogShared())
      ensures colorOffsets == if size == 0 then old(colorOffsets) else Lowered(old(colorOffsets), offset)
    {
      hide Flat, Splice, TableValid, CacheValid, IsLog, LogText, LogPos, LogFits, Lowered;
      var saved := saveLog;
      saveLog := false;
      if len == 0 {
        PutBack(offset, size, logIndex);
      } else {
        PutBackOver(offset, size, logIndex);
      }
      saveLog := saved;
    }

    /** Takes back a write: the bytes are deleted and put back from the log with logging off, and the
        whole is logged as one write. */
    method UndoWrite(offset: nat, size: nat, logIndex: nat)
      requires Valid() && logBuffer != null && size > 0 && offset + size <= totalSize
      requires saveLog ==> offset <= MAX_INT && size <= MAX_INT
      requires logIndex + size <= |LogText(records)|
      modifies this, own, LogFrame()
      ensures Valid() && fresh(own - old(own)) && shared <= old(shared) + old(LogShared())
      ensures var after := old(State()).(text := Splice(old(Text()), offset, size,
                                                        old(LogText(records))[logIndex..logIndex + size]),
                                         modified := true);
              State() == UndoLog.AddLog(after, LogWrite, offset, size)
      ensures colorOffsets == Lowered(old(colorOffsets), offset)
      ensures fresh(LogFrame() - old(LogFrame())) && LogShared() <= old(LogShared()) + old(shared)
    {
      hide Flat, Splice, PagesValid, LogValid, LogText, LogPos, LogFits, Lowered, AddRecord;
      PutBackUnlogged(offset, size, size, logIndex);
      LogIsApart();
      AddLog(LogWrite, offset, size);
      LoweredTwice(old(colorOffsets), offset, offset);
    }

    /** Takes back a deletion. */
    method UndoDelete(offset: nat, size: nat, logIndex: nat)
      requires Valid() && logBuffer != null && offset <= totalSize
      requires saveLog ==> offset <= MAX_INT && size <= MAX_INT
      requires logIndex + size <= |LogText(records)|
      modifies this, own, LogFrame()
      ensures Valid() && fresh(own - old(own)) && shared <= old(shared) + old(LogShared())
      ensures var after := old(State()).(text := Splice(old(Text()), offset, 0,
                                                        old(LogText(records))[logIndex..logIndex + size]),
                                         modified := old(modified) || size > 0);
              State() == UndoLog.AddLog(after, LogInsert, offset, size)
      ensures colorOffsets == Lowered(old(colorOffsets), offset)
      ensures fresh(LogFrame() - old(LogFrame())) && LogShared() <= old(LogShared()) + old(shared)
    {
      hide Flat, Splice, PagesValid, LogValid, LogText, LogPos, LogFits, Lowered, AddRecord;
      PutBackUnlogged(offset, 0, size, logIndex);
      LogIsApart();
      AddLog(LogInsert, offset, size);
      LoweredTwice(old(colorOffsets), offset, offset);
    }

    /** Takes back an insertion. */
    method UndoInsert(offset: nat, size: nat)
      requires Valid() && logBuffer != null && offset + size <= totalSize
      requires saveLog ==> totalSize <= MAX_INT
      modifies this, own, LogFrame()
      ensures Valid() && fresh(own - old(own)) && shared == old(shared)
      ensures var d := old(State());
              State() == if offset >= |d.text| then d.(text := Splice(d.text, offset, size, []))
                         else UndoLog.AddLog(d, LogDelete, offset, size).(text := Splice(d.text, offset, size, []))
      ensures colorOffsets == if offset >= old(totalSize) then old(colorOffsets) else Lowered(old(colorOffsets), offset)
      ensures fresh(LogFrame() - old(LogFrame())) && LogShared() <= old(LogShared()) + old(shared)
    {
      hide Flat, Splice, TableValid, CacheValid, IsLog, LogText, LogPos, LogFits, Lines, LastLine, Columns, Chars,
           Apply, Edited, UndoLog.AddLog;
      StateOk();
      if offset < totalSize {
        DeleteIsLogged(State(), offset, size);
      } else {
        SpliceNothing(Text(), offset, []);
      }
      Delete(offset, size);
    }

    /** Walks back over the record that ends at `logIndex`: its trailer leads to its header. */
    method WalkBack(end: int, ghost n: nat) returns (op: LogOp, wasModified: bool, offset: nat, size: nat, index: nat)
      requires LogValid() && logBuffer != null && 0 < n <= |records| && end == LogPos(records, n)
      modifies this`logCurrent, this`cur, LogFrame()
      ensures LogValid() && cur == n - 1
      ensures var r := records[n - 1];
              && RecordFits(r) && op == r.op && wasModified == r.wasModified && offset == r.offset && size == r.size
              && index + |r.data| <= |LogText(records)| && LogText(records)[index..index + |r.data|] == r.data
      ensures LogFrame() == old(LogFrame()) && LogShared() == old(LogShared())
    {
      hide Flat, Splice, TableValid, CacheValid, IsLog, LogText, LogPos, Header, IntBytes;
      ghost var r, t := records[n - 1], LogText(records);
      assert r in records;
      LogRecordAt(records, n - 1);
      var logIndex := end;
      // from the end of the record to its header
      logIndex := logIndex - INT_SIZE;
      var trailer := logBuffer.ReadLog(logIndex, INT_SIZE, t);
      IntRoundTrip(|r.data|);
      var sizeTrailer := IntOf(trailer);
      logIndex := logIndex - (sizeTrailer + HEADER_SIZE);
      // one more than the position, because 0 says that no undo is going on
      logCurrent := logIndex + 1;
      cur := n - 1;
      // what the record says is done the other way round
      var header := logBuffer.ReadLog(logIndex, HEADER_SIZE, t);
      HeaderRoundTrip(r.op, r.wasModified, r.offset, r.size);
      op, wasModified, offset, size := OpOf(header), WasModifiedOf(header), OffsetOf(header), SizeOf(header);
      index := logIndex + HEADER_SIZE;
    }

    /** Plays the record `r`, just walked back over. */
    method PlayRecord(op: LogOp, wasModified: bool, offset: nat, size: nat, index: nat, ghost d: Doc, ghost r: Record)
      returns (point: nat)
      requires Valid() && logBuffer != null && (saveLog ==> |d.text| <= MAX_INT)
      requires CanUndo(d) && r == d.log[Left(d) - 1] && State() == d.(cur := Left(d) - 1)
      requires RecordFits(r) && op == r.op && wasModified == r.wasModified && offset == r.offset && size == r.size
      requires index + |r.data| <= |LogText(records)| && LogText(records)[index..index + |r.data|] == r.data
      modifies this, own, LogFrame()
      ensures Valid() && fresh(own - old(own)) && shared <= old(shared) + old(LogShared())
      ensures State().(modified := wasModified) == UndoStep(d) && point == UndoPoint(r)
      ensures colorOffsets == if UndoIsLogged(d) then Lowered(old(colorOffsets), offset) else old(colorOffsets)
      ensures fresh(LogFrame() - old(LogFrame())) && LogShared() <= old(LogShared()) + old(shared)
    {
      hide Flat, Splice, TableValid, CacheValid, IsLog, LogText, LogPos, LogFits, UndoLog.AddLog, UndoStep, Revert,
           Lowered, Lines, LastLine, Columns, Chars;
      UndoStepIsLogged(d);
      match op {
        case LogWrite =>
          UndoWrite(offset, size, index);
          point := offset + size;
        case LogDelete =>
          UndoDelete(offset, size, index);
          point := offset + size;
        case LogInsert =>
          UndoInsert(offset, size);
          point := offset;
      }
    }

    /** Does the opposite of a record, and takes the modified flag from it. */
    method Play(op: LogOp, wasModified: bool, offset: nat, size: nat, index: nat, ghost d: Doc, ghost r: Record)
      returns (point: nat)
      requires Valid() && logBuffer != null && (saveLog ==> |d.text| <= MAX_INT)
      requires CanUndo(d) && r == d.log[Left(d) - 1] && State() == d.(cur := Left(d) - 1)
      requires RecordFits(r) && op == r.op && wasModified == r.wasModified && offset == r.offset && size == r.size
      requires index + |r.data| <= |LogText(records)| && LogText(records)[index..index + |r.data|] == r.data
      modifies this, own, LogFrame()
      ensures Valid() && fresh(own - old(own)) && shared <= old(shared) + old(LogShared())
      ensures State() == UndoStep(d) && point == UndoPoint(r)
      ensures colorOffsets == if UndoIsLogged(d) then Lowered(old(colorOffsets), offset) else old(colorOffsets)
      ensures fresh(LogFrame() - old(LogFrame())) && LogShared() <= old(LogShared()) + old(shared)
    {
      hide Flat, Splice, TableValid, CacheValid, IsLog, LogText, LogPos, LogFits, UndoStep, Revert, Lowered;
      point := PlayRecord(op, wasModified, offset, size, index, d, r);
      modified := wasModified;
    }

    /** Where the record to take back ends; a command other than undo in between begins at the newest. */
    method StartUndo(lastWasUndo: bool) returns (logIndex: int)
      requires Valid()
      modifies this`logCurrent, this`cur
      ensures Valid() && State() == UndoStart(old(State()), lastWasUndo)
      ensures LogFrame() == old(LogFrame()) && LogShared() == old(LogShared())
      ensures logIndex == LogPos(records, Left(State())) && (logIndex == 0 <==> Left(State()) == 0)
    {
      hide Flat, Splice, TableValid, CacheValid, IsLog, LogText, LogPos, LogFits;
      if !lastWasUndo {
        logCurrent := 0;
        cur := -1;
      }
      logIndex := if logCurrent == 0 then logNewIndex else logCurrent - 1;
      LogEnds(records);
      if Left(State()) > 0 {
        LogGrows(records, Left(State()));
      }
    }

    /** Takes back the record that ends at `logIndex`. */
    method TakeBack(logIndex: int, ghost d: Doc) returns (point: nat)
      requires Valid() && logBuffer != null && (saveLog ==> |d.text| <= MAX_INT)
      requires CanUndo(d) && State() == d && logIndex == LogPos(records, Left(d))
      modifies this, own, LogFrame()
      ensures Valid() && fresh(own - old(own)) && shared <= old(shared) + old(LogShared())
      ensures var r := d.log[Left(d) - 1];
              && State() == UndoStep(d) && point == UndoPoint(r)
              && colorOffsets == if UndoIsLogged(d) then Lowered(old(colorOffsets), r.offset) else old(colorOffsets)
      ensures fresh(LogFrame() - old(LogFrame())) && LogShared() <= old(LogShared()) + old(shared)
    {
      hide Flat, Splice, TableValid, CacheValid, IsLog, LogText, LogPos, LogFits, UndoStep, Revert, Lowered;
      var op, wasModified, offset, size, index := WalkBack(logIndex, Left(d));
      point := Play(op, wasModified, offset, size, index, d, records[Left(d) - 1]);
    }

    /** The undo command. `lastWasUndo` says whether the command before it was undo as well. Returns
        whether there was something to undo, and the new cursor offset. */
    method Undo(lastWasUndo: bool) returns (found: bool, point: nat)
      requires Valid() && (saveLog ==> totalSize <= MAX_INT)
      requires var d := UndoStart(State(), lastWasUndo); Left(d) > 0 ==> CanUndo(d)
      modifies this, own, LogFrame()
      ensures Valid() && fresh(own - old(own)) && shared <= old(shared) + old(LogShared())
      ensures found == (Left(UndoStart(old(State()), lastWasUndo)) > 0)
      ensures !found ==> State() == UndoStart(old(State()), lastWasUndo) && colorOffsets == old(colorOffsets)
      ensures found ==> var d := UndoStart(old(State()), lastWasUndo); var r := d.log[Left(d) - 1];
                        && State() == UndoStep(d) && point == UndoPoint(r)
                        && colorOffsets == if UndoIsLogged(d) then Lowered(old(colorOffsets), r.offset)
                           else old(colorOffsets)
      ensures fresh(LogFrame() - old(LogFrame())) && LogShared() <= old(LogShared()) + old(shared)
    {
      hide Flat, Splice, TableValid, CacheValid, IsLog, LogText, LogPos, LogFits, UndoStep, Revert, Lowered;
      if logBuffer == null {
        return false, 0;
      }
      var logIndex := StartUndo(lastWasUndo);
      if logIndex == 0 {
        return false, 0;
      }
      point := TakeBack(logIndex, State());
      found := true;
    }
  }
}
