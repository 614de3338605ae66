/** Several buffers side by side: read-only blocks pass from one to another, yet no edit of one buffer
    changes another. */
module Buffers {
  import opened PageText
  import opened TextCounts
  import opened UndoLog
  import opened LogBytes
  import opened EditBuffers
  import opened Worlds

  /** What an operation on a buffer may write to. */
  ghost function Writable(b: EditBuffer): set<object>
    reads b`own, b`logBuffer, b.logBuffer
  {
    {b} + b.own + b.LogFrame()
  }

  /** The read-only blocks a buffer refers to. */
  ghost function ReadOnly(b: EditBuffer): set<object>
    reads b`shared, b`logBuffer, b.logBuffer
  {
    b.shared + b.LogShared()
  }

  ghost predicate Separate(a: EditBuffer, b: EditBuffer)
    reads a`own, a`shared, a`logBuffer, a.logBuffer, b`own, b`shared, b`logBuffer, b.logBuffer
  {
    Writable(a) !! Writable(b) && Writable(a) !! ReadOnly(b) && ReadOnly(a) !! Writable(b)
  }

  /** A set of buffers as the editor has them: each consistent, and none writing to what another reads. */
  ghost predicate Consistent(bs: set<EditBuffer>)
    reads *
  {
    && (forall b :: b in bs ==> b.Valid())
    && (forall a, b :: a in bs && b in bs && a != b ==> Separate(a, b))
  }

  /** What every other buffer keeps when `b` is changed. */
  twostate predicate OthersKept(bs: set<EditBuffer>, b: EditBuffer)
    reads *
  {
    forall o :: o in bs && o != b ==> o.State() == old(o.State())
  }

  /** A new buffer on a mapped file. All that it refers to is new. */
  method MapFile(charset: Charset, saveLog: bool, file: seq<byte>) returns (b: EditBuffer)
    ensures fresh(b) && b.Valid() && b.State() == Doc(file, false, saveLog, [], -1)
    ensures fresh(Writable(b)) && fresh(ReadOnly(b))
  {
    hide Flat, EditBuffer.IsLog, EditBuffer.TableValid, EditBuffer.CacheValid;
    b := new EditBuffer(charset, saveLog);
    NoText();
    b.MmapBuffer(file);
  }

  /** Seen with the other buffers around. */
  method MapBeside(bs: set<EditBuffer>, charset: Charset, saveLog: bool, file: seq<byte>) returns (b: EditBuffer)
    requires Consistent(bs)
    ensures fresh(b) && b.Valid() && b.State() == Doc(file, false, saveLog, [], -1)
    ensures fresh(Writable(b)) && fresh(ReadOnly(b))
    ensures forall o :: o in bs ==> o.Valid() && o.State() == old(o.State())
    ensures forall o :: o in bs ==> Writable(o) == old(Writable(o)) && ReadOnly(o) == old(ReadOnly(o))
  {
    hide Flat, EditBuffer.IsLog, EditBuffer.TableValid, EditBuffer.CacheValid;
    b := MapFile(charset, saveLog, file);
    forall o | o in bs
      ensures o.Valid() && o.State() == old(o.State())
      ensures Writable(o) == old(Writable(o)) && ReadOnly(o) == old(ReadOnly(o))
    {
      assert old(o.Valid());
    }
  }

  /** Opens a buffer on a mapped file beside the others. */
  method MapAmong(bs: set<EditBuffer>, charset: Charset, saveLog: bool, file: seq<byte>) returns (b: EditBuffer)
    requires Consistent(bs)
    ensures fresh(b) && Consistent(bs + {b}) && b.State() == Doc(file, false, saveLog, [], -1)
    ensures forall o :: o in bs ==> o.State() == old(o.State())
  {
    hide EditBuffer.Valid, EditBuffer.State;
    b := MapBeside(bs, charset, saveLog, file);
    forall o | o in bs ensures Separate(o, b) {
    }
    hide Writable, ReadOnly;
    forall o, p | o in bs && p in bs && o != p ensures Separate(o, p) {
      assert old(Separate(o, p));
    }
  }

  lemma NoText()
    ensures Flat([]) == []
  {
  }

  /** One command on one buffer, from the session it is in. */
  method Change(b: EditBuffer, a: Action, undone: bool, ghost w: World)
    requires b.Valid() && Possible(w, Deed(b, a)) && !a.CopyFrom?
    requires w.docs[b] == b.State() && undone == (w.undone == b) && HasSession(SessionOf(w, b))
    modifies Writable(b)
    ensures b.Valid() && b.State() == After(w, Deed(b, a)).docs[b]
    ensures fresh(Writable(b) - old(Writable(b))) && ReadOnly(b) <= old(ReadOnly(b))
  {
    DeedIs(w, Deed(b, a));
    hide Flat, Apply, Left, CanUndo, UndoStep, Written, HasSession, After, Splice,
         EditBuffer.LogValid, EditBuffer.PagesValid, EditBuffer.TableValid, EditBuffer.CacheValid, EditBuffer.IsLog;
    match a {
      case InsertAt(offset, buf) => b.Insert(offset, buf);
      case WriteAt(offset, buf) => b.Write(offset, buf);
      case DeleteAt(offset, size) => b.Delete(offset, size);
      case UndoOne => var _, _ := b.Undo(undone);
      case Flush => b.LogReset();
    }
  }

  /** The same with the other buffers around: none of them changes, and all stay separate. */
  method ChangeAmong(bs: set<EditBuffer>, b: EditBuffer, a: Action, undone: bool, ghost w: World)
    requires Consistent(bs) && b in bs && Possible(w, Deed(b, a)) && !a.CopyFrom?
    requires w.docs[b] == b.State() && undone == (w.undone == b) && HasSession(SessionOf(w, b))
    modifies Writable(b)
    ensures Consistent(bs) && OthersKept(bs, b) && b.State() == After(w, Deed(b, a)).docs[b]
    ensures forall o :: o in bs ==> fresh(Writable(o) - old(Writable(o)))
  {
    hide Possible, After, HasSession, EditBuffer.Valid, EditBuffer.LogValid, EditBuffer.PagesValid,
         EditBuffer.TableValid, EditBuffer.CacheValid;
    Change(b, a, undone, w);
    forall o | o in bs && o != b
      ensures o.Valid() && o.State() == old(o.State()) && Separate(o, b)
      ensures Writable(o) == old(Writable(o)) && ReadOnly(o) == old(ReadOnly(o))
    {
      assert old(Separate(o, b));
    }
    hide Writable, ReadOnly;
    forall o, p | o in bs && p in bs && o != p && o != b && p != b
      ensures Separate(o, p)
    {
      assert old(Separate(o, p));
    }
  }

  lemma ValidParts(b: EditBuffer)
    ensures b.Valid() <==> b.PagesValid() && b.totalSize == |b.Text()| && b.LogValid()
  {
  }

  lemma StateOk(b: EditBuffer)
    requires b.Valid()
    ensures DocOk(b.State()) && b.totalSize == |b.Text()|
  {
  }

  lemma CanCopy(b: EditBuffer, src: EditBuffer)
    requires b.Valid() && src.Valid() && b != src && Separate(b, src)
    ensures b.Apart(src) && src.PagesValid() && src.totalSize == |src.Text()|
    ensures b.logBuffer != null ==> b.logBuffer != src && b.logBuffer.Apart(src)
    ensures Writable(src) !! ReadOnly(src) && src.logBuffer != src
  {
  }

  /** The bytes `s[from..from + size]` were inserted at `offset`, as one edit; none are no edit. */
  ghost predicate Copied(before: Doc, after: Doc, offset: nat, s: seq<byte>, from: nat, size: nat) {
    && DocOk(before) && from + size <= |s| && offset <= |before.text|
    && after == if size > 0 then Apply(before, Edit.Insert(offset, s[from..from + size])) else before
  }

  lemma StillSeparate(w: set<object>, r: set<object>, w0: set<object>, r0: set<object>,
                      w1: set<object>, r1: set<object>, s: set<object>)
    requires w !! w0 && w !! r0 && r !! w0 && w !! s && w1 - w0 !! w + r && r1 <= r0 + s
    ensures w !! w1 && w !! r1 && r !! w1
  {
  }

  /** A copy from one buffer to another. */
  method CopyBytes(b: EditBuffer, offset: nat, src: EditBuffer, srcOffset: nat, size: nat)
    requires b.Valid() && src.Valid() && src != b && Separate(b, src) && b.totalSize <= MAX_INT
    requires offset <= b.totalSize && size <= MAX_INT && srcOffset + size <= src.totalSize
    modifies Writable(b), src`curPage, src`curOffset
    ensures b.Valid() && src.Valid() && src.State() == old(src.State())
    ensures Writable(src) == old(Writable(src)) && ReadOnly(src) == old(ReadOnly(src))
    ensures Copied(old(b.State()), b.State(), offset, old(src.Text()), srcOffset, size)
    ensures fresh(Writable(b) - old(Writable(b))) && ReadOnly(b) <= old(ReadOnly(b)) + old(ReadOnly(src))
  {
    hide Flat, Apply, Edited, Splice, RecordOk, EditBuffer.Valid, EditBuffer.LogValid, EditBuffer.PagesValid,
         EditBuffer.TableValid, EditBuffer.CacheValid, EditBuffer.IsLog;
    CanCopy(b, src);
    StateOk(b);
    ValidParts(src);
    b.InsertBuffer(offset, src, srcOffset, size);
    ValidParts(src);
  }

  /** The copy, seen from these two alone. */
  method CopyBetween(b: EditBuffer, offset: nat, src: EditBuffer, srcOffset: nat, size: nat)
    requires b.Valid() && src.Valid() && src != b && Separate(b, src) && b.totalSize <= MAX_INT
    requires offset <= b.totalSize && size <= MAX_INT && srcOffset + size <= src.totalSize
    modifies Writable(b), src`curPage, src`curOffset
    ensures b.Valid() && src.Valid() && src.State() == old(src.State()) && Separate(b, src)
    ensures Writable(src) == old(Writable(src))
    ensures Copied(old(b.State()), b.State(), offset, old(src.Text()), srcOffset, size)
    ensures fresh(Writable(b) - old(Writable(b))) && ReadOnly(b) <= old(ReadOnly(b)) + old(ReadOnly(src))
  {
    hide Copied, EditBuffer.Valid, EditBuffer.State;
    CanCopy(b, src);
    CopyBytes(b, offset, src, srcOffset, size);
    StillSeparate(Writable(src), ReadOnly(src), old(Writable(b)), old(ReadOnly(b)), Writable(b), ReadOnly(b),
                  old(ReadOnly(src)));
  }

  /** The copy, seen with the other buffers around. */
  method CopyBeside(bs: set<EditBuffer>, b: EditBuffer, offset: nat, src: EditBuffer, srcOffset: nat, size: nat)
    requires Consistent(bs) && b in bs && b.totalSize <= MAX_INT
    requires src in bs && src != b && offset <= b.totalSize && size <= MAX_INT && srcOffset + size <= src.totalSize
    modifies Writable(b), src`curPage, src`curOffset
    ensures b.Valid() && src.Valid() && src.State() == old(src.State()) && Separate(b, src)
            && Writable(src) == old(Writable(src))
    ensures fresh(Writable(b) - old(Writable(b))) && ReadOnly(b) <= old(ReadOnly(b)) + old(ReadOnly(src))
    ensures forall o :: o in bs && o != b && o != src ==>
                          && o.Valid() && o.State() == old(o.State())
                          && Writable(o) == old(Writable(o)) && ReadOnly(o) == old(ReadOnly(o))
    ensures Copied(old(b.State()), b.State(), offset, old(src.Text()), srcOffset, size)
  {
    hide Flat, Copied, EditBuffer.Valid, EditBuffer.State;
    assert Separate(b, src);
    CopyBetween(b, offset, src, srcOffset, size);
    forall o | o in bs && o != b && o != src
      ensures o.Valid() && o.State() == old(o.State())
      ensures Writable(o) == old(Writable(o)) && ReadOnly(o) == old(ReadOnly(o))
    {
      assert old(Separate(o, b)) && old(Separate(o, src));
    }
  }

  method CopyApart(bs: set<EditBuffer>, b: EditBuffer, offset: nat, src: EditBuffer, srcOffset: nat, size: nat)
    requires Consistent(bs) && b in bs && b.totalSize <= MAX_INT
    requires src in bs && src != b && offset <= b.totalSize && size <= MAX_INT && srcOffset + size <= src.totalSize
    modifies Writable(b), src`curPage, src`curOffset
    ensures b.Valid() && forall o :: o in bs && o != b ==> o.Valid() && Separate(o, b)
    ensures OthersKept(bs, b)
    ensures forall o :: o in bs ==> fresh(Writable(o) - old(Writable(o)))
    ensures Copied(old(b.State()), b.State(), offset, old(src.Text()), srcOffset, size)
  {
    hide Flat, Copied, EditBuffer.Valid, EditBuffer.State;
    CopyBeside(bs, b, offset, src, srcOffset, size);
    forall o | o in bs && o != b && o != src
      ensures Separate(o, b)
    {
      assert old(Separate(o, b)) && old(Separate(o, src));
      StillSeparate(Writable(o), ReadOnly(o), old(Writable(b)), old(ReadOnly(b)), Writable(b), ReadOnly(b),
                    old(ReadOnly(src)));
    }
  }

  /** Here read-only pages come to be shared between the two buffers. */
  method CopyAmong(bs: set<EditBuffer>, b: EditBuffer, offset: nat, src: EditBuffer, srcOffset: nat, size: nat)
    requires Consistent(bs) && b in bs && b.totalSize <= MAX_INT
    requires src in bs && src != b && offset <= b.totalSize && size <= MAX_INT && srcOffset + size <= src.totalSize
    modifies Writable(b), src`curPage, src`curOffset
    ensures Consistent(bs) && OthersKept(bs, b)
    ensures forall o :: o in bs ==> fresh(Writable(o) - old(Writable(o)))
    ensures Copied(old(b.State()), b.State(), offset, old(src.Text()), srcOffset, size)
  {
    hide Flat, Copied, EditBuffer.Valid, EditBuffer.State;
    CopyApart(bs, b, offset, src, srcOffset, size);
    forall o, p | o in bs && p in bs && o != p && o != b && p != b
      ensures Separate(o, p)
    {
      assert old(Separate(o, b)) && old(Separate(p, b)) && old(Separate(o, p));
    }
  }

  // ---- whole runs ----

  /** What any of the buffers may write to. */
  ghost function Reach(bs: set<EditBuffer>): set<object>
    reads bs, set b | b in bs && b.logBuffer != null :: b.logBuffer
  {
    set b, o | b in bs && o in Writable(b) :: o
  }

  /** The buffers stand as the plain world says. */
  ghost predicate Stand(bs: set<EditBuffer>, w: World)
    reads *
  {
    Consistent(bs) && WorldOk(w) && w.docs.Keys == bs && forall b :: b in bs ==> w.docs[b] == b.State()
  }

  lemma StillStand(bs: set<EditBuffer>, w: World, d: Deed)
    requires Consistent(bs) && WorldOk(w) && w.docs.Keys == bs && Possible(w, d)
    requires d.b.State() == After(w, d).docs[d.b] && forall o :: o in bs && o != d.b ==> o.State() == w.docs[o]
    ensures Stand(bs, After(w, d))
  {
    DeedKeepsOk(w, d);
    hide Consistent, WorldOk, Possible, EditBuffer.State;
  }

  /** What a copy asks for is there. */
  lemma CopyIsPossible(bs: set<EditBuffer>, d: Deed, w: World)
    requires Stand(bs, w) && Possible(w, d) && d.a.CopyFrom?
    ensures d.b in bs && d.a.src in bs && d.a.src != d.b && d.b.Valid() && d.a.src.Valid()
    ensures d.b.totalSize <= MAX_INT && d.a.size <= MAX_INT
    ensures d.a.offset <= d.b.totalSize && d.a.srcOffset + d.a.size <= d.a.src.totalSize
    ensures Consistent(bs) && w.docs.Keys == bs && WorldOk(w)
  {
    hide WorldOk, DocOk;
    assert d.b.Valid() && d.a.src.Valid();
    ValidParts(d.b);
    ValidParts(d.a.src);
  }

  lemma CopiedIs(d: Deed, w: World, after: Doc)
    requires Possible(w, d) && d.a.CopyFrom? && HasSession(SessionOf(w, d.b))
    requires Copied(w.docs[d.b], after, d.a.offset, w.docs[d.a.src].text, d.a.srcOffset, d.a.size)
    ensures after == After(w, d).docs[d.b]
  {
    hide HasSession, Apply, After;
    DeedIs(w, d);
  }

  method DoCopy(bs: set<EditBuffer>, d: Deed, ghost w: World)
    requires Stand(bs, w) && Possible(w, d) && d.a.CopyFrom?
    modifies Reach(bs)
    ensures Stand(bs, After(w, d))
    ensures forall o :: o in bs ==> fresh(Writable(o) - old(Writable(o)))
  {
    CopyIsPossible(bs, d, w);
    assert HasSession(SessionOf(w, d.b));
    hide Consistent, WorldOk, Possible, Copied, EditBuffer.Valid, HasSession, After;
    CopyAmong(bs, d.b, d.a.offset, d.a.src, d.a.srcOffset, d.a.size);
    CopiedIs(d, w, d.b.State());
    StillStand(bs, w, d);
  }

  method DoChange(bs: set<EditBuffer>, d: Deed, undone: EditBuffer?, ghost w: World)
    requires Stand(bs, w) && Possible(w, d) && !d.a.CopyFrom? && undone == w.undone
    modifies Reach(bs)
    ensures Stand(bs, After(w, d))
    ensures forall o :: o in bs ==> fresh(Writable(o) - old(Writable(o)))
  {
    assert HasSession(SessionOf(w, d.b));
    hide Consistent, WorldOk, Possible, EditBuffer.Valid, HasSession, After;
    ChangeAmong(bs, d.b, d.a, undone == d.b, w);
    StillStand(bs, w, d);
  }

  method Do(bs: set<EditBuffer>, d: Deed, undone: EditBuffer?, ghost w: World) returns (undone1: EditBuffer?)
    requires Stand(bs, w) && Possible(w, d) && undone == w.undone
    modifies Reach(bs)
    ensures Stand(bs, After(w, d)) && undone1 == After(w, d).undone
    ensures forall o :: o in bs ==> fresh(Writable(o) - old(Writable(o)))
  {
    hide Possible, Stand, Writable, Run, Commands;
    if d.a.CopyFrom? {
      DoCopy(bs, d, w);
    } else {
      DoChange(bs, d, undone, w);
    }
    undone1 := if d.a.UndoOne? then d.b else null;
  }

  /** Any commands on any of the buffers, in any order, do to the pages, blocks and logs of all of them what
      the plain world says. */
  method DoAll(bs: set<EditBuffer>, ds: seq<Deed>, undone: EditBuffer?, ghost w: World)
    requires Stand(bs, w) && AllPossible(w, ds) && undone == w.undone
    modifies Reach(bs)
    ensures Stand(bs, AfterAll(w, ds))
    ensures forall o :: o in bs ==> fresh(Writable(o) - old(Writable(o)))
    decreases |ds|
  {
    hide Stand, Possible, After;
    if ds != [] {
      var next := Do(bs, ds[0], undone, w);
      DoAll(bs, ds[1..], next, After(w, ds[0]));
    }
  }
}
