/** The editor on plain texts: several buffers, each with its own log, changed in any order. */
module Worlds {
  import opened PageText
  import opened UndoLog
  import opened LogBytes
  import opened EditBuffers

  /** What can be done to a buffer. */
  datatype Action =
    | InsertAt(offset: nat, buf: seq<byte>)
    | WriteAt(offset: nat, buf: seq<byte>)
    | DeleteAt(offset: nat, size: nat)
    | CopyFrom(src: EditBuffer, srcOffset: nat, size: nat, offset: nat)
    | UndoOne
    | Flush           // the log is dropped, as after saving

  datatype Deed = Deed(b: EditBuffer, a: Action)

  /** What each buffer holds. `undone` is the buffer of the last command if that was undo: it takes a command
      of its own to get to another buffer, which ends a chain of undos. */
  datatype World = World(docs: map<EditBuffer, Doc>, undone: EditBuffer?)

  ghost function SessionOf(w: World, b: EditBuffer): Session
    requires b in w.docs
  {
    Session(w.docs[b], w.undone == b)
  }

  ghost predicate WorldOk(w: World) {
    forall b :: b in w.docs ==> HasSession(SessionOf(w, b))
  }

  ghost predicate Possible(w: World, d: Deed) {
    && d.b in w.docs && DocOk(w.docs[d.b])
    && var n := |w.docs[d.b].text|;
       n <= MAX_INT && match d.a
         case InsertAt(offset, buf) => offset <= n && |buf| <= MAX_INT
         case WriteAt(offset, buf) => offset <= n && |buf| <= MAX_INT
         case DeleteAt(offset, size) => offset < n ==> offset + size <= n
         case CopyFrom(src, from, size, offset) =>
           && src in w.docs && src != d.b && offset <= n
           && size <= MAX_INT && from + size <= |w.docs[src].text|
         case _ => true
  }

  /** A write goes over what is there and on after the end. */
  function WriteCommands(n: nat, offset: nat, buf: seq<byte>): seq<Command>
    requires offset <= n
  {
    var over := if offset + |buf| <= n then |buf| else n - offset;
    if buf == [] then [Other]
    else if over == |buf| then [DoEdit(Overwrite(offset, buf[..over]))]
    else if over == 0 then [DoEdit(Edit.Insert(offset + over, buf[over..]))]
    else [DoEdit(Overwrite(offset, buf[..over])), DoEdit(Edit.Insert(offset + over, buf[over..]))]
  }

  /** A deed as the session of its buffer sees it. */
  ghost function Commands(w: World, d: Deed): seq<Command>
    requires Possible(w, d)
  {
    match d.a
    case InsertAt(offset, buf) => [DoEdit(Edit.Insert(offset, buf))]
    case WriteAt(offset, buf) => WriteCommands(|w.docs[d.b].text|, offset, buf)
    case DeleteAt(offset, size) => if offset < |w.docs[d.b].text| then [DoEdit(Edit.Delete(offset, size))] else [Other]
    case CopyFrom(src, from, size, offset) =>
      if size > 0 then [DoEdit(Edit.Insert(offset, w.docs[src].text[from..from + size]))] else [Other]
    case UndoOne => [Undo]
    case Flush => [Save]
  }

  lemma RunOne(s: Session, c: Command)
    requires DocOk(s.doc) && Allowed(s, c)
    ensures RunAllowed(s, [c]) && Run(s, [c]) == Step(s, c)
  {
    hide Allowed, Step;
    assert Run(Step(s, c), []) == Step(s, c);
  }

  lemma RunTwo(s: Session, c: Command, e: Command)
    requires DocOk(s.doc) && Allowed(s, c) && Allowed(Step(s, c), e)
    ensures RunAllowed(s, [c, e]) && Run(s, [c, e]) == Step(Step(s, c), e)
  {
    hide Allowed, Step;
    RunOne(Step(s, c), e);
    assert [c, e][1..] == [e];
  }

  lemma WriteIsRun(s: Session, offset: nat, buf: seq<byte>)
    requires DocOk(s.doc) && offset <= |s.doc.text|
    ensures RunAllowed(s, WriteCommands(|s.doc.text|, offset, buf))
    ensures Run(s, WriteCommands(|s.doc.text|, offset, buf)).doc == Written(s.doc, offset, buf)
    ensures !Run(s, WriteCommands(|s.doc.text|, offset, buf)).lastUndo
  {
    hide Apply, RunAllowed, Run, Edited, Splice;
    var n := if offset + |buf| <= |s.doc.text| then |buf| else |s.doc.text| - offset;
    if buf == [] {
      RunOne(s, Other);
    } else if n == |buf| {
      RunOne(s, DoEdit(Overwrite(offset, buf[..n])));
    } else if n == 0 {
      RunOne(s, DoEdit(Edit.Insert(offset + n, buf[n..])));
    } else {
      LongWriteIsRun(s, offset, buf, n);
    }
  }

  /** A write that begins in the text and goes on after its end. */
  lemma LongWriteIsRun(s: Session, offset: nat, buf: seq<byte>, n: nat)
    requires DocOk(s.doc) && offset <= |s.doc.text| < offset + |buf| && 0 < n == |s.doc.text| - offset
    ensures var cs := [DoEdit(Overwrite(offset, buf[..n])), DoEdit(Edit.Insert(offset + n, buf[n..]))];
            && WriteCommands(|s.doc.text|, offset, buf) == cs && RunAllowed(s, cs)
            && Run(s, cs) == Session(Written(s.doc, offset, buf), false)
  {
    hide Apply, RunAllowed, Run, Edited, Splice;
    RunTwo(s, DoEdit(Overwrite(offset, buf[..n])), DoEdit(Edit.Insert(offset + n, buf[n..])));
  }

  lemma CommandsAllowed(w: World, d: Deed)
    requires Possible(w, d)
    ensures RunAllowed(SessionOf(w, d.b), Commands(w, d))
    ensures Run(SessionOf(w, d.b), Commands(w, d)).lastUndo == d.a.UndoOne?
  {
    hide Step, Written, WriteCommands, RunAllowed, Run;
    var s := SessionOf(w, d.b);
    if d.a.WriteAt? {
      WriteIsRun(s, d.a.offset, d.a.buf);
    } else {
      var c := Commands(w, d)[0];
      RunOne(s, c);
      StepFlag(s, c);
    }
  }

  lemma StepFlag(s: Session, c: Command)
    requires DocOk(s.doc) && Allowed(s, c)
    ensures Step(s, c).lastUndo == c.Undo?
  {
  }

  /** A deed changes one buffer, as a command changes it in its own session. */
  ghost function After(w: World, d: Deed): (w1: World)
    requires Possible(w, d)
    ensures w1.docs.Keys == w.docs.Keys
    ensures forall b :: b in w.docs && b != d.b ==> w1.docs[b] == w.docs[b]
  {
    CommandsAllowed(w, d);
    World(w.docs[d.b := Run(SessionOf(w, d.b), Commands(w, d)).doc], if d.a.UndoOne? then d.b else null)
  }

  lemma UndoOneIs(s: Session)
    requires HasSession(s)
    ensures var d := UndoStart(s.doc, s.lastUndo);
            && (Left(d) > 0 <==> CanUndo(d))
            && Step(s, Undo).doc == if Left(d) > 0 then UndoStep(d) else d
  {
    hide UndoStep;
    if s.doc.saveLog {
      UndoFinds(s);
    }
  }

  /** What each deed makes of its buffer. */
  lemma DeedIs(w: World, d: Deed)
    requires Possible(w, d) && HasSession(SessionOf(w, d.b))
    ensures var doc := w.docs[d.b]; var doc1 := After(w, d).docs[d.b];
            match d.a
            case InsertAt(offset, buf) => doc1 == Apply(doc, Edit.Insert(offset, buf))
            case WriteAt(offset, buf) => doc1 == Written(doc, offset, buf)
            case DeleteAt(offset, size) =>
              doc1 == if offset < |doc.text| then Apply(doc, Edit.Delete(offset, size)) else doc
            case CopyFrom(src, from, size, offset) =>
              doc1 == if size > 0 then Apply(doc, Edit.Insert(offset, w.docs[src].text[from..from + size])) else doc
            case UndoOne =>
              var start := UndoStart(doc, w.undone == d.b);
              (Left(start) > 0 ==> CanUndo(start)) && doc1 == if Left(start) > 0 then UndoStep(start) else start
            case Flush => doc1 == doc.(modified := false, log := [], cur := -1)
  {
    hide Written, WriteCommands, RunAllowed, Run, SessionOk, Apply, UndoStep, Left, CanUndo;
    CommandsAllowed(w, d);
    var s := SessionOf(w, d.b);
    if d.a.WriteAt? {
      WriteIsRun(s, d.a.offset, d.a.buf);
    } else {
      RunOne(s, Commands(w, d)[0]);
      if d.a.UndoOne? {
        UndoOneIs(s);
      }
    }
  }

  // What stands where after each deed, and whether the buffer then counts as modified.

  lemma TextInserted(w: World, d: Deed, offset: nat, buf: seq<byte>)
    requires Possible(w, d) && HasSession(SessionOf(w, d.b)) && d.a == InsertAt(offset, buf)
    ensures var t, doc := w.docs[d.b].text, After(w, d).docs[d.b];
            doc.text == t[..offset] + buf + t[offset..] && doc.modified
  {
    DeedIs(w, d);
    hide After, HasSession, Apply, Written, Commands;
    AppliedIs(w.docs[d.b], Edit.Insert(offset, buf));
  }

  lemma TextWritten(w: World, d: Deed, offset: nat, buf: seq<byte>)
    requires Possible(w, d) && HasSession(SessionOf(w, d.b)) && d.a == WriteAt(offset, buf)
    ensures var t, doc := w.docs[d.b].text, After(w, d).docs[d.b];
            && doc.text == t[..offset] + buf + (if offset + |buf| < |t| then t[offset + |buf|..] else [])
            && doc.modified == (w.docs[d.b].modified || buf != [])
  {
    DeedIs(w, d);
    hide After, HasSession, Apply, Written, Commands;
    WrittenIs(w.docs[d.b], offset, buf);
    WrittenFlag(w.docs[d.b], offset, buf);
  }

  lemma TextDeleted(w: World, d: Deed, offset: nat, size: nat)
    requires Possible(w, d) && HasSession(SessionOf(w, d.b)) && d.a == DeleteAt(offset, size)
    ensures var t, doc := w.docs[d.b].text, After(w, d).docs[d.b];
            && doc.text == (if offset < |t| then t[..offset] + t[offset + size..] else t)
            && doc.modified == (w.docs[d.b].modified || offset < |t|)
  {
    DeedIs(w, d);
    hide After, HasSession, Apply, Written, Commands;
    if offset < |w.docs[d.b].text| {
      AppliedIs(w.docs[d.b], Edit.Delete(offset, size));
    }
  }

  lemma TextCopied(w: World, d: Deed, src: EditBuffer, from: nat, size: nat, offset: nat)
    requires Possible(w, d) && HasSession(SessionOf(w, d.b)) && d.a == CopyFrom(src, from, size, offset)
    ensures var t, doc := w.docs[d.b].text, After(w, d).docs[d.b];
            && doc.text == t[..offset] + w.docs[src].text[from..from + size] + t[offset..]
            && doc.modified == (w.docs[d.b].modified || size > 0)
  {
    DeedIs(w, d);
    hide After, HasSession, Apply, Written, Commands;
    var x := w.docs[src].text[from..from + size];
    if size > 0 {
      AppliedIs(w.docs[d.b], Edit.Insert(offset, x));
    } else {
      NothingCopied(w.docs[d.b].text, offset, x);
    }
  }

  lemma LogDropped(w: World, d: Deed)
    requires Possible(w, d) && HasSession(SessionOf(w, d.b)) && d.a == Flush
    ensures var doc := After(w, d).docs[d.b]; doc.text == w.docs[d.b].text && !doc.modified && doc.log == []
  {
    DeedIs(w, d);
    hide After, HasSession, Commands;
  }

  lemma AppliedIs(d: Doc, e: Edit)
    requires DocOk(d) && Enabled(e, d.text) && !e.Overwrite?
    ensures var d1 := Apply(d, e);
            && e.offset <= |d.text| && d1.modified
            && d1.text == if e.Insert? then d.text[..e.offset] + e.bytes + d.text[e.offset..]
                          else d.text[..e.offset] + d.text[e.offset + e.size..]
  {
    hide AddRecord, EditRecord, Edited;
    EditedIs(d.text, e);
  }

  lemma NothingCopied(t: seq<byte>, offset: nat, x: seq<byte>)
    requires offset <= |t| && x == []
    ensures t == t[..offset] + x + t[offset..]
  {
  }

  lemma WrittenFlag(d: Doc, offset: nat, buf: seq<byte>)
    requires DocOk(d) && offset <= |d.text|
    ensures Written(d, offset, buf).modified == (d.modified || buf != [])
  {
    hide AddRecord, EditRecord, Edited;
  }

  ghost predicate AllPossible(w: World, ds: seq<Deed>)
    decreases |ds|
  {
    ds == [] || (Possible(w, ds[0]) && AllPossible(After(w, ds[0]), ds[1..]))
  }

  ghost function AfterAll(w: World, ds: seq<Deed>): (w1: World)
    requires AllPossible(w, ds)
    ensures w1.docs.Keys == w.docs.Keys
    decreases |ds|
  {
    if ds == [] then w else AfterAll(After(w, ds[0]), ds[1..])
  }

  // ---- logs stay walkable ----

  /** What a deed is for the session of any buffer: its own commands, or a command somewhere else. */
  ghost function SeenOne(w: World, d: Deed, b: EditBuffer): seq<Command>
    requires Possible(w, d)
  {
    if d.b == b then Commands(w, d) else [Other]
  }

  lemma SeesDeed(w: World, d: Deed, b: EditBuffer)
    requires Possible(w, d) && b in w.docs && DocOk(w.docs[b])
    ensures RunAllowed(SessionOf(w, b), SeenOne(w, d, b))
    ensures SessionOf(After(w, d), b) == Run(SessionOf(w, b), SeenOne(w, d, b))
  {
    hide Run, RunAllowed, Commands, Possible;
    if d.b == b {
      CommandsAllowed(w, d);
    } else {
      RunOne(SessionOf(w, b), Other);
    }
  }

  lemma DeedKeepsOk(w: World, d: Deed)
    requires WorldOk(w) && Possible(w, d)
    ensures WorldOk(After(w, d))
  {
    hide Run, RunAllowed, Possible, SeenOne, SessionOk, After;
    forall b | b in After(w, d).docs ensures HasSession(SessionOf(After(w, d), b)) {
      assert b in w.docs && HasSession(SessionOf(w, b));
      SeesDeed(w, d, b);
      RunHasSession(SessionOf(w, b), SeenOne(w, d, b));
    }
  }

  /** Whatever is done, an undo never walks onto a record it cannot take back. */
  lemma {:induction false} DeedsKeepOk(w: World, ds: seq<Deed>)
    requires WorldOk(w) && AllPossible(w, ds)
    ensures WorldOk(AfterAll(w, ds))
    decreases |ds|
  {
    hide WorldOk, Possible, After;
    if ds != [] {
      DeedKeepsOk(w, ds[0]);
      DeedsKeepOk(After(w, ds[0]), ds[1..]);
    }
  }

  // ---- one buffer among the others ----

  /** All that happens, as the session of one buffer sees it. */
  ghost function Seen(w: World, ds: seq<Deed>, b: EditBuffer): seq<Command>
    requires AllPossible(w, ds)
    decreases |ds|
  {
    if ds == [] then [] else SeenOne(w, ds[0], b) + Seen(After(w, ds[0]), ds[1..], b)
  }

  lemma {:induction false} RunOn(s: Session, cs: seq<Command>, ds: seq<Command>)
    requires DocOk(s.doc) && RunAllowed(s, cs) && RunAllowed(Run(s, cs), ds)
    ensures RunAllowed(s, cs + ds) && Run(s, cs + ds) == Run(Run(s, cs), ds)
    decreases |cs|
  {
    hide Step, Allowed;
    if cs == [] {
      assert cs + ds == ds;
    } else {
      RunOn(Step(s, cs[0]), cs[1..], ds);
      assert (cs + ds)[1..] == cs[1..] + ds;
    }
  }

  /** In any run over all buffers each one fares as in a session of its own, to which the others send it
      nothing but the bytes copied from them. */
  lemma {:induction false} EachAlone(w: World, ds: seq<Deed>, b: EditBuffer)
    requires WorldOk(w) && AllPossible(w, ds) && b in w.docs
    ensures RunAllowed(SessionOf(w, b), Seen(w, ds, b))
    ensures SessionOf(AfterAll(w, ds), b) == Run(SessionOf(w, b), Seen(w, ds, b))
    decreases |ds|
  {
    assert HasSession(SessionOf(w, b));
    assert RunAllowed(SessionOf(w, b), []);
    hide WorldOk, Possible, After, SeenOne, RunAllowed, SessionOk, Step, Allowed;
    if ds != [] {
      DeedKeepsOk(w, ds[0]);
      SeesDeed(w, ds[0], b);
      EachAlone(After(w, ds[0]), ds[1..], b);
      RunOn(SessionOf(w, b), SeenOne(w, ds[0], b), Seen(After(w, ds[0]), ds[1..], b));
    }
  }

  function Undos(b: EditBuffer, k: nat): (ds: seq<Deed>)
    ensures |ds| == k
  {
    if k == 0 then [] else [Deed(b, UndoOne)] + Undos(b, k - 1)
  }

  /** Undos in one buffer are a chain of undos in its session, and no other buffer changes. */
  lemma {:induction false} UndosAlone(w: World, b: EditBuffer, k: nat)
    requires WorldOk(w) && b in w.docs && AllPossible(w, Undos(b, k))
    ensures AfterAll(w, Undos(b, k)).docs[b] == UndoTimes(SessionOf(w, b), k).doc
    ensures forall o :: o in w.docs && o != b ==> AfterAll(w, Undos(b, k)).docs[o] == w.docs[o]
    decreases k
  {
    assert HasSession(SessionOf(w, b));
    hide WorldOk, Possible, SessionOk, Step, After;
    if k > 0 {
      var d := Deed(b, UndoOne);
      assert Undos(b, k)[1..] == Undos(b, k - 1);
      DeedKeepsOk(w, d);
      SeesDeed(w, d, b);
      RunOne(SessionOf(w, b), Undo);
      UndosAlone(After(w, d), b, k - 1);
    }
  }

  /** The promise of the undo command, with other buffers around. Whatever is done to all of them: if it left
      up to 25 records in one buffer and took back no write there, as many undos in that buffer bring back
      its text from before it all, and the other buffers keep what they have by then. */
  lemma UndosAmongOthers(w: World, ds: seq<Deed>, b: EditBuffer, k: nat, w1: World, w2: World)
    requires WorldOk(w) && b in w.docs && w.docs[b].saveLog && AllPossible(w, ds)
    requires RunAllowed(SessionOf(w, b), Seen(w, ds, b)) && AllTraceable(SessionOf(w, b), Seen(w, ds, b))
    requires k == AllLogged(SessionOf(w, b), Seen(w, ds, b)) <= 25
    requires w1 == AfterAll(w, ds) && w1.undone != b && AllPossible(w1, Undos(b, k)) && w2 == AfterAll(w1, Undos(b, k))
    ensures w2.docs[b].text == w.docs[b].text
    ensures forall o :: o in w.docs && o != b ==> w2.docs[o] == w1.docs[o]
  {
    assert HasSession(SessionOf(w, b));
    hide WorldOk, SessionOk, AllPossible, AfterAll, Undos, Seen, AllTraceable, AllLogged, UndoTimes, Run, RunAllowed;
    var s, cs := SessionOf(w, b), Seen(w, ds, b);
    DeedsKeepOk(w, ds);
    EachAlone(w, ds, b);
    var t := SessionOf(w1, b);
    assert t == Step(Run(s, cs), Other);
    UndosAlone(w1, b, k);
    ShortHistoryThenUndos(s, cs, t, UndoTimes(t, k));
  }
}
