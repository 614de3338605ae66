/** What the undo log promises, on plain texts: each edit leaves a record that takes it back. */
module UndoLog {
  import opened PageText

  const NB_LOGS_MAX := 50

  datatype LogOp = LogWrite | LogInsert | LogDelete

  /** One record. `data` holds the bytes that were overwritten or deleted. */
  datatype Record = Record(op: LogOp, wasModified: bool, offset: nat, size: nat, data: seq<byte>)

  predicate RecordOk(r: Record) {
    match r.op
    case LogInsert => r.data == []
    case LogDelete => |r.data| == r.size
    case LogWrite => |r.data| == r.size && r.size > 0
  }

  /** A buffer without its pages: its bytes, its modified flag and its undo log.
      `cur` is the number of records below the last undone one, or -1 if no undo is going on. */
  datatype Doc = Doc(text: seq<byte>, modified: bool, saveLog: bool, log: seq<Record>, cur: int)

  predicate DocOk(d: Doc) {
    && -1 <= d.cur <= |d.log| < NB_LOGS_MAX
    && forall r :: r in d.log ==> RecordOk(r)
  }

  /** Making room for one more record: the oldest is dropped when the log is full. */
  function Trim(d: Doc): (t: Doc)
    requires DocOk(d)
    ensures DocOk(t) && |t.log| < NB_LOGS_MAX - 1
  {
    if |d.log| >= NB_LOGS_MAX - 1
    then d.(log := d.log[1..], cur := if d.cur > 0 then d.cur - 1 else d.cur)
    else d
  }

  function AddRecord(d: Doc, r: Record): (t: Doc)
    requires DocOk(d) && RecordOk(r)
    ensures DocOk(t) && t.text == d.text && t.modified && t.saveLog == d.saveLog
  {
    if d.saveLog
    then Trim(d).(modified := true, log := Trim(d).log + [r])
    else d.(modified := true)
  }

  function AddLog(d: Doc, op: LogOp, offset: nat, size: nat): (t: Doc)
    requires DocOk(d) && RecordOk(RecordFor(d, op, offset, size))
    ensures DocOk(t)
  {
    AddRecord(d, RecordFor(d, op, offset, size))
  }

  function RecordFor(d: Doc, op: LogOp, offset: nat, size: nat): Record {
    Record(op, d.modified, offset, size,
           if op != LogInsert && offset + size <= |d.text| then d.text[offset..offset + size] else [])
  }

  /** The edits, in the form in which each adds one record. */
  datatype Edit = Overwrite(offset: nat, bytes: seq<byte>)
                | Insert(offset: nat, bytes: seq<byte>)
                | Delete(offset: nat, size: nat)

  predicate Enabled(e: Edit, text: seq<byte>) {
    match e
    case Overwrite(offset, bytes) => bytes != [] && offset + |bytes| <= |text|
    case Insert(offset, bytes) => offset <= |text|
    case Delete(offset, size) => offset < |text| && offset + size <= |text|
  }

  function Edited(text: seq<byte>, e: Edit): (t: seq<byte>)
    requires Enabled(e, text)
    ensures |t| + (if e.Delete? then e.size else 0) == |text| + (if e.Insert? then |e.bytes| else 0)
  {
    match e
    case Overwrite(offset, bytes) => Splice(text, offset, |bytes|, bytes)
    case Insert(offset, bytes) => Splice(text, offset, 0, bytes)
    case Delete(offset, size) => Splice(text, offset, size, [])
  }

  /** What stands where after an edit. */
  lemma EditedIs(text: seq<byte>, e: Edit)
    requires Enabled(e, text)
    ensures e.offset <= |text|
    ensures e.Overwrite? ==> Edited(text, e) == text[..e.offset] + e.bytes + text[e.offset + |e.bytes|..]
    ensures e.Insert? ==> Edited(text, e) == text[..e.offset] + e.bytes + text[e.offset..]
    ensures e.Delete? ==> Edited(text, e) == text[..e.offset] + text[e.offset + e.size..]
  {
  }

  function EditRecord(d: Doc, e: Edit): (r: Record)
    requires Enabled(e, d.text)
    ensures RecordOk(r) && r.wasModified == d.modified
  {
    match e
    case Overwrite(offset, bytes) => RecordFor(d, LogWrite, offset, |bytes|)
    case Insert(offset, bytes) => RecordFor(d, LogInsert, offset, |bytes|)
    case Delete(offset, size) => RecordFor(d, LogDelete, offset, size)
  }

  function Apply(d: Doc, e: Edit): (t: Doc)
    requires DocOk(d) && Enabled(e, d.text)
    ensures DocOk(t) && t.saveLog == d.saveLog && t.text == Edited(d.text, e)
  {
    AddRecord(d, EditRecord(d, e)).(text := Edited(d.text, e))
  }

  /** An edit is: the operation is logged, then done. */
  lemma OverwriteIsLogged(d: Doc, offset: nat, x: seq<byte>)
    requires DocOk(d) && Enabled(Overwrite(offset, x), d.text)
    ensures Apply(d, Overwrite(offset, x)) == AddLog(d, LogWrite, offset, |x|).(text := Splice(d.text, offset, |x|, x))
  {
  }

  lemma InsertIsLogged(d: Doc, offset: nat, x: seq<byte>)
    requires DocOk(d) && Enabled(Insert(offset, x), d.text)
    ensures Apply(d, Insert(offset, x)) == AddLog(d, LogInsert, offset, |x|).(text := Splice(d.text, offset, 0, x))
  {
  }

  lemma DeleteIsLogged(d: Doc, offset: nat, size: nat)
    requires DocOk(d) && Enabled(Delete(offset, size), d.text)
    ensures Apply(d, Delete(offset, size))
         == AddLog(d, LogDelete, offset, size).(text := Splice(d.text, offset, size, []))
  {
  }

  /** How many records an undo command can still take back. */
  function Left(d: Doc): int {
    if d.cur == -1 then |d.log| else d.cur
  }

  /** The record can be taken back in a text of `len` bytes. */
  predicate Fits(r: Record, len: nat) {
    RecordOk(r) && match r.op
      case LogDelete => r.offset <= len
      case _ => r.offset + r.size <= len
  }

  function LenBefore(r: Record, len: nat): nat
    requires Fits(r, len)
  {
    match r.op
    case LogWrite => len
    case LogDelete => len + r.size
    case LogInsert => len - r.size
  }

  function Revert(r: Record, text: seq<byte>): (t: seq<byte>)
    requires Fits(r, |text|)
    ensures |t| == LenBefore(r, |text|)
  {
    match r.op
    case LogWrite => Splice(text, r.offset, r.size, r.data)
    case LogDelete => Splice(text, r.offset, 0, r.data)
    case LogInsert => Splice(text, r.offset, r.size, [])
  }

  predicate CanUndo(d: Doc) {
    DocOk(d) && Left(d) > 0 && Fits(d.log[Left(d) - 1], |d.text|)
  }

  /** The record of an undo step itself. Taking back a write is recorded as a write over the bytes
      already restored. */
  function UndoRecord(d: Doc): (u: Record)
    requires CanUndo(d)
    ensures RecordOk(u)
  {
    var r := d.log[Left(d) - 1];
    match r.op
    case LogWrite => RecordFor(d.(text := Revert(r, d.text), modified := true), LogWrite, r.offset, r.size)
    case LogDelete => RecordFor(d.(modified := d.modified || r.size > 0), LogInsert, r.offset, r.size)
    case LogInsert => RecordFor(d, LogDelete, r.offset, r.size)
  }

  /** Deleting nothing at the end of the text returns before it logs anything. */
  predicate UndoIsLogged(d: Doc)
    requires CanUndo(d)
  {
    var r := d.log[Left(d) - 1];
    !(r.op == LogInsert && r.offset >= |d.text|)
  }

  /** One undo step that finds a record. The step is itself recorded. */
  function UndoStep(d: Doc): (t: Doc)
    requires CanUndo(d)
    ensures DocOk(t) && t.saveLog == d.saveLog
  {
    var r := d.log[Left(d) - 1];
    var from := d.(cur := Left(d) - 1);
    var logged := if UndoIsLogged(d) then AddRecord(from, UndoRecord(d)) else from;
    logged.(text := Revert(r, d.text), modified := r.wasModified)
  }

  lemma UndoWriteIsLogged(d: Doc)
    requires CanUndo(d) && d.log[Left(d) - 1].op == LogWrite
    ensures var r, from := d.log[Left(d) - 1], d.(cur := Left(d) - 1);
            var text := Splice(d.text, r.offset, r.size, r.data);
            && DocOk(from) && RecordOk(RecordFor(from.(text := text, modified := true), LogWrite, r.offset, r.size))
            && UndoStep(d)
               == AddLog(from.(text := text, modified := true), LogWrite, r.offset, r.size).(modified := r.wasModified)
  {
    hide Splice;
  }

  lemma UndoDeleteIsLogged(d: Doc)
    requires CanUndo(d) && d.log[Left(d) - 1].op == LogDelete
    ensures var r, from := d.log[Left(d) - 1], d.(cur := Left(d) - 1); var text := Splice(d.text, r.offset, 0, r.data);
            && DocOk(from)
            && UndoStep(d) == AddLog(from.(text := text, modified := d.modified || r.size > 0), LogInsert, r.offset,
                                     r.size)
                              .(modified := r.wasModified)
  {
    hide Splice;
  }

  lemma UndoInsertIsLogged(d: Doc)
    requires CanUndo(d) && d.log[Left(d) - 1].op == LogInsert
    ensures var r, from := d.log[Left(d) - 1], d.(cur := Left(d) - 1); var text := Splice(d.text, r.offset, r.size, []);
            && DocOk(from)
            && UndoStep(d) == (if r.offset >= |d.text| then from else AddLog(from, LogDelete, r.offset, r.size))
                              .(text := text, modified := r.wasModified)
  {
    hide Splice;
  }

  /** An undo step in terms of what it logs, by the kind of record taken back. */
  lemma UndoStepIsLogged(d: Doc)
    requires CanUndo(d)
    ensures var r, from := d.log[Left(d) - 1], d.(cur := Left(d) - 1); var text := Revert(r, d.text);
            && DocOk(from)
            && (r.op == LogWrite ==>
                  && text == Splice(d.text, r.offset, r.size, r.data)
                  && RecordOk(RecordFor(from.(text := text, modified := true), LogWrite, r.offset, r.size))
                  && UndoStep(d)
                     == AddLog(from.(text := text, modified := true), LogWrite, r.offset, r.size)
                        .(modified := r.wasModified))
            && (r.op == LogDelete ==>
                  && text == Splice(d.text, r.offset, 0, r.data)
                  && UndoStep(d) == AddLog(from.(text := text, modified := d.modified || r.size > 0), LogInsert,
                                           r.offset, r.size)
                                    .(modified := r.wasModified))
            && (r.op == LogInsert ==>
                  && text == Splice(d.text, r.offset, r.size, [])
                  && UndoStep(d) == (if r.offset >= |d.text| then from else AddLog(from, LogDelete, r.offset, r.size))
                                    .(text := text, modified := r.wasModified))
  {
    hide Splice, UndoStep, AddLog, RecordFor;
    match d.log[Left(d) - 1].op
    case LogWrite => UndoWriteIsLogged(d);
    case LogDelete => UndoDeleteIsLogged(d);
    case LogInsert => UndoInsertIsLogged(d);
  }

  /** A command other than undo ends a chain of undos. */
  function NewChain(d: Doc): Doc {
    d.(cur := -1)
  }

  // ---- what the log can bring back ----

  /** The first `n` records of the log can be walked back, the last one first, from a text of `len` bytes. */
  predicate Walkable(log: seq<Record>, n: nat, len: nat)
    requires n <= |log|
  {
    n == 0 || (Fits(log[n - 1], len) && Walkable(log, n - 1, LenBefore(log[n - 1], len)))
  }

  /** The text with the records `n - k` to `n - 1` taken back, the last one first. */
  function Unwound(log: seq<Record>, n: nat, text: seq<byte>, k: nat): seq<byte>
    requires k <= n <= |log| && Walkable(log, n, |text|)
    decreases n
  {
    if k == 0 then text else Unwound(log, n - 1, Revert(log[n - 1], text), k - 1)
  }

  lemma UnwoundNone(log: seq<Record>, n: nat, text: seq<byte>)
    requires n <= |log| && Walkable(log, n, |text|)
    ensures Unwound(log, n, text, 0) == text
  {
  }

  lemma UnwoundMore(log: seq<Record>, n: nat, text: seq<byte>, k: nat)
    requires k < n <= |log| && Walkable(log, n, |text|)
    ensures Unwound(log, n, text, k + 1) == Unwound(log, n - 1, Revert(log[n - 1], text), k)
  {
  }

  /** The first `n` records of `b` are those of `a` without the first `d`. */
  predicate Shifted(a: seq<Record>, b: seq<Record>, d: nat, n: nat) {
    n + d <= |a| && n <= |b| && forall i :: 0 <= i < n ==> b[i] == a[i + d]
  }

  lemma {:induction false} ShiftWalkable(a: seq<Record>, b: seq<Record>, d: nat, n: nat, len: nat)
    requires Shifted(a, b, d, n) && Walkable(a, n + d, len)
    ensures Walkable(b, n, len)
  {
    if n > 0 {
      assert b[n - 1] == a[n - 1 + d];
      ShiftWalkable(a, b, d, n - 1, LenBefore(b[n - 1], len));
    }
  }

  lemma {:induction false} ShiftUnwound(a: seq<Record>, b: seq<Record>, d: nat, n: nat, text: seq<byte>, k: nat)
    requires Shifted(a, b, d, n) && k <= n && Walkable(a, n + d, |text|)
    ensures Walkable(b, n, |text|) && Unwound(b, n, text, k) == Unwound(a, n + d, text, k)
    decreases n
  {
    ShiftWalkable(a, b, d, n, |text|);
    if k > 0 {
      assert b[n - 1] == a[n - 1 + d];
      ShiftUnwound(a, b, d, n - 1, Revert(b[n - 1], text), k - 1);
    }
  }

  // ---- one step ----

  lemma SpliceBack(s: seq<byte>, pos: nat, len: nat, x: seq<byte>)
    requires pos + len <= |s|
    ensures Splice(Splice(s, pos, len, x), pos, |x|, s[pos..pos + len]) == s
  {
    var t := Splice(s, pos, len, x);
    assert t[..pos] == s[..pos];
    assert t[pos + |x|..] == s[pos + len..];
  }

  lemma SpliceRemoved(s: seq<byte>, pos: nat, x: seq<byte>)
    requires pos <= |s|
    ensures Splice(Splice(s, pos, 0, x), pos, |x|, []) == s
  {
    SpliceBack(s, pos, 0, x);
    assert s[pos..pos + 0] == [];
  }

  lemma SpliceSame(s: seq<byte>, pos: nat, x: seq<byte>)
    requires pos + |x| <= |s|
    ensures Splice(s, pos, |x|, x)[pos..pos + |x|] == x
    ensures Splice(Splice(s, pos, |x|, x), pos, |x|, x) == Splice(s, pos, |x|, x)
  {
  }

  /** The record of an edit takes that edit back. */
  lemma RecordReverts(d: Doc, e: Edit)
    requires DocOk(d) && Enabled(e, d.text)
    ensures Fits(EditRecord(d, e), |Edited(d.text, e)|)
    ensures Revert(EditRecord(d, e), Edited(d.text, e)) == d.text
  {
    match e
    case Overwrite(offset, bytes) => SpliceBack(d.text, offset, |bytes|, bytes);
    case Insert(offset, bytes) => SpliceRemoved(d.text, offset, bytes);
    case Delete(offset, size) => SpliceBack(d.text, offset, size, []);
  }

  /** Taking back an undo step. A write over bytes already restored changes nothing. */
  lemma UndoRecordReverts(d: Doc)
    requires CanUndo(d) && UndoIsLogged(d)
    ensures var r := d.log[Left(d) - 1]; var t := Revert(r, d.text);
            && Fits(UndoRecord(d), |t|)
            && Revert(UndoRecord(d), t) == if r.op == LogWrite then t else d.text
  {
    hide Splice;
    var r := d.log[Left(d) - 1];
    match r.op
    case LogWrite => SpliceSame(d.text, r.offset, r.data);
    case LogDelete => SpliceRemoved(d.text, r.offset, r.data);
    case LogInsert => SpliceBack(d.text, r.offset, r.size, []);
  }

  // ---- sessions: edits, saves and chains of undos in any order ----

  datatype Command =
    | DoEdit(e: Edit)
    | MarkSaved         // the modified flag is cleared, the log is kept
    | Save              // the log is flushed as well
    | Undo
    | Other             // a command that does not touch the buffer

  datatype Session = Session(doc: Doc, lastUndo: bool)

  predicate SessionOk(s: Session) {
    && DocOk(s.doc) && s.doc.saveLog
    && Walkable(s.doc.log, |s.doc.log|, |s.doc.text|)
    && (s.lastUndo && s.doc.cur != -1 ==> Walkable(s.doc.log, s.doc.cur, |s.doc.text|))
  }

  predicate Allowed(s: Session, c: Command) {
    c.DoEdit? ==> Enabled(c.e, s.doc.text)
  }

  /** The document an undo command starts from. */
  function UndoFrom(s: Session): Doc {
    if s.lastUndo then s.doc else NewChain(s.doc)
  }

  predicate Finds(s: Session) {
    CanUndo(UndoFrom(s))
  }

  /** How many records undo commands given one after the other can take back, the last one first. */
  function Height(s: Session): nat
    requires DocOk(s.doc)
  {
    Left(UndoFrom(s))
  }

  function Step(s: Session, c: Command): (t: Session)
    requires DocOk(s.doc) && Allowed(s, c)
    ensures DocOk(t.doc)
  {
    match c
    case DoEdit(e) => Session(Apply(s.doc, e), false)
    case MarkSaved => Session(s.doc.(modified := false), false)
    case Save => Session(s.doc.(modified := false, log := [], cur := -1), false)
    case Other => s.(lastUndo := false)
    case Undo => Session(if Finds(s) then UndoStep(UndoFrom(s)) else UndoFrom(s), true)
  }

  /** What the commands that change no byte leave: a save forgets all records, and both ways of saving clear the
      modified flag. */
  lemma CommandsAside(s: Session)
    requires DocOk(s.doc)
    ensures Step(s, MarkSaved).doc == s.doc.(modified := false) && Step(s, Other).doc == s.doc
    ensures Step(s, Save).doc == Doc(s.doc.text, false, s.doc.saveLog, [], -1)
    ensures !Finds(Step(s, Save)) && Step(Step(s, Save), Undo).doc == Step(s, Save).doc
  {
  }

  /** In a session an undo command finds a record as long as one is left: it never walks onto
      something it cannot take back. */
  lemma UndoFinds(s: Session)
    requires SessionOk(s)
    ensures Walkable(s.doc.log, Height(s), |s.doc.text|)
    ensures Finds(s) <==> Height(s) > 0
  {
  }

  /** A log with one more record, which fits the text after it. */
  lemma AddedWalkable(d: Doc, r: Record, len: nat)
    requires DocOk(d) && d.saveLog && Fits(r, len) && Walkable(d.log, |d.log|, LenBefore(r, len))
    ensures var log := AddRecord(d, r).log; Walkable(log, |log|, len)
  {
    var log := AddRecord(d, r).log;
    var n := |log| - 1;
    ShiftWalkable(d.log, log, |d.log| - n, n, LenBefore(r, len));
  }

  lemma EditKeepsOk(s: Session, e: Edit)
    requires SessionOk(s) && Enabled(e, s.doc.text)
    ensures SessionOk(Step(s, DoEdit(e)))
  {
    RecordReverts(s.doc, e);
    AddedWalkable(s.doc, EditRecord(s.doc, e), |Edited(s.doc.text, e)|);
  }

  /** An undo step keeps the whole log walkable, its own record included. */
  lemma UndoKeepsLog(d: Doc)
    requires CanUndo(d) && d.saveLog && Walkable(d.log, |d.log|, |d.text|)
    ensures var t := UndoStep(d); Walkable(t.log, |t.log|, |t.text|)
  {
    hide UndoRecord, Revert, AddRecord, Walkable;
    if UndoIsLogged(d) {
      UndoRecordReverts(d);
      AddedWalkable(d.(cur := Left(d) - 1), UndoRecord(d), |Revert(d.log[Left(d) - 1], d.text)|);
    }
  }

  function Room(d: Doc): int {
    NB_LOGS_MAX - 1 - |d.log|
  }

  /** What an undo step leaves to take back: all but the record taken back and, when the log was
      full, the oldest one. */
  lemma UndoLeaves(d: Doc)
    requires CanUndo(d) && d.saveLog
    ensures var t, n := UndoStep(d), Left(d);
            && 0 <= t.cur && n - 2 <= t.cur <= n - 1 && Shifted(d.log, t.log, n - 1 - t.cur, t.cur)
            && (t.cur == n - 2 ==> Room(d) == 0)
            && (Room(d) > 0 ==> Room(t) >= Room(d) - 1)
            && (UndoIsLogged(d) ==> Room(t) == if Room(d) > 0 then Room(d) - 1 else 0)
            && (UndoIsLogged(d) && Room(d) == 0 && n > 1 ==> t.cur == n - 2)
  {
  }

  lemma UndoStepText(d: Doc)
    requires CanUndo(d)
    ensures UndoStep(d).text == Revert(d.log[Left(d) - 1], d.text)
  {
    hide Splice, AddRecord, Revert;
  }

  lemma UndoKeepsOk(s: Session)
    requires SessionOk(s)
    ensures SessionOk(Step(s, Undo))
  {
    hide Splice, AddRecord, Revert, UndoStep;
    if Finds(s) {
      var d := UndoFrom(s);
      UndoKeepsLog(d);
      UndoStepText(d);
      UndoLeaves(d);
      var t := UndoStep(d);
      ShiftWalkable(d.log, t.log, Left(d) - 1 - t.cur, t.cur, |t.text|);
    }
  }

  /** No command, in no order, breaks the log. */
  lemma StepKeepsOk(s: Session, c: Command)
    requires SessionOk(s) && Allowed(s, c)
    ensures SessionOk(Step(s, c)) && |Step(s, c).doc.log| <= 49
  {
    match c
    case DoEdit(e) => EditKeepsOk(s, e);
    case Undo => UndoKeepsOk(s);
    case _ =>
  }

  /** Any log that a session leaves; none if the buffer keeps none. */
  predicate HasSession(s: Session) {
    DocOk(s.doc) && if s.doc.saveLog then SessionOk(s) else s.doc.log == [] && s.doc.cur == -1
  }

  lemma StepHasSession(s: Session, c: Command)
    requires HasSession(s) && Allowed(s, c)
    ensures HasSession(Step(s, c))
  {
    hide Walkable, Fits;
    if s.doc.saveLog {
      StepKeepsOk(s, c);
      StepKeepsKind(s, c);
    }
  }

  lemma StepKeepsKind(s: Session, c: Command)
    requires DocOk(s.doc) && Allowed(s, c)
    ensures Step(s, c).doc.saveLog == s.doc.saveLog
  {
    hide Revert, Fits;
  }

  // ---- chains of undos ----

  function UndoTimes(s: Session, k: nat): (t: Session)
    requires DocOk(s.doc)
    ensures DocOk(t.doc)
    decreases k
  {
    if k == 0 then s else UndoTimes(Step(s, Undo), k - 1)
  }

  /** Each of `k` undos given one after the other finds a record. */
  predicate FindsAll(s: Session, k: nat)
    requires DocOk(s.doc)
    decreases k
  {
    k == 0 || (Finds(s) && FindsAll(Step(s, Undo), k - 1))
  }

  /** One undo that finds a record. */
  lemma UndoEffect(s: Session, t: Session)
    requires SessionOk(s) && Finds(s) && t == Step(s, Undo)
    ensures SessionOk(t) && Height(s) > 0 && Walkable(s.doc.log, Height(s), |s.doc.text|)
    ensures var top := s.doc.log[Height(s) - 1];
            t.doc.text == Revert(top, s.doc.text) && t.doc.modified == top.wasModified
    ensures Height(s) - 2 <= Height(t) <= Height(s) - 1
    ensures Shifted(s.doc.log, t.doc.log, Height(s) - 1 - Height(t), Height(t))
  {
    hide Splice, AddRecord, Walkable, UndoRecord, UndoIsLogged, Revert, Shifted;
    UndoFinds(s);
    UndoKeepsOk(s);
    UndoLeaves(UndoFrom(s));
  }

  lemma ChainStep(s: Session, t: Session, k: nat)
    requires SessionOk(s) && k > 0 && FindsAll(s, k) && t == Step(s, Undo)
    ensures Finds(s) && FindsAll(t, k - 1) && UndoTimes(s, k) == UndoTimes(t, k - 1)
  {
  }

  /** A chain of undos takes back the records that were there when it began, one after the other,
      whatever it adds to the log and whatever is dropped from the log meanwhile. */
  lemma {:induction false} ChainUnwinds(s: Session, k: nat, u: Session)
    requires SessionOk(s) && FindsAll(s, k) && u == UndoTimes(s, k)
    ensures k <= Height(s) && Walkable(s.doc.log, Height(s), |s.doc.text|)
    ensures u.doc.text == Unwound(s.doc.log, Height(s), s.doc.text, k)
    decreases k
  {
    hide Splice, UndoStep, Unwound;
    UndoFinds(s);
    if k == 0 {
      UnwoundNone(s.doc.log, Height(s), s.doc.text);
    } else {
      var t := Step(s, Undo);
      ChainStep(s, t, k);
      UndoEffect(s, t);
      ChainUnwinds(t, k - 1, u);
      UnwoundMore(s.doc.log, Height(s), s.doc.text, k - 1);
      ShiftUnwound(s.doc.log, t.doc.log, Height(s) - 1 - Height(t), Height(t), t.doc.text, k - 1);
    }
  }

  /** The modified flag after a chain of undos is the one that the last record taken back remembers. */
  lemma {:induction false} ChainModified(s: Session, k: nat, u: Session)
    requires SessionOk(s) && k > 0 && FindsAll(s, k) && u == UndoTimes(s, k)
    ensures k <= Height(s) && u.doc.modified == s.doc.log[Height(s) - k].wasModified
    decreases k
  {
    hide Splice, UndoStep;
    var t := Step(s, Undo);
    ChainStep(s, t, k);
    UndoEffect(s, t);
    if k > 1 {
      ChainModified(t, k - 1, u);
      assert t.doc.log[Height(t) - (k - 1)] == s.doc.log[Height(s) - k];
    }
  }

  /** How many undos in a row find a record, with `n` records to take back and room for `room` more. */
  function Capacity(n: nat, room: nat): nat {
    if n <= room then n else room + (n - room + 1) / 2
  }

  lemma {:induction false} CapacityIsThere(s: Session, k: nat)
    requires SessionOk(s) && k <= Capacity(Height(s), Room(s.doc))
    ensures FindsAll(s, k)
    decreases k
  {
    hide Splice, Walkable, Fits, UndoStep, AddRecord;
    UndoFinds(s);
    if k > 0 {
      UndoKeepsOk(s);
      UndoLeaves(UndoFrom(s));
      CapacityIsThere(Step(s, Undo), k - 1);
    }
  }

  /** No record inserts nothing. (Undoing such a record at the end of the text leaves no record.) */
  predicate NoEmptyInsert(log: seq<Record>, n: nat)
    requires n <= |log|
  {
    forall i :: 0 <= i < n && log[i].op == LogInsert ==> log[i].size > 0
  }

  lemma TopIsLogged(s: Session)
    requires DocOk(s.doc) && Finds(s) && NoEmptyInsert(s.doc.log, Height(s))
    ensures UndoIsLogged(UndoFrom(s))
  {
  }

  /** Undos in a row use up the log: each takes one record from its top and, once it is full,
      drops one from its bottom. */
  lemma {:induction false} CapacityIsAll(s: Session, k: nat)
    requires SessionOk(s) && NoEmptyInsert(s.doc.log, Height(s)) && FindsAll(s, k)
    ensures k <= Capacity(Height(s), Room(s.doc))
    decreases k
  {
    hide Splice, Walkable, UndoStep, Fits, Revert, UndoRecord, UndoIsLogged;
    if k > 0 {
      TopIsLogged(s);
      var t := Step(s, Undo);
      ChainStep(s, t, k);
      UndoEffect(s, t);
      UndoLeaves(UndoFrom(s));
      ShiftNoEmptyInsert(s.doc.log, t.doc.log, Height(s) - 1 - Height(t), Height(t));
      CapacityIsAll(t, k - 1);
    }
  }

  lemma ShiftNoEmptyInsert(a: seq<Record>, b: seq<Record>, d: nat, n: nat)
    requires Shifted(a, b, d, n) && NoEmptyInsert(a, n + d)
    ensures NoEmptyInsert(b, n)
  {
    forall i | 0 <= i < n && b[i].op == LogInsert
      ensures b[i].size > 0
    {
      assert b[i] == a[i + d];
    }
  }

  /** From the first undo on, exactly the last 25 operations can be taken back, or all if there were fewer. */
  lemma UndoDepth(s: Session, k: nat)
    requires SessionOk(s) && !s.lastUndo && NoEmptyInsert(s.doc.log, |s.doc.log|)
    ensures FindsAll(s, k) <==> k <= |s.doc.log| && k <= 25
  {
    if FindsAll(s, k) {
      CapacityIsAll(s, k);
    } else if k <= |s.doc.log| && k <= 25 {
      CapacityIsThere(s, k);
    }
  }

  // ---- edits and the undos that follow them ----

  predicate RunAllowed(s: Session, cs: seq<Command>)
    requires DocOk(s.doc)
    decreases |cs|
  {
    cs == [] || (Allowed(s, cs[0]) && RunAllowed(Step(s, cs[0]), cs[1..]))
  }

  function Run(s: Session, cs: seq<Command>): (t: Session)
    requires DocOk(s.doc) && RunAllowed(s, cs)
    ensures DocOk(t.doc)
    decreases |cs|
  {
    if cs == [] then s else Run(Step(s, cs[0]), cs[1..])
  }

  lemma {:induction false} RunKeepsOk(s: Session, cs: seq<Command>)
    requires SessionOk(s) && RunAllowed(s, cs)
    ensures SessionOk(Run(s, cs)) && |Run(s, cs).doc.log| <= 49
    decreases |cs|
  {
    if cs != [] {
      StepKeepsOk(s, cs[0]);
      RunKeepsOk(Step(s, cs[0]), cs[1..]);
    }
  }

  /** The log keeps all records until there are 49 of them, and from then on the last 49. */
  lemma RecordKept(d: Doc, r: Record)
    requires DocOk(d) && RecordOk(r) && d.saveLog
    ensures |d.log| <= 49 && AddRecord(d, r).log == (if |d.log| == 49 then d.log[1..] else d.log) + [r]
  {
  }

  /** After any number of edits, with commands between them that leave text and log alone, the log has a record
      of each edit, or 49 records. */
  lemma {:induction false} EditsFillLog(s: Session, cs: seq<Command>)
    requires DocOk(s.doc) && s.doc.saveLog && RunAllowed(s, cs) && Plain(cs)
    ensures var n := |s.doc.log| + Edits(cs); |Run(s, cs).doc.log| == if n <= 49 then n else 49
    decreases |cs|
  {
    hide AddRecord;
    if cs != [] {
      assert cs[0] in cs && Plain(cs[1..]);
      if cs[0].DoEdit? {
        RecordKept(s.doc, EditRecord(s.doc, cs[0].e));
      }
      EditsFillLog(Step(s, cs[0]), cs[1..]);
    }
  }

  /** The bound is reached: 49 insertions into an empty buffer leave 49 records, one more leaves 49 as well. */
  lemma FullLog()
    ensures var s := Session(Doc([], false, true, [], -1), false);
            && SessionOk(s)
            && RunAllowed(s, Insertions(49)) && |Run(s, Insertions(49)).doc.log| == 49
            && RunAllowed(s, Insertions(50)) && |Run(s, Insertions(50)).doc.log| == 49
  {
    hide Run;
    var s := Session(Doc([], false, true, [], -1), false);
    InsertionsAllowed(s, 49);
    InsertionsAllowed(s, 50);
    EditsFillLog(s, Insertions(49));
    EditsFillLog(s, Insertions(50));
  }

  function Insertions(n: nat): (cs: seq<Command>)
    ensures |cs| == n
  {
    if n == 0 then [] else [DoEdit(Insert(0, [0]))] + Insertions(n - 1)
  }

  lemma {:induction false} InsertionsAllowed(s: Session, n: nat)
    requires DocOk(s.doc)
    ensures RunAllowed(s, Insertions(n)) && Plain(Insertions(n)) && Edits(Insertions(n)) == n
    decreases n
  {
    hide Step, Enabled;
    if n > 0 {
      var cs := Insertions(n);
      assert cs[1..] == Insertions(n - 1);
      AtFront(s);
      InsertionsAllowed(Step(s, cs[0]), n - 1);
    }
  }

  lemma AtFront(s: Session)
    ensures Allowed(s, DoEdit(Insert(0, [0])))
  {
  }

  lemma {:induction false} RunHasSession(s: Session, cs: seq<Command>)
    requires HasSession(s) && RunAllowed(s, cs)
    ensures HasSession(Run(s, cs))
    decreases |cs|
  {
    hide Step, Allowed, SessionOk;
    if cs != [] {
      StepHasSession(s, cs[0]);
      RunHasSession(Step(s, cs[0]), cs[1..]);
    }
  }

  function Edits(cs: seq<Command>): nat {
    if cs == [] then 0 else (if cs[0].DoEdit? then 1 else 0) + Edits(cs[1..])
  }

  predicate Plain(cs: seq<Command>) {
    forall c :: c in cs ==> c.DoEdit? || c == MarkSaved || c == Other
  }

  /** How many records a command adds. */
  function Logged(s: Session, c: Command): nat {
    if c.DoEdit? || (c == Undo && Finds(s) && UndoIsLogged(UndoFrom(s))) then 1 else 0
  }

  /** A command that keeps the log and takes back no write. */
  predicate Traceable(s: Session, c: Command) {
    c != Save && (c == Undo && Finds(s) ==> UndoFrom(s).log[Left(UndoFrom(s)) - 1].op != LogWrite)
  }

  predicate AllTraceable(s: Session, cs: seq<Command>)
    requires DocOk(s.doc) && RunAllowed(s, cs)
    decreases |cs|
  {
    cs == [] || (Traceable(s, cs[0]) && AllTraceable(Step(s, cs[0]), cs[1..]))
  }

  function AllLogged(s: Session, cs: seq<Command>): nat
    requires DocOk(s.doc) && RunAllowed(s, cs)
    decreases |cs|
  {
    if cs == [] then 0 else Logged(s, cs[0]) + AllLogged(Step(s, cs[0]), cs[1..])
  }

  lemma AddedShifted(d: Doc, r: Record)
    requires DocOk(d) && d.saveLog && RecordOk(r)
    ensures var log := AddRecord(d, r).log; var n := |log| - 1;
            && |d.log| - 1 <= n <= |d.log| && n < NB_LOGS_MAX - 1
            && (n < |d.log| ==> n == NB_LOGS_MAX - 2)
            && Shifted(d.log, log, |d.log| - n, n)
  {
  }

  /** One edit more: the records of all the edits since then still lead back to the same text. */
  lemma EditUnwinds(s: Session, e: Edit, t: Session, k: nat)
    requires SessionOk(s) && Enabled(e, s.doc.text) && t == Step(s, DoEdit(e))
    requires k < NB_LOGS_MAX - 1 && k <= |s.doc.log|
    ensures SessionOk(t) && k + 1 <= |t.doc.log|
    ensures Unwound(t.doc.log, |t.doc.log|, t.doc.text, k + 1) == Unwound(s.doc.log, |s.doc.log|, s.doc.text, k)
    ensures t.doc.log[|t.doc.log| - k - 1] == if k == 0 then EditRecord(s.doc, e) else s.doc.log[|s.doc.log| - k]
  {
    hide Unwound, Splice, EditRecord, Edited, Revert;
    EditKeepsOk(s, e);
    RecordReverts(s.doc, e);
    AddedShifted(s.doc, EditRecord(s.doc, e));
    var n := |t.doc.log| - 1;
    ShiftUnwound(s.doc.log, t.doc.log, |s.doc.log| - n, n, s.doc.text, k);
    UnwoundMore(t.doc.log, |t.doc.log|, t.doc.text, k);
  }

  /** The record an undo step leaves is the one that the next chain of undos begins with. */
  lemma UndoRecordOnTop(d: Doc, d1: Doc)
    requires CanUndo(d) && UndoIsLogged(d) && d.saveLog && d1 == UndoStep(d)
    ensures CanUndo(NewChain(d1)) && d1.log[|d1.log| - 1] == UndoRecord(d)
    ensures d1.text == Revert(d.log[Left(d) - 1], d.text)
    ensures d1.log == AddRecord(d.(cur := Left(d) - 1), UndoRecord(d)).log
  {
    UndoRecordReverts(d);
    hide Splice, Revert, UndoRecord;
  }

  /** The record of an undo step, unless a write was taken back, leads back to the text before that step. */
  lemma UndoUnwinds(d: Doc, t: Doc, j: nat)
    requires CanUndo(d) && d.saveLog && Walkable(d.log, |d.log|, |d.text|) && t == UndoStep(d)
    requires d.log[Left(d) - 1].op != LogWrite && UndoIsLogged(d)
    requires j < NB_LOGS_MAX - 1 && j <= |d.log|
    ensures j + 1 <= |t.log| && Walkable(t.log, |t.log|, |t.text|)
    ensures Unwound(t.log, |t.log|, t.text, j + 1) == Unwound(d.log, |d.log|, d.text, j)
  {
    hide Unwound, Splice, UndoRecord, AddRecord, UndoStep;
    UndoKeepsLog(d);
    UndoRecordOnTop(d, t);
    UndoRecordReverts(d);
    AddedShifted(d.(cur := Left(d) - 1), UndoRecord(d));
    var n := |t.log| - 1;
    ShiftUnwound(d.log, t.log, |d.log| - n, n, d.text, j);
    UnwoundMore(t.log, |t.log|, t.text, j);
  }

  /** An undo that leaves a record, and took back no write: one record more leads back to the same text. */
  lemma LoggedUndoUnwinds(s: Session, t: Session, k: nat)
    requires SessionOk(s) && Finds(s) && UndoIsLogged(UndoFrom(s)) && t == Step(s, Undo) && Traceable(s, Undo)
    requires k < NB_LOGS_MAX - 1 && k <= |s.doc.log|
    ensures SessionOk(t) && k + 1 <= |t.doc.log|
    ensures Unwound(t.doc.log, |t.doc.log|, t.doc.text, k + 1) == Unwound(s.doc.log, |s.doc.log|, s.doc.text, k)
    ensures k > 0 ==> t.doc.log[|t.doc.log| - k - 1] == s.doc.log[|s.doc.log| - k]
  {
    hide Unwound, Splice, UndoRecord, AddRecord, UndoStep, Revert, Fits;
    var d := UndoFrom(s);
    UndoKeepsOk(s);
    UndoUnwinds(d, t.doc, k);
    UndoRecordOnTop(d, t.doc);
    AddedShifted(d.(cur := Left(d) - 1), UndoRecord(d));
  }

  /** An undo that leaves no record changes neither the text nor the log. */
  lemma IdleUndo(s: Session, t: Session)
    requires SessionOk(s) && t == Step(s, Undo) && Logged(s, Undo) == 0
    ensures SessionOk(t) && t.doc.text == s.doc.text && t.doc.log == s.doc.log
  {
    hide AddRecord;
    UndoKeepsOk(s);
    if Finds(s) {
      var d := UndoFrom(s);
      assert Splice(d.text, d.log[Left(d) - 1].offset, 0, []) == d.text;
    }
  }

  /** Whatever one command adds to the log leads back to where it began. */
  lemma StepUnwinds(s: Session, c: Command, t: Session, k: nat)
    requires SessionOk(s) && Allowed(s, c) && Traceable(s, c) && t == Step(s, c)
    requires k + Logged(s, c) <= NB_LOGS_MAX - 1 && k <= |s.doc.log|
    ensures SessionOk(t) && k + Logged(s, c) <= |t.doc.log|
    ensures Unwound(t.doc.log, |t.doc.log|, t.doc.text, k + Logged(s, c))
            == Unwound(s.doc.log, |s.doc.log|, s.doc.text, k)
    ensures k > 0 ==> t.doc.log[|t.doc.log| - k - Logged(s, c)] == s.doc.log[|s.doc.log| - k]
    ensures k == 0 && c.DoEdit? ==> t.doc.log[|t.doc.log| - 1].wasModified == s.doc.modified
  {
    hide Unwound, Splice, AddRecord, UndoStep, Revert, Fits, UndoIsLogged;
    match c
    case DoEdit(e) => EditUnwinds(s, e, t, k);
    case Undo =>
      if Logged(s, c) == 1 {
        LoggedUndoUnwinds(s, t, k);
      } else {
        IdleUndo(s, t);
      }
    case _ => StepKeepsOk(s, c);
  }

  /** After any run that takes back no write, the records it added lead back to where it began. */
  lemma {:induction false} RunUnwinds(s: Session, cs: seq<Command>, t: Session, k: nat)
    requires SessionOk(s) && RunAllowed(s, cs) && AllTraceable(s, cs) && t == Run(s, cs)
    requires k + AllLogged(s, cs) <= NB_LOGS_MAX - 1 && k <= |s.doc.log|
    ensures SessionOk(t) && k + AllLogged(s, cs) <= |t.doc.log|
    ensures Unwound(t.doc.log, |t.doc.log|, t.doc.text, k + AllLogged(s, cs))
            == Unwound(s.doc.log, |s.doc.log|, s.doc.text, k)
    ensures k > 0 ==> t.doc.log[|t.doc.log| - k - AllLogged(s, cs)] == s.doc.log[|s.doc.log| - k]
    decreases |cs|
  {
    hide Unwound, Step, Walkable, Logged, Traceable, Allowed;
    if cs != [] {
      var next := Step(s, cs[0]);
      StepUnwinds(s, cs[0], next, k);
      RunUnwinds(next, cs[1..], t, k + Logged(s, cs[0]));
    }
  }

  /** The promise of the undo command, for any history of edits, undos of anything but writes, and other
      commands: as many undos as the history left records, each finding a record, bring back the text from
      before it, and the modified flag if it began with an edit. */
  lemma HistoryThenUndos(s: Session, cs: seq<Command>, t: Session, u: Session)
    requires SessionOk(s) && RunAllowed(s, cs) && AllTraceable(s, cs) && t == Step(Run(s, cs), Other)
    requires FindsAll(t, AllLogged(s, cs)) && u == UndoTimes(t, AllLogged(s, cs))
    ensures u.doc.text == s.doc.text
    ensures cs != [] && cs[0].DoEdit? ==> u.doc.modified == s.doc.modified
  {
    hide Unwound, Splice, Walkable, Logged, Traceable, Allowed, AddRecord, FindsAll, UndoTimes, Apply;
    RunKeepsOk(s, cs);
    StepKeepsOk(Run(s, cs), Other);
    var k := AllLogged(s, cs);
    ChainUnwinds(t, k, u);
    RunUnwinds(s, cs, Run(s, cs), 0);
    UnwoundNone(s.doc.log, |s.doc.log|, s.doc.text);
    if cs != [] && cs[0].DoEdit? {
      FirstIsOldest(s, cs, Run(s, cs));
      ChainModified(t, k, u);
    }
  }

  /** The oldest record of a run that begins with an edit remembers the modified flag from before it. */
  lemma FirstIsOldest(s: Session, cs: seq<Command>, t: Session)
    requires SessionOk(s) && RunAllowed(s, cs) && AllTraceable(s, cs) && t == Run(s, cs)
    requires cs != [] && cs[0].DoEdit? && AllLogged(s, cs) <= NB_LOGS_MAX - 1
    ensures 0 < AllLogged(s, cs) <= |t.doc.log| && t.doc.log[|t.doc.log| - AllLogged(s, cs)].wasModified
            == s.doc.modified
  {
    hide Unwound, Walkable, Traceable, Allowed, Step;
    StepUnwinds(s, cs[0], Step(s, cs[0]), 0);
    RunUnwinds(Step(s, cs[0]), cs[1..], t, 1);
  }

  /** Up to 25 records need no further condition. */
  lemma ShortHistoryThenUndos(s: Session, cs: seq<Command>, t: Session, u: Session)
    requires SessionOk(s) && RunAllowed(s, cs) && AllTraceable(s, cs) && t == Step(Run(s, cs), Other)
    requires AllLogged(s, cs) <= 25 && u == UndoTimes(t, AllLogged(s, cs))
    ensures u.doc.text == s.doc.text
    ensures cs != [] && cs[0].DoEdit? ==> u.doc.modified == s.doc.modified
  {
    hide Unwound, Splice, Walkable, Traceable, Allowed, UndoTimes, FindsAll;
    RunKeepsOk(s, cs);
    StepKeepsOk(Run(s, cs), Other);
    RunUnwinds(s, cs, Run(s, cs), 0);
    CapacityIsThere(t, AllLogged(s, cs));
    HistoryThenUndos(s, cs, t, u);
  }

  /** A run of edits and commands that leave the text alone. */
  lemma {:induction false} PlainIsTraceable(s: Session, cs: seq<Command>)
    requires SessionOk(s) && Plain(cs) && RunAllowed(s, cs)
    ensures AllTraceable(s, cs) && AllLogged(s, cs) == Edits(cs) && (cs != [] ==> !Run(s, cs).lastUndo)
    decreases |cs|
  {
    hide Walkable, Fits, Apply;
    if cs != [] {
      assert cs[0] in cs && Plain(cs[1..]);
      StepKeepsOk(s, cs[0]);
      PlainIsTraceable(Step(s, cs[0]), cs[1..]);
    }
  }

  /** The promise of the undo command for plain edits: as many undos as there were edits, each finding a
      record, bring back the text and the modified flag from before the first edit. */
  lemma EditsThenUndos(s: Session, cs: seq<Command>, t: Session, u: Session)
    requires SessionOk(s) && Plain(cs) && cs != [] && cs[0].DoEdit? && RunAllowed(s, cs)
    requires t == Run(s, cs) && FindsAll(t, Edits(cs)) && u == UndoTimes(t, Edits(cs))
    ensures u.doc.text == s.doc.text && u.doc.modified == s.doc.modified
  {
    hide Unwound, Splice, Walkable, FindsAll, UndoTimes, Run, AllTraceable, AllLogged, Plain;
    PlainIsTraceable(s, cs);
    HistoryThenUndos(s, cs, t, u);
  }

  /** Up to 25 edits need no further condition. */
  lemma FewEditsThenUndos(s: Session, cs: seq<Command>, t: Session, u: Session)
    requires SessionOk(s) && Plain(cs) && cs != [] && cs[0].DoEdit? && RunAllowed(s, cs)
    requires t == Run(s, cs) && Edits(cs) <= 25 && u == UndoTimes(t, Edits(cs))
    ensures u.doc.text == s.doc.text && u.doc.modified == s.doc.modified
  {
    hide Unwound, Splice, Walkable, FindsAll, UndoTimes, Run, AllTraceable, AllLogged, Plain;
    PlainIsTraceable(s, cs);
    ShortHistoryThenUndos(s, cs, t, u);
  }

  // ---- undoing an undo ----

  lemma SpliceIdle(s: seq<byte>, pos: nat, x: seq<byte>)
    requires pos + |x| <= |s|
    ensures Splice(s, pos, |x|, x) == s <==> s[pos..pos + |x|] == x
  {
    SpliceSame(s, pos, x);
    if s[pos..pos + |x|] == x {
      assert s == s[..pos] + s[pos..pos + |x|] + s[pos + |x|..];
    }
  }

  /** Undoing an undo, after another command came between, is a redo, except that a write cannot be
      redone: the record of its undo holds the bytes already restored. */
  lemma UndoUndone(d: Doc, d1: Doc, d2: Doc)
    requires CanUndo(d) && UndoIsLogged(d) && d.saveLog && d1 == UndoStep(d)
    requires CanUndo(NewChain(d1)) && d2 == UndoStep(NewChain(d1))
    ensures var r := d.log[Left(d) - 1];
            && (d2.text == d.text <==>
                (r.op == LogWrite ==> d.text[r.offset..r.offset + r.size] == r.data))
            && (d2.modified == d.modified <==>
                d.modified || r.op == LogInsert || (r.op == LogDelete && r.size == 0))
  {
    hide Splice, Revert, AddRecord, UndoStep, UndoRecord;
    var r, u := d.log[Left(d) - 1], UndoRecord(d);
    UndoRecordOnTop(d, d1);
    UndoRecordReverts(d);
    UndoStepText(NewChain(d1));
    UndoStepFlag(NewChain(d1));
    UndoRecordFlag(d);
    if r.op == LogWrite {
      WriteAgain(d, r);
    }
  }

  lemma UndoStepFlag(d: Doc)
    requires CanUndo(d)
    ensures UndoStep(d).modified == d.log[Left(d) - 1].wasModified
  {
    hide Splice, AddRecord, Revert;
  }

  /** The modified flag that the record of an undo step remembers. */
  lemma UndoRecordFlag(d: Doc)
    requires CanUndo(d)
    ensures var r := d.log[Left(d) - 1];
            UndoRecord(d).wasModified == (d.modified || r.op == LogWrite || (r.op == LogDelete && r.size > 0))
  {
    hide Splice;
  }

  lemma WriteAgain(d: Doc, r: Record)
    requires Fits(r, |d.text|) && r.op == LogWrite
    ensures Revert(r, d.text) == d.text <==> d.text[r.offset..r.offset + r.size] == r.data
  {
    SpliceIdle(d.text, r.offset, r.data);
  }

  /** A write that is not redone: "a" is inserted and overwritten by "b", the write is undone, and after another
      command the undo is undone. The text is still "a". */
  lemma WriteNotRedone()
    ensures var s := Session(Doc([], false, true, [], -1), false);
            var edits, undos := [DoEdit(Insert(0, [97])), DoEdit(Overwrite(0, [98]))], [Undo, Other, Undo];
            && RunAllowed(s, edits) && Run(s, edits).doc.text == [98]
            && RunAllowed(Run(s, edits), undos) && Run(Run(s, edits), undos).doc.text == [97]
  {
    var s := Session(Doc([], false, true, [], -1), false);
    var edits, undos := [DoEdit(Insert(0, [97])), DoEdit(Overwrite(0, [98]))], [Undo, Other, Undo];
    var t := Session(WrittenOver(), false);
    TwoEdits(s, edits, t);
    var t1, t2, t3 := Step(t, Undo), Step(Step(t, Undo), Other), Step(Step(Step(t, Undo), Other), Undo);
    ThreeCommands(t, undos, t1, t2, t3);
    UndoTheWrite(t1);
    UndoTheUndo(t1.doc, NewChain(t1.doc));
    hide Step;
  }

  function WrittenOver(): Doc {
    Doc([98], true, true, [Record(LogInsert, false, 0, 1, []), Record(LogWrite, true, 0, 1, [97])], -1)
  }

  lemma UndoTheWrite(t: Session)
    requires t == Step(Session(WrittenOver(), false), Undo)
    ensures t.doc.text == [97] && |t.doc.log| == 3 && t.doc.log[2] == Record(LogWrite, true, 0, 1, [97])
  {
  }

  lemma UndoTheUndo(d: Doc, e: Doc)
    requires DocOk(d) && d.text == [97] && |d.log| == 3 && d.log[2] == Record(LogWrite, true, 0, 1, [97])
             && e == NewChain(d)
    ensures CanUndo(e) && UndoStep(e).text == [97]
  {
    UndoStepText(e);
  }

  lemma TwoEdits(s: Session, cs: seq<Command>, t: Session)
    requires s == Session(Doc([], false, true, [], -1), false) && t == Session(WrittenOver(), false)
    requires cs == [DoEdit(Insert(0, [97])), DoEdit(Overwrite(0, [98]))]
    ensures RunAllowed(s, cs) && Run(s, cs) == t
  {
    var s1 := Step(s, cs[0]);
    assert s1.doc == Doc([97], true, true, [Record(LogInsert, false, 0, 1, [])], -1);
    assert Step(s1, cs[1]) == t;
    hide Step;
    assert cs[1..] == [cs[1]] && cs[1..][1..] == [];
    assert RunAllowed(t, []) && Run(t, []) == t;
    assert RunAllowed(s1, cs[1..]) && Run(s1, cs[1..]) == t;
  }

  lemma ThreeCommands(s: Session, cs: seq<Command>, s1: Session, s2: Session, s3: Session)
    requires |cs| == 3 && DocOk(s.doc) && cs == [Undo, Other, Undo]
    requires s1 == Step(s, cs[0]) && s2 == Step(s1, cs[1]) && s3 == Step(s2, cs[2])
    ensures RunAllowed(s, cs) && Run(s, cs) == s3
  {
    hide Step;
    assert cs[1..][1..] == cs[2..] && cs[2..][1..] == [];
    assert RunAllowed(s3, []) && Run(s3, []) == s3;
    assert RunAllowed(s2, cs[2..]) && Run(s2, cs[2..]) == s3;
    assert RunAllowed(s1, cs[1..]) && Run(s1, cs[1..]) == s3;
  }

  /** None of the `k` records below `n` is a write or inserts nothing. */
  predicate Redoable(log: seq<Record>, n: nat, k: nat)
    requires k <= n <= |log|
  {
    forall i :: n - k <= i < n ==> log[i].op != LogWrite && (log[i].op == LogInsert ==> log[i].size > 0)
  }

  /** `k` undos of anything but writes leave records that lead back to where the chain began. */
  lemma {:induction false} UndosLeadBack(s: Session, k: nat, u: Session, text: seq<byte>, j: nat)
    requires SessionOk(s) && FindsAll(s, k) && u == UndoTimes(s, k)
    requires k <= Height(s) && Redoable(s.doc.log, Height(s), k)
    requires j + k <= NB_LOGS_MAX - 1 && j <= |s.doc.log|
    requires Unwound(s.doc.log, |s.doc.log|, s.doc.text, j) == text
    ensures SessionOk(u) && j + k <= |u.doc.log|
    ensures Unwound(u.doc.log, |u.doc.log|, u.doc.text, j + k) == text
    decreases k
  {
    hide Unwound, Splice, UndoStep;
    if k > 0 {
      var t := Step(s, Undo);
      ChainStep(s, t, k);
      UndoLeadsBack(s, k, t, u, j);
      UndosLeadBack(t, k - 1, u, text, j + 1);
    }
  }

  lemma UndoLeadsBack(s: Session, k: nat, t: Session, u: Session, j: nat)
    requires k > 0 && SessionOk(s) && Finds(s) && t == Step(s, Undo)
    requires FindsAll(t, k - 1) && u == UndoTimes(t, k - 1)
    requires k <= Height(s) && Redoable(s.doc.log, Height(s), k)
    requires j < NB_LOGS_MAX - 1 && j <= |s.doc.log|
    ensures SessionOk(t) && j + 1 <= |t.doc.log| && k - 1 <= Height(t) && Redoable(t.doc.log, Height(t), k - 1)
    ensures Unwound(t.doc.log, |t.doc.log|, t.doc.text, j + 1) == Unwound(s.doc.log, |s.doc.log|, s.doc.text, j)
  {
    hide Unwound, Splice, UndoStep;
    UndoEffect(s, t);
    ChainUnwinds(t, k - 1, u);
    TopIsRedoable(s, k);
    UndoUnwinds(UndoFrom(s), t.doc, j);
    ShiftRedoable(s.doc.log, t.doc.log, Height(s) - 1 - Height(t), Height(t), k - 1);
  }

  lemma TopIsRedoable(s: Session, k: nat)
    requires SessionOk(s) && Finds(s) && 0 < k <= Height(s) && Redoable(s.doc.log, Height(s), k)
    ensures s.doc.log[Height(s) - 1].op != LogWrite && UndoIsLogged(UndoFrom(s))
  {
    hide Splice, Walkable;
    var r := s.doc.log[Height(s) - 1];
    assert r.op != LogWrite;
  }

  lemma ShiftRedoable(a: seq<Record>, b: seq<Record>, d: nat, n: nat, k: nat)
    requires Shifted(a, b, d, n) && k <= n && n + d + 1 <= |a| && Redoable(a, n + d + 1, k + 1)
    ensures Redoable(b, n, k)
  {
    forall i | n - k <= i < n
      ensures b[i].op != LogWrite && (b[i].op == LogInsert ==> b[i].size > 0)
    {
      assert b[i] == a[i + d];
    }
  }

  /** Redo: when no write was taken back, `k` undos, some other command, and `k` undos more
      bring the text back to where it was. */
  lemma UndosThenUndos(s: Session, k: nat, u: Session, v: Session)
    requires SessionOk(s) && FindsAll(s, k) && u == UndoTimes(s, k)
    requires k <= Height(s) && Redoable(s.doc.log, Height(s), k)
    requires FindsAll(Step(u, Other), k) && v == UndoTimes(Step(u, Other), k)
    ensures v.doc.text == s.doc.text
  {
    hide Unwound, Splice, UndoStep;
    UnwoundNone(s.doc.log, |s.doc.log|, s.doc.text);
    UndosLeadBack(s, k, u, s.doc.text, 0);
    NewChainUnwinds(u, Step(u, Other), k, v);
  }

  lemma NewChainUnwinds(u: Session, w: Session, k: nat, v: Session)
    requires SessionOk(u) && k <= |u.doc.log| && w == Session(u.doc, false)
    requires FindsAll(w, k) && v == UndoTimes(w, k)
    ensures v.doc.text == Unwound(u.doc.log, |u.doc.log|, u.doc.text, k)
  {
    hide Splice, Step, Unwound;
    ChainUnwinds(w, k, v);
  }

  // ---- undo with a repeat count ----

  /** The undo command given once with a repeat count: all `k` calls see the same command as the last one, since
      undo is noted as the last command only when they are over. */
  function Repeated(s: Session, k: nat): (t: Session)
    requires DocOk(s.doc)
    ensures DocOk(t.doc)
    decreases k
  {
    if k == 0 then s.(lastUndo := true) else Repeated(Step(s, Undo).(lastUndo := s.lastUndo), k - 1)
  }

  /** After an undo it is that many undos more. */
  lemma {:induction false} RepeatedInChain(s: Session, k: nat)
    requires DocOk(s.doc) && s.lastUndo
    ensures Repeated(s, k) == UndoTimes(s, k)
    decreases k
  {
    hide UndoStep;
    if k > 0 {
      RepeatedInChain(Step(s, Undo), k - 1);
    }
  }

  predicate Even(k: nat) {
    k == 0 || !Even(k - 1)
  }

  /** The newest record is an insertion or deletion of something. */
  predicate TopFlips(s: Session)
    requires DocOk(s.doc)
  {
    s.doc.log != [] && s.doc.log[|s.doc.log| - 1].op != LogWrite && s.doc.log[|s.doc.log| - 1].size > 0
  }

  lemma FlipBack(s: Session, t: Session, u: Session)
    requires SessionOk(s) && !s.lastUndo && TopFlips(s)
    requires t == Step(s, Undo).(lastUndo := false) && u == Step(t, Undo).(lastUndo := false)
    ensures SessionOk(t) && TopFlips(t) && u.doc.text == s.doc.text
  {
    hide Splice, Revert, AddRecord, UndoStep, Walkable;
    StepKeepsOk(s, Undo);
    UndoFinds(s);
    UndoFinds(t);
    var d := UndoFrom(s);
    FlipIsLogged(s);
    UndoRecordOnTop(d, t.doc);
    FlippedRecord(d);
    UndoUndone(d, t.doc, u.doc);
  }

  lemma FlipIsLogged(s: Session)
    requires SessionOk(s) && !s.lastUndo && TopFlips(s)
    ensures Finds(s) && UndoIsLogged(UndoFrom(s))
  {
    UndoFinds(s);
  }

  lemma FlippedRecord(d: Doc)
    requires CanUndo(d) && UndoIsLogged(d) && d.log[Left(d) - 1].op != LogWrite
    ensures UndoRecord(d).op != LogWrite && UndoRecord(d).size == d.log[Left(d) - 1].size
  {
  }

  /** After any other command it takes back the newest record and puts it back in turn: with an even count
      nothing is undone. */
  lemma {:induction false} RepeatedFlips(s: Session, k: nat)
    requires SessionOk(s) && !s.lastUndo && TopFlips(s)
    ensures Repeated(s, k).doc.text == if Even(k) then s.doc.text else Step(s, Undo).doc.text
    decreases k
  {
    hide SessionOk, Step, TopFlips, Repeated, DocOk, Allowed;
    var t, u := FlipTwice(s);
    RepeatedIs(s, k);
    if k > 0 {
      RepeatedFlips(t, k - 1);
    }
  }

  lemma FlipTwice(s: Session) returns (t: Session, u: Session)
    requires SessionOk(s) && !s.lastUndo && TopFlips(s)
    ensures DocOk(s.doc) && t == Step(s, Undo).(lastUndo := false) && SessionOk(t) && !t.lastUndo
    ensures DocOk(t.doc) && u == Step(t, Undo) && TopFlips(t) && u.doc.text == s.doc.text
  {
    assert DocOk(s.doc);
    hide Step, TopFlips;
    t := Step(s, Undo).(lastUndo := false);
    u := Step(t, Undo);
    FlipBack(s, t, u.(lastUndo := false));
  }

  lemma RepeatedIs(s: Session, k: nat)
    requires DocOk(s.doc)
    ensures if k == 0 then Repeated(s, k).doc == s.doc
            else Repeated(s, k) == Repeated(Step(s, Undo).(lastUndo := s.lastUndo), k - 1)
  {
    hide Step;
  }

  /** The newest record is a write. */
  predicate TopIsWrite(s: Session)
    requires DocOk(s.doc)
  {
    s.doc.log != [] && s.doc.log[|s.doc.log| - 1].op == LogWrite
  }

  lemma WriteStays(s: Session, t: Session, u: Session)
    requires SessionOk(s) && !s.lastUndo && TopIsWrite(s)
    requires t == Step(s, Undo).(lastUndo := false) && u == Step(t, Undo).(lastUndo := false)
    ensures SessionOk(t) && TopIsWrite(t) && u.doc.text == t.doc.text
  {
    hide Splice, Revert, AddRecord, UndoStep, Walkable;
    StepKeepsOk(s, Undo);
    UndoFinds(s);
    UndoFinds(t);
    var d := UndoFrom(s);
    UndoRecordOnTop(d, t.doc);
    UndoRecordReverts(d);
    UndoStepText(NewChain(t.doc));
  }

  /** A write is taken back once, however often it is asked for. */
  lemma {:induction false} RepeatedOverWrite(s: Session, k: nat)
    requires SessionOk(s) && !s.lastUndo && TopIsWrite(s) && k > 0
    ensures Repeated(s, k).doc.text == Step(s, Undo).doc.text
    decreases k
  {
    RepeatedIs(s, k);
    var t := Step(s, Undo).(lastUndo := false);
    WriteStays(s, t, Step(t, Undo).(lastUndo := false));
    RepeatedIs(t, 0);
    hide SessionOk, Step, TopIsWrite, Repeated;
    if k > 1 {
      RepeatedOverWrite(t, k - 1);
    }
  }
}
