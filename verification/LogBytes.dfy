/** How the undo log lies in its buffer: each record is a header, the bytes saved, and a trailer by
    which the record can be found from its end. */
module LogBytes {
  import opened PageText
  import opened UndoLog

  const MAX_INT := 0x7fff_ffff
  const HEADER_SIZE := 12
  const INT_SIZE := 4

  function Low(v: nat): byte {
    v % 256
  }

  /** A non-negative 32-bit integer in memory, lowest byte first. */
  function IntBytes(v: int): (s: seq<byte>)
    requires 0 <= v <= MAX_INT
    ensures |s| == INT_SIZE
  {
    var a: int := v / 256;
    var b: int := a / 256;
    var c: int := b / 256;
    [Low(v), Low(a), Low(b), Low(c)]
  }

  function IntOf(s: seq<byte>): int
    requires |s| == INT_SIZE
  {
    s[0] as int + 256 * s[1] as int + 65536 * s[2] as int + 16777216 * s[3] as int
  }

  /** Every number that is not negative comes back from its four bytes. */
  lemma IntRoundTrip(v: int)
    requires 0 <= v <= 0x7fff_ffff
    ensures IntOf(IntBytes(v)) == v
  {
    var a: int := v / 256;
    var b: int := a / 256;
    var c: int := b / 256;
    assert v == 256 * a + Low(v) && a == 256 * b + Low(a) && b == 256 * c + Low(b);
    assert c < 256 && Low(c) == c;
  }

  function OpCode(op: LogOp): byte {
    match op
    case LogWrite => 1
    case LogInsert => 2
    case LogDelete => 3
  }

  /** The header in memory; its two padding bytes are written as 0 here and are never read. */
  function Header(op: LogOp, wasModified: bool, offset: int, size: int): (s: seq<byte>)
    requires 0 <= offset <= MAX_INT && 0 <= size <= MAX_INT
    ensures |s| == HEADER_SIZE
  {
    [OpCode(op), if wasModified then 1 else 0, 0, 0] + IntBytes(offset) + IntBytes(size)
  }

  function OpOf(h: seq<byte>): LogOp
    requires |h| == HEADER_SIZE
  {
    if h[0] == 1 then LogWrite else if h[0] == 2 then LogInsert else LogDelete
  }

  function WasModifiedOf(h: seq<byte>): bool
    requires |h| == HEADER_SIZE
  {
    h[1] != 0
  }

  function OffsetOf(h: seq<byte>): int
    requires |h| == HEADER_SIZE
  {
    IntOf(h[4..8])
  }

  function SizeOf(h: seq<byte>): int
    requires |h| == HEADER_SIZE
  {
    IntOf(h[8..12])
  }

  /** Reading a header gives back what was written. */
  lemma HeaderRoundTrip(op: LogOp, wasModified: bool, offset: int, size: int)
    requires 0 <= offset <= 0x7fff_ffff && 0 <= size <= 0x7fff_ffff
    ensures var h := Header(op, wasModified, offset, size);
            OpOf(h) == op && WasModifiedOf(h) == wasModified && OffsetOf(h) == offset && SizeOf(h) == size
  {
    var h := Header(op, wasModified, offset, size);
    assert h[4..8] == IntBytes(offset) && h[8..12] == IntBytes(size);
    IntRoundTrip(offset);
    IntRoundTrip(size);
  }

  predicate RecordFits(r: Record) {
    RecordOk(r) && r.offset <= MAX_INT && r.size <= MAX_INT
  }

  function RecordHeader(r: Record): (s: seq<byte>)
    requires RecordFits(r)
    ensures |s| == HEADER_SIZE
  {
    Header(r.op, r.wasModified, r.offset, r.size)
  }

  function RecordBytes(r: Record): (s: seq<byte>)
    requires RecordFits(r)
    ensures |s| == HEADER_SIZE + |r.data| + INT_SIZE
  {
    RecordHeader(r) + r.data + IntBytes(|r.data|)
  }

  predicate LogFits(log: seq<Record>) {
    forall r :: r in log ==> RecordFits(r)
  }

  function Chunks(log: seq<Record>): (c: seq<seq<byte>>)
    requires LogFits(log)
    ensures |c| == |log| && forall i :: 0 <= i < |log| ==> c[i] == RecordBytes(log[i])
  {
    seq(|log|, i requires 0 <= i < |log| => RecordBytes(log[i]))
  }

  function LogText(log: seq<Record>): seq<byte>
    requires LogFits(log)
  {
    Flat(Chunks(log))
  }

  /** Where record `i` begins. */
  function LogPos(log: seq<Record>, i: nat): nat
    requires LogFits(log) && i <= |log|
  {
    |Flat(Chunks(log)[..i])|
  }

  lemma LogAppend(log: seq<Record>, r: Record, i: nat)
    requires LogFits(log) && RecordFits(r) && i <= |log|
    ensures LogFits(log + [r]) && LogText(log + [r]) == LogText(log) + RecordBytes(r)
    ensures LogPos(log + [r], i) == LogPos(log, i)
  {
    hide Flat, RecordBytes;
    assert forall q :: q in log + [r] ==> q in log || q == r;
    assert Chunks(log + [r]) == Chunks(log) + [RecordBytes(r)];
    FlatConcat(Chunks(log), [RecordBytes(r)]);
    FlatOne(RecordBytes(r));
    assert Chunks(log + [r])[..i] == Chunks(log)[..i];
  }

  /** Dropping the oldest record moves every later one down by its size. */
  lemma LogDropFirst(log: seq<Record>)
    requires LogFits(log) && log != []
    ensures LogFits(log[1..]) && LogText(log) == RecordBytes(log[0]) + LogText(log[1..])
    ensures forall i :: 0 < i <= |log| ==> LogPos(log[1..], i - 1) == LogPos(log, i) - |RecordBytes(log[0])|
  {
    hide Flat, RecordBytes;
    var c := Chunks(log);
    assert Chunks(log[1..]) == c[1..];
    FlatFrom(c, 0);
    assert c[0..] == c;
    forall i | 0 < i <= |log| ensures LogPos(log[1..], i - 1) == LogPos(log, i) - |RecordBytes(log[0])| {
      assert c[..i][1..] == c[1..][..i - 1] && c[..i][0..] == c[..i];
      FlatFrom(c[..i], 0);
    }
  }

  /** What lies just below and at a record: the header at its beginning, the trailer at its end. */
  lemma LogRecordAt(log: seq<Record>, i: nat)
    requires LogFits(log) && i < |log|
    ensures var pos, end, t := LogPos(log, i), LogPos(log, i + 1), LogText(log);
            && end == pos + HEADER_SIZE + |log[i].data| + INT_SIZE <= |t|
            && t[pos..pos + HEADER_SIZE] == RecordHeader(log[i])
            && t[pos + HEADER_SIZE..end - INT_SIZE] == log[i].data
            && t[end - INT_SIZE..end] == IntBytes(|log[i].data|)
  {
    hide Flat, RecordBytes;
    var c, r := Chunks(log), log[i];
    FlatUpTo(c, i);
    FlatSlice(c, i, 0, HEADER_SIZE);
    FlatSlice(c, i, HEADER_SIZE, |r.data|);
    FlatSlice(c, i, HEADER_SIZE + |r.data|, INT_SIZE);
    RecordParts(r);
  }

  lemma RecordParts(r: Record)
    requires RecordFits(r)
    ensures var b := RecordBytes(r); var n := HEADER_SIZE + |r.data|;
            && b[0..HEADER_SIZE] == RecordHeader(r)
            && b[HEADER_SIZE..n] == r.data
            && b[n..n + INT_SIZE] == IntBytes(|r.data|)
  {
    hide Header, IntBytes;
  }

  lemma LogEnds(log: seq<Record>)
    requires LogFits(log)
    ensures LogPos(log, 0) == 0 && LogPos(log, |log|) == |LogText(log)|
  {
    assert Chunks(log)[..|log|] == Chunks(log);
  }

  lemma LogEmpty()
    ensures LogText([]) == [] && LogPos([], 0) == 0
  {
  }

  lemma LogGrows(log: seq<Record>, i: nat)
    requires LogFits(log) && 0 < i <= |log|
    ensures LogPos(log, i) > 0
  {
    FlatUpTo(Chunks(log), i - 1);
  }
}
