/**
 The event stream: bytes appended chunk by chunk, records cut at a blank line written
 either way, `\n\n` or `\r\n\r\n`, as section 9.2.5 of the WHATWG HTML standard allows
 both line endings.
 */
module EventStream {
  import opened Base
  import opened Bytes
  import opened Streams

  const LF: Byte := 0x0A
  const CR: Byte := 0x0D

  /** A buffer longer than this with no record break is given up on. */
  const MAX_SSE_RECORD: nat := 8 * 1024 * 1024

  /** The length of the separator at `i`, or zero. */
  function SeparatorAt(buf: seq<Byte>, i: nat): nat {
    if i + 1 < |buf| && buf[i] == LF && buf[i + 1] == LF then 2
    else if i + 3 < |buf| && buf[i] == CR && buf[i + 1] == LF && buf[i + 2] == CR && buf[i + 3] == LF then 4
    else 0
  }

  /** These bytes stand at `i`. */
  predicate StandsAt(buf: seq<Byte>, i: nat, w: seq<Byte>) { i + |w| <= |buf| && buf[i..i + |w|] == w }

  /** A blank line begins at `i`, in one spelling or the other. */
  predicate BlankLineAt(buf: seq<Byte>, i: nat) {
    StandsAt(buf, i, [LF, LF]) || StandsAt(buf, i, [CR, LF, CR, LF])
  }

  lemma SeparatorIsBlankLine(buf: seq<Byte>, i: nat)
    ensures BlankLineAt(buf, i) <==> SeparatorAt(buf, i) > 0
    ensures var n := SeparatorAt(buf, i);
            n > 0 ==> i + n <= |buf| && buf[i..i + n] == if n == 2 then [LF, LF] else [CR, LF, CR, LF]
  {
    if i + 1 < |buf| { assert buf[i..i + 2] == [buf[i], buf[i + 1]]; }
    if i + 3 < |buf| { assert buf[i..i + 4] == [buf[i], buf[i + 1], buf[i + 2], buf[i + 3]]; }
    if StandsAt(buf, i, [CR, LF, CR, LF]) {
      assert buf[i..i + 4][0] == CR && buf[i..i + 4][1] == LF && buf[i..i + 4][2] == CR && buf[i..i + 4][3] == LF;
    }
    if StandsAt(buf, i, [LF, LF]) { assert buf[i..i + 2][0] == LF && buf[i..i + 2][1] == LF; }
  }

  /** Where the first separator at or after `from` starts, or the buffer's length. */
  function FirstSeparator(buf: seq<Byte>, from: nat): (i: nat)
    requires from <= |buf|
    ensures from <= i <= |buf|
    ensures i < |buf| ==> SeparatorAt(buf, i) > 0
    ensures forall j :: from <= j < i ==> SeparatorAt(buf, j) == 0
    decreases |buf| - from
  {
    if from == |buf| then from
    else if SeparatorAt(buf, from) > 0 then from
    else FirstSeparator(buf, from + 1)
  }

  function CutRecord(buf: seq<Byte>): Option<Piece<Byte>> {
    var i := FirstSeparator(buf, 0);
    if i == |buf| then None else Some(Piece(buf[..i], i + SeparatorAt(buf, i)))
  }

  /** A separator: where it starts and how long it is. */
  datatype Break = NoBreak | Break(at: nat, length: nat)

  /** The record before a separator of `n` bytes at `i`. */
  function RecordBefore(buf: seq<Byte>, i: nat, n: nat): Option<Piece<Byte>>
    requires i <= |buf|
  {
    Some(Piece(buf[..i], i + n))
  }

  /** Offset of the next separator and its length. */
  method FindRecordEnd(buf: seq<Byte>) returns (r: Break)
    ensures match r
            case NoBreak => forall j: nat :: !BlankLineAt(buf, j)
            case Break(i, n) =>
              && i + n <= |buf| && (buf[i..i + n] == [LF, LF] || buf[i..i + n] == [CR, LF, CR, LF])
              && forall j: nat :: j < i ==> !BlankLineAt(buf, j)
    ensures CutRecord(buf) == if r.NoBreak? then None else RecordBefore(buf, r.at, r.length)
  {
    var i := 0;
    forall j: nat ensures BlankLineAt(buf, j) <==> SeparatorAt(buf, j) > 0 { SeparatorIsBlankLine(buf, j); }
    hide BlankLineAt;
    while i + 1 < |buf|
      invariant forall j: nat :: j < i && j < |buf| ==> SeparatorAt(buf, j) == 0
    {
      assert buf[i..i + 2] == [buf[i], buf[i + 1]];
      if buf[i] == LF && buf[i + 1] == LF {
        assert SeparatorAt(buf, i) == 2;
        return Break(i, 2);
      }
      assert i + 3 < |buf| ==> buf[i..i + 4] == [buf[i], buf[i + 1], buf[i + 2], buf[i + 3]];
      if i + 3 < |buf| && buf[i..i + 4] == [CR, LF, CR, LF] {
        return Break(i, 4);
      }
      i := i + 1;
    }
    r := NoBreak;
  }

  /** A separator found in a prefix stays the first one after any extension: the two
      spellings cannot complete an earlier one between them. */
  lemma FirstSeparatorStays(buf: seq<Byte>, more: seq<Byte>)
    requires FirstSeparator(buf, 0) < |buf|
    ensures FirstSeparator(buf + more, 0) == FirstSeparator(buf, 0)
    ensures SeparatorAt(buf + more, FirstSeparator(buf, 0)) == SeparatorAt(buf, FirstSeparator(buf, 0))
  {
    var i, grown := FirstSeparator(buf, 0), buf + more;
    forall j | 0 <= j < i ensures SeparatorAt(grown, j) == 0 {
      assert SeparatorAt(buf, j) == 0;
    }
    assert SeparatorAt(grown, i) == SeparatorAt(buf, i);
  }

  /** Records with the blank lines behind them. */
  ghost function Woven(records: seq<seq<Byte>>, breaks: seq<seq<Byte>>): seq<Byte>
    requires |records| == |breaks|
  {
    if records == [] then [] else records[0] + breaks[0] + Woven(records[1..], breaks[1..])
  }

  /** A record ends at the first blank line there is. */
  predicate EndsFirst(record: seq<Byte>, end: seq<Byte>) {
    && (end == [LF, LF] || end == [CR, LF, CR, LF])
    && forall j: nat :: j < |record| ==> !BlankLineAt(record + end, j)
  }

  /** Nothing of a stream is lost: it is its records, each ended by the first blank line
      behind it, and a tail that holds none. */
  lemma {:induction false} RecordsAndBreaks(buf: seq<Byte>) returns (breaks: seq<seq<Byte>>)
    requires Stable(CutRecord)
    ensures var records, tail := Records(CutRecord, buf), Tail(CutRecord, buf);
            && |breaks| == |records| && buf == Woven(records, breaks) + tail
            && (forall i :: 0 <= i < |records| ==> EndsFirst(records[i], breaks[i]))
            && forall j: nat :: !BlankLineAt(tail, j)
    decreases |buf|
  {
    hide Stable, CutRecord, BlankLineAt, EndsFirst, Records, Tail;
    match CutRecord(buf)
    case None =>
      breaks := [];
      NoRecord(CutRecord, buf);
      NothingCut(buf);
    case Some(p) =>
      FirstRecord(CutRecord, buf, p);
      var n := |p.record|;
      CutAtBlankLine(buf, p);
      var more := RecordsAndBreaks(buf[p.used..]);
      breaks := [buf[n..p.used]] + more;
      var records := Records(CutRecord, buf);
      assert records[1..] == Records(CutRecord, buf[p.used..]) && breaks[1..] == more;
      assert buf == buf[..n] + buf[n..p.used] + buf[p.used..];
      Assoc(buf[..n] + buf[n..p.used], Woven(records[1..], more), Tail(CutRecord, buf));
  }

  lemma NothingCut(buf: seq<Byte>)
    requires CutRecord(buf).None?
    ensures forall j: nat :: !BlankLineAt(buf, j)
  {
    forall j: nat ensures !BlankLineAt(buf, j) { SeparatorIsBlankLine(buf, j); }
  }

  lemma CutAtBlankLine(buf: seq<Byte>, p: Piece<Byte>)
    requires CutRecord(buf) == Some(p)
    ensures |p.record| <= p.used <= |buf| && p.record == buf[..|p.record|]
    ensures EndsFirst(p.record, buf[|p.record|..p.used])
  {
    var i := FirstSeparator(buf, 0);
    SeparatorIsBlankLine(buf, i);
    var piece := p.record + buf[i..p.used];
    assert piece == buf[..p.used];
    forall j: nat | j < i ensures !BlankLineAt(piece, j) {
      SeparatorIsBlankLine(buf, j);
      BlankLineStays(buf, p.used, j);
    }
  }

  lemma BlankLineStays(buf: seq<Byte>, n: nat, j: nat)
    requires n <= |buf|
    ensures BlankLineAt(buf[..n], j) ==> BlankLineAt(buf, j)
  {
    if j + 2 <= n { assert buf[..n][j..j + 2] == buf[j..j + 2]; }
    if j + 4 <= n { assert buf[..n][j..j + 4] == buf[j..j + 4]; }
  }

  lemma RecordsAreStable()
    ensures Stable(CutRecord) && CutRecord([]).None?
  {
    forall buf, more | CutRecord(buf).Some?
      ensures 0 < CutRecord(buf).value.used <= |buf| && CutRecord(buf + more) == CutRecord(buf)
    {
      FirstSeparatorStays(buf, more);
      assert (buf + more)[..FirstSeparator(buf, 0)] == buf[..FirstSeparator(buf, 0)];
    }
  }

  // ------------------------------------------------------------------------ the loop

  datatype State = State(buf: seq<Byte>, delivered: seq<seq<Byte>>, failed: bool)

  /** One chunk arrives: append, give up if too much is held, else drain. */
  ghost function Receive(s: State, chunk: seq<Byte>): State {
    RecordsAreStable();
    var grown := s.buf + chunk;
    if s.failed then s
    else if |grown| > MAX_SSE_RECORD then State(grown, s.delivered, true)
    else State(Tail(CutRecord, grown), s.delivered + Records(CutRecord, grown), false)
  }

  ghost function ReceiveAll(chunks: seq<seq<Byte>>): State {
    if chunks == [] then State([], [], false)
    else Receive(ReceiveAll(chunks[..|chunks| - 1]), chunks[|chunks| - 1])
  }

  /** Cut every whole record out of a buffer. */
  method Drain(start: seq<Byte>) returns (records: seq<seq<Byte>>, buf: seq<Byte>)
    requires Stable(CutRecord)
    ensures records == Records(CutRecord, start) && buf == Tail(CutRecord, start)
  {
    buf, records := start, [];
    DrainBegins(CutRecord, start);
    hide Stable, Draining, Records, Tail, CutRecord;
    var end := FindRecordEnd(buf);
    while end.Break?
      invariant Draining(CutRecord, start, records, buf)
      invariant end.Break? ==> end.at <= |buf|
      invariant CutRecord(buf) == if end.NoBreak? then None else RecordBefore(buf, end.at, end.length)
      decreases |buf|
    {
      var record := buf[..end.at];
      DrainTakes(CutRecord, start, records, buf, Piece(record, end.at + end.length));
      buf := buf[end.at + end.length..];
      records := records + [record];
      end := FindRecordEnd(buf);
    }
    DrainEnds(CutRecord, start, records, buf);
  }

  /** The loop over body frames, as an object that holds its buffer between them. */
  class Reader {
    var buf: seq<Byte>
    var delivered: seq<seq<Byte>>
    var failed: bool

    ghost function Now(): State
      reads this
    {
      State(buf, delivered, failed)
    }

    constructor ()
      ensures Now() == ReceiveAll([])
    {
      buf, delivered, failed := [], [], false;
    }

    method OnChunk(chunk: seq<Byte>)
      requires !failed
      modifies this
      ensures Now() == Receive(old(Now()), chunk)
    {
      RecordsAreStable();
      buf := buf + chunk;
      if |buf| > MAX_SSE_RECORD {
        failed := true;
        return;
      }
      var records;
      records, buf := Drain(buf);
      delivered := delivered + records;
    }
  }

  // ------------------------------------------------------------------------- the runs

  /** Chunk `k` is the first after which more is held than the limit allows. */
  ghost predicate Overruns(chunks: seq<seq<Byte>>, k: nat)
    requires k < |chunks|
  {
    RecordsAreStable();
    |Tail(CutRecord, Concat(chunks[..k]))| + |chunks[k]| > MAX_SSE_RECORD
  }

  lemma SameOverrun(chunks: seq<seq<Byte>>, n: nat, m: nat)
    requires m < n <= |chunks|
    ensures Overruns(chunks[..n], m) <==> Overruns(chunks, m)
  {
    assert chunks[..n][..m] == chunks[..m];
  }

  /** A reader that has kept up with all but the last chunk fails on it exactly when it
      overruns, and keeps up otherwise. */
  lemma LastChunk(chunks: seq<seq<Byte>>, s: State)
    requires chunks != [] && Stable(CutRecord)
    ensures var n := |chunks| - 1;
            var t := Receive(s, chunks[n]);
            if s.failed then t == s
            else
              s.buf == Tail(CutRecord, Concat(chunks[..n]))
              && s.delivered == Records(CutRecord, Concat(chunks[..n])) ==>
                && (t.failed <==> Overruns(chunks, n))
                && (if t.failed then t.delivered == s.delivered
                    else t.delivered == Records(CutRecord, Concat(chunks)) && t.buf == Tail(CutRecord, Concat(chunks)))
  {
    hide Stable, CutRecord, Records, Tail;
    var n := |chunks| - 1;
    DrainEarly(CutRecord, Concat(chunks[..n]), chunks[n]);
  }

  /** Over any chunking: the loop fails exactly when some chunk overruns the limit on top of
      what was held; it has delivered the records of everything before the first such chunk,
      or of the whole stream, with the incomplete tail held back. */
  lemma {:induction false} DeliveryIsChunkIndependent(chunks: seq<seq<Byte>>) returns (k: nat)
    ensures k <= |chunks| && (forall m :: 0 <= m < k ==> !Overruns(chunks, m))
    ensures Stable(CutRecord)
    ensures var s := ReceiveAll(chunks);
            && (s.failed <==> k < |chunks|)
            && (s.failed ==> Overruns(chunks, k))
            && s.delivered == Records(CutRecord, Concat(chunks[..k]))
            && (!s.failed ==> s.buf == Tail(CutRecord, Concat(chunks)))
  {
    RecordsAreStable();
    hide Overruns, Stable, CutRecord, Records, Tail, Receive;
    if chunks == [] {
      k := 0;
      assert chunks[..0] == [];
      NoRecord(CutRecord, []);
    } else {
      var n := |chunks| - 1;
      var before := chunks[..n];
      k := DeliveryIsChunkIndependent(before);
      forall m | 0 <= m < n ensures Overruns(before, m) <==> Overruns(chunks, m) {
        SameOverrun(chunks, n, m);
      }
      assert before[..k] == chunks[..k];
      LastChunk(chunks, ReceiveAll(before));
      if k == n {
        assert before[..n] == before;
        if !Overruns(chunks, n) {
          k := n + 1;
          assert chunks[..k] == chunks;
        }
      }
    }
  }
}
