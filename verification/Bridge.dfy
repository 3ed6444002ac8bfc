/**
 One browser connection bridged to one framed daemon socket.

 A frame is a four-byte big-endian length and that many bytes.  `Bridge` keeps the
 fields of the source and two logs of the outside world: the bytes the daemon socket
 was given and the payloads the browser was sent.
 */
module Bridge {
  import opened Base
  import opened Bytes
  import opened Streams

  const HEADER: nat := 4
  const FRAME_LIMIT: nat := 0x1_0000_0000

  // ----------------------------------------------------------------------- framing

  /** `setUint32` keeps the low 32 bits of the length. */
  function Frame(payload: seq<Byte>): seq<Byte> {
    BigEndian(|payload| % FRAME_LIMIT, HEADER) + payload
  }

  function Frames(payloads: seq<seq<Byte>>): seq<Byte> {
    if payloads == [] then [] else Frame(payloads[0]) + Frames(payloads[1..])
  }

  /** The first whole frame of a buffer. */
  function CutFrame(buf: seq<Byte>): Option<Piece<Byte>> {
    if |buf| < HEADER then None
    else
      var n := Unsigned(buf[..HEADER]);
      if |buf| < HEADER + n then None else Some(Piece(buf[HEADER..HEADER + n], HEADER + n))
  }

  lemma FramesAreStable()
    ensures Stable(CutFrame) && CutFrame([]).None?
  {
    forall buf, more | CutFrame(buf).Some? ensures CutFrame(buf + more) == CutFrame(buf) {
      assert (buf + more)[..HEADER] == buf[..HEADER];
      var n := Unsigned(buf[..HEADER]);
      assert (buf + more)[HEADER..HEADER + n] == buf[HEADER..HEADER + n];
    }
  }

  /** A frame is cut off whole from the front, with the length the header kept. */
  lemma CutsOneFrame(payload: seq<Byte>, rest: seq<Byte>)
    ensures var n := |payload| % FRAME_LIMIT;
            CutFrame(Frame(payload) + rest) == Some(Piece(payload[..n], HEADER + n))
    ensures |payload| < FRAME_LIMIT ==> (Frame(payload) + rest)[HEADER + |payload|..] == rest
  {
    var n := |payload| % FRAME_LIMIT;
    var buf := Frame(payload) + rest;
    Powers();
    UnsignedOfBigEndian(n, HEADER);
    PiecesOfFrame(BigEndian(n, HEADER), payload, rest, n);
    hide BigEndian, Unsigned;
  }

  lemma PiecesOfFrame(head: seq<Byte>, payload: seq<Byte>, rest: seq<Byte>, n: nat)
    requires |head| == HEADER && n <= |payload|
    ensures var buf := head + payload + rest;
            && buf[..HEADER] == head && buf[HEADER..HEADER + n] == payload[..n]
            && buf[HEADER + |payload|..] == rest
  {
  }

  lemma {:induction false} FramesConcat(a: seq<seq<Byte>>, b: seq<seq<Byte>>)
    ensures Frames(a + b) == Frames(a) + Frames(b)
  {
    if a == [] {
      assert a + b == b;
    } else {
      assert (a + b)[1..] == a[1..] + b;
      FramesConcat(a[1..], b);
    }
  }

  predicate AllFit(payloads: seq<seq<Byte>>) {
    forall i :: 0 <= i < |payloads| ==> |payloads[i]| < FRAME_LIMIT
  }

  /** The first record behind a frame is its payload, unless the header lost its length. */
  lemma FirstFrame(p: seq<Byte>, behind: seq<Byte>)
    requires Stable(CutFrame)
    ensures var buf := Frame(p) + behind;
            if |p| < FRAME_LIMIT then
              Records(CutFrame, buf) == [p] + Records(CutFrame, behind) && Tail(CutFrame, buf) == Tail(CutFrame, behind)
            else Records(CutFrame, buf) != [] && Records(CutFrame, buf)[0] != p
  {
    hide Stable, CutFrame, Records, Tail;
    var buf := Frame(p) + behind;
    var n := |p| % FRAME_LIMIT;
    CutsOneFrame(p, behind);
    FirstRecord(CutFrame, buf, Piece(p[..n], HEADER + n));
    hide Frame;
    if |p| < FRAME_LIMIT {
      assert p[..n] == p;
    } else {
      assert |p[..n]| < |p|;
    }
  }

  /** Cutting undoes framing, whatever follows, exactly when every payload's length fits
      its header; then nothing of the frames is left over. */
  lemma {:induction false} DeframingUndoesFraming(payloads: seq<seq<Byte>>, rest: seq<Byte>)
    requires CutFrame(rest).None?
    ensures Stable(CutFrame)
    ensures AllFit(payloads) <==> Records(CutFrame, Frames(payloads) + rest) == payloads
    ensures AllFit(payloads) ==> Tail(CutFrame, Frames(payloads) + rest) == rest
  {
    FramesAreStable();
    if payloads == [] {
      assert Frames(payloads) + rest == rest;
    } else {
      var p, more := payloads[0], payloads[1..];
      var behind := Frames(more) + rest;
      assert Frames(payloads) + rest == Frame(p) + behind;
      FirstFrame(p, behind);
      DeframingUndoesFraming(more, rest);
      assert payloads == [p] + more;
      hide Stable, CutFrame, Records, Tail, Frame, Frames;
      if |p| < FRAME_LIMIT {
        assert Records(CutFrame, behind) == ([p] + Records(CutFrame, behind))[1..];
      }
    }
  }

  /** Framing undoes cutting: any bytes at all are the frames of the records in them, and
      the tail. */
  lemma {:induction false} FramingUndoesDeframing(buf: seq<Byte>)
    requires Stable(CutFrame)
    ensures Frames(Records(CutFrame, buf)) + Tail(CutFrame, buf) == buf && AllFit(Records(CutFrame, buf))
    decreases |buf|
  {
    hide Stable, CutFrame, Records, Tail, Frame;
    match CutFrame(buf)
    case None => NoRecord(CutFrame, buf);
    case Some(p) =>
      FirstRecord(CutFrame, buf, p);
      var rest := buf[p.used..];
      FramingUndoesDeframing(rest);
      CutIsAFrame(buf, p);
      assert ([p.record] + Records(CutFrame, rest))[1..] == Records(CutFrame, rest);
      Assoc(Frame(p.record), Frames(Records(CutFrame, rest)), Tail(CutFrame, rest));
      assert buf[..p.used] + rest == buf;
  }

  lemma CutIsAFrame(buf: seq<Byte>, p: Piece<Byte>)
    requires CutFrame(buf) == Some(p)
    ensures p.used <= |buf| && Frame(p.record) == buf[..p.used] && |p.record| < FRAME_LIMIT
  {
    var head := buf[..HEADER];
    Powers();
    UnsignedBound(head);
    BigEndianOfUnsigned(head);
    assert buf[..p.used] == head + p.record;
  }

  // ------------------------------------------------------------------ the bridge

  /** What the two sockets do to a bridge.  `accepts` is how many messages the browser's
      socket takes before one send throws. */
  datatype Event =
    | Dialed
    | DialFailed(notice: seq<Byte>)
    | FromBrowser(msg: seq<Byte>)
    | FromDaemon(chunk: seq<Byte>, accepts: nat)
    | Closed

  /** What the browser is sent: a payload of the daemon's, or the bridge's own word that the
      dial failed. */
  datatype Message = Payload(bytes: seq<Byte>) | Notice(bytes: seq<Byte>)

  /** The payloads among what was sent, and the notices, each in order. */
  function Relayed(sent: seq<Message>): seq<seq<Byte>> {
    if sent == [] then []
    else
      var m := sent[|sent| - 1];
      Relayed(sent[..|sent| - 1]) + if m.Payload? then [m.bytes] else []
  }

  function Notices(sent: seq<Message>): seq<seq<Byte>> {
    if sent == [] then []
    else
      var m := sent[|sent| - 1];
      Notices(sent[..|sent| - 1]) + if m.Notice? then [m.bytes] else []
  }

  lemma OneMoreSent(sent: seq<Message>, m: Message)
    ensures Relayed(sent + [m]) == Relayed(sent) + if m.Payload? then [m.bytes] else []
    ensures Notices(sent + [m]) == Notices(sent) + if m.Notice? then [m.bytes] else []
  {
    assert (sent + [m])[..|sent|] == sent;
  }

  datatype State = State(
    buf: seq<Byte>,
    connected: bool,
    pending: seq<seq<Byte>>,
    closed: bool,
    written: seq<Byte>,
    sent: seq<Message>)

  const Opened := State([], false, [], false, [], [])

  /** Forward whole frames until none is left or a send throws, which closes the bridge
      with the unsent frame still in the buffer. */
  ghost function Forward(s: State, accepts: nat): State
    decreases |s.buf|
  {
    match CutFrame(s.buf)
    case None => s
    case Some(p) =>
      if accepts == 0 then s.(closed := true)
      else
        Forward(s.(buf := s.buf[p.used..], sent := s.sent + [Payload(p.record)]), accepts - 1)
  }

  /** A socket that was ended takes no more bytes. */
  function Write(s: State, bytes: seq<Byte>): State {
    if s.connected && !s.closed then s.(written := s.written + bytes) else s
  }

  ghost function Step(s: State, e: Event): State {
    match e
    case Dialed =>
      var d := s.(connected := true);
      if s.closed then d else Write(d, Frames(s.pending)).(pending := [])
    case DialFailed(notice) => s.(sent := s.sent + [Notice(notice)], closed := true)
    case FromBrowser(msg) =>
      if !s.connected then s.(pending := s.pending + [msg]) else Write(s, Frame(msg))
    case FromDaemon(chunk, accepts) => Forward(s.(buf := s.buf + chunk), accepts)
    case Closed => s.(closed := true)
  }

  ghost function Run(events: seq<Event>): State {
    if events == [] then Opened else Step(Run(events[..|events| - 1]), events[|events| - 1])
  }

  class Bridge {
    var buf: seq<Byte>
    var connected: bool
    var pending: seq<seq<Byte>>
    var closed: bool
    var written: seq<Byte>
    var sent: seq<Message>

    ghost function Now(): State
      reads this
    {
      State(buf, connected, pending, closed, written, sent)
    }

    constructor ()
      ensures Now() == Opened
    {
      buf, connected, pending, closed, written, sent := [], false, [], false, [], [];
    }

    method Close()
      modifies this`closed
      ensures Now() == Step(old(Now()), Closed)
    {
      if closed {
        return;
      }
      closed := true;
    }

    method WriteFrame(payload: seq<Byte>)
      modifies this`written
      ensures Now() == Write(old(Now()), Frame(payload))
    {
      var out := BigEndian(|payload| % FRAME_LIMIT, HEADER) + payload;
      if connected && !closed {
        written := written + out;
      }
    }

    /** The dial completed: flush what the browser said before it did. */
    method OnDialed()
      modifies this
      ensures Now() == Step(old(Now()), Dialed)
    {
      connected := true;
      if closed {
        return;
      }
      for i := 0 to |pending|
        invariant Now() == old(Now()).(connected := true, written := written)
        invariant written + Frames(pending[i..]) == old(written) + Frames(pending)
      {
        assert pending[i..][0] == pending[i] && pending[i..][1..] == pending[i + 1..];
        Assoc(written, Frame(pending[i]), Frames(pending[i + 1..]));
        WriteFrame(pending[i]);
      }
      assert written + [] == written;
      pending := [];
    }

    method OnDialFailed(notice: seq<Byte>)
      modifies this
      ensures Now() == Step(old(Now()), DialFailed(notice))
    {
      sent := sent + [Notice(notice)];
      Close();
    }

    method OnBrowser(msg: seq<Byte>)
      modifies this
      ensures Now() == Step(old(Now()), FromBrowser(msg))
    {
      if !connected {
        pending := pending + [msg];
        return;
      }
      WriteFrame(msg);
    }

    method OnDaemon(chunk: seq<Byte>, accepts: nat)
      modifies this
      ensures Now() == Step(old(Now()), FromDaemon(chunk, accepts))
    {
      buf := buf + chunk;
      var left := accepts;
      while true
        invariant Forward(Now(), left) == Forward(old(Now()).(buf := old(buf) + chunk), accepts)
        decreases |buf|
      {
        if |buf| < HEADER {
          return;
        }
        var n := Unsigned(buf[..HEADER]);
        if |buf| < HEADER + n {
          return;
        }
        var payload := buf[HEADER..HEADER + n];
        if left == 0 {
          Close();
          return;
        }
        sent, left := sent + [Payload(payload)], left - 1;
        buf := buf[HEADER + n..];
      }
    }
  }

  // ------------------------------------------------------------------------- runs

  /** The browser's messages, and the daemon's bytes, over a run. */
  function Said(events: seq<Event>): seq<seq<Byte>> {
    if events == [] then []
    else
      var e := events[|events| - 1];
      Said(events[..|events| - 1]) + if e.FromBrowser? then [e.msg] else []
  }

  /** What the browser is told of failed dials. */
  function Told(events: seq<Event>): seq<seq<Byte>> {
    if events == [] then []
    else
      var e := events[|events| - 1];
      Told(events[..|events| - 1]) + if e.DialFailed? then [e.notice] else []
  }

  function Heard(events: seq<Event>): seq<Byte> {
    if events == [] then []
    else
      var e := events[|events| - 1];
      Heard(events[..|events| - 1]) + if e.FromDaemon? then e.chunk else []
  }

  /** A bridge is dialed once. */
  ghost predicate DialsOnce(events: seq<Event>) {
    forall i, j :: 0 <= i < j < |events| && events[i].Dialed? ==> !events[j].Dialed?
  }

  ghost predicate HasDialed(events: seq<Event>) {
    exists i :: 0 <= i < |events| && events[i].Dialed?
  }

  lemma {:induction false} ForwardKeepsFrames(s: State, accepts: nat)
    requires Stable(CutFrame)
    ensures var f := Forward(s, accepts);
            && f == s.(buf := f.buf, sent := f.sent, closed := f.closed)
            && Relayed(f.sent) + Records(CutFrame, f.buf) == Relayed(s.sent) + Records(CutFrame, s.buf)
            && Notices(f.sent) == Notices(s.sent)
            && Tail(CutFrame, f.buf) == Tail(CutFrame, s.buf)
            && s.sent <= f.sent
            && (!f.closed ==> CutFrame(f.buf).None?)
            && (f.closed <==> s.closed || accepts < |Records(CutFrame, s.buf)|)
            && |Relayed(f.sent)| == |Relayed(s.sent)| + Least(accepts, |Records(CutFrame, s.buf)|)
    decreases |s.buf|
  {
    hide Stable, CutFrame, Records, Tail, Relayed, Notices;
    match CutFrame(s.buf)
    case None =>
      NoRecord(CutFrame, s.buf);
    case Some(p) =>
      FirstRecord(CutFrame, s.buf, p);
      if accepts > 0 {
        OneMoreSent(s.sent, Payload(p.record));
        Assoc(Relayed(s.sent), [p.record], Records(CutFrame, s.buf[p.used..]));
        ForwardKeepsFrames(s.(buf := s.buf[p.used..], sent := s.sent + [Payload(p.record)]), accepts - 1);
      }
  }

  // ------------------------------------------------------- daemon to browser

  /** The payloads sent, and what is still in the buffer, are what the daemon said. */
  ghost predicate Inbound(s: State, heard: seq<Byte>)
    requires Stable(CutFrame)
  {
    && Relayed(s.sent) + Records(CutFrame, s.buf) == Records(CutFrame, heard)
    && Tail(CutFrame, s.buf) == Tail(CutFrame, heard)
    && (!s.closed ==> CutFrame(s.buf).None?)
  }

  lemma ReceiveKeepsInbound(s: State, heard: seq<Byte>, chunk: seq<Byte>, accepts: nat)
    requires Stable(CutFrame) && Inbound(s, heard)
    ensures Inbound(Step(s, FromDaemon(chunk, accepts)), heard + chunk)
    ensures Notices(Step(s, FromDaemon(chunk, accepts)).sent) == Notices(s.sent)
  {
    hide Stable, CutFrame, Records, Tail, Forward, Relayed, Notices;
    var grown := s.buf + chunk;
    DrainEarly(CutFrame, s.buf, chunk);
    DrainEarly(CutFrame, heard, chunk);
    Assoc(Relayed(s.sent), Records(CutFrame, s.buf), Records(CutFrame, Tail(CutFrame, s.buf) + chunk));
    ForwardKeepsFrames(s.(buf := grown), accepts);
  }

  lemma OthersKeepInbound(s: State, heard: seq<Byte>, e: Event)
    requires Stable(CutFrame) && Inbound(s, heard) && !e.FromDaemon?
    ensures Inbound(Step(s, e), heard)
    ensures Notices(Step(s, e).sent) == Notices(s.sent) + if e.DialFailed? then [e.notice] else []
  {
    hide Stable, CutFrame, Records, Tail, Relayed, Notices, Frames, Frame;
    assert Notices(s.sent) + [] == Notices(s.sent);
    if e.DialFailed? {
      OneMoreSent(s.sent, Notice(e.notice));
      assert Relayed(s.sent) + [] == Relayed(s.sent);
    }
  }

  /** In every run the payloads sent and what is still in the buffer are what the daemon
      said, and beside them the browser is sent a notice for each failed dial. */
  lemma {:induction false} EveryRunKeepsInbound(events: seq<Event>)
    ensures Stable(CutFrame) && Inbound(Run(events), Heard(events))
    ensures Notices(Run(events).sent) == Told(events)
  {
    FramesAreStable();
    if events != [] {
      var before, e := events[..|events| - 1], events[|events| - 1];
      EveryRunKeepsInbound(before);
      hide Stable, CutFrame, Records, Tail, Relayed, Notices, Step, Inbound;
      assert Told(before) + [] == Told(before) && Heard(before) + [] == Heard(before);
      if e.FromDaemon? {
        ReceiveKeepsInbound(Run(before), Heard(before), e.chunk, e.accepts);
      } else {
        OthersKeepInbound(Run(before), Heard(before), e);
      }
    } else {
      NothingSent();
    }
  }

  lemma NothingSent()
    ensures Relayed([]) == [] && Notices([]) == []
    ensures Stable(CutFrame) ==> Inbound(Opened, [])
  {
  }

  /** Of the whole frames in hand when bytes arrive, as many are relayed as the browser takes. */
  lemma RelaysWhatIsTaken(events: seq<Event>, chunk: seq<Byte>, accepts: nat)
    ensures Stable(CutFrame)
    ensures var was, now := Relayed(Run(events).sent), Relayed(Run(events + [FromDaemon(chunk, accepts)]).sent);
            |now| == |was| + Least(accepts, |Records(CutFrame, Run(events).buf + chunk)|)
  {
    FramesAreStable();
    hide Stable, CutFrame, Records, Tail, Forward, Relayed;
    var longer := events + [FromDaemon(chunk, accepts)];
    assert longer[..|events|] == events;
    ForwardKeepsFrames(Run(events).(buf := Run(events).buf + chunk), accepts);
  }

  // ------------------------------------------------------- browser to daemon

  /** The daemon was written the frames of the first `flushed` messages the browser said:
      none before the dial, all of them while the bridge is open after it. */
  ghost predicate Outbound(s: State, said: seq<seq<Byte>>, flushed: nat) {
    && flushed <= |said| && s.written == Frames(said[..flushed])
    && (!s.connected ==> flushed == 0 && s.pending == said)
    && (s.connected && !s.closed ==> flushed == |said| && s.pending == [])
  }

  lemma SpeakKeepsOutbound(s: State, said: seq<seq<Byte>>, flushed: nat, msg: seq<Byte>) returns (flushed': nat)
    requires Outbound(s, said, flushed)
    ensures Outbound(Step(s, FromBrowser(msg)), said + [msg], flushed')
  {
    flushed' := flushed;
    assert (said + [msg])[..flushed] == said[..flushed];
    if s.connected && !s.closed {
      flushed' := flushed + 1;
      FramesConcat(said, [msg]);
      assert said[..flushed] == said && (said + [msg])[..flushed'] == said + [msg];
      assert Frames([msg]) == Frame(msg) + [] == Frame(msg);
    }
  }

  lemma ForwardOnlyForwards(s: State, accepts: nat)
    ensures var f := Forward(s, accepts);
            f == s.(buf := f.buf, sent := f.sent, closed := f.closed) && (s.closed ==> f.closed)
  {
    FramesAreStable();
    ForwardKeepsFrames(s, accepts);
  }

  lemma {:induction false} EveryRunKeepsOutbound(events: seq<Event>) returns (flushed: nat)
    requires DialsOnce(events)
    ensures Outbound(Run(events), Said(events), flushed)
    ensures Run(events).connected <==> HasDialed(events)
  {
    if events == [] {
      flushed := 0;
    } else {
      hide Forward, Frames, CutFrame;
      var before, e := events[..|events| - 1], events[|events| - 1];
      flushed := EveryRunKeepsOutbound(before);
      HasDialedStep(before, e);
      assert events == before + [e];
      var s, said := Run(before), Said(before);
      assert said + [] == said;
      match e
      case Dialed =>
        assert s.written == [] by { NoFrames(said[..0]); }
        if !s.closed {
          flushed := |said|;
          assert said[..flushed] == said && s.written + Frames(said) == Frames(said);
        }
      case FromBrowser(msg) => flushed := SpeakKeepsOutbound(s, said, flushed, msg);
      case FromDaemon(chunk, accepts) => ForwardOnlyForwards(s.(buf := s.buf + chunk), accepts);
      case _ =>
    }
  }

  lemma NoFrames(payloads: seq<seq<Byte>>)
    requires payloads == []
    ensures Frames(payloads) == []
  {
  }

  lemma HasDialedStep(before: seq<Event>, e: Event)
    ensures HasDialed(before + [e]) <==> HasDialed(before) || e.Dialed?
  {
    var events := before + [e];
    assert events[|before|] == e;
    if i :| 0 <= i < |before| && before[i].Dialed? { assert events[i].Dialed?; }
  }

  // ------------------------------------------------------------------ fidelity

  /** A run that has not closed passed everything on, whole and in order, whatever the
      chunking and whenever the dial completed. */
  lemma OpenBridgeIsFaithful(events: seq<Event>)
    requires DialsOnce(events) && !Run(events).closed
    ensures Stable(CutFrame)
    ensures var s := Run(events);
            && Relayed(s.sent) == Records(CutFrame, Heard(events)) && Notices(s.sent) == []
            && s.buf == Tail(CutFrame, Heard(events))
            && (HasDialed(events) ==> s.written == Frames(Said(events)) && s.pending == [])
            && (!HasDialed(events) ==> s.written == [] && s.pending == Said(events))
  {
    ClosedExactlyWhenBroken(events);
    assert forall i :: 0 <= i < |events| && events[i].DialFailed? ==> Breaks(events, i);
    EveryRunKeepsInbound(events);
    var flushed := EveryRunKeepsOutbound(events);
    var s := Run(events);
    assert Relayed(s.sent) + [] == Relayed(s.sent);
    NothingTold(events);
    assert Said(events)[..|Said(events)|] == Said(events);
    assert Records(CutFrame, s.buf) == [] && Tail(CutFrame, s.buf) == s.buf;
    if !HasDialed(events) { NoFrames(Said(events)[..0]); }
  }

  lemma {:induction false} NothingTold(events: seq<Event>)
    requires forall i :: 0 <= i < |events| ==> !events[i].DialFailed?
    ensures Told(events) == []
  {
    if events != [] { NothingTold(events[..|events| - 1]); }
  }

  /** Event `i` closes the bridge: a close, a failed dial, or more whole frames in hand than
      the browser takes. */
  ghost predicate Breaks(events: seq<Event>, i: nat)
    requires i < |events| && Stable(CutFrame)
  {
    match events[i]
    case Closed => true
    case DialFailed(_) => true
    case FromDaemon(chunk, accepts) => accepts < |Records(CutFrame, Run(events[..i]).buf + chunk)|
    case _ => false
  }

  lemma {:induction false} ClosedExactlyWhenBroken(events: seq<Event>)
    ensures Stable(CutFrame)
    ensures Run(events).closed <==> exists i :: 0 <= i < |events| && Breaks(events, i)
  {
    FramesAreStable();
    if events != [] {
      hide Stable, CutFrame, Records, Tail, Forward;
      var n := |events| - 1;
      var before, e := events[..n], events[n];
      ClosedExactlyWhenBroken(before);
      assert events == before + [e];
      forall i | 0 <= i < n ensures Breaks(events, i) <==> Breaks(before, i) {
        assert events[..i] == before[..i];
      }
      if e.FromDaemon? { ForwardKeepsFrames(Run(before).(buf := Run(before).buf + e.chunk), e.accepts); }
      assert Run(events).closed <==> Run(before).closed || Breaks(events, n);
    }
  }

  lemma {:induction false} OpenBefore(events: seq<Event>, n: nat)
    requires n <= |events| && !Run(events).closed
    ensures !Run(events[..n]).closed
  {
    if n < |events| {
      hide Forward, CutFrame;
      var m := |events| - 1;
      var s, e := Run(events[..m]), events[m];
      if e.FromDaemon? { ForwardOnlyForwards(s.(buf := s.buf + e.chunk), e.accepts); }
      OpenBefore(events[..m], n);
      assert events[..m][..n] == events[..n];
    } else {
      assert events[..n] == events;
    }
  }

  lemma {:induction false} ClosedWritesNoMore(events: seq<Event>, n: nat)
    requires n <= |events| && Run(events[..n]).closed
    ensures Run(events).closed && Run(events).written == Run(events[..n]).written
  {
    if n < |events| {
      hide Forward, CutFrame;
      var m := |events| - 1;
      assert events[..m][..n] == events[..n];
      ClosedWritesNoMore(events[..m], n);
      var s, e := Run(events[..m]), events[m];
      if e.FromDaemon? { ForwardOnlyForwards(s.(buf := s.buf + e.chunk), e.accepts); }
    } else {
      assert events[..n] == events;
    }
  }

  /** What a run that closes has written is what it had written when it closed: the frames of
      everything said until then, if it was dialed by then, and otherwise nothing. */
  lemma WrittenUntilClosed(events: seq<Event>, n: nat)
    requires DialsOnce(events) && n < |events|
    requires !Run(events[..n]).closed && Run(events[..n + 1]).closed
    ensures Run(events).written == if HasDialed(events[..n]) then Frames(Said(events[..n])) else []
  {
    hide *;
    OnceBefore(events, n);
    OpenBridgeIsFaithful(events[..n]);
    ClosedWritesNoMore(events, n + 1);
    RunStep(events, n);
    ClosingWritesNothing(Run(events[..n]), events[n]);
  }

  lemma OnceBefore(events: seq<Event>, n: nat)
    requires DialsOnce(events) && n <= |events|
    ensures DialsOnce(events[..n])
  {
  }

  lemma RunStep(events: seq<Event>, n: nat)
    requires n < |events|
    ensures Run(events[..n + 1]) == Step(Run(events[..n]), events[n])
  {
    assert events[..n + 1][..n] == events[..n];
  }

  lemma ClosingWritesNothing(s: State, e: Event)
    requires !s.closed && Step(s, e).closed
    ensures Step(s, e).written == s.written
  {
    hide Forward, CutFrame, Frames, Frame;
    if e.FromDaemon? { ForwardOnlyForwards(s.(buf := s.buf + e.chunk), e.accepts); }
  }

  /** Even a run that closes has relayed and written only prefixes of what was said. */
  lemma ClosedBridgeInventsNothing(events: seq<Event>)
    requires DialsOnce(events)
    ensures Stable(CutFrame)
    ensures Run(events).written <= Frames(Said(events))
    ensures Relayed(Run(events).sent) <= Records(CutFrame, Heard(events))
  {
    FramesAreStable();
    var flushed := EveryRunKeepsOutbound(events);
    var said := Said(events);
    assert said == said[..flushed] + said[flushed..];
    FramesConcat(said[..flushed], said[flushed..]);
    EveryRunKeepsInbound(events);
  }

  /** The bytes an open, dialed bridge wrote hold the browser's messages and nothing else,
      when their lengths fit a header. */
  lemma PeerHearsTheBrowser(events: seq<Event>)
    requires DialsOnce(events) && !Run(events).closed && HasDialed(events) && AllFit(Said(events))
    ensures Stable(CutFrame)
    ensures Records(CutFrame, Run(events).written) == Said(events) && Tail(CutFrame, Run(events).written) == []
  {
    OpenBridgeIsFaithful(events);
    FramesAreStable();
    DeframingUndoesFraming(Said(events), []);
    assert Frames(Said(events)) + [] == Frames(Said(events));
  }

  // ------------------------------------------------------- the peer's own framing

  /** The other end: a framed socket that reads one frame at a time, taking more from the
      wire only while its buffer holds no whole one. */
  class Framed {
    var buf: seq<Byte>

    constructor ()
      ensures buf == []
    {
      buf := [];
    }

    /** `incoming` is what the wire delivers before the deadline, read by read.  The frame
        returned is the first of everything held and read, and the rest stays held. */
    method ReadFrame(incoming: seq<seq<Byte>>) returns (payload: Option<seq<Byte>>, taken: nat)
      modifies this
      ensures taken <= |incoming|
      ensures var all := old(buf) + Concat(incoming[..taken]);
              match payload
              case None => taken == |incoming| && buf == all && CutFrame(all).None?
              case Some(p) =>
                && CutFrame(all).Some? && p == CutFrame(all).value.record
                && buf == all[CutFrame(all).value.used..]
      ensures forall r :: 0 <= r < taken ==> CutFrame(old(buf) + Concat(incoming[..r])).None?
    {
      taken := 0;
      assert incoming[..0] == [] && buf + [] == buf;
      while true
        invariant taken <= |incoming|
        invariant buf == old(buf) + Concat(incoming[..taken])
        invariant forall r :: 0 <= r < taken ==> CutFrame(old(buf) + Concat(incoming[..r])).None?
        decreases |incoming| - taken
      {
        if |buf| >= HEADER {
          var n := Unsigned(buf[..HEADER]);
          if |buf| >= HEADER + n {
            payload := Some(buf[HEADER..HEADER + n]);
            buf := buf[HEADER + n..];
            return;
          }
        }
        if taken == |incoming| {
          return None, taken;
        }
        assert incoming[..taken + 1][..taken] == incoming[..taken];
        Assoc(old(buf), Concat(incoming[..taken]), incoming[taken]);
        buf := buf + incoming[taken];
        taken := taken + 1;
      }
    }
  }

  /** A frame found in what was read so far is the first of all there is to read. */
  lemma ReadIsFirst(all: seq<Byte>, a: seq<Byte>, more: seq<Byte>)
    requires Stable(CutFrame) && all == a + more && CutFrame(a).Some?
    ensures CutFrame(all) == CutFrame(a) && CutFrame(a).value.used <= |a|
    ensures all[CutFrame(a).value.used..] == a[CutFrame(a).value.used..] + more
  {
    hide CutFrame;
  }

  /** One `ReadFrame` of what is left to read, in terms of the whole of it. */
  lemma PartsOfIncoming(buf: seq<Byte>, left: seq<seq<Byte>>, taken: nat)
    requires taken <= |left|
    ensures buf + Concat(left) == buf + Concat(left[..taken]) + Concat(left[taken..])
  {
    assert left == left[..taken] + left[taken..];
    ConcatConcat(left[..taken], left[taken..]);
    Assoc(buf, Concat(left[..taken]), Concat(left[taken..]));
  }

  /** A peer that reads frames until none is left of what arrives gets exactly the records
      of everything held and read, and holds the tail. */
  method ReadAll(peer: Framed, incoming: seq<seq<Byte>>) returns (payloads: seq<seq<Byte>>)
    modifies peer
    ensures Stable(CutFrame)
    ensures var all := old(peer.buf) + Concat(incoming);
            payloads == Records(CutFrame, all) && peer.buf == Tail(CutFrame, all)
  {
    FramesAreStable();
    payloads := [];
    var left := incoming;
    ghost var all := peer.buf + Concat(incoming);
    DrainBegins(CutFrame, all);
    hide Stable, CutFrame, Records, Tail, Draining;
    while true
      invariant Draining(CutFrame, all, payloads, peer.buf + Concat(left))
      decreases |peer.buf + Concat(left)|
    {
      ghost var held := peer.buf;
      var payload, taken := peer.ReadFrame(left);
      PartsOfIncoming(held, left, taken);
      if payload.None? {
        assert left[..taken] == left && left[taken..] == [];
        DrainEnds(CutFrame, all, payloads, peer.buf);
        return;
      }
      ghost var a := held + Concat(left[..taken]);
      ReadIsFirst(held + Concat(left), a, Concat(left[taken..]));
      DrainTakes(CutFrame, all, payloads, held + Concat(left), CutFrame(a).value);
      payloads, left := payloads + [payload.value], left[taken..];
    }
  }

  /** End to end: a framed peer that reads, in any chunks, what an open and dialed bridge
      wrote returns the browser's messages, every one and in order. */
  method PeerReads(ghost events: seq<Event>, chunks: seq<seq<Byte>>) returns (payloads: seq<seq<Byte>>)
    requires DialsOnce(events) && !Run(events).closed && HasDialed(events) && AllFit(Said(events))
    requires Concat(chunks) == Run(events).written
    ensures payloads == Said(events)
  {
    var peer := new Framed();
    PeerHearsTheBrowser(events);
    assert [] + Concat(chunks) == Concat(chunks);
    payloads := ReadAll(peer, chunks);
  }

  /** What `send_raw` puts on the wire; a length that does not fit the header raises. */
  function SendRaw(payload: seq<Byte>): Option<seq<Byte>> {
    if |payload| < FRAME_LIMIT then Some(BigEndian(|payload|, HEADER) + payload) else None
  }

  /** The two ends frame alike wherever the peer frames at all, and a peer's frame comes off
      the wire whole, ahead of anything that follows it. */
  lemma PeersAgree(payload: seq<Byte>, rest: seq<Byte>)
    ensures SendRaw(payload).Some? <==> |payload| < FRAME_LIMIT
    ensures SendRaw(payload).Some? ==>
              SendRaw(payload).value == Frame(payload)
              && CutFrame(SendRaw(payload).value + rest) == Some(Piece(payload, HEADER + |payload|))
  {
    CutsOneFrame(payload, rest);
    if |payload| < FRAME_LIMIT { assert payload[..|payload| % FRAME_LIMIT] == payload; }
  }
}
