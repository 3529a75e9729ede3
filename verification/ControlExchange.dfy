/** Requests over the established connection: `register`, `poll_registration` and
  * `start_map_stream` in crates/dictyon/src/control/mod.rs, and the registration that
  * crates/dictyon/examples/connect.rs makes of the first two.
  */
module ControlExchange {
  import opened Prelude
  import opened Config
  import opened Wire
  import opened NoiseSession
  import opened ControlFrame
  import opened ControlStream

  datatype UpdateError = Transport(wire: WireError) | Control(control: ControlError)

  /** Does a request fit the frames of both layers? */
  predicate Sendable(c: NoiseConfig, request: seq<byte>) {
    |request| < 0x1_0000_0000 && Accepts(c, FrameOf(request))
  }

  // ----- what requests look like on the wire

  function FramesOf(payloads: seq<seq<byte>>): seq<seq<byte>>
    requires forall i | 0 <= i < |payloads| :: |payloads[i]| < 0x1_0000_0000
  {
    seq(|payloads|, i requires 0 <= i < |payloads| => FrameOf(payloads[i]))
  }

  predicate AllSmall(requests: seq<seq<byte>>) {
    forall i | 0 <= i < |requests| :: 4 + |requests[i]| + TAG_LEN <= 0xFFFF
  }

  /** Requests as the server gets them: framed, sealed under consecutive counter values from `n`. */
  ghost function Asked(a: Aead, k: Key, n: nat, requests: seq<seq<byte>>): seq<byte> {
    if Ideal(a) && AllSmall(requests) then OnWire(a, k, n, FramesOf(requests)) else []
  }

  lemma AskedOnce(a: Aead, k: Key, n: nat, request: seq<byte>)
    requires Ideal(a) && 4 + |request| + TAG_LEN <= 0xFFFF
    ensures |a.seal(k, n, FrameOf(request))| <= 0xFFFF
    ensures Asked(a, k, n, [request]) == Framed(a.seal(k, n, FrameOf(request)))
  {
    assert [request][0] == request;
    var frames := FramesOf([request]);
    assert frames == [FrameOf(request)] && frames[1..] == [];
    assert |a.seal(k, n, frames[0])| == |frames[0]| + TAG_LEN;
    assert OnWire(a, k, n + 1, []) == [];
  }

  lemma AskedInTurn(a: Aead, k: Key, n: nat, earlier: seq<seq<byte>>, later: seq<seq<byte>>)
    requires Ideal(a) && AllSmall(earlier) && AllSmall(later)
    ensures Asked(a, k, n, earlier + later) == Asked(a, k, n, earlier) + Asked(a, k, n + |earlier|, later)
  {
    assert FramesOf(earlier + later) == FramesOf(earlier) + FramesOf(later);
    OnWireConcat(a, k, n, FramesOf(earlier), FramesOf(later));
  }

  /** A server that receives what was asked gets the requests back, in order. */
  lemma RequestsAreRead(a: Aead, k: Key, n: nat, requests: seq<seq<byte>>, tail: seq<byte>,
                        rests: seq<seq<byte>>, got: seq<seq<byte>>)
    requires Ideal(a) && AllSmall(requests) && |got| <= |requests|
    requires Receives(a, k, n, rests, got) && rests[0] == Asked(a, k, n, requests) + tail
    ensures forall i | 0 <= i < |got| :: Extract(got[i]) == Ok(requests[i])
    ensures |got| < |requests| ==> NextPlain(a, k, n + |got|, rests[|got|]).Ok?
    ensures |got| == |requests| ==> rests[|got|] == tail
  {
    hide NextPlain, OnWire, Extract, FrameOf;
    ReceivesPlaintexts(a, k, n, FramesOf(requests), tail, rests, got);
    forall i | 0 <= i < |got| ensures Extract(got[i]) == Ok(requests[i]) {
      ExtractUndoesFrame(requests[i], []);
      assert FrameOf(requests[i]) + [] == FrameOf(requests[i]);
    }
  }

  /** Sends a request as one sealed frame; one that does not fit is refused unsent. */
  method SendRequest(s: AsyncControlStream, request: seq<byte>) returns (r: Result<(), UpdateError>)
    requires Ideal(s.conn.aead)
    modifies s.stream`written, s.conn`sendCounter
    ensures !Sendable(s.conn.config, request) ==>
              r.Err? && s.stream.written == old(s.stream.written) && s.conn.sendCounter == old(s.conn.sendCounter)
    ensures Sendable(s.conn.config, request) ==>
              && s.conn.sendCounter == old(s.conn.sendCounter) + 1
              && (r.Ok? ==> s.stream.written == old(s.stream.written)
                                               + Asked(s.conn.aead, s.conn.sendKey, old(s.conn.sendCounter), [request]))
              && (r.Err? ==> r.error == Transport(Tls(Fault)) && s.stream.canFail)
  {
    hide Asked;
    if Sendable(s.conn.config, request) {
      AskedOnce(s.conn.aead, s.conn.sendKey, s.conn.sendCounter, request);
    }
    var framed := FrameMessage(request);
    if framed.Err? {
      return Err(Control(framed.error));
    }
    var sent := s.SendMessage(framed.value);
    r := if sent.Ok? then Ok(()) else Err(Transport(sent.error));
  }

  /** A request and the message that answers it, the next one of the unconsumed bytes. */
  method Exchange(s: AsyncControlStream, request: seq<byte>) returns (r: Result<seq<byte>, UpdateError>)
    requires Ideal(s.conn.aead)
    modifies s`pending, s.stream`unread, s.stream`pieces, s.stream`written, s.conn`recvCounter, s.conn`sendCounter
    ensures var next := NextPlain(s.conn.aead, s.conn.recvKey, old(s.conn.recvCounter), old(s.Unconsumed()));
            && (r.Ok? ==>
                  && next == Ok(Opened(r.value, s.Unconsumed()))
                  && s.conn.recvCounter == old(s.conn.recvCounter) + 1)
            && (r.Err? && !s.stream.canFail && Sendable(s.conn.config, request) ==> next.Err?)
    ensures if Sendable(s.conn.config, request) then
              && s.conn.sendCounter == old(s.conn.sendCounter) + 1
              && (r.Ok? || !s.stream.canFail ==>
                    s.stream.written == old(s.stream.written)
                                        + Asked(s.conn.aead, s.conn.sendKey, old(s.conn.sendCounter), [request]))
            else r.Err? && s.stream.written == old(s.stream.written)
  {
    hide NextPlain, Asked, Sendable;
    var sent := SendRequest(s, request);
    if sent.Err? {
      return Err(sent.error);
    }
    var raw := s.RecvMessage();
    r := if raw.Ok? then Ok(raw.value) else Err(Transport(raw.error));
  }

  // ----- registration

  /** The first request, and what a message says to it: nothing that can be read, an outcome,
    * or a demand for authorisation with the request that follows it up.
    */
  datatype Registrar = Registrar(request: seq<byte>, answer: seq<byte> -> Option<Option<seq<byte>>>)

  /** A message that demands a follow-up. */
  predicate DemandsMore(reg: Registrar, raw: seq<byte>) {
    reg.answer(raw).Some? && reg.answer(raw).value.Some?
  }

  /** The messages of a complete registration: one that settles it, or one that demands more
    * and any that can be read.
    */
  predicate Registers(reg: Registrar, raws: seq<seq<byte>>) {
    || (|raws| == 1 && reg.answer(raws[0]) == Some(None))
    || (|raws| == 2 && DemandsMore(reg, raws[0]) && reg.answer(raws[1]).Some?)
  }

  /** The messages of a registration that stopped short: the last one cannot be read, or one
    * more is due.
    */
  predicate StopsShort(reg: Registrar, raws: seq<seq<byte>>, due: bool) {
    || (|raws| == 1 && reg.answer(raws[0]).None?)
    || (|raws| == 2 && DemandsMore(reg, raws[0]) && reg.answer(raws[1]).None?)
    || (|raws| == 0 && due)
    || (|raws| == 1 && DemandsMore(reg, raws[0]) && due)
  }

  ghost predicate RequestsFit(c: NoiseConfig, reg: Registrar) {
    && Sendable(c, reg.request)
    && forall raw | DemandsMore(reg, raw) :: Sendable(c, reg.answer(raw).value.value)
  }

  /** What a registration asks: its request and, exactly if the first answer demands more, the
    * follow-up made from that answer.
    */
  function RegistrationAsks(reg: Registrar, raws: seq<seq<byte>>): seq<seq<byte>> {
    if raws != [] && DemandsMore(reg, raws[0]) then [reg.request, reg.answer(raws[0]).value.value] else [reg.request]
  }

  /** Registers, with one follow-up if that is demanded: a run of receives over the bytes there
    * were, complete on success and stopped short on failure. What it writes is what it asks.
    */
  method Register(s: AsyncControlStream, reg: Registrar)
    returns (r: Result<(), UpdateError>, ghost rests: seq<seq<byte>>, ghost raws: seq<seq<byte>>)
    requires Ideal(s.conn.aead)
    modifies s`pending, s.stream`unread, s.stream`pieces, s.stream`written, s.conn`recvCounter, s.conn`sendCounter
    ensures Receives(s.conn.aead, s.conn.recvKey, old(s.conn.recvCounter), rests, raws)
            && rests[0] == old(s.Unconsumed())
    ensures r.Ok? ==>
              && Registers(reg, raws) && s.Unconsumed() == rests[|raws|]
              && s.conn.recvCounter == old(s.conn.recvCounter) + |raws|
    ensures r.Err? && !s.stream.canFail && RequestsFit(s.conn.config, reg) ==>
              StopsShort(reg, raws,
                         NextPlain(s.conn.aead, s.conn.recvKey, old(s.conn.recvCounter) + |raws|, rests[|raws|]).Err?)
    ensures r.Ok? || (!s.stream.canFail && RequestsFit(s.conn.config, reg)) ==>
              && AllSmall(RegistrationAsks(reg, raws))
              && RegistrationAsks(reg, raws)
                 == (if raws != [] && reg.answer(raws[0]).Some? && reg.answer(raws[0]).value.Some?
                     then [reg.request, reg.answer(raws[0]).value.value] else [reg.request])
              && s.conn.sendCounter == old(s.conn.sendCounter) + |RegistrationAsks(reg, raws)|
              && s.stream.written == old(s.stream.written)
                                     + Asked(s.conn.aead, s.conn.sendKey, old(s.conn.sendCounter),
                                             RegistrationAsks(reg, raws))
  {
    hide NextPlain, Sendable, Asked, AllSmall, Receives;
    ghost var a, k, n := s.conn.aead, s.conn.recvKey, s.conn.recvCounter;
    ghost var from, sent := s.conn.sendCounter, s.stream.written;
    rests, raws := [s.Unconsumed()], [];
    StartReceiving(a, k, n, s.Unconsumed());
    SendableIsSmall(s.conn.config, reg.request);
    var first := Exchange(s, reg.request);
    if first.Err? {
      return Err(first.error), rests, raws;
    }
    ReceivesSnoc(a, k, n, rests, raws, Opened(first.value, s.Unconsumed()));
    rests, raws := rests + [s.Unconsumed()], raws + [first.value];
    var answer := reg.answer(first.value);
    if answer.None? {
      return Err(Control(Json)), rests, raws;
    }
    if answer.value.None? {
      return Ok(()), rests, raws;
    }
    assert DemandsMore(reg, first.value);
    SendableIsSmall(s.conn.config, answer.value.value);
    ghost var asked := [reg.request];
    if AllSmall([answer.value.value]) {
      AskedInTurn(a, s.conn.sendKey, from, asked, [answer.value.value]);
      ConcatAssociates(sent, Asked(a, s.conn.sendKey, from, asked),
                       Asked(a, s.conn.sendKey, from + 1, [answer.value.value]));
      BothSmall(asked, [answer.value.value]);
      assert asked + [answer.value.value] == RegistrationAsks(reg, raws);
    }
    var second := Exchange(s, answer.value.value);
    if second.Err? {
      return Err(second.error), rests, raws;
    }
    ReceivesSnoc(a, k, n, rests, raws, Opened(second.value, s.Unconsumed()));
    rests, raws := rests + [s.Unconsumed()], raws + [second.value];
    r := if reg.answer(second.value).None? then Err(Control(Json)) else Ok(());
  }

  lemma StartReceiving(a: Aead, k: Key, n: nat, s: seq<byte>)
    ensures Receives(a, k, n, [s], [])
  {
  }

  lemma SendableIsSmall(c: NoiseConfig, request: seq<byte>)
    ensures Sendable(c, request) ==> AllSmall([request])
  {
  }

  lemma BothSmall(earlier: seq<seq<byte>>, later: seq<seq<byte>>)
    ensures AllSmall(earlier + later) <==> AllSmall(earlier) && AllSmall(later)
  {
    assert forall i | 0 <= i < |earlier| :: (earlier + later)[i] == earlier[i];
    assert forall i | 0 <= i < |later| :: (earlier + later)[|earlier| + i] == later[i];
  }

  /** With a server that answers, registration takes exactly its answers, never stops short,
    * and leaves exactly what follows them.
    */
  lemma AnswersAreTaken(a: Aead, k: Key, reg: Registrar, answers: seq<seq<byte>>, tail: seq<byte>,
                        rests: seq<seq<byte>>, raws: seq<seq<byte>>)
    requires Ideal(a) && AllFit(answers) && Registers(reg, answers)
    requires Receives(a, k, 0, rests, raws) && rests[0] == OnWire(a, k, 0, answers) + tail
    ensures !StopsShort(reg, raws, NextPlain(a, k, |raws|, rests[|raws|]).Err?)
    ensures Registers(reg, raws) ==> raws == answers && rests[|raws|] == tail
  {
    hide NextPlain, OnWire;
    WireEnds(a, k, 0, answers, tail);
    WireIsRun(a, k, 0, answers, tail);
    if raws != [] {
      ReceivesDetermined(a, k, 0, rests, raws, WireStates(a, k, 0, answers, tail), answers, 1);
      assert raws[0] == raws[..1][0] && answers[0] == answers[..1][0];
    }
    if |raws| <= |answers| {
      ReceivesPlaintexts(a, k, 0, answers, tail, rests, raws);
    }
  }
}
