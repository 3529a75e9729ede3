/** The initiator's side of the Noise IK handshake: crates/dictyon/src/noise/mod.rs.
  *
  * The handshake library is a parameter: any four functions that may fail. What it does
  * with the bytes is its own affair; what is proved here is when it is called.
  */
module NoiseHandshake {
  import opened Prelude
  import opened Config
  import Capability
  import NoiseSession

  const MSG_TYPE_INITIATION: byte := 1
  const MSG_TYPE_RESPONSE: byte := 2

  datatype Keys = Keys(send: NoiseSession.Key, recv: NoiseSession.Key)

  /** `begin` builds the initiator; `write` and `read` get the scratch size as well. */
  datatype Library<!H> = Library(
    begin: (seq<byte>, seq<byte>, Text) -> Option<H>,
    write: (H, nat) -> Option<(H, seq<byte>)>,
    read: (H, seq<byte>, nat) -> Option<H>,
    finish: H -> Option<Keys>)

  datatype HandshakePhase<H> =
    | Ready(machineKey: seq<byte>, serverPublic: seq<byte>)
    | AwaitingResponse(handshake: H)
    | Completed

  datatype HandshakeError =
    | InitiationAlreadyGenerated | InitiationNotYetSent | AlreadyCompleted
    | InitiationTooLarge
    | ResponseTooShort | UnexpectedType(msgType: byte) | ResponseTruncated
    | Snow

  // ----- what each call does

  function InitiationFrame(noiseMsg: seq<byte>): seq<byte>
    requires |noiseMsg| <= 0xFFFF
  {
    Capability.VersionField(Capability.CAPABILITY_VERSION) + [MSG_TYPE_INITIATION] + U16Be(|noiseMsg|) + noiseMsg
  }

  datatype Outcome = Frame(bytes: seq<byte>) | Transport(keys: Keys) | Failed(error: HandshakeError)

  datatype After<H> = After(phase: HandshakePhase<H>, outcome: Outcome)

  function Initiate<H>(lib: Library<H>, c: NoiseConfig, phase: HandshakePhase<H>): After<H> {
    match phase
    case AwaitingResponse(_) => After(Completed, Failed(InitiationAlreadyGenerated))
    case Completed => After(Completed, Failed(InitiationAlreadyGenerated))
    case Ready(machineKey, serverPublic) =>
      match lib.begin(machineKey, serverPublic, Capability.PrologueOf(Capability.CAPABILITY_VERSION))
      case None => After(Completed, Failed(Snow))
      case Some(h) =>
        match lib.write(h, c.handshakeScratchBytes)
        case None => After(Completed, Failed(Snow))
        case Some((h', noiseMsg)) =>
          if |noiseMsg| > 0xFFFF then After(Completed, Failed(InitiationTooLarge))
          else After(AwaitingResponse(h'), Frame(InitiationFrame(noiseMsg)))
  }

  /** The Noise message inside a framed response, or why there is none. */
  function ResponseBody(response: seq<byte>): Result<seq<byte>, HandshakeError> {
    if |response| < 3 then Err(ResponseTooShort)
    else if response[0] != MSG_TYPE_RESPONSE then Err(UnexpectedType(response[0]))
    else
      var len := U16FromBe(response[1], response[2]);
      if |response| < 3 + len then Err(ResponseTruncated) else Ok(response[3..3 + len])
  }

  function Respond<H>(lib: Library<H>, c: NoiseConfig, phase: HandshakePhase<H>, response: seq<byte>): Outcome {
    match phase
    case Ready(_, _) => Failed(InitiationNotYetSent)
    case Completed => Failed(AlreadyCompleted)
    case AwaitingResponse(h) =>
      match ResponseBody(response)
      case Err(e) => Failed(e)
      case Ok(noiseMsg) =>
        match lib.read(h, noiseMsg, c.handshakeScratchBytes)
        case None => Failed(Snow)
        case Some(h') =>
          match lib.finish(h')
          case None => Failed(Snow)
          case Some(keys) => Transport(keys)
  }

  class NoiseHandshake<H> {
    const lib: Library<H>
    const config: NoiseConfig
    var state: HandshakePhase<H>

    constructor WithConfig(lib: Library<H>, machineKey: seq<byte>, serverPublic: seq<byte>, config: NoiseConfig)
      ensures this.lib == lib && this.config == config
      ensures state == Ready(machineKey, serverPublic)
    {
      this.lib, this.config := lib, config;
      state := Ready(machineKey, serverPublic);
    }

    /** Takes the phase out first, so every failure on the way leaves `Completed` behind. */
    method InitiationMessage() returns (r: Result<seq<byte>, HandshakeError>)
      modifies this`state
      ensures state == Initiate(lib, config, old(state)).phase
      ensures Initiate(lib, config, old(state)).outcome == if r.Ok? then Frame(r.value) else Failed(r.error)
    {
      var taken := state;
      state := Completed;
      if !taken.Ready? {
        return Err(InitiationAlreadyGenerated);
      }
      var prologue := Capability.PrologueOf(Capability.CAPABILITY_VERSION);
      var built := lib.begin(taken.machineKey, taken.serverPublic, prologue);
      if built.None? {
        return Err(Snow);
      }
      var written := lib.write(built.value, config.handshakeScratchBytes);
      if written.None? {
        return Err(Snow);
      }
      var (handshake, noiseMsg) := written.value;
      if |noiseMsg| > 0xFFFF {
        return Err(InitiationTooLarge);
      }
      var framed := Capability.VersionField(Capability.CAPABILITY_VERSION);
      framed := framed + [MSG_TYPE_INITIATION];
      framed := framed + U16Be(|noiseMsg|);
      framed := framed + noiseMsg;
      state := AwaitingResponse(handshake);
      r := Ok(framed);
    }

    method ProcessResponse(aead: NoiseSession.Aead, response: seq<byte>)
      returns (r: Result<NoiseSession.NoiseTransport, HandshakeError>)
      modifies this`state
      ensures state == Completed
      ensures match Respond(lib, config, old(state), response)
              case Failed(e) => r == Err(e)
              case Transport(keys) =>
                && r.Ok? && fresh(r.value)
                && r.value.aead == aead && r.value.config == config
                && r.value.sendKey == keys.send && r.value.recvKey == keys.recv
                && r.value.sendCounter == 0 && r.value.recvCounter == 0
              case Frame(_) => false
    {
      var taken := state;
      state := Completed;
      match taken {
        case Ready(_, _) =>
          return Err(InitiationNotYetSent);
        case Completed =>
          return Err(AlreadyCompleted);
        case AwaitingResponse(handshake) =>
          if |response| < 3 {
            return Err(ResponseTooShort);
          }
          if response[0] != MSG_TYPE_RESPONSE {
            return Err(UnexpectedType(response[0]));
          }
          var payloadLen := U16FromBe(response[1], response[2]);
          if |response| < 3 + payloadLen {
            return Err(ResponseTruncated);
          }
          var advanced := lib.read(handshake, response[3..3 + payloadLen], config.handshakeScratchBytes);
          if advanced.None? {
            return Err(Snow);
          }
          var keys := lib.finish(advanced.value);
          if keys.None? {
            return Err(Snow);
          }
          var transport := new NoiseSession.NoiseTransport(aead, config, keys.value.send, keys.value.recv);
          r := Ok(transport);
      }
    }
  }

  // ----- call sequences

  datatype Call = CallInitiate | CallRespond(response: seq<byte>)

  function Step<H>(lib: Library<H>, c: NoiseConfig, phase: HandshakePhase<H>, call: Call): After<H> {
    match call
    case CallInitiate => Initiate(lib, c, phase)
    case CallRespond(response) => After(Completed, Respond(lib, c, phase, response))
  }

  function PhaseAfter<H>(lib: Library<H>, c: NoiseConfig, start: HandshakePhase<H>,
                         calls: seq<Call>): HandshakePhase<H> {
    if calls == [] then start
    else Step(lib, c, PhaseAfter(lib, c, start, calls[..|calls| - 1]), calls[|calls| - 1]).phase
  }

  /** What call `i` of the sequence returns. */
  function OutcomeOf<H>(lib: Library<H>, c: NoiseConfig, start: HandshakePhase<H>, calls: seq<Call>, i: nat): Outcome
    requires i < |calls|
  {
    Step(lib, c, PhaseAfter(lib, c, start, calls[..i]), calls[i]).outcome
  }

  function Rank<H>(phase: HandshakePhase<H>): nat {
    match phase case Ready(_, _) => 0 case AwaitingResponse(_) => 1 case Completed => 2
  }

  /** The phase never moves backwards. */
  lemma {:induction false} PhaseIsMonotone<H>(lib: Library<H>, c: NoiseConfig, start: HandshakePhase<H>,
                                              calls: seq<Call>, i: nat)
    requires i <= |calls|
    ensures Rank(PhaseAfter(lib, c, start, calls[..i])) <= Rank(PhaseAfter(lib, c, start, calls))
    decreases |calls|
  {
    if i == |calls| {
      assert calls[..i] == calls;
    } else {
      var init := calls[..|calls| - 1];
      assert init[..i] == calls[..i];
      PhaseIsMonotone(lib, c, start, init, i);
    }
  }

  /** Every call leaves `Ready`, and a second one leaves `AwaitingResponse`, for good. */
  lemma {:induction false} PhaseByCallCount<H>(lib: Library<H>, c: NoiseConfig, start: HandshakePhase<H>,
                                               calls: seq<Call>)
    requires start.Ready?
    ensures PhaseAfter(lib, c, start, calls).Ready? ==> calls == []
    ensures PhaseAfter(lib, c, start, calls).AwaitingResponse? ==>
              calls == [CallInitiate] && Initiate(lib, c, start).phase == PhaseAfter(lib, c, start, calls)
  {
    if calls != [] {
      PhaseByCallCount(lib, c, start, calls[..|calls| - 1]);
    }
  }

  /** Only the first call can return an initiation frame, so at most one ever is. */
  lemma FrameOnlyFromFirstCall<H>(lib: Library<H>, c: NoiseConfig, start: HandshakePhase<H>, calls: seq<Call>, i: nat)
    requires start.Ready? && i < |calls|
    requires OutcomeOf(lib, c, start, calls, i).Frame?
    ensures i == 0 && calls[0] == CallInitiate
  {
  }

  /** A transport comes out of a call sequence exactly when it opens with one successful
    * initiation and one accepted response; a second initiation in between forfeits it.
    */
  lemma TransportOnlyFromInitiateRespond<H>(lib: Library<H>, c: NoiseConfig, start: HandshakePhase<H>,
                                            calls: seq<Call>, i: nat)
    requires start.Ready? && i < |calls|
    ensures OutcomeOf(lib, c, start, calls, i).Transport? <==>
            && i == 1
            && calls[0] == CallInitiate && calls[1].CallRespond?
            && OutcomeOf(lib, c, start, calls, 0).Frame?
            && Respond(lib, c, Initiate(lib, c, start).phase, calls[1].response).Transport?
  {
    PhaseByCallCount(lib, c, start, calls[..i]);
    assert calls[..0] == [];
    if i == 1 {
      assert calls[..1] == [calls[0]];
      assert [calls[0]][..0] == [];
      assert PhaseAfter(lib, c, start, calls[..1]) == Step(lib, c, start, calls[0]).phase;
    }
  }

  // ----- the frames

  /** The initiation frame names the version whose prologue the initiator mixed in. */
  lemma InitiationBindsVersion(noiseMsg: seq<byte>)
    requires |noiseMsg| <= 0xFFFF
    ensures var f := InitiationFrame(noiseMsg);
            && |f| == 5 + |noiseMsg|
            && Capability.ResponderPrologue(f) == Capability.PrologueOf(Capability.CAPABILITY_VERSION)
            && f[2] == MSG_TYPE_INITIATION && U16FromBe(f[3], f[4]) == |noiseMsg| && f[5..] == noiseMsg
  {
  }

  /** What an initiation gives the library and does with what comes back: the machine key and the
    * server's key, in this order, under the prologue that a responder rebuilds from the frame; the
    * message it then writes is the body of the frame, and the state it leaves is the one kept.
    */
  lemma InitiationMixesPrologue<H>(lib: Library<H>, c: NoiseConfig, machineKey: seq<byte>, serverPublic: seq<byte>)
    returns (h: H, h': H)
    requires Initiate(lib, c, Ready(machineKey, serverPublic)).outcome.Frame?
    ensures var a := Initiate(lib, c, Ready(machineKey, serverPublic));
            var bytes := a.outcome.bytes;
            && |bytes| >= 5
            && Capability.ResponderPrologue(bytes) == Ascii("Tailscale Control Protocol v71")
            && lib.begin(machineKey, serverPublic, Capability.ResponderPrologue(bytes)) == Some(h)
            && lib.write(h, c.handshakeScratchBytes) == Some((h', bytes[5..]))
            && a.phase == AwaitingResponse(h')
            && bytes[..3] == [0, 71, 1] && 256 * bytes[3] as int + bytes[4] == |bytes| - 5
  {
    AdvertisedPrologue();
    h := lib.begin(machineKey, serverPublic, Capability.PrologueOf(Capability.CAPABILITY_VERSION)).value;
    var (state, noiseMsg) := lib.write(h, c.handshakeScratchBytes).value;
    h' := state;
    InitiationBindsVersion(noiseMsg);
  }

  lemma AdvertisedPrologue()
    ensures Capability.CAPABILITY_VERSION == 71
    ensures Capability.PrologueOf(71) == Ascii("Tailscale Control Protocol v71")
  {
    assert Capability.Decimal(71) == Capability.Decimal(7) + [49];
    assert Ascii("Tailscale Control Protocol v71") == Ascii("Tailscale Control Protocol v") + [55, 49];
  }

  /** The other outcomes of an initiation, each exactly. */
  lemma InitiationFails<H>(lib: Library<H>, c: NoiseConfig, phase: HandshakePhase<H>)
    ensures !Initiate(lib, c, phase).outcome.Frame? ==> Initiate(lib, c, phase).phase == Completed
    ensures Initiate(lib, c, phase).outcome == Failed(InitiationAlreadyGenerated) <==> !phase.Ready?
    ensures phase.Ready? ==>
              var begun := lib.begin(phase.machineKey, phase.serverPublic, Ascii("Tailscale Control Protocol v71"));
              var written := if begun.None? then None else lib.write(begun.value, c.handshakeScratchBytes);
              var outcome := Initiate(lib, c, phase).outcome;
              && (outcome == Failed(Snow) <==> written.None?)
              && (outcome == Failed(InitiationTooLarge) <==> written.Some? && |written.value.1| > 65_535)
              && (outcome.Frame? <==> written.Some? && |written.value.1| <= 65_535)
  {
    AdvertisedPrologue();
  }

  /** What a response gives the library: the state kept by the initiation and the body the frame
    * declares; the keys are those the library ends with.
    */
  lemma ResponseIsRead<H>(lib: Library<H>, c: NoiseConfig, h: H, response: seq<byte>)
    ensures var outcome := Respond(lib, c, AwaitingResponse(h), response);
            if |response| < 3 then outcome == Failed(ResponseTooShort)
            else if response[0] != 2 then outcome == Failed(UnexpectedType(response[0]))
            else
              var n := 256 * response[1] as int + response[2];
              if |response| < 3 + n then outcome == Failed(ResponseTruncated)
              else
                var read := lib.read(h, response[3..3 + n], c.handshakeScratchBytes);
                var keys := if read.None? then None else lib.finish(read.value);
                outcome == if keys.None? then Failed(Snow) else Transport(keys.value)
  {
  }

  /** Out of turn a response is refused unread, for one reason before the initiation and for
    * another afterwards.
    */
  lemma ResponseOutOfTurn<H>(lib: Library<H>, c: NoiseConfig, phase: HandshakePhase<H>, response: seq<byte>)
    ensures Respond(lib, c, phase, response) == Failed(InitiationNotYetSent) <==> phase.Ready?
    ensures Respond(lib, c, phase, response) == Failed(AlreadyCompleted) <==> phase.Completed?
  {
  }

  /** A message written to a buffer of `n` bytes has at most `n` bytes. */
  predicate FitsBuffer<H>(lib: Library<H>, h: H, n: nat) {
    lib.write(h, n).Some? ==> |lib.write(h, n).value.1| <= n
  }

  /** A library that stays within its buffer never overflows the length field once the
    * scratch size has been validated.
    */
  lemma ValidatedScratchFits<H(!new)>(lib: Library<H>, c: NoiseConfig, phase: HandshakePhase<H>)
    requires ValidateNoise(c) == Pass
    requires forall h: H, n: nat :: FitsBuffer(lib, h, n)
    ensures Initiate(lib, c, phase).outcome != Failed(InitiationTooLarge)
  {
    if phase.Ready? {
      var built := lib.begin(phase.machineKey, phase.serverPublic,
                             Capability.PrologueOf(Capability.CAPABILITY_VERSION));
      if built.Some? {
        var h: H := built.value;
        assert FitsBuffer(lib, h, c.handshakeScratchBytes);
      }
    }
  }
}
