/** From bytes to netmap: `recv_map_update` in crates/dictyon/src/control/mod.rs, the loop
  * around it in crates/dictyon/examples/connect.rs, and the set-up before both.
  */
module MapStream {
  import opened Prelude
  import opened Config
  import opened HeaderScan
  import opened Wire
  import opened NoiseSession
  import opened ControlFrame
  import opened ControlStream
  import opened ControlExchange
  import opened Validate
  import opened NetmapModel
  import NoiseHandshake
  import NetmapClient
  import NetmapRuns

  datatype Update = Update(resp: MapResponse, rest: seq<byte>)

  /** The next map response of a byte sequence. */
  function NextUpdate(codec: Codec, a: Aead, k: Key, n: nat, s: seq<byte>): Result<Update, UpdateError> {
    match NextPlain(a, k, n, s)
    case Err(e) => Err(Transport(e))
    case Ok(m) =>
      match ParseMapResponse(codec, m.plain)
      case Err(e) => Err(Control(e))
      case Ok(resp) => Ok(Update(resp, m.rest))
  }

  method RecvMapUpdate(client: NetmapClient.ControlClient, s: AsyncControlStream, ps: AddrParsers, codec: Codec)
    returns (r: Result<bool, UpdateError>)
    requires Ideal(s.conn.aead)
    modifies client, client.netmap, s`pending, s.stream`unread, s.stream`pieces, s.conn`recvCounter
    ensures client.netmap == old(client.netmap) || fresh(client.netmap)
    ensures var next := NextUpdate(codec, s.conn.aead, s.conn.recvKey, old(s.conn.recvCounter), old(s.Unconsumed()));
            && (r.Ok? ==>
                  && next.Ok? && r.value == NetmapRuns.IsKeepAlive(next.value.resp)
                  && client.Value() == ApplyMapResponse(ps, old(client.Value()), next.value.resp)
                  && s.Unconsumed() == next.value.rest && s.conn.recvCounter == old(s.conn.recvCounter) + 1)
            && (r.Err? ==> (r.error == Transport(Tls(Fault)) && s.stream.canFail) || next == Err(r.error))
    // a failed update leaves the netmap as it was
    ensures r.Err? ==> client.Value() == old(client.Value())
  {
    hide NextPlain, ParseMapResponse, ApplyMapResponse, IsTail, NextMessage;
    var raw := s.RecvMessage();
    if raw.Err? {
      return Err(Transport(raw.error));
    }
    var resp := ParseMapResponse(codec, raw.value);
    if resp.Err? {
      return Err(Control(resp.error));
    }
    var isKeepAlive := resp.value.keepAlive == Some(true);
    client.ApplyMapResponse(ps, resp.value);
    r := Ok(isKeepAlive);
  }

  // ----- many updates

  /** A run of updates: `rests[i]` is unconsumed before update `i`, which carries `resps[i]`. */
  ghost predicate Updates(codec: Codec, a: Aead, k: Key, n: nat, rests: seq<seq<byte>>, resps: seq<MapResponse>) {
    && |rests| == |resps| + 1
    && forall i {:trigger resps[i]} | 0 <= i < |resps| ::
         NextUpdate(codec, a, k, n + i, rests[i]) == Ok(Update(resps[i], rests[i + 1]))
  }

  lemma UpdatesSnoc(codec: Codec, a: Aead, k: Key, n: nat, rests: seq<seq<byte>>, resps: seq<MapResponse>, u: Update)
    requires Updates(codec, a, k, n, rests, resps) && NextUpdate(codec, a, k, n + |resps|, rests[|resps|]) == Ok(u)
    ensures Updates(codec, a, k, n, rests + [u.rest], resps + [u.resp])
  {
    var rests', resps' := rests + [u.rest], resps + [u.resp];
    forall i | 0 <= i < |resps'|
      ensures NextUpdate(codec, a, k, n + i, rests'[i]) == Ok(Update(resps'[i], rests'[i + 1])) {
      if i < |resps| {
        assert rests'[i] == rests[i] && rests'[i + 1] == rests[i + 1] && resps'[i] == resps[i];
      }
    }
  }

  /** Two runs of updates over the same bytes agree as far as both go. */
  lemma {:induction false} UpdatesDetermined(codec: Codec, a: Aead, k: Key, n: nat, rests: seq<seq<byte>>,
                                             resps: seq<MapResponse>,
                                             rests': seq<seq<byte>>, resps': seq<MapResponse>, c: nat)
    requires Updates(codec, a, k, n, rests, resps) && Updates(codec, a, k, n, rests', resps') && rests[0] == rests'[0]
    requires c <= |resps| && c <= |resps'|
    ensures resps[..c] == resps'[..c] && rests[c] == rests'[c]
  {
    if c > 0 {
      UpdatesDetermined(codec, a, k, n, rests, resps, rests', resps', c - 1);
      assert resps[..c] == resps[..c - 1] + [resps[c - 1]] && resps'[..c] == resps'[..c - 1] + [resps'[c - 1]];
    }
  }

  /** `held[i]` is the netmap after the first `i` of the updates. */
  ghost predicate HoldsThroughout(ps: AddrParsers, m: Option<NetmapValue>, resps: seq<MapResponse>,
                                  held: seq<Option<NetmapValue>>)
  {
    |held| == |resps| + 1 && forall i | 0 <= i <= |resps| :: held[i] == NetmapRuns.Run(ps, m, resps[..i])
  }

  lemma HoldsAtFirst(ps: AddrParsers, m: Option<NetmapValue>)
    ensures HoldsThroughout(ps, m, [], [m])
  {
  }

  lemma HoldsNext(ps: AddrParsers, m: Option<NetmapValue>, resps: seq<MapResponse>, held: seq<Option<NetmapValue>>,
                  r: MapResponse)
    requires HoldsThroughout(ps, m, resps, held)
    ensures HoldsThroughout(ps, m, resps + [r], held + [ApplyMapResponse(ps, held[|resps|], r)])
  {
    hide ApplyMapResponse;
    assert resps[..|resps|] == resps && (resps + [r])[..|resps + [r]|] == resps + [r];
    NetmapRuns.RunSnoc(ps, m, resps, r);
    assert forall i | 0 <= i <= |resps| :: (resps + [r])[..i] == resps[..i];
  }

  /** An update takes bytes, so a finite stream ends the loop. */
  lemma UpdateConsumes(codec: Codec, a: Aead, k: Key, n: nat, s: seq<byte>)
    requires NextUpdate(codec, a, k, n, s).Ok?
    ensures |NextUpdate(codec, a, k, n, s).value.rest| < |s|
  {
  }

  /** The request and the streaming loop, which runs until it fails: a run of updates over the
    * bytes there were, each applied as it comes. It fails at an I/O fault, a request that does
    * not fit, or bytes that hold no next update. `held` is the netmap seen after each.
    */
  method StreamMap(client: NetmapClient.ControlClient, s: AsyncControlStream, ps: AddrParsers, codec: Codec,
                   request: seq<byte>)
    returns (error: UpdateError, ghost rests: seq<seq<byte>>, ghost resps: seq<MapResponse>,
             ghost held: seq<Option<NetmapValue>>)
    requires Ideal(s.conn.aead)
    modifies client, client.netmap, s`pending, s.stream`unread, s.stream`pieces, s.stream`written
    modifies s.conn`recvCounter, s.conn`sendCounter
    ensures Updates(codec, s.conn.aead, s.conn.recvKey, old(s.conn.recvCounter), rests, resps)
            && rests[0] == old(s.Unconsumed())
    ensures HoldsThroughout(ps, old(client.Value()), resps, held) && client.Value() == held[|resps|]
    ensures || (error == Transport(Tls(Fault)) && s.stream.canFail)
            || (!Sendable(s.conn.config, request) && resps == [] && s.Unconsumed() == rests[0])
            || NextUpdate(codec, s.conn.aead, s.conn.recvKey, old(s.conn.recvCounter) + |resps|, rests[|resps|])
               == Err(error)
    ensures resps != [] || (!s.stream.canFail && Sendable(s.conn.config, request)) ==>
              && s.conn.sendCounter == old(s.conn.sendCounter) + 1 && AllSmall([request])
              && s.stream.written == old(s.stream.written)
                                     + Asked(s.conn.aead, s.conn.sendKey, old(s.conn.sendCounter), [request])
  {
    hide ApplyMapResponse, NextUpdate, HoldsThroughout, Asked, AllSmall, Sendable;
    SendableIsSmall(s.conn.config, request);
    resps, rests, held := [], [s.Unconsumed()], [client.Value()];
    HoldsAtFirst(ps, client.Value());
    var started := SendRequest(s, request);
    if started.Err? {
      return started.error, rests, resps, held;
    }
    while true
      invariant client.netmap == old(client.netmap) || fresh(client.netmap)
      invariant s.conn.recvCounter == old(s.conn.recvCounter) + |resps|
      invariant Updates(codec, s.conn.aead, s.conn.recvKey, old(s.conn.recvCounter), rests, resps)
      invariant rests[0] == old(s.Unconsumed()) && rests[|resps|] == s.Unconsumed()
      invariant HoldsThroughout(ps, old(client.Value()), resps, held)
      invariant |held| == |resps| + 1 && client.Value() == held[|resps|]
      invariant s.conn.sendCounter == old(s.conn.sendCounter) + 1 && AllSmall([request])
      invariant s.stream.written == old(s.stream.written)
                                    + Asked(s.conn.aead, s.conn.sendKey, old(s.conn.sendCounter), [request])
      decreases |s.Unconsumed()|
    {
      ghost var next := NextUpdate(codec, s.conn.aead, s.conn.recvKey, s.conn.recvCounter, s.Unconsumed());
      ghost var n, left := s.conn.recvCounter, s.Unconsumed();
      var got := RecvMapUpdate(client, s, ps, codec);
      if got.Err? {
        return got.error, rests, resps, held;
      }
      UpdateConsumes(codec, s.conn.aead, s.conn.recvKey, n, left);
      UpdatesSnoc(codec, s.conn.aead, s.conn.recvKey, old(s.conn.recvCounter), rests, resps, next.value);
      HoldsNext(ps, old(client.Value()), resps, held, next.value.resp);
      resps, rests, held := resps + [next.value.resp], rests + [s.Unconsumed()], held + [client.Value()];
    }
  }

  // ----- what a server sends

  ghost predicate Encodes(codec: Codec, payload: seq<byte>, resp: MapResponse) {
    4 + |payload| + TAG_LEN <= 0xFFFF && Carries(codec, payload, resp)
  }

  ghost predicate AllEncode(codec: Codec, payloads: seq<seq<byte>>, resps: seq<MapResponse>) {
    |payloads| == |resps| && forall i | 0 <= i < |resps| :: Encodes(codec, payloads[i], resps[i])
  }

  /** The bytes of a run of map responses. */
  ghost function MapBytes(codec: Codec, a: Aead, k: Key, n: nat, payloads: seq<seq<byte>>,
                          resps: seq<MapResponse>): seq<byte>
    requires Ideal(a) && AllEncode(codec, payloads, resps)
  {
    OnWire(a, k, n, FramesOf(payloads))
  }

  lemma FramesFit(codec: Codec, payloads: seq<seq<byte>>, sent: seq<MapResponse>)
    requires AllEncode(codec, payloads, sent)
    ensures AllFit(FramesOf(payloads))
  {
    forall i | 0 <= i < |payloads| ensures |FramesOf(payloads)[i]| + TAG_LEN <= 0xFFFF {
      assert Encodes(codec, payloads[i], sent[i]);
    }
  }

  lemma StreamStep(codec: Codec, a: Aead, k: Key, n: nat, payloads: seq<seq<byte>>, sent: seq<MapResponse>,
                   tail: seq<byte>, i: nat)
    requires Ideal(a) && AllEncode(codec, payloads, sent) && i < |sent|
    ensures AllFit(FramesOf(payloads))
    ensures var rests := WireStates(a, k, n, FramesOf(payloads), tail);
            NextUpdate(codec, a, k, n + i, rests[i]) == Ok(Update(sent[i], rests[i + 1]))
  {
    hide NextUpdate, OnWire, Carries;
    var frames := FramesOf(payloads);
    FramesFit(codec, payloads, sent);
    assert Encodes(codec, payloads[i], sent[i]);
    UpdateReadsBack(codec, a, k, n + i, payloads[i], sent[i], frames[i..], tail);
    assert frames[i..][1..] == frames[i + 1..];
  }

  /** A server's stream is a run of the updates it sent, and of nothing else. */
  lemma StreamIsRun(codec: Codec, a: Aead, k: Key, n: nat, payloads: seq<seq<byte>>, sent: seq<MapResponse>,
                    tail: seq<byte>) returns (rests: seq<seq<byte>>)
    requires Ideal(a) && AllEncode(codec, payloads, sent)
    ensures Updates(codec, a, k, n, rests, sent)
    ensures rests[0] == MapBytes(codec, a, k, n, payloads, sent) + tail && rests[|sent|] == tail
  {
    FramesFit(codec, payloads, sent);
    WireEnds(a, k, n, FramesOf(payloads), tail);
    rests := WireStates(a, k, n, FramesOf(payloads), tail);
    hide NextUpdate, WireStates, FramesOf, AllFit, Encodes, OnWire;
    forall i | 0 <= i < |sent| ensures NextUpdate(codec, a, k, n + i, rests[i]) == Ok(Update(sent[i], rests[i + 1])) {
      StreamStep(codec, a, k, n, payloads, sent, tail, i);
    }
  }

  /** So any run of updates over it applies the responses sent, in order, goes on as long as
    * there are any, and then finds exactly what follows them.
    */
  lemma UpdatesAreSent(codec: Codec, a: Aead, k: Key, n: nat, payloads: seq<seq<byte>>, sent: seq<MapResponse>,
                       tail: seq<byte>, rests: seq<seq<byte>>, resps: seq<MapResponse>)
    requires Ideal(a) && AllEncode(codec, payloads, sent)
    requires Updates(codec, a, k, n, rests, resps) && rests[0] == MapBytes(codec, a, k, n, payloads, sent) + tail
    ensures resps <= sent || sent <= resps
    ensures |resps| < |sent| ==> NextUpdate(codec, a, k, n + |resps|, rests[|resps|]).Ok?
    ensures |resps| >= |sent| ==> rests[|sent|] == tail
    ensures |resps| > |sent| ==> NextUpdate(codec, a, k, n + |sent|, tail).Ok?
  {
    var states := StreamIsRun(codec, a, k, n, payloads, sent, tail);
    hide NextUpdate, AllEncode, Updates, MapBytes;
    RunsAgree(codec, a, k, n, rests, resps, states, sent);
  }

  /** Two runs over the same bytes: one goes as far as the other and perhaps further. */
  lemma RunsAgree(codec: Codec, a: Aead, k: Key, n: nat, rests: seq<seq<byte>>, resps: seq<MapResponse>,
                  states: seq<seq<byte>>, sent: seq<MapResponse>)
    requires Updates(codec, a, k, n, rests, resps) && Updates(codec, a, k, n, states, sent) && rests[0] == states[0]
    ensures resps <= sent || sent <= resps
    ensures |resps| < |sent| ==> NextUpdate(codec, a, k, n + |resps|, rests[|resps|]).Ok?
    ensures |resps| >= |sent| ==> rests[|sent|] == states[|sent|]
    ensures |resps| > |sent| ==> NextUpdate(codec, a, k, n + |sent|, states[|sent|]).Ok?
  {
    hide NextUpdate;
    UpdatesDetermined(codec, a, k, n, rests, resps, states, sent, Min(|resps|, |sent|));
    assert resps[..|resps|] == resps && sent[..|sent|] == sent;
    if |resps| < |sent| {
      assert sent[|resps|] == sent[|resps|];
    } else if |resps| > |sent| {
      assert resps[|sent|] == resps[|sent|];
    }
  }

  lemma UpdateReadsBack(codec: Codec, a: Aead, k: Key, n: nat, payload: seq<byte>, resp: MapResponse,
                        frames: seq<seq<byte>>, tail: seq<byte>)
    requires Ideal(a) && Encodes(codec, payload, resp)
    requires AllFit(frames) && frames != [] && frames[0] == FrameOf(payload)
    ensures NextUpdate(codec, a, k, n, OnWire(a, k, n, frames) + tail)
            == Ok(Update(resp, OnWire(a, k, n + 1, frames[1..]) + tail))
  {
    OnWireFirst(a, k, n, frames, tail);
    NextPlainOfSealed(a, k, n, frames[0], OnWire(a, k, n + 1, frames[1..]) + tail);
    ParseOfFrame(codec, payload, resp);
  }

  // ----- the whole session

  /** What a session took off the connection: the registration messages, with `before[i]` left
    * before message `i`, and the map responses, with `rests[i]` left before response `i`.
    */
  datatype Trace = Trace(before: seq<seq<byte>>, raws: seq<seq<byte>>, rests: seq<seq<byte>>, resps: seq<MapResponse>)

  /** The trace is a run over the bytes `start`: a registration and, if that completed, a run of
    * updates over what it left.
    */
  ghost predicate IsTrace(codec: Codec, a: Aead, k: Key, reg: Registrar, start: seq<byte>, t: Trace) {
    && Receives(a, k, 0, t.before, t.raws) && t.before[0] == start
    && if t.rests == [] then t.resps == []
       else Registers(reg, t.raws) && Updates(codec, a, k, |t.raws|, t.rests, t.resps)
            && t.rests[0] == t.before[|t.raws|]
  }

  /** It ends where its bytes hold no next message that could be read. */
  ghost predicate EndsShort(codec: Codec, a: Aead, k: Key, reg: Registrar, t: Trace)
    requires |t.before| == |t.raws| + 1 && (t.rests == [] || |t.rests| == |t.resps| + 1)
  {
    if t.rests == [] then StopsShort(reg, t.raws, NextPlain(a, k, |t.raws|, t.before[|t.raws|]).Err?)
    else NextUpdate(codec, a, k, |t.raws| + |t.resps|, t.rests[|t.resps|]).Err?
  }

  /** What the client asks for, as JSON. */
  datatype Requests = Requests(registration: Registrar, updates: seq<byte>)

  ghost predicate AllFitFrames(c: NoiseConfig, q: Requests) {
    RequestsFit(c, q.registration) && Sendable(c, q.updates)
  }

  /** What a session asks over the established connection: registration and, once that is
    * complete, the map request.
    */
  function SessionAsks(q: Requests, t: Trace): seq<seq<byte>> {
    RegistrationAsks(q.registration, t.raws) + if t.rests != [] then [q.updates] else []
  }

  /** What it has written: the upgrade request with the initiation in it, then what it asks. */
  ghost predicate HasWritten(written: seq<byte>, before: seq<byte>, start: NoiseHandshake.Outcome,
                             buildRequest: seq<byte> -> seq<byte>, aead: Aead, keys: NoiseHandshake.Keys,
                             asked: seq<seq<byte>>)
  {
    start.Frame? && AllSmall(asked) && written == before + buildRequest(start.bytes) + Asked(aead, keys.send, 0, asked)
  }

  /** Everything after set-up: registration, map request and updates until one fails. */
  method Converse(client: NetmapClient.ControlClient, s: AsyncControlStream, ps: AddrParsers, codec: Codec,
                  requests: Requests)
    returns (error: UpdateError, ghost t: Trace, ghost held: seq<Option<NetmapValue>>)
    requires Ideal(s.conn.aead) && s.conn.recvCounter == 0 && s.conn.sendCounter == 0
    modifies client, client.netmap, s`pending, s.stream`unread, s.stream`pieces, s.stream`written
    modifies s.conn`recvCounter, s.conn`sendCounter
    ensures HoldsThroughout(ps, old(client.Value()), t.resps, held) && client.Value() == held[|t.resps|]
    ensures t.before != []
            && IsTrace(codec, s.conn.aead, s.conn.recvKey, requests.registration, old(s.Unconsumed()), t)
    ensures !s.stream.canFail && AllFitFrames(s.conn.config, requests) ==>
              EndsShort(codec, s.conn.aead, s.conn.recvKey, requests.registration, t)
    ensures t.resps != [] || (!s.stream.canFail && AllFitFrames(s.conn.config, requests)) ==>
              && AllSmall(SessionAsks(requests, t))
              && s.stream.written == old(s.stream.written)
                                     + Asked(s.conn.aead, s.conn.sendKey, 0, SessionAsks(requests, t))
  {
    hide Asked, AllSmall, RegistrationAsks, ApplyMapResponse, NextUpdate, NextPlain, Registers, StopsShort, RequestsFit;
    hide Sendable, HoldsThroughout;
    ghost var begun := s.stream.written;
    HoldsAtFirst(ps, client.Value());
    held := [client.Value()];
    var registered;
    ghost var before, raws;
    registered, before, raws := Register(s, requests.registration);
    t := Trace(before, raws, [], []);
    ghost var asks, k := RegistrationAsks(requests.registration, raws), s.conn.sendKey;
    if registered.Err? {
      NothingMore(asks);
      return registered.error, t, held;
    }
    AskedMore(s.conn.aead, k, asks, requests.updates, begun, Asked(s.conn.aead, k, 0, asks));
    ghost var rests, resps;
    error, rests, resps, held := StreamMap(client, s, ps, codec, requests.updates);
    t := Trace(before, raws, rests, resps);
  }

  /** From an untouched stream to a netmap: set-up, registration, map request and updates until
    * one fails. After each the client holds the run of the updates so far, however the bytes that
    * spell them arrive.
    */
  method Session<H>(stream: ByteStream, wire: WireConfig, isUtf8: seq<byte> -> bool,
                    buildRequest: seq<byte> -> seq<byte>,
                    handshake: NoiseHandshake.NoiseHandshake<H>, aead: Aead, ps: AddrParsers, codec: Codec,
                    requests: Requests)
    returns (client: NetmapClient.ControlClient, error: UpdateError, ghost t: Trace,
             ghost held: seq<Option<NetmapValue>>)
    requires Ideal(aead)
    modifies stream, handshake
    ensures HoldsThroughout(ps, None, t.resps, held) && client.Value() == held[|t.resps|]
    ensures var all, reg := old(stream.unread), requests.registration;
            var keys := SessionKeys(handshake.lib, handshake.config, old(handshake.state), all);
            && (t.before == [] ==> t.resps == [])
            && (t.before != [] ==>
                  keys.Some? && IsTrace(codec, aead, keys.value.recv, reg, ParseReply(all).value.rest, t))
            && (&& !stream.canFail && keys.Some? && AllFitFrames(handshake.config, requests)
                && HeaderEnd(all).value + 3 <= wire.maxHeaderBytes && isUtf8(all[..HeaderEnd(all).value]) ==>
                  t.before != [] && EndsShort(codec, aead, keys.value.recv, reg, t))
    ensures var all := old(stream.unread);
            var start := NoiseHandshake.Initiate(handshake.lib, handshake.config, old(handshake.state));
            var keys := SessionKeys(handshake.lib, handshake.config, old(handshake.state), all);
            && (!start.outcome.Frame? ==> stream.written == old(stream.written))
            && (t.resps != []
                || (&& !stream.canFail && keys.Some? && AllFitFrames(handshake.config, requests)
                    && HeaderEnd(all).value + 3 <= wire.maxHeaderBytes && isUtf8(all[..HeaderEnd(all).value])) ==>
                  && keys.Some?
                  && HasWritten(stream.written, old(stream.written), start.outcome, buildRequest, aead, keys.value,
                                SessionAsks(requests, t)))
  {
    hide Asked, AllSmall, RegistrationAsks, SessionAsks, NoiseHandshake.Initiate, IsTrace, EndsShort;
    hide ApplyMapResponse, SessionKeys, ParseReply, RequestsFit, Sendable, HoldsThroughout;
    client := new NetmapClient.ControlClient();
    t, held := Trace([], [], [], []), [None];
    HoldsAtFirst(ps, None);
    var conn := Connect(stream, wire, isUtf8, buildRequest, handshake, aead);
    if conn.Err? {
      return client, Transport(conn.error), t, held;
    }
    error, t, held := Converse(client, conn.value, ps, codec, requests);
  }

  lemma NothingMore<T>(s: seq<T>)
    ensures s + [] == s
  {
  }

  /** Asking once more after `begun` and `once` were written. */
  lemma AskedMore(a: Aead, k: Key, asks: seq<seq<byte>>, request: seq<byte>, begun: seq<byte>, once: seq<byte>)
    requires Ideal(a) && AllSmall(asks) && once == Asked(a, k, 0, asks)
    ensures AllSmall([request]) ==>
              && AllSmall(asks + [request])
              && begun + once + Asked(a, k, |asks|, [request]) == begun + Asked(a, k, 0, asks + [request])
  {
    hide Asked;
    BothSmall(asks, [request]);
    if AllSmall([request]) {
      AskedInTurn(a, k, 0, asks, [request]);
      ConcatAssociates(begun, once, Asked(a, k, |asks|, [request]));
    }
  }

  // ----- a server that does its part

  /** What it sends: headers, the handshake response, answers to the registration, map responses
    * as `payloads`, and more.
    */
  datatype Server = Server(headers: seq<byte>, response: seq<byte>, keys: NoiseHandshake.Keys, answers: seq<seq<byte>>,
                           payloads: seq<seq<byte>>, sent: seq<MapResponse>, tail: seq<byte>)

  /** Its answers settle the registration and its payloads carry its map responses. */
  ghost predicate Speaks(sv: Server, reg: Registrar, codec: Codec) {
    AllFit(sv.answers) && Registers(reg, sv.answers) && AllEncode(codec, sv.payloads, sv.sent)
  }

  /** It answers the upgrade within the client's limits and completes the handshake. */
  ghost predicate Serves<H>(sv: Server, lib: NoiseHandshake.Library<H>, c: NoiseConfig,
                            phase: NoiseHandshake.HandshakePhase<H>, wire: WireConfig, isUtf8: seq<byte> -> bool)
  {
    var start := NoiseHandshake.Initiate(lib, c, phase);
    && HeaderEnd(sv.headers + TERMINATOR[..3]).None? && |sv.headers| + 3 <= wire.maxHeaderBytes && isUtf8(sv.headers)
    && Contains(FirstLine(sv.headers), Ascii("101"))
    && IsFrame(sv.response) && start.outcome.Frame?
    && NoiseHandshake.Respond(lib, c, start.phase, sv.response) == NoiseHandshake.Transport(sv.keys)
  }

  ghost function Stream(sv: Server, a: Aead, codec: Codec): seq<byte>
    requires Ideal(a) && AllEncode(codec, sv.payloads, sv.sent)
  {
    MapBytes(codec, a, sv.keys.recv, |sv.answers|, sv.payloads, sv.sent) + sv.tail
  }

  ghost function Sealed(sv: Server, a: Aead, codec: Codec): seq<byte>
    requires Ideal(a) && AllFit(sv.answers) && AllEncode(codec, sv.payloads, sv.sent)
  {
    OnWire(a, sv.keys.recv, 0, sv.answers) + Stream(sv, a, codec)
  }

  ghost function Bytes(sv: Server, a: Aead, codec: Codec): seq<byte>
    requires Ideal(a) && AllFit(sv.answers) && AllEncode(codec, sv.payloads, sv.sent)
  {
    sv.headers + TERMINATOR + (sv.response + Sealed(sv, a, codec))
  }

  /** Set-up succeeds on such a server's bytes and leaves exactly its sealed messages. */
  lemma SetUpIsUnderstood<H>(sv: Server, lib: NoiseHandshake.Library<H>, c: NoiseConfig,
                             phase: NoiseHandshake.HandshakePhase<H>, wire: WireConfig, isUtf8: seq<byte> -> bool,
                             a: Aead, reg: Registrar, codec: Codec)
    requires Ideal(a) && Speaks(sv, reg, codec) && Serves(sv, lib, c, phase, wire, isUtf8)
    ensures var all := Bytes(sv, a, codec);
            && SessionKeys(lib, c, phase, all) == Some(sv.keys)
            && HeaderEnd(all) == Some(|sv.headers|) && |sv.headers| + 3 <= wire.maxHeaderBytes
            && isUtf8(all[..|sv.headers|])
            && ParseReply(all).Some? && ParseReply(all).value.rest == Sealed(sv, a, codec)
  {
    hide HeaderEnd, FirstLine, Contains, ParseReply, Sealed, NoiseHandshake.Initiate, NoiseHandshake.Respond;
    ReplyRoundTrip(sv.headers, sv.response, Sealed(sv, a, codec));
    assert Bytes(sv, a, codec)[..|sv.headers|] == sv.headers;
  }

  /** A trace over its sealed messages holds what it sent, as far as it goes, and ends short only
    * after all of it; there it ends if what follows holds no update.
    */
  lemma SpeechIsUnderstood(sv: Server, a: Aead, reg: Registrar, codec: Codec, t: Trace)
    requires Ideal(a) && Speaks(sv, reg, codec)
    requires IsTrace(codec, a, sv.keys.recv, reg, Sealed(sv, a, codec), t)
    ensures t.resps <= sv.sent || sv.sent <= t.resps
    ensures EndsShort(codec, a, sv.keys.recv, reg, t) ==> sv.sent <= t.resps
    ensures EndsShort(codec, a, sv.keys.recv, reg, t) ==> t.rests != [] && t.raws == sv.answers
    ensures NothingFollows(sv, a, codec) ==> t.resps <= sv.sent
  {
    hide Registers, StopsShort, NextPlain, NextUpdate, OnWire, MapBytes, AllEncode, AllFit;
    AnswersAreTaken(a, sv.keys.recv, reg, sv.answers, Stream(sv, a, codec), t.before, t.raws);
    if t.rests != [] {
      UpdatesAreSent(codec, a, sv.keys.recv, |sv.answers|, sv.payloads, sv.sent, sv.tail, t.rests, t.resps);
    }
  }

  /** What the server sends after its map responses, if anything, is no further one. */
  ghost predicate NothingFollows(sv: Server, a: Aead, codec: Codec) {
    NextUpdate(codec, a, sv.keys.recv, |sv.answers| + |sv.sent|, sv.tail).Err?
  }

  /** What the client is for: with such a server, however its bytes are split, a session passes
    * through the netmaps of the responses sent, and without I/O faults reaches the last of them,
    * where it stays if nothing follows.
    */
  method ServedSession<H>(stream: ByteStream, wire: WireConfig, isUtf8: seq<byte> -> bool,
                          buildRequest: seq<byte> -> seq<byte>, handshake: NoiseHandshake.NoiseHandshake<H>, aead: Aead,
                          ps: AddrParsers, codec: Codec, requests: Requests, ghost sv: Server)
    returns (client: NetmapClient.ControlClient, error: UpdateError, ghost resps: seq<MapResponse>,
             ghost held: seq<Option<NetmapValue>>)
    requires Ideal(aead) && Speaks(sv, requests.registration, codec)
    requires Serves(sv, handshake.lib, handshake.config, handshake.state, wire, isUtf8)
    requires stream.unread == Bytes(sv, aead, codec)
    modifies stream, handshake
    ensures HoldsThroughout(ps, None, resps, held) && client.Value() == held[|resps|] && client.Valid(ps)
    ensures resps <= sv.sent || sv.sent <= resps
    ensures !stream.canFail && AllFitFrames(handshake.config, requests) ==> sv.sent <= resps
    ensures !stream.canFail && AllFitFrames(handshake.config, requests) && NothingFollows(sv, aead, codec) ==>
              client.Value() == NetmapRuns.Run(ps, None, sv.sent)
    ensures !stream.canFail && AllFitFrames(handshake.config, requests) ==>
              HasWritten(stream.written, old(stream.written),
                         NoiseHandshake.Initiate(handshake.lib, handshake.config, old(handshake.state)).outcome,
                         buildRequest, aead, sv.keys,
                         RegistrationAsks(requests.registration, sv.answers) + [requests.updates])
  {
    SetUpIsUnderstood(sv, handshake.lib, handshake.config, handshake.state, wire, isUtf8, aead,
                      requests.registration, codec);
    ghost var t;
    hide *;
    client, error, t, held := Session(stream, wire, isUtf8, buildRequest, handshake, aead, ps, codec, requests);
    resps := t.resps;
    assert SessionAsks(requests, t)
           == RegistrationAsks(requests.registration, t.raws) + if t.rests != [] then [requests.updates] else [] by {
      SessionAsksIs(requests, t);
    }
    ServedOutcome(ps, sv, aead, requests.registration, codec, t, held);
    ValidByValue(client, ps);
  }

  lemma SessionAsksIs(q: Requests, t: Trace)
    ensures SessionAsks(q, t) == RegistrationAsks(q.registration, t.raws) + if t.rests != [] then [q.updates] else []
  {
  }

  lemma ServedOutcome(ps: AddrParsers, sv: Server, a: Aead, reg: Registrar, codec: Codec, t: Trace,
                      held: seq<Option<NetmapValue>>)
    requires Ideal(a) && Speaks(sv, reg, codec) && HoldsThroughout(ps, None, t.resps, held)
    requires if t.before == [] then t.resps == [] else IsTrace(codec, a, sv.keys.recv, reg, Sealed(sv, a, codec), t)
    ensures var last := held[|t.resps|];
            && (last.Some? ==> NetmapRuns.Inv(ps, last.value))
            && (t.resps <= sv.sent || sv.sent <= t.resps)
            && (t.before != [] && EndsShort(codec, a, sv.keys.recv, reg, t) ==>
                  && sv.sent <= t.resps && t.rests != [] && t.raws == sv.answers
                  && (NothingFollows(sv, a, codec) ==> last == NetmapRuns.Run(ps, None, sv.sent)))
  {
    HoldsLast(ps, None, t.resps, held);
    hide *;
    NetmapRuns.RunKeepsInv(ps, t.resps);
    if t.before != [] {
      SpeechIsUnderstood(sv, a, reg, codec, t);
      PrefixBothWays(t.resps, sv.sent);
    }
  }

  lemma PrefixBothWays<T>(a: seq<T>, b: seq<T>)
    ensures a <= b && b <= a ==> a == b
  {
  }

  lemma HoldsLast(ps: AddrParsers, m: Option<NetmapValue>, resps: seq<MapResponse>, held: seq<Option<NetmapValue>>)
    requires HoldsThroughout(ps, m, resps, held)
    ensures held[|resps|] == NetmapRuns.Run(ps, m, resps)
  {
    assert resps[..|resps|] == resps;
  }

  lemma ValidByValue(client: NetmapClient.ControlClient, ps: AddrParsers)
    requires client.Value().Some? ==> NetmapRuns.Inv(ps, client.Value().value)
    ensures client.Valid(ps)
  {
  }
}
