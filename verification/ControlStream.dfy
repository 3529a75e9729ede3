/** The established connection and how it is set up: `AsyncControlStream` in
  * crates/dictyon/src/wire/mod.rs and `connect_with_key_and_tls_inner` in wire/support.rs.
  */
module ControlStream {
  import opened Prelude
  import opened Config
  import opened HeaderScan
  import opened Wire
  import opened NoiseSession
  import NoiseHandshake

  const FRAME_TYPE_TRANSPORT: byte := 4

  // ----- one message

  datatype Received = Message(body: seq<byte>, rest: seq<byte>) | WrongType(frameType: byte) | Ended

  /** What the next message of a byte sequence is. */
  function NextMessage(s: seq<byte>): Received {
    if |s| < 3 then Ended
    else if s[0] != FRAME_TYPE_TRANSPORT then WrongType(s[0])
    else
      match TakeFrame(s)
      case Short => Ended
      case Whole(frame, rest) => Message(frame[3..], rest)
  }

  /** Reading the next frame's body off `all` gave `r` and left `left`. */
  ghost predicate BodyRead(all: seq<byte>, left: seq<byte>, canFail: bool, r: Result<seq<byte>, WireError>) {
    var next := NextMessage(all);
    && IsTail(left, all)
    && (r.Ok? ==> next == Message(r.value, left))
    && (r.Err? ==>
          || (r.error == Tls(Fault) && canFail)
          || (r.error == Tls(UnexpectedEof) && next == Ended && left == [])
          || (r.error.Frame? && next == WrongType(r.error.frameType) && |all| >= 3 && left == all[3..]))
  }

  lemma HeaderFails(all: seq<byte>, left: seq<byte>, canFail: bool, e: WireError)
    requires IsTail(left, all)
    requires (e == Tls(Fault) && canFail) || (e == Tls(UnexpectedEof) && |all| < 3 && left == [])
    ensures BodyRead(all, left, canFail, Err(e))
  {
  }

  lemma TypeIsWrong(all: seq<byte>, canFail: bool)
    requires |all| >= 3 && all[0] != FRAME_TYPE_TRANSPORT
    ensures BodyRead(all, all[3..], canFail, Err(Frame(all[0])))
  {
  }

  lemma BodyFails(all: seq<byte>, left: seq<byte>, canFail: bool, e: WireError)
    requires |all| >= 3 && all[0] == FRAME_TYPE_TRANSPORT && IsTail(left, all[3..])
    requires || (e == Tls(Fault) && canFail)
             || (e == Tls(UnexpectedEof) && |all[3..]| < U16FromBe(all[1], all[2]) && left == [])
    ensures BodyRead(all, left, canFail, Err(e))
  {
  }

  lemma BodyIsRead(all: seq<byte>, canFail: bool)
    requires |all| >= 3 && all[0] == FRAME_TYPE_TRANSPORT && |all[3..]| >= U16FromBe(all[1], all[2])
    ensures var n := U16FromBe(all[1], all[2]);
            BodyRead(all, all[3 + n..], canFail, Ok(all[3..][..n]))
  {
    var n := U16FromBe(all[1], all[2]);
    assert all[..3 + n][3..] == all[3..][..n];
  }

  /** Three header bytes, type 4, a big-endian length, and that many bytes. */
  lemma NextMessageOf(s: seq<byte>)
    ensures |s| < 3 ==> NextMessage(s) == Ended
    ensures |s| >= 3 && s[0] != 4 ==> NextMessage(s) == WrongType(s[0])
    ensures |s| >= 3 && s[0] == 4 ==>
              var n := 256 * s[1] as int + s[2];
              NextMessage(s) == if |s| < 3 + n then Ended else Message(s[3..3 + n], s[3 + n..])
  {
    if |s| >= 3 && |s| >= 3 + U16FromBe(s[1], s[2]) {
      var n := U16FromBe(s[1], s[2]);
      assert s[..3 + n][3..] == s[3..3 + n];
    }
  }

  datatype Opened = Opened(plain: seq<byte>, rest: seq<byte>)

  /** The next message, decrypted under counter value `n`, or the error it gives. */
  function NextPlain(a: Aead, k: Key, n: nat, s: seq<byte>): Result<Opened, WireError> {
    match NextMessage(s)
    case Ended => Err(Tls(UnexpectedEof))
    case WrongType(t) => Err(Frame(t))
    case Message(body, rest) =>
      match DecryptResult(a, k, n, body)
      case Err(e) => Err(Noise(e))
      case Ok(plain) => Ok(Opened(plain, rest))
  }

  /** A run of receives: `rests[i]` is unconsumed before message `i`, which is `got[i]`. */
  ghost predicate Receives(a: Aead, k: Key, n: nat, rests: seq<seq<byte>>, got: seq<seq<byte>>) {
    && |rests| == |got| + 1
    && forall i {:trigger got[i]} | 0 <= i < |got| ::
         NextPlain(a, k, n + i, rests[i]) == Ok(Opened(got[i], rests[i + 1]))
  }

  lemma ReceivesSnoc(a: Aead, k: Key, n: nat, rests: seq<seq<byte>>, got: seq<seq<byte>>, m: Opened)
    requires Receives(a, k, n, rests, got) && NextPlain(a, k, n + |got|, rests[|got|]) == Ok(m)
    ensures Receives(a, k, n, rests + [m.rest], got + [m.plain])
  {
  }

  /** Two runs over the same bytes agree as far as both go. */
  lemma {:induction false} ReceivesDetermined(a: Aead, k: Key, n: nat, rests: seq<seq<byte>>, got: seq<seq<byte>>,
                                              rests': seq<seq<byte>>, got': seq<seq<byte>>, c: nat)
    requires Receives(a, k, n, rests, got) && Receives(a, k, n, rests', got') && rests[0] == rests'[0]
    requires c <= |got| && c <= |got'|
    ensures got[..c] == got'[..c] && rests[c] == rests'[c]
  {
    if c > 0 {
      ReceivesDetermined(a, k, n, rests, got, rests', got', c - 1);
      assert got[..c] == got[..c - 1] + [got[c - 1]] && got'[..c] == got'[..c - 1] + [got'[c - 1]];
    }
  }

  class AsyncControlStream {
    const stream: ByteStream
    const conn: NoiseTransport
    /** Bytes read but not yet consumed by a frame. */
    var pending: seq<byte>

    constructor (stream: ByteStream, conn: NoiseTransport, pending: seq<byte>)
      ensures this.stream == stream && this.conn == conn && this.pending == pending
    {
      this.stream, this.conn, this.pending := stream, conn, pending;
    }

    /** Everything the peer sent that no frame has consumed yet. */
    ghost function Unconsumed(): seq<byte>
      reads this, stream
    {
      pending + stream.unread
    }

    method FillExact(out: array<byte>) returns (r: Result<(), WireError>)
      modifies this`pending, stream`unread, stream`pieces, out
      ensures var all, k := old(Unconsumed()), out.Length;
              && (r.Ok? ==> k <= |all| && out[..] == all[..k] && Unconsumed() == all[k..])
              && (r.Err? ==> (r.error == Tls(Fault) && stream.canFail) || (r.error == Tls(UnexpectedEof) && |all| < k))
              && (r == Err(Tls(UnexpectedEof)) ==> Unconsumed() == [])
              && IsTail(Unconsumed(), all)
    {
      var rest;
      r, rest := FillFrom(stream, pending, out);
      pending := rest;
    }

    /** The body of the next frame. */
    method RecvBody() returns (r: Result<seq<byte>, WireError>)
      modifies this`pending, stream`unread, stream`pieces
      ensures BodyRead(old(Unconsumed()), Unconsumed(), stream.canFail, r)
    {
      ghost var all := Unconsumed();
      hide IsTail, NextMessage, BodyRead;
      var header := new byte[3];
      var got := FillExact(header);
      if got.Err? {
        HeaderFails(all, Unconsumed(), stream.canFail, got.error);
        return Err(got.error);
      }
      assert header[..][0] == all[0] && header[..][1] == all[1] && header[..][2] == all[2];
      if header[0] != FRAME_TYPE_TRANSPORT {
        TypeIsWrong(all, stream.canFail);
        return Err(Frame(header[0]));
      }
      var bodyLen := U16FromBe(header[1], header[2]);
      var ciphertext := new byte[bodyLen];
      got := FillExact(ciphertext);
      if got.Err? {
        BodyFails(all, Unconsumed(), stream.canFail, got.error);
        return Err(got.error);
      }
      BodyIsRead(all, stream.canFail);
      assert Unconsumed() == all[3 + bodyLen..];
      r := Ok(ciphertext[..]);
    }

    /** One message: the next frame of the unconsumed bytes, decrypted; the rest stays. */
    method RecvMessage() returns (r: Result<seq<byte>, WireError>)
      requires Ideal(conn.aead)
      modifies this`pending, stream`unread, stream`pieces, conn`recvCounter
      ensures var next := NextPlain(conn.aead, conn.recvKey, old(conn.recvCounter), old(Unconsumed()));
              && (r.Ok? ==>
                    && next == Ok(Opened(r.value, Unconsumed()))
                    && conn.recvCounter == old(conn.recvCounter) + 1)
              && (r.Err? ==>
                    && conn.recvCounter == old(conn.recvCounter)
                    && ((r.error == Tls(Fault) && stream.canFail) || next == Err(r.error)))
      // without I/O faults each way the bytes can be wrong has its own error
      ensures var next := NextMessage(old(Unconsumed()));
              !stream.canFail ==>
                && (next.Ended? ==> r == Err(Tls(UnexpectedEof)))
                && (next.WrongType? ==> r == Err(Frame(next.frameType)))
                && (next.Message?
                    && (|next.body| < 16 || conn.aead.open(conn.recvKey, old(conn.recvCounter), next.body).None?) ==>
                      r == Err(Noise(DecryptionFailed)))
      // a message that does not decrypt is consumed all the same, a wrong type costs the header,
      // an early end costs everything, and a fault some of the front
      ensures var next := NextMessage(old(Unconsumed()));
              && (r.Err? && r.error.Noise? ==> next.Message? && Unconsumed() == next.rest)
              && (r.Err? && r.error.Frame? ==> |old(Unconsumed())| >= 3 && Unconsumed() == old(Unconsumed())[3..])
              && (r == Err(Tls(UnexpectedEof)) ==> Unconsumed() == [])
              && IsTail(Unconsumed(), old(Unconsumed()))
    {
      hide NextMessage, IsTail;
      var ciphertext := RecvBody();
      if ciphertext.Err? {
        return Err(ciphertext.error);
      }
      var plain := conn.Decrypt(ciphertext.value);
      match plain {
        case Ok(p) => r := Ok(p);
        case Err(e) => r := Err(Noise(e));
      }
    }

    /** Encrypts and writes; an oversized payload writes nothing. */
    method SendMessage(payload: seq<byte>) returns (r: Result<(), WireError>)
      requires Ideal(conn.aead)
      modifies stream`written, conn`sendCounter
      ensures !Accepts(conn.config, payload) ==>
                r.Err? && stream.written == old(stream.written) && conn.sendCounter == old(conn.sendCounter)
      ensures Accepts(conn.config, payload) ==>
                && conn.sendCounter == old(conn.sendCounter) + 1
                && (r.Ok? ==>
                      var sealed := conn.aead.seal(conn.sendKey, old(conn.sendCounter), payload);
                      stream.written == old(stream.written) + Framed(sealed))
                && (r.Err? ==> r.error == Tls(Fault) && stream.canFail)
    {
      var frame := conn.Encrypt(payload);
      if frame.Err? {
        return Err(Noise(frame.error));
      }
      var wrote := stream.WriteAll(frame.value);
      r := if wrote.Ok? then Ok(()) else Err(Tls(wrote.error));
    }

    /** A caller that keeps receiving makes a run of receives over the bytes there were, and
      * stops short only at a byte sequence with no next message or at an I/O fault.
      */
    method RecvMany(count: nat) returns (got: seq<seq<byte>>, failure: Option<WireError>, ghost rests: seq<seq<byte>>)
      requires Ideal(conn.aead)
      modifies this`pending, stream`unread, stream`pieces, conn`recvCounter
      ensures Receives(conn.aead, conn.recvKey, old(conn.recvCounter), rests, got) && rests[0] == old(Unconsumed())
      ensures |got| <= count && conn.recvCounter == old(conn.recvCounter) + |got|
      ensures failure.None? ==> |got| == count && Unconsumed() == rests[count]
      ensures failure.Some? ==>
                || (failure.value == Tls(Fault) && stream.canFail)
                || NextPlain(conn.aead, conn.recvKey, conn.recvCounter, rests[|got|]) == Err(failure.value)
    {
      got := [];
      rests := [Unconsumed()];
      for i := 0 to count
        invariant |got| == i && conn.recvCounter == old(conn.recvCounter) + i
        invariant Receives(conn.aead, conn.recvKey, old(conn.recvCounter), rests, got)
        invariant rests[0] == old(Unconsumed()) && rests[i] == Unconsumed()
      {
        ghost var m := NextPlain(conn.aead, conn.recvKey, conn.recvCounter, Unconsumed());
        var next := RecvMessage();
        if next.Err? {
          return got, Some(next.error), rests;
        }
        ReceivesSnoc(conn.aead, conn.recvKey, old(conn.recvCounter), rests, got, m.value);
        got := got + [next.value];
        rests := rests + [Unconsumed()];
      }
      failure := None;
    }
  }

  // ----- what a peer's messages look like on the wire

  predicate AllFit(plain: seq<seq<byte>>) {
    forall i | 0 <= i < |plain| :: |plain[i]| + TAG_LEN <= 0xFFFF
  }

  ghost function OnWire(a: Aead, k: Key, n: nat, plain: seq<seq<byte>>): seq<byte>
    requires Ideal(a) && AllFit(plain)
    decreases |plain|
  {
    if plain == [] then []
    else
      assert |a.seal(k, n, plain[0])| == |plain[0]| + TAG_LEN;
      Framed(a.seal(k, n, plain[0])) + OnWire(a, k, n + 1, plain[1..])
  }

  lemma NextPlainOfSealed(a: Aead, k: Key, n: nat, p: seq<byte>, more: seq<byte>)
    requires Ideal(a) && |p| + TAG_LEN <= 0xFFFF
    ensures |a.seal(k, n, p)| == |p| + TAG_LEN
    ensures NextPlain(a, k, n, Framed(a.seal(k, n, p)) + more) == Ok(Opened(p, more))
  {
  }

  lemma OnWireFirst(a: Aead, k: Key, n: nat, plain: seq<seq<byte>>, tail: seq<byte>)
    requires Ideal(a) && AllFit(plain) && plain != []
    ensures |a.seal(k, n, plain[0])| <= 0xFFFF
    ensures OnWire(a, k, n, plain) + tail == Framed(a.seal(k, n, plain[0])) + (OnWire(a, k, n + 1, plain[1..]) + tail)
  {
  }

  /** Frames written in two goes are the frames of both. */
  lemma {:induction false} OnWireConcat(a: Aead, k: Key, n: nat, p: seq<seq<byte>>, q: seq<seq<byte>>)
    requires Ideal(a) && AllFit(p) && AllFit(q)
    ensures AllFit(p + q) && OnWire(a, k, n, p + q) == OnWire(a, k, n, p) + OnWire(a, k, n + |p|, q)
    decreases |p|
  {
    hide Framed, Ideal;
    if p == [] {
      assert p + q == q;
    } else {
      OnWireConcat(a, k, n + 1, p[1..], q);
      OnWireOneMore(a, k, n, p, q);
    }
  }

  lemma OnWireOneMore(a: Aead, k: Key, n: nat, p: seq<seq<byte>>, q: seq<seq<byte>>)
    requires Ideal(a) && AllFit(p) && AllFit(q) && AllFit(p + q) && p != []
    requires AllFit(p[1..] + q)
    requires OnWire(a, k, n + 1, p[1..] + q) == OnWire(a, k, n + 1, p[1..]) + OnWire(a, k, n + |p|, q)
    ensures OnWire(a, k, n, p + q) == OnWire(a, k, n, p) + OnWire(a, k, n + |p|, q)
  {
    hide Framed, Ideal, OnWire;
    assert (p + q)[1..] == p[1..] + q && (p + q)[0] == p[0];
    OnWireFirst(a, k, n, p, OnWire(a, k, n + |p|, q));
    OnWireFirst(a, k, n, p + q, []);
    NothingAfter(OnWire(a, k, n, p + q));
    NothingAfter(OnWire(a, k, n + 1, p[1..] + q));
  }

  lemma NothingAfter(s: seq<byte>)
    ensures s + [] == s
  {
  }

  /** What is left before each of the messages. */
  ghost function WireStates(a: Aead, k: Key, n: nat, plain: seq<seq<byte>>, tail: seq<byte>): (rests: seq<seq<byte>>)
    requires Ideal(a) && AllFit(plain)
    ensures |rests| == |plain| + 1
  {
    seq(|plain| + 1, i requires 0 <= i <= |plain| => OnWire(a, k, n + i, plain[i..]) + tail)
  }

  lemma WireStep(a: Aead, k: Key, n: nat, plain: seq<seq<byte>>, tail: seq<byte>, i: nat)
    requires Ideal(a) && AllFit(plain) && i < |plain|
    ensures var rests := WireStates(a, k, n, plain, tail);
            NextPlain(a, k, n + i, rests[i]) == Ok(Opened(plain[i], rests[i + 1]))
  {
    hide NextPlain;
    NextOfRun(a, k, n + i, plain[i..], tail);
    assert plain[i..][0] == plain[i] && plain[i..][1..] == plain[i + 1..];
  }

  lemma WireEnds(a: Aead, k: Key, n: nat, plain: seq<seq<byte>>, tail: seq<byte>)
    requires Ideal(a) && AllFit(plain)
    ensures WireStates(a, k, n, plain, tail)[0] == OnWire(a, k, n, plain) + tail
    ensures WireStates(a, k, n, plain, tail)[|plain|] == tail
  {
  }

  /** A concatenation of sealed frames is a run of receives of the plaintexts. */
  lemma WireIsRun(a: Aead, k: Key, n: nat, plain: seq<seq<byte>>, tail: seq<byte>)
    requires Ideal(a) && AllFit(plain)
    ensures Receives(a, k, n, WireStates(a, k, n, plain, tail), plain)
  {
    hide NextPlain, WireStates;
    forall i | 0 <= i < |plain|
      ensures NextPlain(a, k, n + i, WireStates(a, k, n, plain, tail)[i])
              == Ok(Opened(plain[i], WireStates(a, k, n, plain, tail)[i + 1]))
    {
      WireStep(a, k, n, plain, tail, i);
    }
  }

  /** So any run of receives over it returns the plaintexts, in order, goes on as long as there
    * are any, and leaves exactly what follows them.
    */
  lemma ReceivesPlaintexts(a: Aead, k: Key, n: nat, plain: seq<seq<byte>>, tail: seq<byte>,
                           rests: seq<seq<byte>>, got: seq<seq<byte>>)
    requires Ideal(a) && AllFit(plain)
    requires Receives(a, k, n, rests, got) && rests[0] == OnWire(a, k, n, plain) + tail && |got| <= |plain|
    ensures got == plain[..|got|]
    ensures |got| < |plain| ==> NextPlain(a, k, n + |got|, rests[|got|]).Ok?
    ensures |got| == |plain| ==> rests[|got|] == tail
  {
    WireEnds(a, k, n, plain, tail);
    WireIsRun(a, k, n, plain, tail);
    ReceivesDetermined(a, k, n, rests, got, WireStates(a, k, n, plain, tail), plain, |got|);
    assert got[..|got|] == got;
    if |got| < |plain| {
      assert plain[|got|] == plain[|got|];
    }
  }

  lemma NextOfRun(a: Aead, k: Key, n: nat, plain: seq<seq<byte>>, tail: seq<byte>)
    requires Ideal(a) && AllFit(plain) && plain != []
    ensures NextPlain(a, k, n, OnWire(a, k, n, plain) + tail)
            == Ok(Opened(plain[0], OnWire(a, k, n + 1, plain[1..]) + tail))
  {
    OnWireFirst(a, k, n, plain, tail);
    NextPlainOfSealed(a, k, n, plain[0], OnWire(a, k, n + 1, plain[1..]) + tail);
  }

  // ----- the connection set-up

  /** A frame read off the stream always carries its whole body, so the handshake can only
    * object to its type or its content.
    */
  lemma FramePassesLengthChecks(f: seq<byte>)
    requires IsFrame(f)
    ensures NoiseHandshake.ResponseBody(f) ==
            if f[0] == NoiseHandshake.MSG_TYPE_RESPONSE then Ok(f[3..]) else Err(NoiseHandshake.UnexpectedType(f[0]))
  {
    assert f[3..|f|] == f[3..];
  }

  lemma NoLengthErrors<H>(lib: NoiseHandshake.Library<H>, c: NoiseConfig, phase: NoiseHandshake.HandshakePhase<H>,
                          f: seq<byte>)
    ensures forall e | e in {NoiseHandshake.ResponseTooShort, NoiseHandshake.ResponseTruncated} ::
              && NoiseHandshake.Initiate(lib, c, phase).outcome != NoiseHandshake.Failed(e)
              && (IsFrame(f) ==> NoiseHandshake.Respond(lib, c, phase, f) != NoiseHandshake.Failed(e))
  {
    if IsFrame(f) {
      FramePassesLengthChecks(f);
    }
  }

  /** The part of a server's reply that the set-up consumes. */
  datatype Reply = Reply(statusLine: Text, response: seq<byte>, rest: seq<byte>)

  function ParseReply(all: seq<byte>): Option<Reply> {
    match HeaderEnd(all)
    case None => None
    case Some(end) =>
      match TakeFrame(all[end + 4..])
      case Short => None
      case Whole(frame, rest) => Some(Reply(FirstLine(all[..end]), frame, rest))
  }

  /** The keys a set-up over these bytes ends with, if it does. */
  function SessionKeys<H>(lib: NoiseHandshake.Library<H>, c: NoiseConfig,
                          phase: NoiseHandshake.HandshakePhase<H>, all: seq<byte>)
    : Option<NoiseHandshake.Keys>
  {
    var start := NoiseHandshake.Initiate(lib, c, phase);
    var reply := ParseReply(all);
    if !start.outcome.Frame? || reply.None? || !Contains(reply.value.statusLine, Ascii("101")) then None else
    var answer := NoiseHandshake.Respond(lib, c, start.phase, reply.value.response);
    if answer.Transport? then Some(answer.keys) else None
  }

  /** From the end of the request to the whole response frame, and what was read beyond. */
  method ReadReply(stream: ByteStream, wire: WireConfig, isUtf8: seq<byte> -> bool)
    returns (r: Result<(seq<byte>, seq<byte>), WireError>)
    modifies stream`unread, stream`pieces
    ensures var all := old(stream.unread);
            var reply := ParseReply(all);
            && (r.Ok? ==>
                  && reply.Some? && Contains(reply.value.statusLine, Ascii("101"))
                  && IsFrame(r.value.0) && reply.value.response == r.value.0
                  && reply.value.rest == r.value.1 + stream.unread)
            && (&& reply.Some? && Contains(reply.value.statusLine, Ascii("101")) && !stream.canFail
                && HeaderEnd(all).value + 3 <= wire.maxHeaderBytes && isUtf8(all[..HeaderEnd(all).value])
                ==> r.Ok?)
            && (r.Err? ==> !r.error.HandshakeFailed?)
  {
    ghost var all := stream.unread;
    var upgrade := ReadUpgradeResponse(stream, wire, isUtf8);
    if upgrade.Err? {
      return Err(upgrade.error);
    }
    var (statusLine, afterHeaders) := upgrade.value;
    if !Contains(statusLine, Ascii("101")) {
      return Err(UnexpectedStatus(statusLine));
    }
    r := ReadNoiseResponseFrame(stream, afterHeaders);
    if r.Ok? {
      TakeFrameSplits(all[HeaderEnd(all).value + 4..]);
    }
  }

  method Connect<H>(stream: ByteStream, wire: WireConfig, isUtf8: seq<byte> -> bool,
                    buildRequest: seq<byte> -> seq<byte>,
                    handshake: NoiseHandshake.NoiseHandshake<H>, aead: Aead)
    returns (r: Result<AsyncControlStream, WireError>)
    modifies stream, handshake
    ensures var all := old(stream.unread);
            var keys := SessionKeys(handshake.lib, handshake.config, old(handshake.state), all);
            && (r.Ok? ==>
                  && fresh(r.value) && fresh(r.value.conn) && r.value.stream == stream
                  && keys == Some(NoiseHandshake.Keys(r.value.conn.sendKey, r.value.conn.recvKey))
                  && r.value.Unconsumed() == ParseReply(all).value.rest
                  && r.value.conn.aead == aead && r.value.conn.config == handshake.config
                  && r.value.conn.sendCounter == 0 && r.value.conn.recvCounter == 0)
            && (&& !stream.canFail && keys.Some? && HeaderEnd(all).value + 3 <= wire.maxHeaderBytes
                && isUtf8(all[..HeaderEnd(all).value])
                ==> r.Ok?)
    // the request is on the wire before anything is read; a refused initiation writes nothing
    ensures var start := NoiseHandshake.Initiate(handshake.lib, handshake.config, old(handshake.state));
            && (!start.outcome.Frame? ==>
                  r.Err? && stream.written == old(stream.written) && stream.unread == old(stream.unread))
            && (start.outcome.Frame? && (r.Ok? || !stream.canFail) ==>
                  stream.written == old(stream.written) + buildRequest(start.outcome.bytes))
    // the frame reader has already settled the length checks of the handshake
    ensures r != Err(HandshakeFailed(NoiseHandshake.ResponseTooShort))
            && r != Err(HandshakeFailed(NoiseHandshake.ResponseTruncated))
  {
    hide FirstLine, Contains, HeaderEnd, ParseReply, IsFrame;
    hide NoiseHandshake.Initiate, NoiseHandshake.Respond, NoiseHandshake.ResponseBody;
    NoLengthErrors(handshake.lib, handshake.config, handshake.state, []);
    var init := handshake.InitiationMessage();
    if init.Err? {
      return Err(HandshakeFailed(init.error));
    }
    var wrote := stream.WriteAll(buildRequest(init.value));
    if wrote.Err? {
      return Err(Tls(wrote.error));
    }
    var reply := ReadReply(stream, wire, isUtf8);
    if reply.Err? {
      return Err(reply.error);
    }
    var (noiseBody, pending) := reply.value;
    NoLengthErrors(handshake.lib, handshake.config, handshake.state, noiseBody);
    var conn := handshake.ProcessResponse(aead, noiseBody);
    if conn.Err? {
      return Err(HandshakeFailed(conn.error));
    }
    var established := new AsyncControlStream(stream, conn.value, pending);
    r := Ok(established);
  }

  /** A server's reply, put together from its parts, is parsed back into them. */
  lemma ReplyRoundTrip(headers: seq<byte>, response: seq<byte>, rest: seq<byte>)
    requires HeaderEnd(headers + TERMINATOR[..3]).None? && IsFrame(response)
    ensures ParseReply(headers + TERMINATOR + (response + rest)) == Some(Reply(FirstLine(headers), response, rest))
    ensures HeaderEnd(headers + TERMINATOR + (response + rest)) == Some(|headers|)
  {
    var all := headers + TERMINATOR + (response + rest);
    HeaderEndOfResponse(headers, response + rest);
    assert all[..|headers|] == headers;
    assert all[|headers| + 4..] == response + rest;
    TakeFrameOfFrame(response, rest);
  }
}
