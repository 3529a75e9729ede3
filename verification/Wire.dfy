/** Reassembling a byte stream that arrives in pieces: crates/dictyon/src/wire/support.rs
  * and `AsyncControlStream` in crates/dictyon/src/wire/mod.rs.
  *
  * A stream is the bytes its peer has yet to deliver. Each read takes as many of them as it
  * happens to, so every contract below holds for every way the bytes may be split.
  */
module Wire {
  import opened Prelude
  import opened Config
  import opened HeaderScan
  import NoiseSession
  import NoiseHandshake

  datatype IoError = UnexpectedEof | Fault

  datatype WireError =
    | Tls(source: IoError)
    | HeadersTooLarge | ClosedBeforeTerminator | TerminatorNotFound | HeadersNotUtf8
    | UnexpectedStatus(line: Text)
    | Frame(frameType: byte)
    | Noise(noise: NoiseSession.NoiseError)
    | HandshakeFailed(cause: NoiseHandshake.HandshakeError)
    | ResponseTooLarge

  /** What is left of a sequence after some of its front is taken. */
  predicate IsTail(s: seq<byte>, all: seq<byte>) {
    |s| <= |all| && s == all[|all| - |s|..]
  }

  class ByteStream {
    var unread: seq<byte>
    var written: seq<byte>
    /** How many bytes each read delivered, of those that delivered some. */
    ghost var pieces: seq<nat>
    /** May a read or a write fail outright? Errors other than the end of the stream need this. */
    const canFail: bool

    constructor (bytes: seq<byte>, canFail: bool)
      ensures unread == bytes && written == [] && this.canFail == canFail
    {
      unread, written, pieces := bytes, [], [];
      this.canFail := canFail;
    }

    /** At least one byte and at most `limit`, none only at the end or for an empty buffer. */
    method Read(limit: nat) returns (r: Result<seq<byte>, IoError>)
      modifies this`unread, this`pieces
      ensures r.Err? ==> r.error == Fault && canFail && unread == old(unread)
      ensures r.Ok? ==> |r.value| <= limit && r.value + unread == old(unread)
      ensures r.Ok? && r.value == [] ==> limit == 0 || old(unread) == []
      ensures pieces == if r.Ok? && r.value != [] then old(pieces) + [|r.value|] else old(pieces)
    {
      var failed :| failed ==> canFail;
      if failed {
        return Err(Fault);
      }
      if limit == 0 || unread == [] {
        return Ok([]);
      }
      var n: nat :| 1 <= n <= limit && n <= |unread|;
      r := Ok(unread[..n]);
      unread := unread[n..];
      pieces := pieces + [n];
    }

    method WriteAll(bytes: seq<byte>) returns (r: Result<(), IoError>)
      modifies this`written
      ensures r.Ok? ==> written == old(written) + bytes
      ensures r.Err? ==> r.error == Fault && canFail
    {
      var failed :| failed ==> canFail;
      if failed {
        return Err(Fault);
      }
      written := written + bytes;
      r := Ok(());
    }

    /** Fill `out` from position `start` on, over as many reads as it takes. */
    method ReadExact(out: array<byte>, start: nat) returns (r: Result<(), IoError>)
      requires start <= out.Length
      modifies this`unread, this`pieces, out
      ensures var k := out.Length - start;
              && (r.Ok? ==>
                    && k <= |old(unread)| && out[..] == old(out[..start]) + old(unread)[..k]
                    && unread == old(unread)[k..])
              && (r.Err? ==>
                    || (r.error == Fault && canFail)
                    || (r.error == UnexpectedEof && |old(unread)| < k && unread == []))
      ensures IsTail(unread, old(unread))
    {
      ghost var all, front := unread, out[..start];
      var filled := start;
      FillStarts(front, all);
      hide FilledUpTo, IsTail;
      while filled < out.Length
        invariant start <= filled <= out.Length
        invariant FilledUpTo(front, all, filled - start, out[..filled], unread)
        decreases out.Length - filled
      {
        FillSoFar(front, all, filled - start, out[..filled], unread);
        var got := Read(out.Length - filled);
        if got.Err? {
          return Err(got.error);
        }
        if got.value == [] {
          return Err(UnexpectedEof);
        }
        CopyAt(out, filled, got.value);
        FillNext(front, all, filled - start, old(out[..start]) + all[..filled - start], got.value, unread);
        filled := filled + |got.value|;
      }
      FillSoFar(front, all, filled - start, out[..filled], unread);
      assert out[..] == out[..out.Length];
      r := Ok(());
    }
  }

  /** A buffer that began with `front` has taken the first `n` of the bytes `all`. */
  ghost predicate FilledUpTo(front: seq<byte>, all: seq<byte>, n: nat, buf: seq<byte>, unread: seq<byte>) {
    n <= |all| && buf == front + all[..n] && unread == all[n..]
  }

  lemma FillStarts(front: seq<byte>, all: seq<byte>)
    ensures FilledUpTo(front, all, 0, front, all)
  {
  }

  lemma FillNext(front: seq<byte>, all: seq<byte>, n: nat, buf: seq<byte>, piece: seq<byte>, unread: seq<byte>)
    requires FilledUpTo(front, all, n, buf, piece + unread)
    ensures FilledUpTo(front, all, n + |piece|, buf + piece, unread)
  {
    NextPiece(all, n, piece, unread);
    ConcatAssociates(front, all[..n], piece);
  }

  lemma FillSoFar(front: seq<byte>, all: seq<byte>, n: nat, buf: seq<byte>, unread: seq<byte>)
    requires FilledUpTo(front, all, n, buf, unread)
    ensures n <= |all| && buf == front + all[..n] && unread == all[n..] && IsTail(unread, all)
  {
  }

  method CopyAt(out: array<byte>, at: nat, src: seq<byte>)
    requires at + |src| <= out.Length
    modifies out
    ensures out[..at] == old(out[..at]) && out[at..at + |src|] == src
    ensures out[..at + |src|] == old(out[..at]) + src
    ensures out[at + |src|..] == old(out[at + |src|..])
  {
    for k := 0 to |src|
      invariant out[..at] == old(out[..at])
      invariant out[at..at + k] == src[..k]
      invariant out[at + |src|..] == old(out[at + |src|..])
    {
      out[at + k] := src[k];
    }
    assert out[..at + |src|] == out[..at] + out[at..at + |src|];
  }

  // ----- the pending buffer

  /** Move up to `out.Length` bytes off the front of `pending`. */
  method TakePending(pending: seq<byte>, out: array<byte>) returns (n: nat, rest: seq<byte>)
    modifies out
    ensures n == Min(|pending|, out.Length)
    ensures out[..n] == pending[..n] && rest == pending[n..]
    ensures out[n..] == old(out[n..])
  {
    n := if |pending| < out.Length then |pending| else out.Length;
    CopyAt(out, 0, pending[..n]);
    rest := pending[n..];
  }

  /** Fill `out` from `prefix` first, then from the stream: together they are one sequence. */
  method FillFrom(stream: ByteStream, prefix: seq<byte>, out: array<byte>)
    returns (r: Result<(), WireError>, rest: seq<byte>)
    modifies stream`unread, stream`pieces, out
    ensures var all, k := prefix + old(stream.unread), out.Length;
            && (r.Ok? ==> k <= |all| && out[..] == all[..k] && rest + stream.unread == all[k..])
            && (r.Err? ==> (r.error == Tls(Fault) && stream.canFail) || (r.error == Tls(UnexpectedEof) && |all| < k))
            && (r == Err(Tls(UnexpectedEof)) ==> rest + stream.unread == [])
            && IsTail(rest + stream.unread, all)
  {
    var taken;
    taken, rest := TakePending(prefix, out);
    ghost var all, k := prefix + stream.unread, out.Length;
    if taken < out.Length {
      assert taken == |prefix| && rest == [];
      var got := stream.ReadExact(out, taken);
      if got.Err? {
        return Err(Tls(got.error)), rest;
      }
      assert all[..k] == prefix + old(stream.unread)[..k - taken];
      assert all[k..] == old(stream.unread)[k - taken..];
    } else {
      assert out[..] == out[..taken];
      assert all[..k] == prefix[..k];
      assert all[k..] == prefix[k..] + stream.unread;
    }
    r := Ok(());
  }

  // ----- frames: one type byte, a big-endian length, the body

  datatype Taken = Whole(frame: seq<byte>, rest: seq<byte>) | Short

  function TakeFrame(s: seq<byte>): Taken {
    if |s| < 3 then Short
    else
      var len := U16FromBe(s[1], s[2]);
      if |s| < 3 + len then Short else Whole(s[..3 + len], s[3 + len..])
  }

  /** A frame carries the length of its own body. */
  predicate IsFrame(f: seq<byte>) { |f| >= 3 && |f| == 3 + U16FromBe(f[1], f[2]) }

  lemma TakeFrameOfFrame(f: seq<byte>, rest: seq<byte>)
    requires IsFrame(f)
    ensures TakeFrame(f + rest) == Whole(f, rest)
  {
  }

  lemma TakeFrameSplits(s: seq<byte>)
    requires TakeFrame(s).Whole?
    ensures var t := TakeFrame(s); IsFrame(t.frame) && s == t.frame + t.rest
  {
  }

  /** Reads a response frame and hands on every byte beyond it. */
  method ReadNoiseResponseFrame(stream: ByteStream, prefix: seq<byte>)
    returns (r: Result<(seq<byte>, seq<byte>), WireError>)
    modifies stream`unread, stream`pieces
    ensures var all := prefix + old(stream.unread);
            && (r.Ok? ==> TakeFrame(all) == Whole(r.value.0, r.value.1 + stream.unread))
            && (r.Err? ==>
                  || (r.error == Tls(Fault) && stream.canFail)
                  || (r.error == Tls(UnexpectedEof) && TakeFrame(all).Short?))
  {
    hide IsTail, TakeFrame;
    ghost var all := prefix + stream.unread;
    TakeInTwo(all);
    var header := new byte[3];
    var got, rest := FillFrom(stream, prefix, header);
    if got.Err? {
      return Err(got.error);
    }
    var payloadLen := U16FromBe(header[1], header[2]);
    assert header[..][1] == all[1] && header[..][2] == all[2];
    var noiseMsg := new byte[payloadLen];
    got, rest := FillFrom(stream, rest, noiseMsg);
    if got.Err? {
      return Err(got.error);
    }
    var framed := header[..];
    framed := framed + noiseMsg[..];
    r := Ok((framed, rest));
  }

  /** Taking a frame is taking its header and then its body. */
  lemma TakeInTwo(s: seq<byte>)
    ensures TakeFrame(s) ==
            if |s| < 3 || |s[3..]| < U16FromBe(s[1], s[2]) then Short
            else var n := U16FromBe(s[1], s[2]); Whole(s[..3] + s[3..][..n], s[3..][n..])
  {
    if |s| >= 3 && |s| >= 3 + U16FromBe(s[1], s[2]) {
      var n := U16FromBe(s[1], s[2]);
      assert s[..3 + n] == s[..3] + s[3..][..n];
    }
  }

  // ----- the header block

  /** What a header read over the bytes `all` returns, when its reads led to verdict `v` and
    * left `unread`: an accepted block with all bytes accounted for, a block that is too large,
    * the end of the stream, or a fault.
    */
  ghost predicate HeaderOutcome(all: seq<byte>, unread: seq<byte>, canFail: bool, v: Verdict,
                                r: Result<seq<byte>, WireError>)
  {
    && (r.Ok? <==> v.Accepted?)
    && (r == Err(HeadersTooLarge) <==> v.TooLarge?)
    && (r.Ok? ==> v == Accepted(|r.value|) && r.value + unread == all && HeaderEnd(r.value) == HeaderEnd(all))
    && (r.Err? ==> r.error in {Tls(Fault), HeadersTooLarge, ClosedBeforeTerminator})
    && (r == Err(Tls(Fault)) ==> canFail)
    && (r == Err(ClosedBeforeTerminator) ==> v == Waiting(|all|) && unread == [] && HeaderEnd(all).None?)
  }

  /** The outcome is the loop's verdict on reads of these sizes, each within the chunk, what
    * that verdict says is so, and at most the cap and one chunk is taken off the stream.
    */
  ghost predicate HeaderRead(all: seq<byte>, unread: seq<byte>, cfg: WireConfig, canFail: bool, sizes: seq<nat>,
                             r: Result<seq<byte>, WireError>)
  {
    var cap, chunk := cfg.maxHeaderBytes, Max(cfg.responseReadChunkBytes, 1);
    && AreReads(sizes, chunk)
    && HeaderOutcome(all, unread, canFail, HeaderLoop(all, cap, sizes), r)
    && VerdictHolds(all, cap, chunk, HeaderLoop(all, cap, sizes))
    && |all| <= |unread| + cap + chunk
  }

  /** Between turns: `n` bytes are buffered, nothing ended by `scanned`, and the verdict on the
    * reads so far is the decision now to be made.
    */
  ghost predicate Reading(all: seq<byte>, cap: nat, sizes: seq<nat>, n: nat, scanned: nat) {
    scanned <= n <= |all| && !EndsWithin(all, scanned) && HeaderLoop(all, cap, sizes) == Decide(all, cap, n, scanned)
  }

  lemma ReadingStarts(all: seq<byte>, cap: nat)
    ensures Reading(all, cap, [], 0, 0)
  {
  }

  lemma ReadingGoesOn(all: seq<byte>, cap: nat, sizes: seq<nat>, n: nat, scanned: nat, k: nat)
    requires Reading(all, cap, sizes, n, scanned) && n + k <= |all|
    requires FindHeaderEnd(all[..n], scanned).None? && n <= cap
    ensures Reading(all, cap, sizes + [k], n + k, n)
  {
    hide HeaderLoop, FindHeaderEnd, HeaderEnd;
    LoopNext(all, cap, sizes, k);
    DecisionIsPlain(all, cap, n, scanned);
  }

  /** The results of a turn that ends the loop. */
  lemma ReadingEnds(all: seq<byte>, cfg: WireConfig, sizes: seq<nat>, n: nat, scanned: nat, canFail: bool,
                    r: Result<seq<byte>, WireError>)
    requires Reading(all, cfg.maxHeaderBytes, sizes, n, scanned)
    requires var p, cap := FindHeaderEnd(all[..n], scanned), cfg.maxHeaderBytes;
             if p.Some? then r == if p.value > cap then Err(HeadersTooLarge) else Ok(all[..n])
             else if n > cap then r == Err(HeadersTooLarge)
             else (r == Err(Tls(Fault)) && canFail) || (r == Err(ClosedBeforeTerminator) && n == |all|)
    requires var chunk := Max(cfg.responseReadChunkBytes, 1);
             AreReads(sizes, chunk) && n <= cfg.maxHeaderBytes + chunk
    ensures HeaderRead(all, all[n..], cfg, canFail, sizes, r)
  {
    hide HeaderLoop, FindHeaderEnd, HeaderEnd;
    ScanAnswersForStream(all, n, scanned);
    EndsWithinWhole(all);
    VerdictMeans(all, cfg.maxHeaderBytes, Max(cfg.responseReadChunkBytes, 1), sizes);
  }

  /** The decision of one turn, if there is one. */
  method CheckHeader(buf: seq<byte>, scanned: nat, cap: nat) returns (r: Option<Result<seq<byte>, WireError>>)
    ensures var p := FindHeaderEnd(buf, scanned);
            r == if p.Some? then Some(if p.value > cap then Err(HeadersTooLarge) else Ok(buf))
                 else if |buf| > cap then Some(Err(HeadersTooLarge)) else None
  {
    var sepPos := FindHeaderEnd(buf, scanned);
    if sepPos.Some? {
      return Some(if sepPos.value > cap then Err(HeadersTooLarge) else Ok(buf));
    }
    if |buf| > cap {
      return Some(Err(HeadersTooLarge));
    }
    r := None;
  }

  /** The reader's state between turns: `buf` is what `sizes` delivered of `all`. */
  ghost predicate Buffering(all: seq<byte>, earlier: seq<nat>, cfg: WireConfig, sizes: seq<nat>, buf: seq<byte>,
                            scanned: nat, stream: ByteStream)
    reads stream
  {
    var cap, chunk := cfg.maxHeaderBytes, Max(cfg.responseReadChunkBytes, 1);
    && Reading(all, cap, sizes, |buf|, scanned) && |buf| <= cap + chunk
    && FilledUpTo([], all, |buf|, buf, stream.unread)
    && stream.pieces == earlier + sizes && AreReads(sizes, chunk)
  }

  /** One read of the header loop, when the turn decides nothing. */
  method ReadPiece(stream: ByteStream, cfg: WireConfig, buf: seq<byte>, scanned: nat,
                   ghost all: seq<byte>, ghost earlier: seq<nat>, ghost sizes: seq<nat>)
    returns (r: Result<seq<byte>, IoError>)
    requires Buffering(all, earlier, cfg, sizes, buf, scanned, stream)
    requires FindHeaderEnd(buf, scanned).None? && |buf| <= cfg.maxHeaderBytes
    modifies stream`unread, stream`pieces
    ensures if r.Ok? && r.value != [] then
              && Buffering(all, earlier, cfg, sizes + [|r.value|], buf + r.value, |buf|, stream)
              && |stream.unread| < |old(stream.unread)|
            else
              && Buffering(all, earlier, cfg, sizes, buf, scanned, stream)
              && if r.Ok? then |buf| == |all| else r.error == Fault && stream.canFail
  {
    hide FindHeaderEnd, Reading, FilledUpTo;
    FillSoFar([], all, |buf|, buf, stream.unread);
    assert [] + all[..|buf|] == all[..|buf|];
    r := stream.Read(Max(cfg.responseReadChunkBytes, 1));
    if r.Ok? && r.value != [] {
      FillNext([], all, |buf|, buf, r.value, stream.unread);
      NextPiece(all, |buf|, r.value, stream.unread);
      ReadingGoesOn(all, cfg.maxHeaderBytes, sizes, |buf|, scanned, |r.value|);
      ConcatAssociates(earlier, sizes, [|r.value|]);
    }
  }

  lemma BufferingEnds(all: seq<byte>, earlier: seq<nat>, cfg: WireConfig, sizes: seq<nat>, buf: seq<byte>, scanned: nat,
                      stream: ByteStream, r: Result<seq<byte>, WireError>)
    requires Buffering(all, earlier, cfg, sizes, buf, scanned, stream)
    requires var p, cap := FindHeaderEnd(buf, scanned), cfg.maxHeaderBytes;
             if p.Some? then r == if p.value > cap then Err(HeadersTooLarge) else Ok(buf)
             else if |buf| > cap then r == Err(HeadersTooLarge)
             else (r == Err(Tls(Fault)) && stream.canFail) || (r == Err(ClosedBeforeTerminator) && |buf| == |all|)
    ensures HeaderRead(all, stream.unread, cfg, stream.canFail, sizes, r) && stream.pieces == earlier + sizes
  {
    hide FindHeaderEnd, Reading, HeaderRead;
    assert [] + all[..|buf|] == all[..|buf|];
    ReadingEnds(all, cfg, sizes, |buf|, scanned, stream.canFail, r);
  }

  /** Reads until the terminator, in chunks, within the cap. The result is the verdict of the
    * loop on `sizes`, the numbers of bytes that its reads delivered.
    */
  method ReadUntilHeaderEnd(stream: ByteStream, cfg: WireConfig)
    returns (r: Result<seq<byte>, WireError>, ghost sizes: seq<nat>)
    modifies stream`unread, stream`pieces
    ensures stream.pieces == old(stream.pieces) + sizes
    ensures HeaderRead(old(stream.unread), stream.unread, cfg, stream.canFail, sizes, r)
  {
    ghost var all, earlier := stream.unread, stream.pieces;
    var buf: seq<byte> := [];
    var scanned: nat := 0;
    sizes := [];
    ReadingStarts(all, cfg.maxHeaderBytes);
    FillStarts([], all);
    assert Buffering(all, earlier, cfg, sizes, buf, scanned, stream);
    hide *;
    while true
      invariant Buffering(all, earlier, cfg, sizes, buf, scanned, stream)
      decreases |stream.unread|
    {
      var decided := CheckHeader(buf, scanned, cfg.maxHeaderBytes);
      if decided.Some? {
        r := decided.value;
        BufferingEnds(all, earlier, cfg, sizes, buf, scanned, stream, r);
        return;
      }
      var got := ReadPiece(stream, cfg, buf, scanned, all, earlier, sizes);
      if got.Err? || got.value == [] {
        r := if got.Err? then Err(Tls(got.error)) else Err(ClosedBeforeTerminator);
        BufferingEnds(all, earlier, cfg, sizes, buf, scanned, stream, r);
        return;
      }
      scanned, buf, sizes := |buf|, buf + got.value, sizes + [|got.value|];
    }
  }

  /** A piece taken off the front of the rest of a stream. */
  lemma NextPiece(all: seq<byte>, n: nat, piece: seq<byte>, rest: seq<byte>)
    requires n <= |all| && piece + rest == all[n..]
    ensures n + |piece| <= |all|
    ensures all[..n] + piece == all[..n + |piece|] && rest == all[n + |piece|..]
  {
  }

  /** Splits the response at its terminator; the body is every byte read beyond it. */
  method ReadUpgradeResponse(stream: ByteStream, cfg: WireConfig, isUtf8: seq<byte> -> bool)
    returns (r: Result<(Text, seq<byte>), WireError>)
    modifies stream`unread, stream`pieces
    ensures var all, cap, end := old(stream.unread), cfg.maxHeaderBytes, HeaderEnd(old(stream.unread));
            && (r.Ok? ==> end.Some? && end.value <= cap && isUtf8(all[..end.value])
                          && r.value.0 == FirstLine(all[..end.value])
                          && r.value.1 + stream.unread == all[end.value + 4..])
            && (end.Some? && end.value + 3 <= cap && isUtf8(all[..end.value]) && !stream.canFail ==> r.Ok?)
            && (r.Err? ==> r.error in {Tls(Fault), HeadersTooLarge, ClosedBeforeTerminator, HeadersNotUtf8})
            && (r == Err(Tls(Fault)) ==> stream.canFail)
            && (r == Err(HeadersTooLarge) ==> |all| > cap && !EndsWithin(all, cap + 1))
            && (r == Err(ClosedBeforeTerminator) ==> end.None? && |all| <= cap)
            && (r == Err(HeadersNotUtf8) ==> end.Some? && !isUtf8(all[..end.value]))
  {
    ghost var all := stream.unread;
    var read, _ := ReadUntilHeaderEnd(stream, cfg);
    if read.Err? {
      return Err(read.error);
    }
    var buf := read.value;
    var sepPos := HeaderEnd(buf);
    if sepPos.None? {
      return Err(TerminatorNotFound);
    }
    var headers := buf[..sepPos.value];
    var body := buf[sepPos.value + 4..];
    assert headers == all[..sepPos.value];
    assert body + stream.unread == all[sepPos.value + 4..];
    if !isUtf8(headers) {
      return Err(HeadersNotUtf8);
    }
    r := Ok((FirstLine(headers), body));
  }

  // ----- the /key response

  /** Refuses an append that would exceed the limit, leaving the buffer as it was. */
  method PushWithinLimit(buf: seq<byte>, slice: seq<byte>, maxBody: nat)
    returns (r: Result<(), WireError>, buf': seq<byte>)
    ensures r.Ok? <==> |buf| + |slice| <= maxBody
    ensures buf' == if r.Ok? then buf + slice else buf
    ensures r.Err? ==> r.error == ResponseTooLarge
    ensures |buf| <= maxBody ==> |buf'| <= maxBody
  {
    if |buf| + |slice| > maxBody {
      return Err(ResponseTooLarge), buf;
    }
    r, buf' := Ok(()), buf + slice;
  }

  /** The whole response if it fits the limit and a refusal if it does not, for every split;
    * at no point is more than the limit held.
    */
  method ReadFullResponse(stream: ByteStream, cfg: WireConfig) returns (r: Result<seq<byte>, WireError>)
    modifies stream`unread, stream`pieces
    ensures var all, limit := old(stream.unread), KeyResponseMaxBytes(cfg);
            && (r.Ok? ==> if cfg.responseReadChunkBytes > 0 then r.value == all && |all| <= limit else r.value == [])
            && (r.Err? ==> (r.error == Tls(Fault) && stream.canFail) || (r.error == ResponseTooLarge && |all| > limit))
  {
    hide KeyResponseMaxBytes;
    var limit := KeyResponseMaxBytes(cfg);
    ghost var all := stream.unread;
    var buf: seq<byte> := [];
    while true
      invariant |buf| <= |all| && buf == all[..|buf|] && stream.unread == all[|buf|..]
      invariant |buf| <= limit && (cfg.responseReadChunkBytes == 0 ==> buf == [])
      decreases |stream.unread|
    {
      var got := stream.Read(cfg.responseReadChunkBytes);
      if got.Err? {
        return Err(Tls(got.error));
      }
      if got.value == [] {
        break;
      }
      NextPiece(all, |buf|, got.value, stream.unread);
      var pushed;
      pushed, buf := PushWithinLimit(buf, got.value, limit);
      if pushed.Err? {
        return Err(pushed.error);
      }
    }
    r := Ok(buf);
  }
}
