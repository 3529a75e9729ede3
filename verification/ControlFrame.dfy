/** The control protocol's own frames, four little-endian length bytes and a payload:
  * `frame_message`, `frame_len` and `parse_map_response` in crates/dictyon/src/control/mod.rs.
  */
module ControlFrame {
  import opened Prelude
  import opened Config
  import opened NoiseSession
  import NetmapModel

  datatype ControlError =
    | PayloadTooLarge(len: nat)
    | FrameTooShort(len: nat)
    | SizeExceedsFrame(declared: nat, available: nat)
    | InflateFailed
    | Json

  function FrameLen(len: nat): (r: Result<nat, ControlError>)
    ensures r.Ok? <==> len < 0x1_0000_0000
    ensures r.Ok? ==> r.value == len
  {
    if len <= 0xFFFF_FFFF then Ok(len) else Err(PayloadTooLarge(len))
  }

  function FrameOf(payload: seq<byte>): (f: seq<byte>)
    requires |payload| < 0x1_0000_0000
    ensures |f| == 4 + |payload|
  {
    U32Le(|payload|) + payload
  }

  method FrameMessage(payload: seq<byte>) returns (r: Result<seq<byte>, ControlError>)
    ensures r.Ok? <==> |payload| < 0x1_0000_0000
    ensures r.Ok? ==> r.value == FrameOf(payload)
    ensures r.Err? ==> r.error == PayloadTooLarge(|payload|)
  {
    var size := FrameLen(|payload|);
    if size.Err? {
      return Err(size.error);
    }
    var framed := U32Le(size.value);
    framed := framed + payload;
    r := Ok(framed);
  }

  /** The payload a frame declares; bytes beyond it are ignored. */
  function Extract(frame: seq<byte>): Result<seq<byte>, ControlError> {
    if |frame| < 4 then Err(FrameTooShort(|frame|))
    else
      var size := U32FromLe(frame[..4]);
      if |frame| < 4 + size then Err(SizeExceedsFrame(size, |frame| - 4)) else Ok(frame[4..4 + size])
  }

  /** Extraction undoes framing for every payload that can be framed, whatever follows. */
  lemma ExtractUndoesFrame(payload: seq<byte>, trailing: seq<byte>)
    requires |payload| < 0x1_0000_0000
    ensures Extract(FrameOf(payload) + trailing) == Ok(payload)
  {
  }

  /** Conversely a frame that extracts starts with the framing of what came out. */
  lemma FrameOfExtracted(frame: seq<byte>)
    requires Extract(frame).Ok?
    ensures |Extract(frame).value| < 0x1_0000_0000 && FrameOf(Extract(frame).value) <= frame
  {
    var p := Extract(frame).value;
    U32Injective(frame[..4], U32Le(|p|));
    assert frame[..4 + |p|] == frame[..4] + p;
  }

  lemma U32Injective(a: seq<byte>, b: seq<byte>)
    requires |a| == |b| == 4 && U32FromLe(a) == U32FromLe(b)
    ensures a == b
  {
    assert a[0] == b[0];
    assert a[1] == b[1];
    assert a[2] == b[2];
    assert a[3] == b[3];
  }

  /** No frame is a proper prefix of another, and frames tell their payloads apart. */
  lemma FramesArePrefixFree(p: seq<byte>, q: seq<byte>)
    requires |p| < 0x1_0000_0000 && |q| < 0x1_0000_0000
    requires FrameOf(p) <= FrameOf(q)
    ensures p == q
  {
    var rest := FrameOf(q)[|FrameOf(p)|..];
    assert FrameOf(p) + rest == FrameOf(q) + [];
    ExtractUndoesFrame(p, rest);
    ExtractUndoesFrame(q, []);
  }

  predicate AllFrameable(ps: seq<seq<byte>>) {
    forall i | 0 <= i < |ps| :: |ps[i]| < 0x1_0000_0000
  }

  function Concatenated(ps: seq<seq<byte>>): seq<byte>
    requires AllFrameable(ps)
  {
    if ps == [] then [] else FrameOf(ps[0]) + Concatenated(ps[1..])
  }

  /** A concatenation of frames has one reading. */
  lemma {:induction false} ConcatenationsDecodeUniquely(ps: seq<seq<byte>>, qs: seq<seq<byte>>)
    requires AllFrameable(ps) && AllFrameable(qs)
    requires Concatenated(ps) == Concatenated(qs)
    ensures ps == qs
  {
    if ps != [] && qs != [] {
      var (p, q) := (ps[0], qs[0]);
      ExtractUndoesFrame(p, Concatenated(ps[1..]));
      ExtractUndoesFrame(q, Concatenated(qs[1..]));
      assert Concatenated(ps)[4 + |p|..] == Concatenated(ps[1..]);
      assert Concatenated(qs)[4 + |q|..] == Concatenated(qs[1..]);
      ConcatenationsDecodeUniquely(ps[1..], qs[1..]);
      assert ps == [p] + ps[1..] && qs == [q] + qs[1..];
    }
  }

  /** Framing and then encrypting: succeeds exactly when frame and payload limit agree, costs
    * a counter value only then, and the peer's decrypt-then-extract returns the payload.
    */
  method FrameAndEncrypt(t: NoiseTransport, payload: seq<byte>) returns (ok: bool, frame: seq<byte>)
    requires Ideal(t.aead) && ValidateNoise(t.config) == Pass
    modifies t`sendCounter
    ensures ok <==> 4 + |payload| <= t.config.maxFramePayload
    ensures t.sendCounter == old(t.sendCounter) + if ok then 1 else 0
    ensures ok ==>
              && |frame| >= 3
              && DecryptResult(t.aead, t.sendKey, old(t.sendCounter), frame[3..]).Ok?
              && Extract(DecryptResult(t.aead, t.sendKey, old(t.sendCounter), frame[3..]).value) == Ok(payload)
  {
    frame := [];
    var framed := FrameMessage(payload);
    if framed.Err? {
      return false, [];
    }
    ValidatedLimit(t.config, framed.value);
    var sealed := t.Encrypt(framed.value);
    if sealed.Err? {
      return false, [];
    }
    DecryptUndoesSeal(t.aead, t.sendKey, old(t.sendCounter), framed.value);
    ExtractUndoesFrame(payload, []);
    assert FrameOf(payload) + [] == FrameOf(payload);
    return true, sealed.value;
  }

  // ----- map responses

  /** The decompressor and the JSON reader. */
  datatype Codec = Codec(
    inflate: seq<byte> -> Option<seq<byte>>,
    readJson: seq<byte> -> Option<NetmapModel.MapResponse>)

  const ZSTD_MAGIC: seq<byte> := [0x28, 0xb5, 0x2f, 0xfd]

  predicate IsZstdFrame(payload: seq<byte>) { ZSTD_MAGIC <= payload }

  function DecodeMapPayload(c: Codec, payload: seq<byte>): Result<seq<byte>, ControlError> {
    if !IsZstdFrame(payload) then Ok(payload)
    else
      match c.inflate(payload)
      case None => Err(InflateFailed)
      case Some(text) => Ok(text)
  }

  function ParseMapResponse(c: Codec, frame: seq<byte>): Result<NetmapModel.MapResponse, ControlError> {
    match Extract(frame)
    case Err(e) => Err(e)
    case Ok(payload) =>
      match DecodeMapPayload(c, payload)
      case Err(e) => Err(e)
      case Ok(text) =>
        match c.readJson(text)
        case None => Err(Json)
        case Some(resp) => Ok(resp)
  }

  /** `payload` carries `resp`, plainly or compressed. */
  predicate Carries(c: Codec, payload: seq<byte>, resp: NetmapModel.MapResponse) {
    if IsZstdFrame(payload) then c.inflate(payload).Some? && c.readJson(c.inflate(payload).value) == Some(resp)
    else c.readJson(payload) == Some(resp)
  }

  /** What parsing does with any bytes: a little-endian length of four bytes, the payload it
    * declares, inflated if and only if it opens with the four magic bytes, and read as JSON.
    */
  lemma ParsedBytes(c: Codec, frame: seq<byte>)
    ensures |frame| < 4 ==> ParseMapResponse(c, frame) == Err(FrameTooShort(|frame|))
    ensures |frame| >= 4 ==>
              var size := frame[0] as int + 0x100 * frame[1] as int + 0x1_0000 * frame[2] as int
                          + 0x100_0000 * frame[3] as int;
              if |frame| < 4 + size then ParseMapResponse(c, frame) == Err(SizeExceedsFrame(size, |frame| - 4))
              else
                var payload := frame[4..4 + size];
                var packed := |payload| >= 4 && payload[..4] == [0x28, 0xb5, 0x2f, 0xfd];
                var text := if packed then c.inflate(payload) else Some(payload);
                ParseMapResponse(c, frame) ==
                  if text.None? then Err(InflateFailed)
                  else if c.readJson(text.value).None? then Err(Json) else Ok(c.readJson(text.value).value)
  {
    if |frame| >= 4 {
      assert U32FromLe(frame[..4])
             == frame[0] as int + 0x100 * frame[1] as int + 0x1_0000 * frame[2] as int + 0x100_0000 * frame[3] as int;
    }
  }

  lemma ParseOfFrame(c: Codec, payload: seq<byte>, resp: NetmapModel.MapResponse)
    requires |payload| < 0x1_0000_0000 && Carries(c, payload, resp)
    ensures ParseMapResponse(c, FrameOf(payload)) == Ok(resp)
  {
    ExtractUndoesFrame(payload, []);
    assert FrameOf(payload) + [] == FrameOf(payload);
  }
}
