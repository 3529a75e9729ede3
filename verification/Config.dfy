/** Range checks on the tuning knobs: crates/mitos/src/config/mod.rs. */
module Config {
  import opened Prelude

  const TAG_LEN := 16
  const MAX_FRAME_PAYLOAD_CEILING := 0xFFFF - TAG_LEN
  const MIN_FRAME_PAYLOAD := 256
  const USIZE_MAX := 0xFFFF_FFFF_FFFF_FFFF

  datatype Knob =
    | MaxHeaderBytes | KeyResponseBodyMultiplier | HeaderReadInitialCapacity
    | ResponseReadChunkBytes | ConnectTimeoutMs | MaxFramePayload | HandshakeScratchBytes

  datatype ConfigError = OutOfRange(knob: Knob, min: nat, max: nat, value: nat)

  datatype WireConfig = WireConfig(
    maxHeaderBytes: nat,
    keyResponseBodyMultiplier: nat,
    headerReadInitialCapacity: nat,
    responseReadChunkBytes: nat,
    connectTimeoutMs: nat)

  datatype NoiseConfig = NoiseConfig(maxFramePayload: nat, handshakeScratchBytes: nat)

  datatype Check = Pass | Fail(error: ConfigError)

  function CheckRange(knob: Knob, value: nat, min: nat, max: nat): Check {
    if min <= value <= max then Pass else Fail(OutOfRange(knob, min, max, value))
  }

  function ValidateWire(c: WireConfig): Check {
    var a := CheckRange(MaxHeaderBytes, c.maxHeaderBytes, 1024, 65_536);
    if a.Fail? then a else
    var b := CheckRange(KeyResponseBodyMultiplier, c.keyResponseBodyMultiplier, 1, 16);
    if b.Fail? then b else
    var d := CheckRange(HeaderReadInitialCapacity, c.headerReadInitialCapacity, 64, c.maxHeaderBytes);
    if d.Fail? then d else
    var e := CheckRange(ResponseReadChunkBytes, c.responseReadChunkBytes, 512, 65_536);
    if e.Fail? then e else
    if c.connectTimeoutMs == 0 then Pass
    else CheckRange(ConnectTimeoutMs, c.connectTimeoutMs, 1_000, 120_000)
  }

  function ValidateNoise(c: NoiseConfig): Check {
    var a := CheckRange(MaxFramePayload, c.maxFramePayload, MIN_FRAME_PAYLOAD, MAX_FRAME_PAYLOAD_CEILING);
    if a.Fail? then a else
    CheckRange(HandshakeScratchBytes, c.handshakeScratchBytes, 128, 4096)
  }

  /** The setting reported is the first of the list that is out of its range, with that range. */
  lemma FirstFailureIsReported(w: WireConfig, n: NoiseConfig)
    ensures var headers := 1024 <= w.maxHeaderBytes <= 65_536;
            var multiplier := 1 <= w.keyResponseBodyMultiplier <= 16;
            var initial := 64 <= w.headerReadInitialCapacity <= w.maxHeaderBytes;
            var chunk := 512 <= w.responseReadChunkBytes <= 65_536;
            && (!headers ==> ValidateWire(w) == Fail(OutOfRange(MaxHeaderBytes, 1024, 65_536, w.maxHeaderBytes)))
            && (headers && !multiplier ==>
                  ValidateWire(w) == Fail(OutOfRange(KeyResponseBodyMultiplier, 1, 16, w.keyResponseBodyMultiplier)))
            && (headers && multiplier && !initial ==>
                  ValidateWire(w)
                  == Fail(OutOfRange(HeaderReadInitialCapacity, 64, w.maxHeaderBytes, w.headerReadInitialCapacity)))
            && (headers && multiplier && initial && !chunk ==>
                  ValidateWire(w) == Fail(OutOfRange(ResponseReadChunkBytes, 512, 65_536, w.responseReadChunkBytes)))
            && (headers && multiplier && initial && chunk && ValidateWire(w).Fail? ==>
                  ValidateWire(w) == Fail(OutOfRange(ConnectTimeoutMs, 1_000, 120_000, w.connectTimeoutMs)))
    ensures var payload := 256 <= n.maxFramePayload <= 65_519;
            && (!payload ==> ValidateNoise(n) == Fail(OutOfRange(MaxFramePayload, 256, 65_519, n.maxFramePayload)))
            && (payload && ValidateNoise(n).Fail? ==>
                  ValidateNoise(n) == Fail(OutOfRange(HandshakeScratchBytes, 128, 4096, n.handshakeScratchBytes)))
  {
  }

  /** The saturating product that caps a `/key` response. */
  function KeyResponseMaxBytes(c: WireConfig): nat {
    Min(c.maxHeaderBytes * c.keyResponseBodyMultiplier, USIZE_MAX)
  }

  /** The documented ranges. */
  predicate WireInRange(c: WireConfig) {
    && 1024 <= c.maxHeaderBytes <= 65_536
    && 1 <= c.keyResponseBodyMultiplier <= 16
    && 64 <= c.headerReadInitialCapacity <= c.maxHeaderBytes
    && 512 <= c.responseReadChunkBytes <= 65_536
    && (c.connectTimeoutMs == 0 || 1_000 <= c.connectTimeoutMs <= 120_000)
  }

  predicate NoiseInRange(c: NoiseConfig) {
    256 <= c.maxFramePayload <= 65_519 && 128 <= c.handshakeScratchBytes <= 4096
  }

  /** Validation passes exactly within the documented ranges. What passes never saturates the
    * cap on a `/key` response and bounds what a header read may hold.
    */
  lemma ValidationIsExact(w: WireConfig, n: NoiseConfig)
    ensures ValidateWire(w) == Pass <==> WireInRange(w)
    ensures ValidateNoise(n) == Pass <==> NoiseInRange(n)
    ensures KeyResponseMaxBytes(w) == Min(w.maxHeaderBytes * w.keyResponseBodyMultiplier, 0xFFFF_FFFF_FFFF_FFFF)
    ensures ValidateWire(w) == Pass ==>
              && KeyResponseMaxBytes(w) == w.maxHeaderBytes * w.keyResponseBodyMultiplier <= 0x10_0000
              && w.maxHeaderBytes + Max(w.responseReadChunkBytes, 1) <= 0x2_0000
  {
    if ValidateWire(w) == Pass {
      assert w.maxHeaderBytes * w.keyResponseBodyMultiplier <= 65_536 * 16;
    }
  }
}
