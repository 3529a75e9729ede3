/** The established Noise transport: crates/dictyon/src/noise/mod.rs.
  *
  * The cipher is a parameter: an AEAD under a key, with one counter per direction as in
  * sections 3 and 5.1 of the Noise Protocol Framework, revision 34.
  */
module NoiseSession {
  import opened Prelude
  import opened Config

  const MSG_TYPE_TRANSPORT: byte := 4

  /** The longest Noise message, section 3 of the framework. */
  const MAX_MESSAGE := 0xFFFF

  type Key = nat

  datatype Aead = Aead(
    seal: (Key, nat, seq<byte>) -> seq<byte>,
    open: (Key, nat, seq<byte>) -> Option<seq<byte>>)

  /** Sealing adds a tag, and opening undoes it under the same key and counter value. */
  ghost predicate Ideal(a: Aead) {
    && (forall k: Key, n: nat, p: seq<byte> :: |a.seal(k, n, p)| == |p| + TAG_LEN)
    && (forall k: Key, n: nat, p: seq<byte> :: a.open(k, n, a.seal(k, n, p)) == Some(p))
  }

  /** Counter values are 64 bits wide and the last one is reserved. */
  const COUNTER_LIMIT: nat := 0xFFFF_FFFF_FFFF_FFFF

  /** A ciphertext opens under no other counter value. */
  ghost predicate CounterBound(a: Aead) {
    forall k: Key, n: nat, m: nat, p: seq<byte> | n < COUNTER_LIMIT && m < COUNTER_LIMIT && n != m ::
      a.open(k, m, a.seal(k, n, p)) == None
  }

  datatype NoiseError = FrameTooLarge | DecryptionFailed | Snow

  // ----- one message

  function Framed(ciphertext: seq<byte>): (f: seq<byte>)
    requires |ciphertext| <= 0xFFFF
    ensures |f| == 3 + |ciphertext| && f[0] == 4
    ensures U16FromBe(f[1], f[2]) == |ciphertext| && f[3..] == ciphertext
  {
    [MSG_TYPE_TRANSPORT] + U16Be(|ciphertext|) + ciphertext
  }

  predicate Accepts(c: NoiseConfig, plaintext: seq<byte>) {
    |plaintext| <= c.maxFramePayload && |plaintext| + TAG_LEN <= MAX_MESSAGE
  }

  class NoiseTransport {
    const aead: Aead
    const config: NoiseConfig
    const sendKey: Key
    const recvKey: Key
    var sendCounter: nat
    var recvCounter: nat

    constructor (aead: Aead, config: NoiseConfig, sendKey: Key, recvKey: Key)
      ensures this.aead == aead && this.config == config
      ensures this.sendKey == sendKey && this.recvKey == recvKey
      ensures sendCounter == 0 && recvCounter == 0
    {
      this.aead, this.config, this.sendKey, this.recvKey := aead, config, sendKey, recvKey;
      sendCounter, recvCounter := 0, 0;
    }

    /** A refused message leaves the counter alone; an accepted one takes exactly one value. */
    method Encrypt(plaintext: seq<byte>) returns (r: Result<seq<byte>, NoiseError>)
      requires Ideal(aead)
      modifies this`sendCounter
      ensures r.Ok? <==> Accepts(config, plaintext)
      ensures r.Ok? <==> |plaintext| <= config.maxFramePayload && |plaintext| + 16 <= 65_535
      ensures r.Ok? ==>
                && |plaintext| + TAG_LEN <= 0xFFFF
                && r.value == Framed(aead.seal(sendKey, old(sendCounter), plaintext))
      ensures sendCounter == old(sendCounter) + if r.Ok? then 1 else 0
      ensures r == Err(FrameTooLarge) <==> |plaintext| > config.maxFramePayload
    {
      if |plaintext| > config.maxFramePayload {
        return Err(FrameTooLarge);
      }
      // snow refuses an over-long message before it touches the cipher
      if |plaintext| + TAG_LEN > MAX_MESSAGE {
        return Err(Snow);
      }
      var ciphertext := aead.seal(sendKey, sendCounter, plaintext);
      sendCounter := sendCounter + 1;
      var frame := [MSG_TYPE_TRANSPORT];
      frame := frame + U16Be(|ciphertext|);
      frame := frame + ciphertext;
      r := Ok(frame);
    }

    /** A ciphertext that does not open leaves the counter alone. */
    method Decrypt(ciphertext: seq<byte>) returns (r: Result<seq<byte>, NoiseError>)
      requires Ideal(aead)
      modifies this`recvCounter
      ensures r == DecryptResult(aead, recvKey, old(recvCounter), ciphertext)
      ensures recvCounter == old(recvCounter) + if r.Ok? then 1 else 0
      ensures r == if |ciphertext| < 16 then Err(DecryptionFailed)
                   else
                     var plain := aead.open(recvKey, old(recvCounter), ciphertext);
                     if plain.None? then Err(DecryptionFailed) else Ok(plain.value)
    {
      if |ciphertext| < TAG_LEN {
        return Err(DecryptionFailed);
      }
      match aead.open(recvKey, recvCounter, ciphertext) {
        case None =>
          r := Err(DecryptionFailed);
        case Some(plaintext) =>
          recvCounter := recvCounter + 1;
          r := Ok(plaintext);
      }
    }
  }

  function DecryptResult(a: Aead, k: Key, n: nat, ciphertext: seq<byte>): Result<seq<byte>, NoiseError> {
    if |ciphertext| < TAG_LEN || a.open(k, n, ciphertext).None? then Err(DecryptionFailed)
    else Ok(a.open(k, n, ciphertext).value)
  }

  lemma DecryptUndoesSeal(a: Aead, k: Key, n: nat, p: seq<byte>)
    requires Ideal(a)
    ensures DecryptResult(a, k, n, a.seal(k, n, p)) == Ok(p)
  {
  }

  // ----- a sender's run: any interleaving of accepted and refused messages

  datatype Sender = Sender(counter: nat, sent: seq<seq<byte>>)

  /** What `Encrypt` does to the counter and to the ciphertexts on the wire. */
  function SendStep(a: Aead, c: NoiseConfig, k: Key, s: Sender, p: seq<byte>): Sender {
    if Accepts(c, p) then Sender(s.counter + 1, s.sent + [a.seal(k, s.counter, p)]) else s
  }

  function SendAll(a: Aead, c: NoiseConfig, k: Key, n: nat, ps: seq<seq<byte>>): Sender {
    if ps == [] then Sender(n, [])
    else SendStep(a, c, k, SendAll(a, c, k, n, ps[..|ps| - 1]), ps[|ps| - 1])
  }

  function AcceptedOf(c: NoiseConfig, ps: seq<seq<byte>>): seq<seq<byte>> {
    Select(ps, p => Accepts(c, p))
  }

  /** The wire carries the accepted messages in order, sealed under consecutive counters, and
    * each fits a frame.
    */
  lemma {:induction false} SentIsAccepted(a: Aead, c: NoiseConfig, k: Key, n: nat, ps: seq<seq<byte>>)
    requires Ideal(a)
    ensures var s := SendAll(a, c, k, n, ps);
            var accepted := AcceptedOf(c, ps);
            && |s.sent| == |accepted| && s.counter == n + |accepted|
            && (forall i | 0 <= i < |accepted| :: s.sent[i] == a.seal(k, n + i, accepted[i]))
            && (forall i | 0 <= i < |s.sent| :: |s.sent[i]| <= 0xFFFF)
            && (forall i | 0 <= i < |accepted| :: Accepts(c, accepted[i]))
  {
    if ps != [] {
      SentIsAccepted(a, c, k, n, ps[..|ps| - 1]);
    }
  }

  /** Under a validated configuration the payload limit is the only limit. */
  lemma ValidatedLimit(c: NoiseConfig, p: seq<byte>)
    requires ValidateNoise(c) == Pass
    ensures Accepts(c, p) <==> |p| <= c.maxFramePayload
    ensures c.maxFramePayload + TAG_LEN <= 0xFFFF
  {
  }

  /** Without validation the limit is wrong exactly above the ceiling: some message within
    * the configured payload is then refused.
    */
  lemma CeilingIsExact(c: NoiseConfig)
    ensures c.maxFramePayload <= MAX_FRAME_PAYLOAD_CEILING <==>
            forall p: seq<byte> | |p| <= c.maxFramePayload :: Accepts(c, p)
  {
    if c.maxFramePayload > MAX_FRAME_PAYLOAD_CEILING {
      var p: seq<byte> := seq(c.maxFramePayload, i => 0);
      assert |p| <= c.maxFramePayload && !Accepts(c, p);
    }
  }

  // ----- a receiver's run

  datatype Receiver = Receiver(counter: nat, got: seq<seq<byte>>)

  function RecvStep(a: Aead, k: Key, s: Receiver, ciphertext: seq<byte>): Receiver {
    match DecryptResult(a, k, s.counter, ciphertext)
    case Ok(p) => Receiver(s.counter + 1, s.got + [p])
    case Err(_) => s
  }

  function RecvAll(a: Aead, k: Key, n: nat, cts: seq<seq<byte>>): Receiver {
    if cts == [] then Receiver(n, [])
    else RecvStep(a, k, RecvAll(a, k, n, cts[..|cts| - 1]), cts[|cts| - 1])
  }

  /** In-order delivery of all of it returns every plaintext. */
  lemma {:induction false} ReceiverFollows(a: Aead, k: Key, n: nat, sent: seq<seq<byte>>, plain: seq<seq<byte>>)
    requires Ideal(a) && |sent| == |plain|
    requires forall i | 0 <= i < |plain| :: sent[i] == a.seal(k, n + i, plain[i])
    ensures RecvAll(a, k, n, sent) == Receiver(n + |plain|, plain)
  {
    if sent != [] {
      var last := |sent| - 1;
      ReceiverFollows(a, k, n, sent[..last], plain[..last]);
      DecryptUndoesSeal(a, k, n + last, plain[last]);
      assert plain[..last] + [plain[last]] == plain;
    }
  }

  /** An in-order receiver gets exactly the accepted messages, whatever was refused between. */
  lemma AcceptedMessagesArrive(a: Aead, c: NoiseConfig, k: Key, n: nat, ps: seq<seq<byte>>)
    requires Ideal(a)
    ensures RecvAll(a, k, n, SendAll(a, c, k, n, ps).sent) == Receiver(n + |AcceptedOf(c, ps)|, AcceptedOf(c, ps))
  {
    SentIsAccepted(a, c, k, n, ps);
    ReceiverFollows(a, k, n, SendAll(a, c, k, n, ps).sent, AcceptedOf(c, ps));
  }

  /** Fed the sender's ciphertexts in any order, with losses and repeats, a receiver outputs a
    * prefix of what was sent and no more: never out of order, never twice.
    */
  lemma {:induction false} AnyScheduleYieldsPrefix(a: Aead, k: Key, n: nat, sent: seq<seq<byte>>,
                                                   plain: seq<seq<byte>>, schedule: seq<nat>)
    requires Ideal(a) && CounterBound(a) && |sent| == |plain| && n + |sent| < COUNTER_LIMIT
    requires forall i | 0 <= i < |plain| :: sent[i] == a.seal(k, n + i, plain[i])
    requires forall j | 0 <= j < |schedule| :: schedule[j] < |sent|
    ensures var out := RecvAll(a, k, n, Scheduled(sent, schedule));
            out.got <= plain && out.counter == n + |out.got|
  {
    if schedule != [] {
      var init, i := schedule[..|schedule| - 1], schedule[|schedule| - 1];
      AnyScheduleYieldsPrefix(a, k, n, sent, plain, init);
      var cts := Scheduled(sent, schedule);
      assert cts[..|cts| - 1] == Scheduled(sent, init);
      var before := RecvAll(a, k, n, Scheduled(sent, init));
      if n + i == before.counter {
        DecryptUndoesSeal(a, k, n + i, plain[i]);
      } else {
        assert a.open(k, before.counter, a.seal(k, n + i, plain[i])) == None;
      }
    }
  }

  function Scheduled(sent: seq<seq<byte>>, schedule: seq<nat>): seq<seq<byte>>
    requires forall j | 0 <= j < |schedule| :: schedule[j] < |sent|
  {
    seq(|schedule|, j requires 0 <= j < |schedule| => sent[schedule[j]])
  }

  // ----- the laws are consistent

  /** Some AEAD satisfies all the laws above, so what is proved from them is not vacuous. */
  lemma LawsAreConsistent() returns (a: Aead)
    ensures Ideal(a) && CounterBound(a)
  {
    a := Aead(
      (k: Key, n: nat, p: seq<byte>) => p + Digits(n, TAG_LEN),
      (k: Key, n: nat, c: seq<byte>) =>
        if |c| >= TAG_LEN && c[|c| - TAG_LEN..] == Digits(n, TAG_LEN) then Some(c[..|c| - TAG_LEN]) else None);
    forall k: Key, n: nat, p: seq<byte> ensures a.open(k, n, a.seal(k, n, p)) == Some(p) {
      var c := p + Digits(n, TAG_LEN);
      assert c[|c| - TAG_LEN..] == Digits(n, TAG_LEN) && c[..|c| - TAG_LEN] == p;
    }
    forall k: Key, n: nat, m: nat, p: seq<byte> | n < COUNTER_LIMIT && m < COUNTER_LIMIT && n != m
      ensures a.open(k, m, a.seal(k, n, p)) == None
    {
      var c := p + Digits(n, TAG_LEN);
      assert c[|c| - TAG_LEN..] == Digits(n, TAG_LEN);
      DigitsDistinguish(n, m, TAG_LEN);
    }
  }
}
