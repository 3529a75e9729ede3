/** The capability version and the Noise prologue: crates/mitos/src/capability.rs and
  * `prologue` in crates/dictyon/src/noise/mod.rs.
  */
module Capability {
  import opened Prelude

  /** The version this client advertises. */
  const CAPABILITY_VERSION: nat := 71

  // ----- decimal rendering, as `Display` does it

  function Decimal(n: nat): (s: Text)
    ensures |s| > 0
    ensures forall i | 0 <= i < |s| :: 48 <= s[i] <= 57
  {
    if n < 10 then [48 + n] else Decimal(n / 10) + [48 + n % 10]
  }

  /** The value of a run of decimal digits, most significant first. */
  function DecimalValue(s: Text): nat
    requires forall i | 0 <= i < |s| :: 48 <= s[i] <= 57
  {
    if s == [] then 0 else DecimalValue(s[..|s| - 1]) * 10 + (s[|s| - 1] - 48)
  }

  lemma {:induction false} DecimalRoundTrip(n: nat)
    ensures DecimalValue(Decimal(n)) == n
  {
    if n >= 10 {
      DecimalRoundTrip(n / 10);
      var s := Decimal(n);
      assert s[..|s| - 1] == Decimal(n / 10);
    } else {
      assert Decimal(n)[..0] == [];
    }
  }

  // ----- the prologue and the version field

  function PrologueOf(version: nat): Text {
    Ascii("Tailscale Control Protocol v") + Decimal(version)
  }

  /** The two version bytes that open an initiation frame. */
  function VersionField(version: nat): seq<byte>
    requires version < 0x1_0000
  {
    U16Be(version)
  }

  /** What a conforming responder mixes in, knowing only the frame it received. */
  function ResponderPrologue(frame: seq<byte>): Text
    requires |frame| >= 2
  {
    PrologueOf(U16FromBe(frame[0], frame[1]))
  }

  /** Both ends mix the same prologue, whatever follows the version field. */
  lemma ProloguesAgree(version: nat, rest: seq<byte>)
    requires version < 0x1_0000
    ensures ResponderPrologue(VersionField(version) + rest) == PrologueOf(version)
  {
  }

  /** A version mismatch always shows in the prologue. */
  lemma ProloguesDistinct(v1: nat, v2: nat)
    ensures PrologueOf(v1) == PrologueOf(v2) <==> v1 == v2
  {
    var tag := Ascii("Tailscale Control Protocol v");
    assert PrologueOf(v1)[|tag|..] == Decimal(v1);
    assert PrologueOf(v2)[|tag|..] == Decimal(v2);
    DecimalRoundTrip(v1);
    DecimalRoundTrip(v2);
  }

  /** A responder that read the field little-endian would agree exactly on the palindromic
    * versions; for the advertised version it would not.
    */
  lemma LittleEndianReaderDisagrees(version: nat, rest: seq<byte>)
    requires version < 0x1_0000
    ensures var frame := VersionField(version) + rest;
            PrologueOf(U16FromBe(frame[1], frame[0])) == PrologueOf(version) <==> version / 256 == version % 256
    ensures CAPABILITY_VERSION / 256 != CAPABILITY_VERSION % 256
  {
    var frame := VersionField(version) + rest;
    ProloguesDistinct(U16FromBe(frame[1], frame[0]), version);
  }
}
