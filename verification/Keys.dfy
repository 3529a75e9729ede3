/** Typed hexadecimal keys: crates/mitos/src/keys.rs.
  *
  * Strings are UTF-8 bytes here because the decoder works on bytes: lengths and offsets
  * in its errors are byte counts, and a non-ASCII character fails on its first byte.
  */
module Keys {
  import opened Prelude

  const KEY_LEN := 32

  /** The three public-key kinds generated by the `key_pair!` macro. */
  datatype KeyKind = Machine | NodeKey | Disco

  function Prefix(kind: KeyKind): Text {
    match kind
    case Machine => Ascii("mkey:")
    case NodeKey => Ascii("nodekey:")
    case Disco => Ascii("discokey:")
  }

  datatype KeyError =
    | MissingPrefix(prefix: Text)
    | OddHexLength(len: nat)
    | InvalidHexDigit(digit: byte, offset: nat)
    | WrongLength(expected: nat, actual: nat)

  // ----- digits

  predicate IsHexDigit(b: byte) {
    48 <= b <= 57 || 97 <= b <= 102 || 65 <= b <= 70
  }

  function HexNibble(b: byte, offset: nat): (r: Result<byte, KeyError>)
    ensures r.Ok? <==> IsHexDigit(b)
    ensures r.Ok? ==> r.value < 16
    ensures r.Err? ==> r.error == InvalidHexDigit(b, offset)
  {
    if 48 <= b <= 57 then Ok(b - 48)
    else if 97 <= b <= 102 then Ok(b - 97 + 10)
    else if 65 <= b <= 70 then Ok(b - 65 + 10)
    else Err(InvalidHexDigit(b, offset))
  }

  /** The lower-case digit table. */
  function LowerDigit(nibble: nat): (b: byte)
    requires nibble < 16
    ensures IsHexDigit(b) && HexNibble(b, 0) == Ok(nibble)
    ensures forall d: byte | HexNibble(d, 0) == Ok(nibble) :: Lowered(d) == b
  {
    if nibble < 10 then 48 + nibble else 97 + nibble - 10
  }

  /** ASCII lower-casing of one byte. */
  function Lowered(b: byte): byte {
    if 65 <= b <= 90 then b + 32 else b
  }

  function LoweredText(s: Text): (r: Text)
    ensures |r| == |s|
  {
    seq(|s|, i requires 0 <= i < |s| => Lowered(s[i]))
  }

  // ----- what the two loops compute

  /** Digit `i` of the encoding is the high or the low nibble of byte `i / 2`. */
  function Encoded(bytes: seq<byte>): (s: Text)
    ensures |s| == 2 * |bytes|
  {
    seq(2 * |bytes|, i requires 0 <= i < 2 * |bytes| =>
      LowerDigit(if i % 2 == 0 then bytes[i / 2] / 16 else bytes[i / 2] % 16))
  }

  predicate AllHex(s: Text) {
    forall i | 0 <= i < |s| :: IsHexDigit(s[i])
  }

  /** The leftmost offset that is not a hex digit. */
  ghost predicate IsLeftmostBad(s: Text, offset: nat) {
    && offset < |s|
    && !IsHexDigit(s[offset])
    && AllHex(s[..offset])
  }

  function LeftmostBad(s: Text): (offset: nat)
    requires !AllHex(s)
    ensures IsLeftmostBad(s, offset)
  {
    if !IsHexDigit(s[0]) then 0
    else
      var rest := LeftmostBad(s[1..]);
      assert s[..1 + rest] == [s[0]] + s[1..][..rest];
      1 + rest
  }

  /** The value of a text of `2n` hex digits. */
  function DecodedBytes(n: nat, s: Text): (bytes: seq<byte>)
    requires |s| == 2 * n && AllHex(s)
    ensures |bytes| == n
  {
    seq(n, i requires 0 <= i < n => HexNibble(s[2 * i], 0).value * 16 + HexNibble(s[2 * i + 1], 0).value)
  }

  /** The outcome of decoding: the length checks come first, then the leftmost bad digit. */
  function Decoded(n: nat, s: Text): (r: Result<seq<byte>, KeyError>) {
    if |s| % 2 != 0 then Err(OddHexLength(|s|))
    else if |s| / 2 != n then Err(WrongLength(n, |s| / 2))
    else if !AllHex(s) then Err(InvalidHexDigit(s[LeftmostBad(s)], LeftmostBad(s)))
    else Ok(DecodedBytes(n, s))
  }

  // ----- the loops

  method HexEncode(bytes: seq<byte>) returns (s: Text)
    ensures s == Encoded(bytes)
  {
    s := [];
    for k := 0 to |bytes|
      invariant s == Encoded(bytes)[..2 * k]
    {
      var hi := LowerDigit(bytes[k] / 16);
      var lo := LowerDigit(bytes[k] % 16);
      s := s + [hi] + [lo];
    }
  }

  method HexDecodeExact(n: nat, s: Text) returns (r: Result<seq<byte>, KeyError>)
    ensures r == Decoded(n, s)
  {
    if |s| % 2 != 0 {
      return Err(OddHexLength(|s|));
    }
    if |s| / 2 != n {
      return Err(WrongLength(n, |s| / 2));
    }
    var out := new byte[n];
    for k := 0 to n
      invariant AllHex(s[..2 * k])
      invariant forall j | 0 <= j < k :: out[j] == HexNibble(s[2 * j], 0).value * 16 + HexNibble(s[2 * j + 1], 0).value
    {
      var hi := HexNibble(s[2 * k], 2 * k);
      if hi.Err? {
        LeftmostBadIsUnique(s, 2 * k);
        return Err(hi.error);
      }
      var lo := HexNibble(s[2 * k + 1], 2 * k + 1);
      if lo.Err? {
        assert AllHex(s[..2 * k + 1]);
        LeftmostBadIsUnique(s, 2 * k + 1);
        return Err(lo.error);
      }
      out[k] := hi.value * 16 + lo.value;
    }
    assert s[..2 * n] == s;
    r := Ok(out[..]);
    assert r.value == DecodedBytes(n, s);
  }

  lemma LeftmostBadIsUnique(s: Text, offset: nat)
    requires IsLeftmostBad(s, offset)
    ensures !AllHex(s) && LeftmostBad(s) == offset
  {
  }

  // ----- typed keys

  function ToHex(kind: KeyKind, key: seq<byte>): Text {
    Prefix(kind) + Encoded(key)
  }

  predicate HasPrefix(s: Text, prefix: Text) {
    prefix <= s
  }

  function FromHex(kind: KeyKind, s: Text): Result<seq<byte>, KeyError> {
    if !HasPrefix(s, Prefix(kind)) then Err(MissingPrefix(Prefix(kind)))
    else Decoded(KEY_LEN, s[|Prefix(kind)|..])
  }

  predicate IsKeyText(kind: KeyKind, s: Text) {
    FromHex(kind, s).Ok?
  }

  // ----- properties

  /** Decoding undoes encoding for every byte string, hence for every key. */
  lemma EncodeThenDecode(bytes: seq<byte>)
    ensures Decoded(|bytes|, Encoded(bytes)) == Ok(bytes)
  {
    var s := Encoded(bytes);
    var d := DecodedBytes(|bytes|, s);
    forall i | 0 <= i < |bytes| ensures d[i] == bytes[i] {
      assert s[2 * i] == LowerDigit(bytes[i] / 16);
      assert s[2 * i + 1] == LowerDigit(bytes[i] % 16);
      assert d[i] == HexNibble(s[2 * i], 0).value * 16 + HexNibble(s[2 * i + 1], 0).value;
      assert HexNibble(s[2 * i], 0).value == bytes[i] / 16;
    }
    assert d == bytes;
  }

  lemma KeyRoundTrip(kind: KeyKind, key: seq<byte>)
    requires |key| == KEY_LEN
    ensures FromHex(kind, ToHex(kind, key)) == Ok(key)
  {
    EncodeThenDecode(key);
    assert ToHex(kind, key)[|Prefix(kind)|..] == Encoded(key);
  }

  /** A prefix and exactly 64 digits of either case. */
  predicate IsHexKey(prefix: string, s: Text)
    requires IsAscii(prefix)
  {
    && |s| == |prefix| + 64
    && s[..|prefix|] == Ascii(prefix)
    && forall i | |prefix| <= i < |s| :: '0' as int <= s[i] <= '9' as int
                                         || 'a' as int <= s[i] <= 'f' as int || 'A' as int <= s[i] <= 'F' as int
  }

  /** The values of the digits, of both cases, and the case that is written. */
  lemma DigitValues(v: nat)
    requires v < 16
    ensures HexNibble("0123456789abcdef"[v] as int, 0) == Ok(v)
    ensures HexNibble("0123456789ABCDEF"[v] as int, 0) == Ok(v)
    ensures LowerDigit(v) == "0123456789abcdef"[v] as int
  {
  }

  /** Acceptance, in full: the prefix of that kind, then exactly 64 digits of either case. */
  lemma AcceptedTexts(kind: KeyKind, s: Text)
    ensures kind == Machine ==> (IsKeyText(kind, s) <==> IsHexKey("mkey:", s))
    ensures kind == NodeKey ==> (IsKeyText(kind, s) <==> IsHexKey("nodekey:", s))
    ensures kind == Disco ==> (IsKeyText(kind, s) <==> IsHexKey("discokey:", s))
  {
    AcceptedByForm(kind, s);
    if |Prefix(kind)| <= |s| {
      HexSuffix(s, |Prefix(kind)|);
    }
    hide AllHex, IsKeyText;
  }

  lemma HexSuffix(s: Text, n: nat)
    requires n <= |s|
    ensures AllHex(s[n..]) <==> forall i | n <= i < |s| :: IsHexDigit(s[i])
  {
    var t := s[n..];
    assert forall i | 0 <= i < |t| :: t[i] == s[n + i];
    assert forall i | n <= i < |s| :: s[i] == t[i - n];
  }

  /** A key has 32 bytes, and the high digit of each comes first. */
  lemma KeyBytes(kind: KeyKind, s: Text, i: nat)
    requires IsKeyText(kind, s) && i < 32
    ensures var n, key := |Prefix(kind)|, FromHex(kind, s).value;
            && |key| == 32 && |s| == n + 64
            && key[i] == 16 * HexNibble(s[n + 2 * i], 0).value + HexNibble(s[n + 2 * i + 1], 0).value
  {
  }

  lemma AcceptedByForm(kind: KeyKind, s: Text)
    ensures IsKeyText(kind, s) <==>
            && |s| == |Prefix(kind)| + 2 * KEY_LEN
            && s[..|Prefix(kind)|] == Prefix(kind)
            && AllHex(s[|Prefix(kind)|..])
  {
  }

  /** The other errors: no prefix, an odd number of digits, an even number other than 64. */
  lemma LengthErrors(kind: KeyKind, s: Text, n: nat)
    ensures FromHex(kind, s) == Err(MissingPrefix(Prefix(kind))) <==> !(Prefix(kind) <= s)
    ensures FromHex(kind, s) == Err(OddHexLength(n)) <==>
            Prefix(kind) <= s && |s| == |Prefix(kind)| + n && n % 2 == 1
    ensures FromHex(kind, s) == Err(WrongLength(32, n)) <==>
            Prefix(kind) <= s && |s| == |Prefix(kind)| + 2 * n && n != 32
  {
  }

  /** Re-encoding a decoded key gives the text back with its digits in lower case. */
  lemma DecodeThenEncode(kind: KeyKind, s: Text)
    requires IsKeyText(kind, s)
    ensures ToHex(kind, FromHex(kind, s).value) == Prefix(kind) + LoweredText(s[|Prefix(kind)|..])
  {
    var digits := s[|Prefix(kind)|..];
    var key := DecodedBytes(KEY_LEN, digits);
    forall i | 0 <= i < 2 * KEY_LEN ensures Encoded(key)[i] == LoweredText(digits)[i] {
      DigitComesBack(digits, i);
    }
    assert Encoded(key) == LoweredText(digits);
  }

  lemma DigitComesBack(digits: Text, i: nat)
    requires |digits| == 2 * KEY_LEN && AllHex(digits) && i < 2 * KEY_LEN
    ensures Encoded(DecodedBytes(KEY_LEN, digits))[i] == Lowered(digits[i])
  {
    var key := DecodedBytes(KEY_LEN, digits);
    var hi, lo := HexNibble(digits[2 * (i / 2)], 0), HexNibble(digits[2 * (i / 2) + 1], 0);
    assert key[i / 2] == hi.value * 16 + lo.value;
    assert key[i / 2] / 16 == hi.value && key[i / 2] % 16 == lo.value;
    assert i == 2 * (i / 2) || i == 2 * (i / 2) + 1;
  }

  /** Two texts decode to the same key exactly when they differ only in digit case. */
  lemma SameKeyIffSameUpToCase(kind: KeyKind, s: Text, t: Text)
    requires IsKeyText(kind, s) && IsKeyText(kind, t)
    ensures FromHex(kind, s) == FromHex(kind, t) <==>
            LoweredText(s[|Prefix(kind)|..]) == LoweredText(t[|Prefix(kind)|..])
  {
    var p := Prefix(kind);
    DecodeThenEncode(kind, s);
    DecodeThenEncode(kind, t);
    var a, b := FromHex(kind, s).value, FromHex(kind, t).value;
    if LoweredText(s[|p|..]) == LoweredText(t[|p|..]) {
      KeyRoundTrip(kind, a);
      KeyRoundTrip(kind, b);
    } else {
      assert ToHex(kind, a)[|p|..] == LoweredText(s[|p|..]);
      assert ToHex(kind, b)[|p|..] == LoweredText(t[|p|..]);
    }
  }

  /** The reported offset is the leftmost digit at fault, and nothing is reported otherwise. */
  lemma DigitErrorIsLeftmost(kind: KeyKind, s: Text, offset: nat, digit: byte)
    ensures FromHex(kind, s) == Err(InvalidHexDigit(digit, offset)) <==>
            && |s| == |Prefix(kind)| + 2 * KEY_LEN
            && s[..|Prefix(kind)|] == Prefix(kind)
            && IsLeftmostBad(s[|Prefix(kind)|..], offset)
            && s[|Prefix(kind)| + offset] == digit
  {
    var p := Prefix(kind);
    if |s| >= |p| {
      assert HasPrefix(s, p) <==> s[..|p|] == p;
      var digits := s[|p|..];
      if IsLeftmostBad(digits, offset) {
        LeftmostBadIsUnique(digits, offset);
      }
    }
  }

  /** The prefixes keep the kinds apart: no text is a key of two kinds. */
  lemma KindsAreDisjoint(k1: KeyKind, k2: KeyKind, s: Text)
    requires IsKeyText(k1, s) && IsKeyText(k2, s)
    ensures k1 == k2
  {
  }
}
