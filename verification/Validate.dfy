/** Well-formedness of server-supplied fields: crates/dictyon/src/control/validate.rs.
  *
  * The standard library's address parsers are a parameter, so everything below holds for
  * any pair of parsers; laws they must obey are stated where a proof needs them.
  */
module Validate {
  import opened Prelude
  import opened Keys
  import Capability

  datatype Family = V4 | V6

  datatype AddrParsers = AddrParsers(parseIp: Text -> Option<Family>, parseSocket: Text -> bool)

  const SLASH: byte := 47

  /** An IP address never contains a slash. */
  ghost predicate AddressesHaveNoSlash(ps: AddrParsers) {
    forall s: Text :: ps.parseIp(s).Some? ==> SLASH !in s
  }

  // ----- u8 parsing

  predicate AllDigits(s: Text) {
    forall i | 0 <= i < |s| :: '0' as int <= s[i] <= '9' as int
  }

  /** `str::parse::<u8>`: an optional plus sign, then at least one digit, no overflow. */
  function ParseU8(s: Text): Option<nat> {
    var digits := if |s| > 0 && s[0] == 43 then s[1..] else s;
    if digits == [] || !AllDigits(digits) then None
    else if Capability.DecimalValue(digits) <= 255 then Some(Capability.DecimalValue(digits))
    else None
  }

  /** Parsing undoes rendering up to 255 and refuses every larger number. */
  lemma ParseU8OfDecimal(n: nat)
    ensures ParseU8(Capability.Decimal(n)) == if n <= 255 then Some(n) else None
  {
    Capability.DecimalRoundTrip(n);
  }

  /** A sign or none, at least one digit, and at most `max`. */
  predicate IsNumberUpTo(s: Text, max: nat) {
    var digits := if |s| > 0 && s[0] == '+' as int then s[1..] else s;
    |digits| > 0 && AllDigits(digits) && Capability.DecimalValue(digits) <= max
  }

  /** Exactly those texts parse, up to 255. */
  lemma ParsedNumbers(s: Text, max: nat)
    requires max <= 255
    ensures ParseU8(s).Some? && ParseU8(s).value <= max <==> IsNumberUpTo(s, max)
  {
  }

  lemma ParsedHasNoSlash(s: Text)
    requires ParseU8(s).Some?
    ensures SLASH !in s
  {
    if s[0] == 43 {
      assert s == [s[0]] + s[1..];
    }
  }

  // ----- CIDR

  function FirstIndexOf(s: Text, b: byte): (r: Option<nat>)
    ensures r.None? <==> b !in s
    ensures r.Some? ==> r.value < |s| && s[r.value] == b && b !in s[..r.value]
  {
    if s == [] then None
    else if s[0] == b then Some(0)
    else
      var rest := FirstIndexOf(s[1..], b);
      if rest.None? then None
      else
        assert s[..1 + rest.value] == [s[0]] + s[1..][..rest.value];
        Some(1 + rest.value)
  }

  function MaxPrefix(f: Family): nat {
    match f case V4 => 32 case V6 => 128
  }

  /** Is `s` an address, a slash at `i`, and a prefix length the address family allows? */
  predicate IsCidrSplitAt(ps: AddrParsers, s: Text, i: nat) {
    && i < |s|
    && s[i] == SLASH
    && ps.parseIp(s[..i]).Some?
    && ParseU8(s[i + 1..]).Some?
    && ParseU8(s[i + 1..]).value <= MaxPrefix(ps.parseIp(s[..i]).value)
  }

  /** Splits at the first slash only. */
  function IsValidCidr(ps: AddrParsers, s: Text): bool {
    match FirstIndexOf(s, SLASH)
    case None => false
    case Some(i) =>
      match ps.parseIp(s[..i])
      case None => false
      case Some(family) =>
        match ParseU8(s[i + 1..])
        case None => false
        case Some(prefix) => prefix <= MaxPrefix(family)
  }

  /** Where a text splits, it has its only slash. */
  lemma SplitSlashIsOnly(ps: AddrParsers, s: Text, i: nat, j: nat)
    requires AddressesHaveNoSlash(ps) && IsCidrSplitAt(ps, s, i)
    requires j < |s| && s[j] == SLASH
    ensures i == j
  {
    assert SLASH !in s[..i];
    if i < j {
      assert s[i + 1..][j - i - 1] == SLASH;
      ParsedHasNoSlash(s[i + 1..]);
    }
  }

  /** Trying only the first slash loses nothing: a text is accepted exactly when it splits
    * into address and prefix length at some slash.
    */
  lemma FirstSlashIsEnough(ps: AddrParsers, s: Text)
    requires AddressesHaveNoSlash(ps)
    ensures IsValidCidr(ps, s) <==> exists i: nat :: IsCidrSplitAt(ps, s, i)
  {
    var first := FirstIndexOf(s, SLASH);
    if first.Some? {
      assert IsValidCidr(ps, s) <==> IsCidrSplitAt(ps, s, first.value);
      if i: nat :| IsCidrSplitAt(ps, s, i) {
        SplitSlashIsOnly(ps, s, i, first.value);
      }
    }
  }

  /** An address with a rendered prefix length is accepted exactly when the family allows it. */
  lemma RenderedCidr(ps: AddrParsers, addr: Text, n: nat)
    requires AddressesHaveNoSlash(ps)
    ensures IsValidCidr(ps, addr + [SLASH] + Capability.Decimal(n)) <==>
            ps.parseIp(addr).Some? && n <= if ps.parseIp(addr).value.V4? then 32 else 128
  {
    var s := addr + [SLASH] + Capability.Decimal(n);
    ParseU8OfDecimal(n);
    assert s[..|addr|] == addr && s[|addr| + 1..] == Capability.Decimal(n);
    FirstSlashIsEnough(ps, s);
    if i: nat :| IsCidrSplitAt(ps, s, i) {
      SplitSlashIsOnly(ps, s, i, |addr|);
    }
    if ps.parseIp(addr).Some? && n <= MaxPrefix(ps.parseIp(addr).value) {
      assert IsCidrSplitAt(ps, s, |addr|);
    }
  }

  // ----- nodes and resolvers

  datatype Node = Node(
    id: int,
    stableId: Option<Text>,
    key: Text,
    machine: Option<Text>,
    name: Text,
    cap: Option<nat>,
    tags: Option<seq<Text>>,
    addresses: seq<Text>,
    allowedIps: Option<seq<Text>>,
    endpoints: Option<seq<Text>>,
    derp: Option<Text>,
    discoKey: Option<Text>,
    keyExpiry: Option<Text>,
    lastSeen: Option<Text>,
    online: Option<bool>)

  datatype DnsResolver = DnsResolver(addr: Text)

  predicate IsValidNodeKey(s: Text) { IsKeyText(NodeKey, s) }

  predicate IsValidDiscoKey(s: Text) { IsKeyText(Disco, s) }

  predicate AreValidCidrs(ps: AddrParsers, ss: seq<Text>) {
    forall i | 0 <= i < |ss| :: IsValidCidr(ps, ss[i])
  }

  predicate AreValidEndpoints(ps: AddrParsers, ss: seq<Text>) {
    forall i | 0 <= i < |ss| :: ps.parseSocket(ss[i])
  }

  predicate NodeIsValid(ps: AddrParsers, n: Node) {
    && IsValidNodeKey(n.key)
    && (n.machine.Some? ==> IsKeyText(Machine, n.machine.value))
    && (n.discoKey.Some? ==> IsValidDiscoKey(n.discoKey.value))
    && AreValidCidrs(ps, n.addresses)
    && (n.allowedIps.Some? ==> AreValidCidrs(ps, n.allowedIps.value))
    && (n.endpoints.Some? ==> AreValidEndpoints(ps, n.endpoints.value))
  }

  predicate ResolverIsValid(ps: AddrParsers, r: DnsResolver) {
    ps.parseIp(r.addr).Some? || ps.parseSocket(r.addr)
  }

  // ----- what validity means, field by field

  /** An address, a slash at `i`, and a number up to 32 or 128 by the family of the address. */
  predicate IsCidrTextAt(ps: AddrParsers, s: Text, i: nat) {
    && i < |s| && s[i] == '/' as int && ps.parseIp(s[..i]).Some?
    && IsNumberUpTo(s[i + 1..], if ps.parseIp(s[..i]).value.V4? then 32 else 128)
  }

  ghost predicate IsCidrText(ps: AddrParsers, s: Text) {
    exists i: nat :: IsCidrTextAt(ps, s, i)
  }

  ghost predicate IsWellFormed(ps: AddrParsers, n: Node) {
    && IsHexKey("nodekey:", n.key)
    && (n.machine.Some? ==> IsHexKey("mkey:", n.machine.value))
    && (n.discoKey.Some? ==> IsHexKey("discokey:", n.discoKey.value))
    && (forall a | a in n.addresses :: IsCidrText(ps, a))
    && (n.allowedIps.Some? ==> forall a | a in n.allowedIps.value :: IsCidrText(ps, a))
    && (n.endpoints.Some? ==> forall e | e in n.endpoints.value :: ps.parseSocket(e))
  }

  lemma CidrTextAt(ps: AddrParsers, s: Text, i: nat)
    ensures IsCidrTextAt(ps, s, i) <==> IsCidrSplitAt(ps, s, i)
  {
    if i < |s| {
      ParsedNumbers(s[i + 1..], 32);
      ParsedNumbers(s[i + 1..], 128);
    }
  }

  lemma CidrTexts(ps: AddrParsers, s: Text)
    ensures IsValidCidr(ps, s) ==> IsCidrText(ps, s)
    ensures AddressesHaveNoSlash(ps) && IsCidrText(ps, s) ==> IsValidCidr(ps, s)
  {
    if IsValidCidr(ps, s) {
      CidrTextAt(ps, s, FirstIndexOf(s, SLASH).value);
    }
    if AddressesHaveNoSlash(ps) && IsCidrText(ps, s) {
      var i: nat :| IsCidrTextAt(ps, s, i);
      CidrTextAt(ps, s, i);
      FirstSlashIsEnough(ps, s);
    }
  }

  /** A node that passes the check is well-formed, and the other way round. */
  lemma ValidIsWellFormed(ps: AddrParsers, n: Node)
    ensures NodeIsValid(ps, n) ==> IsWellFormed(ps, n)
    ensures AddressesHaveNoSlash(ps) && IsWellFormed(ps, n) ==> NodeIsValid(ps, n)
  {
    hide IsHexKey, IsKeyText, IsValidCidr, IsCidrText, AddressesHaveNoSlash;
    AcceptedTexts(NodeKey, n.key);
    if n.machine.Some? { AcceptedTexts(Machine, n.machine.value); }
    if n.discoKey.Some? { AcceptedTexts(Disco, n.discoKey.value); }
    forall s: Text { CidrTexts(ps, s); }
  }
}
