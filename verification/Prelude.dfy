/** Types and small sequence facts shared by every part of the model. */
module Prelude {

  /** An octet. Arithmetic on it is integer arithmetic; widths are written out where they matter. */
  type byte = x: int | 0 <= x < 256

  /** A Rust string, as the bytes of its UTF-8 encoding. Two strings are equal iff these are. */
  type Text = seq<byte>

  datatype Option<+T> = None | Some(value: T)

  datatype Result<+T, +E> = Ok(value: T) | Err(error: E)

  predicate IsAscii(s: string) {
    forall i | 0 <= i < |s| :: s[i] as int < 128
  }

  /** The bytes of an ASCII literal. */
  function Ascii(s: string): (t: Text)
    requires IsAscii(s)
    ensures |t| == |s|
    ensures forall i | 0 <= i < |s| :: t[i] == s[i] as int
  {
    seq(|s|, i requires 0 <= i < |s| => s[i] as int)
  }

  /** Big-endian encoding of a 16-bit length or version. */
  function U16Be(n: nat): (b: seq<byte>)
    requires n < 0x1_0000
    ensures |b| == 2 && b[0] as int * 256 + b[1] == n
  {
    [n / 256, n % 256]
  }

  function U16FromBe(hi: byte, lo: byte): (n: nat)
    ensures n < 0x1_0000
    ensures U16Be(n) == [hi, lo]
  {
    256 * hi as int + lo
  }

  /** Little-endian encoding of a 32-bit length. */
  function U32Le(n: nat): (b: seq<byte>)
    requires n < 0x1_0000_0000
    ensures |b| == 4 && U32FromLe(b) == n
    ensures b[0] as int + 0x100 * b[1] as int + 0x1_0000 * b[2] as int + 0x100_0000 * b[3] as int == n
  {
    var n1 := n / 256;
    var n2 := n1 / 256;
    [n % 256, n1 % 256, n2 % 256, n2 / 256]
  }

  function U32FromLe(b: seq<byte>): (n: nat)
    requires |b| == 4
    ensures n < 0x1_0000_0000
  {
    b[0] as int + 256 * (b[1] as int + 256 * (b[2] as int + 256 * b[3] as int))
  }

  /** Little-endian digits to base 256. */
  function Digits(n: nat, width: nat): (b: seq<byte>)
    ensures |b| == width
  {
    if width == 0 then [] else [n % 256] + Digits(n / 256, width - 1)
  }

  lemma {:induction false} DigitsDistinguish(n: nat, m: nat, width: nat)
    requires width >= 8 && n < 0x1_0000_0000_0000_0000 && m < 0x1_0000_0000_0000_0000 && n != m
    ensures Digits(n, width) != Digits(m, width)
  {
    assert Power256(4) == 0x1_0000_0000;
    assert Power256(8) == 256 * (256 * (256 * (256 * Power256(4))));
    DigitsDiffer(n, m, width, 0x1_0000_0000_0000_0000, 8);
  }

  lemma {:induction false} DigitsDiffer(n: nat, m: nat, width: nat, bound: nat, places: nat)
    requires places <= width && n < bound && m < bound && n != m
    requires bound == Power256(places)
    ensures Digits(n, width) != Digits(m, width)
    decreases places
  {
    var a, b := Digits(n, width), Digits(m, width);
    if n % 256 == m % 256 {
      DigitsDiffer(n / 256, m / 256, width - 1, Power256(places - 1), places - 1);
      assert a[1..] == Digits(n / 256, width - 1) && b[1..] == Digits(m / 256, width - 1);
    } else {
      assert a[0] != b[0];
    }
  }

  function Power256(places: nat): nat {
    if places == 0 then 1 else 256 * Power256(places - 1)
  }

  predicate OccursAt<T(==)>(s: seq<T>, part: seq<T>, i: int) {
    0 <= i <= |s| - |part| && s[i..i + |part|] == part
  }

  /** Is `part` a contiguous piece of `s`? */
  predicate Contains<T(==)>(s: seq<T>, part: seq<T>)
    ensures Contains(s, part) <==> exists i :: OccursAt(s, part, i)
  {
    if |part| > |s| then false
    else if s[..|part|] == part then
      assert OccursAt(s, part, 0);
      true
    else if s == [] then false
    else
      assert !OccursAt(s, part, 0);
      OccursInTail(s, part);
      Contains(s[1..], part)
  }

  lemma OccursInTail<T>(s: seq<T>, part: seq<T>)
    requires s != []
    ensures forall i | i >= 0 :: OccursAt(s[1..], part, i) <==> OccursAt(s, part, i + 1)
    ensures forall i | i > 0 && OccursAt(s, part, i) :: OccursAt(s[1..], part, i - 1)
  {
  }

  lemma ConcatAssociates<T>(a: seq<T>, b: seq<T>, c: seq<T>)
    ensures a + b + c == a + (b + c)
  {
  }

  function Max(a: nat, b: nat): (m: nat)
    ensures m >= a && m >= b && (m == a || m == b)
  {
    if a < b then b else a
  }

  function Min(a: nat, b: nat): (m: nat)
    ensures m <= a && m <= b && (m == a || m == b)
  {
    if a < b then a else b
  }

  // ----- the last of many offers

  /** The last thing offered, over the entries that offer one. */
  function Latest<A, T>(offer: A -> Option<T>, s: seq<A>): (r: Option<T>)
    ensures r.None? <==> forall i | 0 <= i < |s| :: offer(s[i]).None?
    ensures r.Some? ==> exists i | 0 <= i < |s| :: offer(s[i]) == r && forall j | i < j < |s| :: offer(s[j]).None?
  {
    if s == [] then None
    else if offer(s[|s| - 1]).Some? then offer(s[|s| - 1])
    else Latest(offer, s[..|s| - 1])
  }

  lemma LatestSnoc<A, T>(offer: A -> Option<T>, s: seq<A>, x: A)
    ensures Latest(offer, s + [x]) == if offer(x).Some? then offer(x) else Latest(offer, s)
  {
    assert (s + [x])[..|s|] == s;
  }

  predicate Passes<T>(offered: Option<T>, ok: T -> bool) { offered.Some? && ok(offered.value) }

  /** `now` is the last offer that passes or, if none does, what was there before. */
  ghost predicate TakesLast<A, T>(s: seq<A>, offer: A -> Option<T>, ok: T -> bool, before: Option<T>, now: Option<T>) {
    || (now == before && forall i | 0 <= i < |s| :: !Passes(offer(s[i]), ok))
    || (exists i | 0 <= i < |s| ::
          offer(s[i]) == now && Passes(now, ok) && forall j | i < j < |s| :: !Passes(offer(s[j]), ok))
  }

  /** Filtering the offers first comes to the same. */
  lemma TakesLatest<A, T>(s: seq<A>, offer: A -> Option<T>, ok: T -> bool, filtered: A -> Option<T>, before: Option<T>)
    requires forall i | 0 <= i < |s| :: filtered(s[i]) == if Passes(offer(s[i]), ok) then offer(s[i]) else None
    ensures TakesLast(s, offer, ok, before, if Latest(filtered, s).Some? then Latest(filtered, s) else before)
  {
    var last := Latest(filtered, s);
    if last.Some? {
      var i :| 0 <= i < |s| && filtered(s[i]) == last && forall j | i < j < |s| :: filtered(s[j]).None?;
      assert offer(s[i]) == last && Passes(last, ok);
    }
  }

  // ----- selections

  /** The entries that pass, in order: what `retain` and `filter` leave. */
  function Select<T>(s: seq<T>, keep: T -> bool): seq<T> {
    if s == [] then []
    else Select(s[..|s| - 1], keep) + if keep(s[|s| - 1]) then [s[|s| - 1]] else []
  }

  /** `out` is the entries of `s` at the increasing positions `at`. */
  ghost predicate IsSelection<T>(s: seq<T>, out: seq<T>, at: seq<nat>) {
    && |at| == |out|
    && (forall a, b | 0 <= a < b < |at| :: at[a] < at[b])
    && (forall a | 0 <= a < |at| :: at[a] < |s| && out[a] == s[at[a]])
  }

  /** A selection keeps exactly the passing positions and their order. */
  lemma {:induction false} SelectInOrder<T>(s: seq<T>, keep: T -> bool) returns (at: seq<nat>)
    ensures IsSelection(s, Select(s, keep), at)
    ensures forall i: nat | i < |s| :: i in at <==> keep(s[i])
    ensures forall i: nat | i in at :: i < |s|
  {
    at := [];
    if s != [] {
      var init, x := s[..|s| - 1], s[|s| - 1];
      var front := SelectInOrder(init, keep);
      assert s == init + [x];
      SelectionSnoc(init, x, Select(init, keep), front);
      MembersSnoc(front, |init|);
      hide IsSelection;
      at := if keep(x) then front + [|init|] else front;
      forall i: nat | i < |s| ensures i in at <==> keep(s[i]) {
        if i < |init| {
          assert init[i] == s[i];
        }
      }
    }
  }

  lemma MembersSnoc<T>(s: seq<T>, x: T)
    ensures forall y :: y in s + [x] <==> y in s || y == x
  {
  }

  lemma SelectionSnoc<T>(s: seq<T>, x: T, out: seq<T>, at: seq<nat>)
    requires IsSelection(s, out, at)
    ensures IsSelection(s + [x], out, at)
    ensures IsSelection(s + [x], out + [x], at + [|s|])
  {
  }

  lemma {:induction false} SelectMembers<T>(s: seq<T>, keep: T -> bool)
    ensures forall x | x in Select(s, keep) :: x in s && keep(x)
    ensures forall x | x in s && keep(x) :: x in Select(s, keep)
    ensures |Select(s, keep)| <= |s|
  {
    if s != [] {
      SelectMembers(s[..|s| - 1], keep);
      assert s == s[..|s| - 1] + [s[|s| - 1]];
    }
  }

  lemma {:induction false} SelectAll<T>(s: seq<T>, keep: T -> bool)
    requires forall i | 0 <= i < |s| :: keep(s[i])
    ensures Select(s, keep) == s
  {
    if s != [] {
      SelectAll(s[..|s| - 1], keep);
    }
  }

  lemma {:induction false} SelectNone<T>(s: seq<T>, keep: T -> bool)
    requires forall i | 0 <= i < |s| :: !keep(s[i])
    ensures Select(s, keep) == []
  {
    if s != [] {
      SelectNone(s[..|s| - 1], keep);
    }
  }

  lemma {:induction false} SelectConcat<T>(s: seq<T>, t: seq<T>, keep: T -> bool)
    ensures Select(s + t, keep) == Select(s, keep) + Select(t, keep)
  {
    if t == [] {
      assert s + t == s;
    } else {
      var init, x := t[..|t| - 1], t[|t| - 1];
      SelectConcat(s, init, keep);
      assert (s + t)[..|s + t| - 1] == s + init;
    }
  }
}
