/** Canonical identities: ULIDs, prefixed identities and their order. */
module Identities {
  import opened Wrappers

  const CROCKFORD := "0123456789ABCDEFGHJKMNPQRSTVWXYZ"
  const MAX_ULID_TIMESTAMP := 0xffff_ffff_ffff

  type Byte = b: int | 0 <= b < 256

  // ---- Code point order ----

  /** Negative, zero or positive as `a` comes before, equals or comes after `b`. */
  function CodePointOrder(a: string, b: string): int {
    if a == [] || b == [] then |a| - |b|
    else if a[0] != b[0] then a[0] as int - b[0] as int
    else CodePointOrder(a[1..], b[1..])
  }

  predicate Before(a: string, b: string) { CodePointOrder(a, b) < 0 }

  method CompareCodePoints(a: string, b: string) returns (difference: int)
    ensures difference == CodePointOrder(a, b)
  {
    var index := 0;
    while index < |a| && index < |b|
      invariant index <= |a| && index <= |b|
      invariant CodePointOrder(a, b) == CodePointOrder(a[index..], b[index..])
    {
      if a[index] != b[index] {
        return a[index] as int - b[index] as int;
      }
      assert a[index..][1..] == a[index + 1..] && b[index..][1..] == b[index + 1..];
      index := index + 1;
    }
    difference := |a| - |b|;
  }

  lemma {:induction false} OrderIsAntisymmetric(a: string, b: string)
    ensures CodePointOrder(a, b) == -CodePointOrder(b, a)
    ensures CodePointOrder(a, b) == 0 <==> a == b
  {
    if a != [] && b != [] && a[0] == b[0] {
      OrderIsAntisymmetric(a[1..], b[1..]);
      assert a == [a[0]] + a[1..] && b == [b[0]] + b[1..];
    }
  }

  lemma {:induction false} OrderIsTransitive(a: string, b: string, c: string)
    requires CodePointOrder(a, b) <= 0 && CodePointOrder(b, c) <= 0
    ensures CodePointOrder(a, c) <= 0
    ensures CodePointOrder(a, b) < 0 || CodePointOrder(b, c) < 0 ==> CodePointOrder(a, c) < 0
  {
    if a != [] && b != [] && c != [] && a[0] == b[0] == c[0] {
      OrderIsTransitive(a[1..], b[1..], c[1..]);
    }
  }

  lemma {:induction false} OrderOfExtensions(p: string, a: string, b: string)
    ensures CodePointOrder(p + a, p + b) == CodePointOrder(a, b)
  {
    if p == [] {
      assert p + a == a && p + b == b;
    } else {
      assert (p + a)[1..] == p[1..] + a && (p + b)[1..] == p[1..] + b;
      OrderOfExtensions(p[1..], a, b);
    }
  }

  lemma {:induction false} OrderOfPairs(a: string, x: string, b: string, y: string)
    requires |a| == |b|
    ensures CodePointOrder(a + x, b + y) == if a == b then CodePointOrder(x, y) else CodePointOrder(a, b)
  {
    if a == b {
      OrderOfExtensions(a, x, y);
    } else {
      assert (a + x)[0] == a[0] && (b + y)[0] == b[0];
      if a[0] == b[0] {
        assert (a + x)[1..] == a[1..] + x && (b + y)[1..] == b[1..] + y;
        assert a == [a[0]] + a[1..] && b == [b[0]] + b[1..];
        OrderOfPairs(a[1..], x, b[1..], y);
      }
    }
  }

  // ---- ULIDs ----

  function Pow32(n: nat): (p: nat)
    ensures p >= 1
  {
    if n == 0 then 1 else 32 * Pow32(n - 1)
  }

  /** The last `length` base-32 digits of `n`, most significant first. */
  function Digits(n: nat, length: nat): (s: string)
    ensures |s| == length
  {
    if length == 0 then "" else Digits(n / 32, length - 1) + [CROCKFORD[n % 32]]
  }

  function BytesValue(bytes: seq<Byte>): nat {
    if bytes == [] then 0 else BytesValue(bytes[..|bytes| - 1]) * 256 + bytes[|bytes| - 1]
  }

  method CreateUlid(timestamp: int, entropy: seq<Byte>) returns (r: Result<string>)
    ensures r.Ok? <==> 0 <= timestamp <= MAX_ULID_TIMESTAMP && |entropy| == 10
    ensures r.Ok? ==> r.value == Digits(timestamp, 10) + Digits(BytesValue(entropy), 16)
  {
    if !(0 <= timestamp <= MAX_ULID_TIMESTAMP) || |entropy| != 10 {
      return Err(ResourceLimit);
    }
    var encodedTime := EncodeBase32(timestamp, 10);
    var randomness: nat := 0;
    for index := 0 to 10
      invariant randomness == BytesValue(entropy[..index])
    {
      assert entropy[..index + 1][..index] == entropy[..index];
      randomness := randomness * 256 + entropy[index];
    }
    assert entropy[..10] == entropy;
    var encodedRandom := EncodeBase32(randomness, 16);
    r := Ok(encodedTime + encodedRandom);
  }

  /** The digit loop of `createUlid`, which shifts five bits away per digit. */
  method EncodeBase32(value: nat, length: nat) returns (encoded: string)
    ensures encoded == Digits(value, length)
  {
    encoded := "";
    var rest := value;
    for index := 0 to length
      invariant Digits(value, length) == Digits(rest, length - index) + encoded
    {
      encoded := [CROCKFORD[rest % 32]] + encoded;
      rest := rest / 32;
    }
  }

  lemma CrockfordAscends(i: nat, j: nat)
    requires i < 32 && j < 32
    ensures (CROCKFORD[i] as int) < CROCKFORD[j] as int <==> i < j
  {
  }

  lemma LastDigitOrder(i: nat, j: nat)
    requires i < 32 && j < 32
    ensures (CROCKFORD[i] as int) < CROCKFORD[j] as int <==> i < j
    ensures CROCKFORD[i] == CROCKFORD[j] <==> i == j
  {
    CrockfordAscends(i, j);
    CrockfordAscends(j, i);
  }

  lemma QuotientBound(a: nat, p: nat)
    requires a < 32 * p
    ensures a / 32 < p
  {
  }

  lemma QuotientOrder(a: nat, b: nat)
    ensures a < b <==> a / 32 < b / 32 || (a / 32 == b / 32 && a % 32 < b % 32)
    ensures a == b <==> a / 32 == b / 32 && a % 32 == b % 32
  {
  }

  /** Strings of one length compare by their beginnings and then by their last characters. */
  lemma DigitStepOrder(x: string, c: char, y: string, d: char)
    requires |x| == |y|
    ensures CodePointOrder(x + [c], y + [d]) < 0 <==> CodePointOrder(x, y) < 0 || (x == y && (c as int) < d as int)
    ensures x + [c] == y + [d] <==> x == y && c == d
  {
    OrderOfPairs(x, [c], y, [d]);
    OrderIsAntisymmetric(x, y);
    assert (x + [c])[..|x|] == x && (y + [d])[..|y|] == y;
    assert (x + [c])[|x|] == c && (y + [d])[|y|] == d;
  }

  /** Fixed-width digit strings are ordered like the numbers they write. */
  lemma {:induction false} DigitsKeepOrder(a: nat, b: nat, length: nat)
    requires a < Pow32(length) && b < Pow32(length)
    ensures CodePointOrder(Digits(a, length), Digits(b, length)) < 0 <==> a < b
    ensures Digits(a, length) == Digits(b, length) <==> a == b
  {
    if length > 0 {
      QuotientBound(a, Pow32(length - 1));
      QuotientBound(b, Pow32(length - 1));
      DigitsKeepOrder(a / 32, b / 32, length - 1);
      LastDigitOrder(a % 32, b % 32);
      QuotientOrder(a, b);
      DigitStepOrder(Digits(a / 32, length - 1), CROCKFORD[a % 32], Digits(b / 32, length - 1), CROCKFORD[b % 32]);
    }
  }

  lemma BytesValueBound(bytes: seq<Byte>)
    requires |bytes| == 10
    ensures BytesValue(bytes) < Pow32(16)
  {
    BytesBelow(bytes);
    assert Pow256(5) == 0x100_0000_0000 && Pow256(10) == 0x1_0000_0000_0000_0000_0000;
    assert Pow32(8) == 0x100_0000_0000 && Pow32(16) == 0x1_0000_0000_0000_0000_0000;
  }

  function Pow256(n: nat): nat {
    if n == 0 then 1 else 256 * Pow256(n - 1)
  }

  lemma {:induction false} BytesBelow(bytes: seq<Byte>)
    ensures BytesValue(bytes) < Pow256(|bytes|)
  {
    if bytes != [] {
      BytesBelow(bytes[..|bytes| - 1]);
    }
  }

  lemma LastByte(x: nat, a: Byte, y: nat, b: Byte)
    requires x * 256 + a == y * 256 + b
    ensures x == y && a == b
  {
  }

  lemma {:induction false} BytesValueInjective(a: seq<Byte>, b: seq<Byte>)
    requires |a| == |b| && BytesValue(a) == BytesValue(b)
    ensures a == b
  {
    if a != [] {
      var n := |a| - 1;
      LastByte(BytesValue(a[..n]), a[n], BytesValue(b[..n]), b[n]);
      BytesValueInjective(a[..n], b[..n]);
      assert a == a[..n] + [a[n]] && b == b[..n] + [b[n]];
    }
  }

  function Ulid(timestamp: nat, entropy: seq<Byte>): string {
    Digits(timestamp, 10) + Digits(BytesValue(entropy), 16)
  }

  predicate UlidInput(timestamp: nat, entropy: seq<Byte>) {
    timestamp <= MAX_ULID_TIMESTAMP && |entropy| == 10
  }

  /** ULIDs are ordered by time and then by entropy, and no two inputs share one. */
  lemma UlidsKeepOrder(t: nat, e: seq<Byte>, u: nat, f: seq<Byte>)
    requires UlidInput(t, e) && UlidInput(u, f)
    ensures Before(Ulid(t, e), Ulid(u, f)) <==> t < u || (t == u && BytesValue(e) < BytesValue(f))
    ensures Ulid(t, e) == Ulid(u, f) <==> t == u && e == f
  {
    assert MAX_ULID_TIMESTAMP < Pow32(10);
    BytesValueBound(e);
    BytesValueBound(f);
    DigitsKeepOrder(t, u, 10);
    DigitsKeepOrder(BytesValue(e), BytesValue(f), 16);
    OrderOfPairs(Digits(t, 10), Digits(BytesValue(e), 16), Digits(u, 10), Digits(BytesValue(f), 16));
    assert Ulid(t, e)[..10] == Digits(t, 10) && Ulid(t, e)[10..] == Digits(BytesValue(e), 16);
    assert Ulid(u, f)[..10] == Digits(u, 10) && Ulid(u, f)[10..] == Digits(BytesValue(f), 16);
    if Ulid(t, e) == Ulid(u, f) {
      BytesValueInjective(e, f);
    }
  }

  predicate IsUlid(s: string) {
    |s| == 26 && forall i :: 0 <= i < 26 ==> s[i] in CROCKFORD
  }

  lemma {:induction false} DigitsAreCrockford(n: nat, length: nat)
    ensures forall i :: 0 <= i < length ==> Digits(n, length)[i] in CROCKFORD
  {
    if length > 0 {
      DigitsAreCrockford(n / 32, length - 1);
    }
  }

  lemma {:induction false} SmallLeadingDigit(n: nat, length: nat)
    requires length > 0 && n < 8 * Pow32(length - 1)
    ensures '0' <= Digits(n, length)[0] <= '7'
  {
    if length > 1 {
      SmallLeadingDigit(n / 32, length - 1);
    }
  }

  /** Every generated suffix is a ULID, and 48 bits of time keep its first character at most '7'. */
  lemma UlidShape(timestamp: nat, entropy: seq<Byte>)
    requires UlidInput(timestamp, entropy)
    ensures IsUlid(Ulid(timestamp, entropy))
    ensures '0' <= Ulid(timestamp, entropy)[0] <= '7'
  {
    DigitsAreCrockford(timestamp, 10);
    DigitsAreCrockford(BytesValue(entropy), 16);
    JoinedIsUlid(Digits(timestamp, 10), Digits(BytesValue(entropy), 16));
    TimeLeadsLow(timestamp);
  }

  lemma JoinedIsUlid(time: string, random: string)
    requires |time| == 10 && |random| == 16
    requires (forall i :: 0 <= i < 10 ==> time[i] in CROCKFORD) && forall i :: 0 <= i < 16 ==> random[i] in CROCKFORD
    ensures IsUlid(time + random)
  {
  }

  lemma TimeLeadsLow(timestamp: nat)
    requires timestamp <= MAX_ULID_TIMESTAMP
    ensures '0' <= Digits(timestamp, 10)[0] <= '7'
  {
    assert Pow32(9) == 0x2000_0000_0000;
    SmallLeadingDigit(timestamp, 10);
  }

  // ---- Prefixed identities ----

  predicate IsDigit(c: char) { '0' <= c <= '9' }

  /** A legacy suffix: one or more decimal digits. */
  predicate AllDigits(s: string) {
    s != "" && forall i :: 0 <= i < |s| ==> IsDigit(s[i])
  }

  function DigitValue(c: char): nat
    requires IsDigit(c)
  {
    c as int - '0' as int
  }

  function DecimalValue(s: string): (n: nat)
    requires forall i :: 0 <= i < |s| ==> IsDigit(s[i])
  {
    if s == "" then 0 else DecimalValue(s[..|s| - 1]) * 10 + DigitValue(s[|s| - 1])
  }

  predicate IsPrefixedIdentity(value: string, prefix: string, legacyDigits: nat) {
    && prefix <= value
    && var suffix := value[|prefix|..];
       (AllDigits(suffix) && |suffix| >= legacyDigits) || IsUlid(suffix)
  }

  function Suffix(value: string, prefix: string): string {
    if |prefix| <= |value| then value[|prefix|..] else ""
  }

  function ComparePrefixedIdentities(left: string, right: string, prefix: string): int {
    var l := Suffix(left, prefix);
    var r := Suffix(right, prefix);
    if AllDigits(l) != AllDigits(r) then (if AllDigits(l) then -1 else 1)
    else if AllDigits(l) && AllDigits(r) && DecimalValue(l) != DecimalValue(r) then
      if DecimalValue(l) < DecimalValue(r) then -1 else 1
    else CodePointOrder(left, right)
  }

  /** Identity comparison is a total order on all strings. */
  lemma IdentityOrderIsTotal(a: string, b: string, c: string, prefix: string)
    ensures ComparePrefixedIdentities(a, b, prefix) == 0 <==> a == b
    ensures ComparePrefixedIdentities(a, b, prefix) < 0 <==> ComparePrefixedIdentities(b, a, prefix) > 0
    ensures ComparePrefixedIdentities(a, b, prefix) <= 0 && ComparePrefixedIdentities(b, c, prefix) <= 0
            ==> ComparePrefixedIdentities(a, c, prefix) <= 0
                && (a != b || b != c ==> ComparePrefixedIdentities(a, c, prefix) < 0)
  {
    OrderIsAntisymmetric(b, c);
    OrderIsAntisymmetric(a, b);
    if CodePointOrder(a, b) <= 0 && CodePointOrder(b, c) <= 0 {
      OrderIsTransitive(a, b, c);
    }
  }

  lemma {:induction false} DecimalKeepsOrder(a: string, b: string)
    requires |a| == |b|
    requires forall i :: 0 <= i < |a| ==> IsDigit(a[i]) && IsDigit(b[i])
    ensures CodePointOrder(a, b) < 0 <==> DecimalValue(a) < DecimalValue(b)
    ensures a == b <==> DecimalValue(a) == DecimalValue(b)
  {
    if a != "" {
      var n := |a| - 1;
      DecimalKeepsOrder(a[..n], b[..n]);
      assert a == a[..n] + [a[n]] && b == b[..n] + [b[n]];
      OrderOfPairs(a[..n], [a[n]], b[..n], [b[n]]);
      OrderIsAntisymmetric(a[..n], b[..n]);
    }
  }

  /**
   For two ULID identities the comparison is creation order if and only if it is
   not the case that exactly one suffix is all digits and was created later.
   */
  lemma IdentityOrderOnUlids(prefix: string, u: string, v: string)
    requires IsUlid(u) && IsUlid(v)
    ensures (ComparePrefixedIdentities(prefix + u, prefix + v, prefix) < 0 <==> Before(u, v))
            <==> !(AllDigits(u) && !AllDigits(v) && Before(v, u)) && !(AllDigits(v) && !AllDigits(u) && Before(u, v))
  {
    SuffixesDecide(prefix, u, v);
    OrderIsAntisymmetric(u, v);
  }

  /** Suffixes of one length: digits come first, and otherwise code points decide. */
  lemma SuffixesDecide(prefix: string, u: string, v: string)
    requires |u| == |v|
    ensures ComparePrefixedIdentities(prefix + u, prefix + v, prefix) < 0
            <==> if AllDigits(u) != AllDigits(v) then AllDigits(u) else Before(u, v)
  {
    assert Suffix(prefix + u, prefix) == u && Suffix(prefix + v, prefix) == v;
    OrderOfExtensions(prefix, u, v);
    if AllDigits(u) && AllDigits(v) {
      DecimalKeepsOrder(u, v);
    }
  }

  lemma ZeroPaddedUlid(zeros: string, c: char, d: char)
    requires |zeros| == 24 && forall i :: 0 <= i < 24 ==> zeros[i] == '0'
    requires c in CROCKFORD && d in CROCKFORD
    ensures IsUlid(zeros + [c, d])
    ensures AllDigits(zeros + [c, d]) <==> IsDigit(c) && IsDigit(d)
  {
    var s := zeros + [c, d];
    assert CROCKFORD[0] == '0';
    assert s[24] == c && s[25] == d;
    assert forall i :: 0 <= i < 26 ==> s[i] == '0' || s[i] == c || s[i] == d;
  }

  /** A later all-digit ULID, ending in 10, sorts before an earlier one ending in 0A. */
  lemma DigitUlidSortsEarly(zeros: string)
    requires |zeros| == 24 && forall i :: 0 <= i < 24 ==> zeros[i] == '0'
    ensures
      var early, late := zeros + ['0', 'A'], zeros + ['1', '0'];
      && IsUlid(early) && IsUlid(late) && Before(early, late)
      && ComparePrefixedIdentities("doc-" + late, "doc-" + early, "doc-") < 0
  {
    var early, late := zeros + ['0', 'A'], zeros + ['1', '0'];
    assert CROCKFORD[0] == '0' && CROCKFORD[1] == '1' && CROCKFORD[10] == 'A';
    ZeroPaddedUlid(zeros, '0', 'A');
    ZeroPaddedUlid(zeros, '1', '0');
    OrderOfExtensions(zeros, ['0', 'A'], ['1', '0']);
    IdentityOrderOnUlids("doc-", early, late);
    assert early[25] != late[25];
    assert ("doc-" + early)[4..] == early && ("doc-" + late)[4..] == late;
    IdentityOrderIsTotal("doc-" + early, "doc-" + late, "doc-" + late, "doc-");
  }
}
