/**
 IPv6 addresses and prefixes as text. The library's parsers and printers are parameters; what
 is modelled is how the service combines them and the masking of 128-bit numbers.
 */
module Ipv6Text {
  import opened Wrappers
  import opened Text

  const ADDRESSES: nat := 0x1_0000_0000_0000_0000_0000_0000_0000_0000

  /** Parsing and printing of addresses and of prefix lengths. */
  datatype Codec = Codec(addr: string -> Option<nat>, showAddr: nat -> string,
                         prefix: string -> Option<nat>, showPrefix: nat -> string)

  predicate Solid(s: string) {
    s != "" && Trimmed(s)
  }

  /** What is used of them: printed numbers are read back, addresses have 128 bits, and no
      printed text has outer white space or, in an address, a slash. */
  ghost predicate Lawful(c: Codec) {
    && (forall a: nat :: a < ADDRESSES ==>
          c.addr(c.showAddr(a)) == Some(a) && Solid(c.showAddr(a)) && '/' !in c.showAddr(a))
    && (forall s: string :: c.addr(s).Some? ==> c.addr(s).value < ADDRESSES)
    && (forall n: nat :: n <= 128 ==> c.prefix(c.showPrefix(n)) == Some(n) && Solid(c.showPrefix(n)))
  }

  // A codec that meets the laws: decimal numbers, read with any number of leading zeros.

  function ReadDecimal(s: string): Option<nat> {
    if s != "" && AllDigits(s) then Some(Value(s)) else None
  }

  function ReadAddress(s: string): Option<nat> {
    var n := ReadDecimal(s);
    if n.Some? && n.value < ADDRESSES then n else None
  }

  const DECIMAL: Codec := Codec(ReadAddress, Decimal, ReadDecimal, Decimal)

  lemma DigitsAreSolid(s: string)
    requires s != "" && AllDigits(s)
    ensures Solid(s) && '/' !in s
  {
    assert '0' <= s[0] <= '9' && '0' <= s[|s| - 1] <= '9';
  }

  lemma DecimalIsRead(n: nat)
    ensures ReadDecimal(Decimal(n)) == Some(n)
    ensures Solid(Decimal(n)) && '/' !in Decimal(n)
  {
    DecimalDigits(n);
    DigitsAreSolid(Decimal(n));
    assert Value(Decimal(n)) == n by {
      ValueOfDecimal(n, 0);
      assert Zeros(0) + Decimal(n) == Decimal(n);
    }
  }

  lemma DecimalAddressLaw(a: nat)
    requires a < ADDRESSES
    ensures DECIMAL.addr(DECIMAL.showAddr(a)) == Some(a)
    ensures Solid(DECIMAL.showAddr(a)) && '/' !in DECIMAL.showAddr(a)
  {
    DecimalIsRead(a);
  }

  lemma DecimalPrefixLaw(n: nat)
    ensures DECIMAL.prefix(DECIMAL.showPrefix(n)) == Some(n) && Solid(DECIMAL.showPrefix(n))
  {
    DecimalIsRead(n);
  }

  /** The laws can be met. */
  lemma DecimalIsLawful()
    ensures Lawful(DECIMAL)
  {
    var c := DECIMAL;
    forall a: nat | a < ADDRESSES
      ensures c.addr(c.showAddr(a)) == Some(a) && Solid(c.showAddr(a)) && '/' !in c.showAddr(a)
    {
      DecimalAddressLaw(a);
    }
    forall n: nat | n <= 128 ensures c.prefix(c.showPrefix(n)) == Some(n) && Solid(c.showPrefix(n)) {
      DecimalPrefixLaw(n);
    }
  }

  /** They allow several spellings of an address. */
  lemma DecimalReadsTwoSpellings()
    ensures DECIMAL.addr("1") == DECIMAL.addr("01") == Some(1) && !EqIgnoreCase("1", "01")
  {
    assert "01"[..1] == "0";
    assert ReadDecimal("0") == Some(0);
    assert |Lower("1")| != |Lower("01")|;
  }

  /** `a` with its lowest `k` bits cleared. */
  function ClearLow(a: nat, k: nat): nat {
    if k == 0 then a else 2 * ClearLow(a / 2, k - 1)
  }

  /** The address with all but its first `prefix` bits cleared. */
  function Network(a: nat, prefix: nat): nat
    requires prefix <= 128
  {
    ClearLow(a, 128 - prefix)
  }

  lemma {:induction false} ClearLowIsIdempotent(a: nat, k: nat)
    ensures ClearLow(ClearLow(a, k), k) == ClearLow(a, k) <= a
  {
    if k > 0 {
      ClearLowIsIdempotent(a / 2, k - 1);
      assert 2 * ClearLow(a / 2, k - 1) / 2 == ClearLow(a / 2, k - 1);
    }
  }

  lemma {:induction false} ClearLowSplits(a: nat, b: nat, k: nat)
    ensures ClearLow(a, k) == ClearLow(b, k) <==> HighBits(a, k) == HighBits(b, k)
  {
    if k > 0 {
      ClearLowSplits(a / 2, b / 2, k - 1);
    }
  }

  /** `a` shifted right by `k` bits. */
  function HighBits(a: nat, k: nat): nat {
    if k == 0 then a else HighBits(a / 2, k - 1)
  }

  function Pow2(k: nat): nat {
    if k == 0 then 1 else 2 * Pow2(k - 1)
  }

  /** Clearing low bits is rounding down to a multiple of a power of two, and what is left says
      which. */
  lemma {:induction false} ClearLowIsRounding(a: nat, k: nat)
    ensures ClearLow(a, k) == Pow2(k) * HighBits(a, k)
    ensures ClearLow(a, k) <= a < ClearLow(a, k) + Pow2(k)
  {
    if k > 0 {
      ClearLowIsRounding(a / 2, k - 1);
      assert 2 * (Pow2(k - 1) * HighBits(a / 2, k - 1)) == Pow2(k) * HighBits(a, k);
    }
  }

  lemma NetworkIsIdempotent(a: nat, prefix: nat)
    requires prefix <= 128
    ensures Network(Network(a, prefix), prefix) == Network(a, prefix) <= a
  {
    ClearLowIsIdempotent(a, 128 - prefix);
  }

  /** The text before and after the first slash. */
  function SplitOnce(s: string): (r: Option<(string, string)>)
    ensures r.None? <==> '/' !in s
    ensures r.Some? ==> s == r.value.0 + (['/'] + r.value.1) && '/' !in r.value.0
  {
    if s == "" then None
    else if s[0] == '/' then Some(("", s[1..]))
    else
      var rest := SplitOnce(s[1..]);
      assert s == [s[0]] + s[1..];
      if rest.Some? then Some(([s[0]] + rest.value.0, rest.value.1)) else None
  }

  lemma {:induction false} SplitAtFirstSlash(a: string, b: string)
    requires '/' !in a
    ensures SplitOnce(a + (['/'] + b)) == Some((a, b))
  {
    var s := a + (['/'] + b);
    if a == "" {
      assert s[1..] == b;
    } else {
      assert s[1..] == a[1..] + (['/'] + b);
      assert a == [a[0]] + a[1..];
      assert '/' !in a[1..];
      SplitAtFirstSlash(a[1..], b);
    }
  }

  /** Address and prefix of a CIDR; a bare address gets the prefix 64. */
  function ParseCidr(c: Codec, value: string): Option<(nat, nat)> {
    var v := Trim(value);
    if v == "" then None
    else
      var split := SplitOnce(v);
      var addrText := if split.Some? then split.value.0 else v;
      var prefix := if split.Some? then c.prefix(split.value.1) else Some(64);
      if prefix.None? || c.addr(addrText).None? || prefix.value > 128 then None
      else Some((c.addr(addrText).value, prefix.value))
  }

  function ShowCidr(c: Codec, network: nat, prefix: nat): string {
    c.showAddr(network) + (['/'] + c.showPrefix(prefix))
  }

  function NormalizeCidr(c: Codec, value: string): Option<string> {
    var p := ParseCidr(c, value);
    if p.None? then None else Some(ShowCidr(c, Network(p.value.0, p.value.1), p.value.1))
  }

  function AddrInCidr(c: Codec, addr: string, cidr: string): bool {
    var normalized := NormalizeCidr(c, cidr);
    if c.addr(addr).None? || normalized.None? then false
    else
      var split := SplitOnce(normalized.value);
      if split.None? || c.addr(split.value.0).None? || c.prefix(split.value.1).None?
         || c.prefix(split.value.1).value > 128
      then false
      else
        var prefix := c.prefix(split.value.1).value;
        Network(c.addr(addr).value, prefix) == Network(c.addr(split.value.0).value, prefix)
  }

  lemma ShownCidrIsRead(c: Codec, network: nat, prefix: nat)
    requires Lawful(c) && network < ADDRESSES && prefix <= 128
    ensures SplitOnce(ShowCidr(c, network, prefix)) == Some((c.showAddr(network), c.showPrefix(prefix)))
    ensures ParseCidr(c, ShowCidr(c, network, prefix)) == Some((network, prefix))
  {
    var a, p := c.showAddr(network), c.showPrefix(prefix);
    var s := ShowCidr(c, network, prefix);
    assert Solid(a) && Solid(p);
    assert s[0] == a[0] && s[|s| - 1] == p[|p| - 1];
    TrimFixpoint(s);
    SplitAtFirstSlash(a, p);
  }

  /** What is read as a CIDR: an address and a prefix of at most 128 around a slash, or a bare
      address, which gets 64, with white space around the whole. */
  lemma CidrIsReadIff(c: Codec, value: string)
    ensures var v := Trim(value);
            var p := ParseCidr(c, value);
            && ('/' !in v ==> p == if v != "" && c.addr(v).Some? then Some((c.addr(v).value, 64)) else None)
            && forall a, b :: v == a + (['/'] + b) && '/' !in a ==>
                 p == if c.addr(a).Some? && c.prefix(b).Some? && c.prefix(b).value <= 128
                      then Some((c.addr(a).value, c.prefix(b).value)) else None
  {
    var v := Trim(value);
    forall a, b | v == a + (['/'] + b) && '/' !in a
      ensures ParseCidr(c, value) == if c.addr(a).Some? && c.prefix(b).Some? && c.prefix(b).value <= 128
                                     then Some((c.addr(a).value, c.prefix(b).value)) else None
    {
      SplitAtFirstSlash(a, b);
    }
  }

  lemma ParsedCidrFits(c: Codec, cidr: string)
    requires Lawful(c) && ParseCidr(c, cidr).Some?
    ensures ParseCidr(c, cidr).value.0 < ADDRESSES
  {
  }

  lemma MembershipIsNetworkEquality(c: Codec, addr: string, cidr: string)
    requires Lawful(c) && ParseCidr(c, cidr).Some?
    ensures var (a, prefix) := ParseCidr(c, cidr).value;
            AddrInCidr(c, addr, cidr) <==>
            c.addr(addr).Some? && Network(c.addr(addr).value, prefix) == Network(a, prefix)
  {
    var (a, prefix) := ParseCidr(c, cidr).value;
    ParsedCidrFits(c, cidr);
    NetworkIsIdempotent(a, prefix);
    ShownCidrIsRead(c, Network(a, prefix), prefix);
  }

  /** Membership means: the address and the CIDR's agree in their first `prefix` bits. */
  lemma MembershipIsPrefixEquality(c: Codec, addr: string, cidr: string)
    requires Lawful(c)
    ensures AddrInCidr(c, addr, cidr) <==>
            c.addr(addr).Some? && ParseCidr(c, cidr).Some?
            && var (a, prefix) := ParseCidr(c, cidr).value;
               HighBits(c.addr(addr).value, 128 - prefix) == HighBits(a, 128 - prefix)
  {
    if ParseCidr(c, cidr).Some? {
      var (a, prefix) := ParseCidr(c, cidr).value;
      MembershipIsNetworkEquality(c, addr, cidr);
      if c.addr(addr).Some? {
        ClearLowSplits(c.addr(addr).value, a, 128 - prefix);
      }
    } else {
      assert NormalizeCidr(c, cidr).None?;
    }
  }

  /** Clearing the host bits of a subnet changes neither its members nor, done again, the text. */
  lemma NormalizingKeepsMembers(c: Codec, addr: string, cidr: string)
    requires Lawful(c) && NormalizeCidr(c, cidr).Some?
    ensures AddrInCidr(c, addr, NormalizeCidr(c, cidr).value) == AddrInCidr(c, addr, cidr)
    ensures NormalizeCidr(c, NormalizeCidr(c, cidr).value) == NormalizeCidr(c, cidr)
  {
    var (a, prefix) := ParseCidr(c, cidr).value;
    ParsedCidrFits(c, cidr);
    NetworkIsIdempotent(a, prefix);
    ShownCidrIsRead(c, Network(a, prefix), prefix);
  }
}
