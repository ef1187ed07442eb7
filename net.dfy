/**
  IP addresses as the standard library holds them (network-order octets),
  the dotted-decimal text of an IPv4 address, and the IPv4-mapped IPv6 range
  `::ffff:0:0/96` of section 2.5.5.2 of RFC 4291.
 */
module Net {
  import opened Wrappers

  newtype byte = x: int | 0 <= x < 256

  type Ipv4Octets = s: seq<byte> | |s| == 4 witness [0, 0, 0, 0]

  type Ipv6Octets = s: seq<byte> | |s| == 16
    witness [0, 0, 0, 0, 0, 0, 0, 0, 0, 0, 0, 0, 0, 0, 0, 0]

  /** A peer address: `IpAddr::V4` or `IpAddr::V6`. */
  datatype IpAddr = V4(v4: Ipv4Octets) | V6(v6: Ipv6Octets)

  predicate IsDigit(c: char) {
    '0' <= c <= '9'
  }

  predicate AllDigits(s: string) {
    forall i :: 0 <= i < |s| ==> IsDigit(s[i])
  }

  function Digit(d: nat): (c: char)
    requires d < 10
    ensures IsDigit(c)
  {
    ('0' as int + d) as char
  }

  /** The value of a string of decimal digits. */
  function DigitsValue(s: string): nat
    requires AllDigits(s)
  {
    if s == [] then 0 else DigitsValue(s[..|s| - 1]) * 10 + (s[|s| - 1] as int - '0' as int)
  }

  /** The decimal text of `n` as integer `Display` writes it: digits only, no leading zero. */
  function Decimal(n: nat): (s: string)
    ensures |s| >= 1 && AllDigits(s)
    ensures n > 0 ==> s[0] != '0'
    ensures n == 0 ==> s == "0"
    ensures n < 10 ==> |s| == 1
    ensures n < 100 ==> |s| <= 2
    ensures n < 1000 ==> |s| <= 3
  {
    if n < 10 then [Digit(n)] else Decimal(n / 10) + [Digit(n % 10)]
  }

  lemma {:induction false} DecimalValue(n: nat)
    ensures DigitsValue(Decimal(n)) == n
  {
    if n >= 10 {
      DecimalValue(n / 10);
      var s := Decimal(n);
      assert s[..|s| - 1] == Decimal(n / 10);
    }
  }

  /** Distinct numbers have distinct decimal texts. */
  lemma DecimalInjective(m: nat, n: nat)
    ensures Decimal(m) == Decimal(n) ==> m == n
  {
    DecimalValue(m);
    DecimalValue(n);
  }

  /** A character of a dotted-decimal text. */
  predicate IsDigitOrDot(c: char) {
    IsDigit(c) || c == '.'
  }

  /**
    `Ipv4Addr::to_string`: four decimal octets joined by dots, so between
    `0.0.0.0` and `255.255.255.255` in length, with only digits and dots.
   */
  function Ipv4Text(a: Ipv4Octets): (s: string)
    ensures 7 <= |s| <= 15
    ensures forall i :: 0 <= i < |s| ==> IsDigitOrDot(s[i])
  {
    Decimal(a[0] as int) + ("." + (Decimal(a[1] as int) + ("." + (Decimal(a[2] as int) + ("." + Decimal(a[3] as int))))))
  }

  /** A text with a dot right after a shorter digit prefix differs from one with a longer digit prefix. */
  lemma DotOnlyAfterDigits(u: string, s: string, v: string, t: string)
    requires AllDigits(v) && |u| < |v|
    ensures u + ("." + s) != v + ("." + t)
  {
    assert (u + ("." + s))[|u|] == '.';
    assert (v + ("." + t))[|u|] == v[|u|];
  }

  /** A dot cannot occur inside a decimal text, so a leading `u.` splits uniquely. */
  lemma {:induction false} SplitAtDot(u: string, s: string, v: string, t: string)
    requires AllDigits(u) && AllDigits(v)
    requires u + ("." + s) == v + ("." + t)
    ensures u == v && s == t
  {
    var x := u + ("." + s);
    if |u| < |v| {
      DotOnlyAfterDigits(u, s, v, t);
      assert false;
    } else if |v| < |u| {
      DotOnlyAfterDigits(v, t, u, s);
      assert false;
    } else {
      assert u == x[..|u|];
      assert v == x[..|v|];
      assert s == x[|u| + 1..];
      assert t == x[|v| + 1..];
    }
  }

  /** Distinct IPv4 addresses have distinct dotted-decimal texts. */
  lemma Ipv4TextInjective(a: Ipv4Octets, b: Ipv4Octets)
    ensures Ipv4Text(a) == Ipv4Text(b) ==> a == b
  {
    if Ipv4Text(a) == Ipv4Text(b) {
      var a0, a1, a2, a3 := Decimal(a[0] as int), Decimal(a[1] as int), Decimal(a[2] as int), Decimal(a[3] as int);
      var b0, b1, b2, b3 := Decimal(b[0] as int), Decimal(b[1] as int), Decimal(b[2] as int), Decimal(b[3] as int);
      SplitAtDot(a0, a1 + ("." + (a2 + ("." + a3))), b0, b1 + ("." + (b2 + ("." + b3))));
      SplitAtDot(a1, a2 + ("." + a3), b1, b2 + ("." + b3));
      SplitAtDot(a2, a3, b2, b3);
      DecimalInjective(a[0] as int, b[0] as int);
      DecimalInjective(a[1] as int, b[1] as int);
      DecimalInjective(a[2] as int, b[2] as int);
      DecimalInjective(a[3] as int, b[3] as int);
      assert a == [a[0], a[1], a[2], a[3]];
    }
  }

  /** The text of the loopback address 127.0.0.1. */
  lemma LoopbackText()
    ensures Ipv4Text([127, 0, 0, 1]) == "127.0.0.1"
  {
    assert Decimal(12) == "12";
    assert Decimal(127) == "127";
  }

  /** The first twelve octets of every address in `::ffff:0:0/96`. */
  const MappedPrefix: seq<byte> := [0, 0, 0, 0, 0, 0, 0, 0, 0, 0, 0xff, 0xff]

  /** `Ipv4Addr::to_ipv6_mapped`: the address `::ffff:a.b.c.d`. */
  function MapToIpv6(a: Ipv4Octets): (b: Ipv6Octets)
    ensures b[12..] == a
  {
    MappedPrefix + a
  }

  /**
    `Ipv6Addr::to_ipv4_mapped`: octets 0 to 9 zero and octets 10 and 11 equal to 0xff
    give the IPv4 address in the low 32 bits; any other address gives nothing.
   */
  function ToIpv4Mapped(b: Ipv6Octets): (r: Option<Ipv4Octets>)
    ensures r.Some? <==> exists a: Ipv4Octets :: b == MapToIpv6(a)
    ensures r.Some? ==> b == MapToIpv6(r.value)
  {
    if (forall i :: 0 <= i < 10 ==> b[i] == 0) && b[10] == 0xff && b[11] == 0xff then
      assert b == MapToIpv6(b[12..]);
      Some(b[12..])
    else
      None
  }

  /** Unwrapping a mapped address gives back the IPv4 address it was made from. */
  lemma MappedRoundTrip(a: Ipv4Octets)
    ensures ToIpv4Mapped(MapToIpv6(a)) == Some(a)
  {
  }

  /** The IPv4 address a peer stands for, if any: itself, or the one inside a mapped IPv6 address. */
  function Ipv4Of(ip: IpAddr): (r: Option<Ipv4Octets>)
    ensures ip.V4? ==> r == Some(ip.v4)
    ensures ip.V6? ==> (r.Some? <==> exists a: Ipv4Octets :: ip.v6 == MapToIpv6(a))
    ensures ip.V6? && r.Some? ==> ip.v6 == MapToIpv6(r.value)
  {
    match ip
    case V4(a) => Some(a)
    case V6(b) => ToIpv4Mapped(b)
  }
}
