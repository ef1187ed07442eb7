/**
  The classification of a connection's peer address (`RemoteAddr`) and its
  display text. The IPv6 text form (`Ipv6Addr::to_string`, section 4 of
  RFC 5952) is not reimplemented: it is the parameter `v6Text`.
 */
module RemoteAddress {
  import opened Wrappers
  import Net

  /** The classified peer: `V4(text)` or `V6(text)`. */
  datatype RemoteAddr = V4(text: string) | V6(text: string)

  /**
    `From<IpAddr>`: an IPv4 peer, and an IPv6 peer inside `::ffff:0:0/96`,
    become `V4` with the dotted-decimal text of the IPv4 address they stand
    for; every other IPv6 peer becomes `V6` with its IPv6 text.
   */
  function Classify(ip: Net.IpAddr, v6Text: Net.Ipv6Octets -> string): (r: RemoteAddr)
    ensures r.V4? <==> Net.Ipv4Of(ip).Some?
    ensures r.V4? ==> r.text == Net.Ipv4Text(Net.Ipv4Of(ip).value)
    ensures r.V6? ==> ip.V6? && r.text == v6Text(ip.v6)
  {
    match ip
    case V4(a) => V4(Net.Ipv4Text(a))
    case V6(b) =>
      match Net.ToIpv4Mapped(b)
      case Some(a) => V4(Net.Ipv4Text(a))
      case None => V6(v6Text(b))
  }

  /** A plain IPv4 peer is `V4` carrying its dotted-decimal text. */
  lemma ClassifyIpv4(a: Net.Ipv4Octets, v6Text: Net.Ipv6Octets -> string)
    ensures Classify(Net.V4(a), v6Text) == V4(Net.Ipv4Text(a))
  {
  }

  /** A peer at 127.0.0.1 is shown as `IPv4(127.0.0.1)`. */
  lemma LoopbackPeerDisplay(v6Text: Net.Ipv6Octets -> string)
    ensures Classify(Net.V4([127, 0, 0, 1]), v6Text) == V4("127.0.0.1")
    ensures Display(V4("127.0.0.1")) == "IPv4(127.0.0.1)"
  {
    Net.LoopbackText();
    assert Display(V4("127.0.0.1")) == "IPv4(" + "127.0.0.1" + ")";
  }

  /** `::ffff:a.b.c.d` classifies exactly as `a.b.c.d` does. */
  lemma MappedClassifiesAsIpv4(a: Net.Ipv4Octets, v6Text: Net.Ipv6Octets -> string)
    ensures Classify(Net.V6(Net.MapToIpv6(a)), v6Text) == Classify(Net.V4(a), v6Text)
  {
    Net.MappedRoundTrip(a);
  }

  /** An IPv6 peer outside `::ffff:0:0/96` is `V6` with its own text, never `V4`. */
  lemma UnmappedIsIpv6(b: Net.Ipv6Octets, v6Text: Net.Ipv6Octets -> string)
    requires forall a: Net.Ipv4Octets :: b != Net.MapToIpv6(a)
    ensures Classify(Net.V6(b), v6Text) == V6(v6Text(b))
  {
  }

  /** The loopback `::1` and the IPv4-compatible `::192.0.2.5` are not unwrapped. */
  lemma LoopbackAndCompatibleAreIpv6(v6Text: Net.Ipv6Octets -> string)
    ensures Classify(Net.V6([0, 0, 0, 0, 0, 0, 0, 0, 0, 0, 0, 0, 0, 0, 0, 1]), v6Text).V6?
    ensures Classify(Net.V6([0, 0, 0, 0, 0, 0, 0, 0, 0, 0, 0, 0, 192, 0, 2, 5]), v6Text).V6?
  {
  }

  /**
    Two peers that classify as `V4` get the same classification exactly when
    they stand for the same IPv4 address.
   */
  lemma SameIpv4Classification(x: Net.IpAddr, y: Net.IpAddr, v6Text: Net.Ipv6Octets -> string)
    requires Classify(x, v6Text).V4?
    ensures Classify(x, v6Text) == Classify(y, v6Text) <==> Net.Ipv4Of(x) == Net.Ipv4Of(y)
  {
    if Classify(x, v6Text) == Classify(y, v6Text) {
      Net.Ipv4TextInjective(Net.Ipv4Of(x).value, Net.Ipv4Of(y).value);
    }
  }

  /** Reads a display text back into the classification it shows, if it is one. */
  function ParseDisplay(s: string): Option<RemoteAddr> {
    if |s| >= 6 && s[..5] == "IPv4(" && s[|s| - 1] == ')' then Some(V4(s[5..|s| - 1]))
    else if |s| >= 6 && s[..5] == "IPv6(" && s[|s| - 1] == ')' then Some(V6(s[5..|s| - 1]))
    else None
  }

  /** `Display`: the payload wrapped in `IPv4(` or `IPv6(` and `)`; the text determines the value. */
  function Display(r: RemoteAddr): (s: string)
    ensures ParseDisplay(s) == Some(r)
  {
    var tag := if r.V4? then "IPv4(" else "IPv6(";
    var s := tag + r.text + ")";
    assert s[..5] == tag && s[5..|s| - 1] == r.text;
    s
  }

  /** Distinct classifications render to distinct texts. */
  lemma DisplayInjective(r1: RemoteAddr, r2: RemoteAddr)
    ensures Display(r1) == Display(r2) ==> r1 == r2
  {
  }
}
