/**
  The page's configuration as `IndexTemplate::new` reads it from the process
  environment, the server's listen address, and what one request builds.
  `SocketAddr::from_str` is not reimplemented: it is the parameter `parse`.
 */
module Config {
  import opened Wrappers
  import Net
  import RemoteAddress

  /** An environment value: valid Unicode text, or bytes that are not. */
  datatype EnvValue = Text(text: string) | NonUnicode

  type Env = map<string, EnvValue>

  /** Why `env::var` gives no value. */
  datatype VarError = NotPresent | NotUnicode

  const ListenAddrKey := "LISTEN_ADDR"
  const AsnKey := "ASN"
  const AsNameKey := "AS_NAME"
  const RouterDomainKey := "ROUTER_DOMAIN"
  const RouterIdKey := "ROUTER_ID"
  const AddressV4Key := "ADDRESS_V4"
  const AddressV6Key := "ADDRESS_V6"

  const DefaultListenAddr := "[::]:8080"
  const DefaultAsn := "AS63806"
  const DefaultAsName := "MENHERA"
  const DefaultRouterDomain := "nc.menhera.org"
  const DefaultRouterId := "rv128"
  const DefaultAddressV4 := "43.228.174.128"
  const DefaultAddressV6 := "2001:df3:14c0:1128::1"

  /** `env::var`: the value when the key is set to valid Unicode, otherwise the reason. */
  function Var(env: Env, key: string): (r: Result<string, VarError>)
    ensures r.Ok? <==> key in env && env[key].Text?
    ensures r.Ok? ==> r.value == env[key].text
    ensures r == Err(NotPresent) <==> key !in env
  {
    if key !in env then Err(NotPresent)
    else match env[key]
      case Text(t) => Ok(t)
      case NonUnicode => Err(NotUnicode)
  }

  /** `env::var(key).unwrap_or(default)`. */
  function VarOr(env: Env, key: string, default: string): (v: string)
    ensures v == (if IsSet(env, key) then env[key].text else default)
  {
    match Var(env, key)
    case Ok(v) => v
    case Err(_) => default
  }

  /** Whether the environment holds a usable value for `key`. */
  predicate IsSet(env: Env, key: string) {
    key in env && env[key].Text?
  }

  /** The package name and version compiled into the binary. */
  datatype BuildInfo = BuildInfo(name: string, version: string)

  /** The fields the page template is rendered from. */
  datatype IndexTemplate = IndexTemplate(
    pkgName: string,
    pkgVersion: string,
    asn: string,
    asName: string,
    routerDomain: string,
    routerId: string,
    addressV4: string,
    addressV6: string,
    remoteAddress: RemoteAddress.RemoteAddr)

  /**
    `IndexTemplate::new`: each of the six settings is its environment value
    when that is set and its fixed default otherwise; the build constants and
    the peer's classification are carried through. It never fails.
   */
  function NewIndexTemplate(env: Env, build: BuildInfo, remote: RemoteAddress.RemoteAddr): (t: IndexTemplate)
    ensures t.pkgName == build.name && t.pkgVersion == build.version
    ensures t.remoteAddress == remote
    ensures t.asn == (if IsSet(env, AsnKey) then env[AsnKey].text else DefaultAsn)
    ensures t.asName == (if IsSet(env, AsNameKey) then env[AsNameKey].text else DefaultAsName)
    ensures t.routerDomain == (if IsSet(env, RouterDomainKey) then env[RouterDomainKey].text else DefaultRouterDomain)
    ensures t.routerId == (if IsSet(env, RouterIdKey) then env[RouterIdKey].text else DefaultRouterId)
    ensures t.addressV4 == (if IsSet(env, AddressV4Key) then env[AddressV4Key].text else DefaultAddressV4)
    ensures t.addressV6 == (if IsSet(env, AddressV6Key) then env[AddressV6Key].text else DefaultAddressV6)
  {
    IndexTemplate(
      build.name,
      build.version,
      VarOr(env, AsnKey, DefaultAsn),
      VarOr(env, AsNameKey, DefaultAsName),
      VarOr(env, RouterDomainKey, DefaultRouterDomain),
      VarOr(env, RouterIdKey, DefaultRouterId),
      VarOr(env, AddressV4Key, DefaultAddressV4),
      VarOr(env, AddressV6Key, DefaultAddressV6),
      remote)
  }

  /** The six environment variables the template reads. */
  const TemplateKeys: set<string> := {AsnKey, AsNameKey, RouterDomainKey, RouterIdKey, AddressV4Key, AddressV6Key}

  /** The template field read from the environment variable `key`. */
  function Setting(t: IndexTemplate, key: string): string
    requires key in TemplateKeys
  {
    if key == AsnKey then t.asn
    else if key == AsNameKey then t.asName
    else if key == RouterDomainKey then t.routerDomain
    else if key == RouterIdKey then t.routerId
    else if key == AddressV4Key then t.addressV4
    else t.addressV6
  }

  /** The default of the template setting read from `key`. */
  function DefaultSetting(key: string): string
    requires key in TemplateKeys
  {
    if key == AsnKey then DefaultAsn
    else if key == AsNameKey then DefaultAsName
    else if key == RouterDomainKey then DefaultRouterDomain
    else if key == RouterIdKey then DefaultRouterId
    else if key == AddressV4Key then DefaultAddressV4
    else DefaultAddressV6
  }

  /** The field read from a template key is its environment value when set and its default otherwise. */
  lemma SettingOf(env: Env, build: BuildInfo, remote: RemoteAddress.RemoteAddr, key: string)
    requires key in TemplateKeys
    ensures Setting(NewIndexTemplate(env, build, remote), key) == (if IsSet(env, key) then env[key].text else DefaultSetting(key))
  {
  }

  /**
    The settings are read independently: setting one variable makes that
    field its value and leaves every other field as it was.
   */
  lemma SettingsIndependent(env: Env, key: string, value: string, build: BuildInfo, remote: RemoteAddress.RemoteAddr)
    requires key in TemplateKeys
    ensures Setting(NewIndexTemplate(env[key := Text(value)], build, remote), key) == value
    ensures forall k :: k in TemplateKeys && k != key ==>
      Setting(NewIndexTemplate(env[key := Text(value)], build, remote), k) == Setting(NewIndexTemplate(env, build, remote), k)
  {
    var env' := env[key := Text(value)];
    SettingOf(env', build, remote, key);
    forall k | k in TemplateKeys && k != key
      ensures Setting(NewIndexTemplate(env', build, remote), k) == Setting(NewIndexTemplate(env, build, remote), k)
    {
      SettingOf(env', build, remote, k);
      SettingOf(env, build, remote, k);
    }
  }

  /**
    The listen address: `LISTEN_ADDR` (an unset or non-Unicode value reads as
    the empty string) when it parses, otherwise the parsed default
    `[::]:8080`. The default is parsed and unwrapped on every call.
   */
  function ListenAddr<S>(env: Env, parse: string -> Option<S>): (a: S)
    requires parse(DefaultListenAddr).Some?
    ensures IsSet(env, ListenAddrKey) && parse(env[ListenAddrKey].text).Some? ==>
      a == parse(env[ListenAddrKey].text).value
    ensures !IsSet(env, ListenAddrKey) && parse("").Some? ==> a == parse("").value
    ensures parse(VarOr(env, ListenAddrKey, "")).None? ==> a == parse(DefaultListenAddr).value
  {
    var fallback := parse(DefaultListenAddr).value;
    match parse(VarOr(env, ListenAddrKey, ""))
    case Some(addr) => addr
    case None => fallback
  }

  /** With `LISTEN_ADDR` unset, a parser that rejects the empty string always yields the default. */
  lemma UnsetListenAddrFallsBack<S>(env: Env, parse: string -> Option<S>)
    requires parse(DefaultListenAddr).Some? && parse("").None?
    requires !IsSet(env, ListenAddrKey)
    ensures ListenAddr(env, parse) == parse(DefaultListenAddr).value
  {
  }

  /**
    One request: the peer is shown as `V4` with its dotted text exactly when
    it stands for an IPv4 address, otherwise as `V6` with its IPv6 text; every
    setting is its environment value when set and its default otherwise.
   */
  function TemplateForPeer(env: Env, build: BuildInfo, peer: Net.IpAddr, v6Text: Net.Ipv6Octets -> string): (t: IndexTemplate)
    ensures t.remoteAddress.V4? <==> Net.Ipv4Of(peer).Some?
    ensures t.remoteAddress.V4? ==> t.remoteAddress.text == Net.Ipv4Text(Net.Ipv4Of(peer).value)
    ensures t.remoteAddress.V6? ==> peer.V6? && t.remoteAddress.text == v6Text(peer.v6)
    ensures t.pkgName == build.name && t.pkgVersion == build.version
    ensures forall key :: key in TemplateKeys ==>
      Setting(t, key) == (if IsSet(env, key) then env[key].text else DefaultSetting(key))
  {
    var t := NewIndexTemplate(env, build, RemoteAddress.Classify(peer, v6Text));
    forall key | key in TemplateKeys
      ensures Setting(t, key) == (if IsSet(env, key) then env[key].text else DefaultSetting(key))
    {
      SettingOf(env, build, RemoteAddress.Classify(peer, v6Text), key);
    }
    t
  }

  /** A request from `::ffff:a.b.c.d` builds the same template as one from `a.b.c.d`, in any environment. */
  lemma MappedPeerSameTemplate(env: Env, build: BuildInfo, a: Net.Ipv4Octets, v6Text: Net.Ipv6Octets -> string)
    ensures TemplateForPeer(env, build, Net.V6(Net.MapToIpv6(a)), v6Text) == TemplateForPeer(env, build, Net.V4(a), v6Text)
  {
    RemoteAddress.MappedClassifiesAsIpv4(a, v6Text);
  }

  /**
    No variables set and a request from 127.0.0.1: the page gets router ID
    `rv128`, IPv4 address `43.228.174.128` and the peer shown as `IPv4(127.0.0.1)`;
    a request from `::ffff:127.0.0.1` gets the same template.
   */
  lemma DefaultsForLoopbackPeer(build: BuildInfo, v6Text: Net.Ipv6Octets -> string)
    ensures var t := TemplateForPeer(map[], build, Net.V4([127, 0, 0, 1]), v6Text);
      && t.routerId == "rv128"
      && t.addressV4 == "43.228.174.128"
      && RemoteAddress.Display(t.remoteAddress) == "IPv4(127.0.0.1)"
      && TemplateForPeer(map[], build, Net.V6(Net.MapToIpv6([127, 0, 0, 1])), v6Text) == t
  {
    var a: Net.Ipv4Octets := [127, 0, 0, 1];
    RemoteAddress.LoopbackPeerDisplay(v6Text);
    assert TemplateForPeer(map[], build, Net.V4(a), v6Text) == NewIndexTemplate(map[], build, RemoteAddress.V4("127.0.0.1"));
    MappedPeerSameTemplate(map[], build, a, v6Text);
  }
}
