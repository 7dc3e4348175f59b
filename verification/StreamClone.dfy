// One stream per external proxy: every proxy gets a clone of the inbound's stream whose
// TLS part may be rewritten without the base stream or another clone noticing, however the
// nested maps of the base are shared.

module StreamClone {

  import opened Options

  // A map[string]any; a nested map is a reference that may be shared.
  datatype Val = Str(s: string) | List(items: seq<string>) | Json(text: string) | Ref(o: Obj)

  class Obj {
    var m: map<string, Val>

    constructor (m: map<string, Val>)
      ensures this.m == m
    {
      this.m := m;
    }
  }

  // An external proxy. An empty sni or fingerprint and an empty alpn list mean "not given".
  datatype Proxy = Proxy(forceTls: string, dest: string, port: int, sni: string, fingerprint: string, alpn: seq<string>)

  // ------------------------------------------------------------------
  // What a stream says
  // ------------------------------------------------------------------

  predicate IsMap(m: map<string, Val>, key: string) {
    key in m && m[key].Ref?
  }

  function Tls(s: Obj): set<Obj>
    reads s
  {
    if IsMap(s.m, "tlsSettings") then {s.m["tlsSettings"].o} else {}
  }

  function Inner(s: Obj): set<Obj>
    reads s, Tls(s)
  {
    if IsMap(s.m, "tlsSettings") && IsMap(s.m["tlsSettings"].o.m, "settings")
    then {s.m["tlsSettings"].o.m["settings"].o} else {}
  }

  // The maps the external-proxy loop writes to.
  function Parts(s: Obj): set<Obj>
    reads s, Tls(s)
  {
    {s} + Tls(s) + Inner(s)
  }

  // rest is the map without the entry that holds the nested map, if it is one.
  datatype TlsView = TlsView(rest: map<string, Val>, settings: Option<map<string, Val>>)

  datatype View = View(rest: map<string, Val>, tls: Option<TlsView>)

  function TlsViewOf(t: Obj): TlsView
    reads t, if IsMap(t.m, "settings") then {t.m["settings"].o} else {}
  {
    if IsMap(t.m, "settings") then TlsView(t.m - {"settings"}, Some(t.m["settings"].o.m)) else TlsView(t.m, None)
  }

  function ViewOf(s: Obj): View
    reads Parts(s)
  {
    if IsMap(s.m, "tlsSettings") then View(s.m - {"tlsSettings"}, Some(TlsViewOf(s.m["tlsSettings"].o)))
      else View(s.m, None)
  }

  // No two of the maps written to are the same object.
  predicate Separate(s: Obj)
    reads Parts(s)
  {
    s !in Tls(s) && s !in Inner(s) && Tls(s) !! Inner(s)
  }

  // ------------------------------------------------------------------
  // What a proxy does to a stream
  // ------------------------------------------------------------------

  predicate HasSecurity(rest: map<string, Val>, name: string) {
    "security" in rest && rest["security"] == Str(name)
  }

  // The Clash loop also drops realitySettings when TLS is forced off.
  function Forced(v: View, forceTls: string, dropsReality: bool): View {
    if forceTls == "tls" && !HasSecurity(v.rest, "tls") then
      View(v.rest["security" := Str("tls")] - {"tlsSettings"}, Some(TlsView(map[], None)))
    else if forceTls == "none" && !HasSecurity(v.rest, "none") then
      var dropped := if dropsReality then {"tlsSettings", "realitySettings"} else {"tlsSettings"};
      View(v.rest["security" := Str("none")] - dropped, None)
    else v
  }

  function Put(m: map<string, Val>, given: bool, key: string, v: Val): map<string, Val> {
    if given then m[key := v] else m
  }

  function WithEntry(t: TlsView, given: bool, key: string, v: Val): TlsView {
    TlsView(Put(t.rest, given, key, v), t.settings)
  }

  // The fingerprint goes into the TLS map and into its settings, created when missing.
  function WithFingerprint(t: TlsView, fp: string): TlsView {
    if fp == "" then t
    else
      TlsView(t.rest["fingerprint" := Str(fp)] - {"settings"},
              Some((if t.settings.Some? then t.settings.value else map[])["fingerprint" := Str(fp)]))
  }

  function TlsApplied(t: TlsView, p: Proxy): TlsView {
    var named := WithEntry(t, p.sni != "", "serverName", Str(p.sni));
    WithEntry(WithFingerprint(named, p.fingerprint), p.alpn != [], "alpn", List(p.alpn))
  }

  function Applied(v: View, p: Proxy): View {
    if !HasSecurity(v.rest, "tls") then v
    else if v.tls.Some? then View(v.rest, Some(TlsApplied(v.tls.value, p)))
    else View(v.rest - {"tlsSettings"}, Some(TlsApplied(TlsView(map[], None), p)))
  }

  // The stream of proxy p, from the base stream and that proxy alone.
  function StreamFor(base: View, p: Proxy, external: bool, dropsReality: bool): View {
    var forced := Forced(base, p.forceTls, dropsReality);
    if external then Applied(forced, p) else forced
  }

  // ------------------------------------------------------------------
  // Cloning and rewriting
  // ------------------------------------------------------------------

  // A clone of the stream, its TLS map and that map's settings; deeper maps are shared.
  method CloneStreamForExternalProxy(stream: Obj) returns (out: Obj)
    ensures fresh(Parts(out)) && Separate(out) && ViewOf(out) == ViewOf(stream)
  {
    out := new Obj(stream.m);
    if !IsMap(out.m, "tlsSettings") {
      return;
    }
    var clonedTs := new Obj(out.m["tlsSettings"].o.m);
    if IsMap(clonedTs.m, "settings") {
      var inner := new Obj(clonedTs.m["settings"].o.m);
      clonedTs.m := clonedTs.m["settings" := Ref(inner)];
      assert clonedTs.m - {"settings"} == stream.m["tlsSettings"].o.m - {"settings"};
    }
    out.m := out.m["tlsSettings" := Ref(clonedTs)];
    assert out.m - {"tlsSettings"} == stream.m - {"tlsSettings"};
  }

  // What the rewriting of a TLS map keeps: its settings are another object, the same as
  // before or a new one.
  twostate predicate SettingsApart(tls: Obj)
    reads tls
  {
    IsMap(tls.m, "settings") ==>
      tls.m["settings"].o != tls &&
      ((old(IsMap(tls.m, "settings")) && tls.m["settings"].o == old(tls.m["settings"].o)) || fresh(tls.m["settings"].o))
  }

  method SetFingerprint(tls: Obj, fp: string)
    requires fp != ""
    requires IsMap(tls.m, "settings") ==> tls.m["settings"].o != tls
    modifies tls, if IsMap(tls.m, "settings") then {tls.m["settings"].o} else {}
    ensures TlsViewOf(tls) == WithFingerprint(old(TlsViewOf(tls)), fp) && SettingsApart(tls)
  {
    ghost var before := tls.m;
    tls.m := tls.m["fingerprint" := Str(fp)];
    if !IsMap(tls.m, "settings") {
      var created := new Obj(map[]);
      tls.m := tls.m["settings" := Ref(created)];
    }
    var settings := tls.m["settings"].o;
    settings.m := settings.m["fingerprint" := Str(fp)];
    assert tls.m - {"settings"} == before["fingerprint" := Str(fp)] - {"settings"};
    assert before["fingerprint" := Str(fp)] - {"settings"} ==
      (before - {"settings"})["fingerprint" := Str(fp)] - {"settings"};
  }

  method SetEntry(tls: Obj, key: string, v: Val)
    requires IsMap(tls.m, "settings") ==> tls.m["settings"].o != tls
    requires key != "settings" && !v.Ref?
    modifies tls
    ensures TlsViewOf(tls) == WithEntry(old(TlsViewOf(tls)), true, key, v) && SettingsApart(tls)
  {
    ghost var before := tls.m;
    tls.m := tls.m[key := v];
    assert tls.m - {"settings"} == (before - {"settings"})[key := v];
  }

  // Sets the proxy's values in the TLS map.
  method SetTls(p: Proxy, tls: Obj)
    requires IsMap(tls.m, "settings") ==> tls.m["settings"].o != tls
    modifies tls, if IsMap(tls.m, "settings") then {tls.m["settings"].o} else {}
    ensures TlsViewOf(tls) == TlsApplied(old(TlsViewOf(tls)), p) && SettingsApart(tls)
  {
    if p.sni != "" {
      SetEntry(tls, "serverName", Str(p.sni));
    }
    if p.fingerprint != "" {
      SetFingerprint(tls, p.fingerprint);
    }
    if p.alpn != [] {
      SetEntry(tls, "alpn", List(p.alpn));
    }
  }

  // Sets the proxy's server name, fingerprint and protocols in the stream's TLS map, which
  // is created when there is none.
  method ApplyExternalProxyTLSToStream(p: Proxy, stream: Obj)
    requires Separate(stream)
    modifies Parts(stream)
    ensures Separate(stream) && fresh(Parts(stream) - old(Parts(stream)))
    ensures ViewOf(stream) == Applied(old(ViewOf(stream)), p)
  {
    if !HasSecurity(stream.m, "tls") {
      return;
    }
    ghost var v := ViewOf(stream);
    if !IsMap(stream.m, "tlsSettings") {
      var created := new Obj(map[]);
      stream.m := stream.m["tlsSettings" := Ref(created)];
    }
    var tls := stream.m["tlsSettings"].o;
    SetTls(p, tls);
  }

  // Switches TLS on or off in a clone when the proxy asks for it.
  method ForceTls(p: Proxy, stream: Obj, dropsReality: bool)
    requires Separate(stream)
    modifies stream
    ensures Separate(stream) && fresh(Parts(stream) - old(Parts(stream)))
    ensures ViewOf(stream) == Forced(old(ViewOf(stream)), p.forceTls, dropsReality)
  {
    ghost var before := stream.m;
    if p.forceTls == "tls" {
      if !HasSecurity(stream.m, "tls") {
        var created := new Obj(map[]);
        stream.m := stream.m["security" := Str("tls")]["tlsSettings" := Ref(created)];
        assert stream.m - {"tlsSettings"} == before["security" := Str("tls")] - {"tlsSettings"}
          == (before - {"tlsSettings"})["security" := Str("tls")] - {"tlsSettings"};
      }
    } else if p.forceTls == "none" {
      if !HasSecurity(stream.m, "none") {
        stream.m := stream.m["security" := Str("none")] - {"tlsSettings"};
        if dropsReality {
          stream.m := stream.m - {"realitySettings"};
        }
        assert stream.m == before["security" := Str("none")] -
          (if dropsReality then {"tlsSettings", "realitySettings"} else {"tlsSettings"});
        assert stream.m == (before - {"tlsSettings"})["security" := Str("none")] -
          (if dropsReality then {"tlsSettings", "realitySettings"} else {"tlsSettings"});
      }
    }
  }

  method CloneForced(base: Obj, p: Proxy, dropsReality: bool) returns (out: Obj)
    ensures fresh(Parts(out)) && Separate(out)
    ensures ViewOf(out) == Forced(old(ViewOf(base)), p.forceTls, dropsReality)
  {
    out := CloneStreamForExternalProxy(base);
    ForceTls(p, out, dropsReality);
  }

  // One iteration of the loop: nothing that existed before is written to.
  method BuildStream(base: Obj, p: Proxy, external: bool, dropsReality: bool) returns (out: Obj)
    ensures fresh(Parts(out)) && Separate(out)
    ensures ViewOf(out) == StreamFor(old(ViewOf(base)), p, external, dropsReality)
  {
    out := CloneForced(base, p, dropsReality);
    if external {
      ApplyExternalProxyTLSToStream(p, out);
    }
  }

  predicate Within(s: Obj, made: set<Obj>)
    reads s, made
  {
    s in made && Tls(s) <= made && Inner(s) <= made
  }

  // Each stream is what the view says for it, and no two share a map the loop writes to.
  predicate AllSay(streams: seq<Obj>, views: seq<View>, made: set<Obj>)
    reads streams, made
  {
    && |streams| == |views|
    && (forall i | 0 <= i < |streams| :: Within(streams[i], made) && ViewOf(streams[i]) == views[i])
    && (forall i, j | 0 <= i < j < |streams| :: Parts(streams[i]) !! Parts(streams[j]))
  }

  lemma AllSayExtends(streams: seq<Obj>, views: seq<View>, made: set<Obj>, s: Obj)
    requires AllSay(streams, views, made) && Parts(s) !! made
    ensures AllSay(streams + [s], views + [ViewOf(s)], made + Parts(s))
  {
    var longer := streams + [s];
    forall i | 0 <= i < |longer| ensures Within(longer[i], made + Parts(s)) {
    }
  }

  function Streams(base: View, proxies: seq<Proxy>, external: bool, dropsReality: bool): (r: seq<View>)
    ensures |r| == |proxies| && forall i | 0 <= i < |r| :: r[i] == StreamFor(base, proxies[i], external, dropsReality)
  {
    seq(|proxies|, i requires 0 <= i < |proxies| => StreamFor(base, proxies[i], external, dropsReality))
  }

  lemma StreamsExtend(base: View, proxies: seq<Proxy>, k: nat, external: bool, dropsReality: bool)
    requires k < |proxies|
    ensures Streams(base, proxies[..k + 1], external, dropsReality) ==
            Streams(base, proxies[..k], external, dropsReality) + [StreamFor(base, proxies[k], external, dropsReality)]
  {
  }

  // The Clash loop: each proxy's stream is what that proxy makes of the base stream, the
  // base stream is untouched, and no two streams share a map the loop writes to.
  method GetProxies(base: Obj, proxies: seq<Proxy>, external: bool) returns (streams: seq<Obj>, ghost made: set<Obj>)
    ensures fresh(made)
    ensures AllSay(streams, Streams(old(ViewOf(base)), proxies, external, true), made)
  {
    streams, made := [], {};
    ghost var v := ViewOf(base);
    for k := 0 to |proxies|
      invariant fresh(made)
      invariant AllSay(streams, Streams(v, proxies[..k], external, true), made)
    {
      var s := BuildStream(base, proxies[k], external, true);
      AllSayExtends(streams, Streams(v, proxies[..k], external, true), made, s);
      StreamsExtend(v, proxies, k, external, true);
      streams, made := streams + [s], made + Parts(s);
    }
    assert proxies[..|proxies|] == proxies;
  }

  // ------------------------------------------------------------------
  // The JSON loop
  // ------------------------------------------------------------------

  datatype Address = Address(listen: string, port: int)

  class Inbound {
    var address: Address
  }

  // What the hysteria outbound writes into its stream.
  datatype Hysteria = Hysteria(settings: Val, finalmask: Option<Val>)

  function WithHysteria(v: View, h: Hysteria): View {
    var settled := v.rest["hysteriaSettings" := h.settings];
    var masked := if h.finalmask.Some? then settled["finalmask" := h.finalmask.value] else settled;
    View(masked["network" := Str("hysteria")]["security" := Str("tls")], v.tls)
  }

  function HysteriaTop(m: map<string, Val>, h: Hysteria): map<string, Val> {
    WithHysteria(View(m, None), h).rest
  }

  lemma TopWritesCommute(m: map<string, Val>, h: Hysteria)
    ensures HysteriaTop(m, h) - {"tlsSettings"} == HysteriaTop(m - {"tlsSettings"}, h)
    ensures IsMap(HysteriaTop(m, h), "tlsSettings") == IsMap(m, "tlsSettings")
    ensures "tlsSettings" in m ==> HysteriaTop(m, h)["tlsSettings"] == m["tlsSettings"]
  {
  }

  method GenHy(stream: Obj, h: Hysteria)
    requires Separate(stream)
    modifies stream
    ensures Separate(stream) && Parts(stream) == old(Parts(stream))
    ensures ViewOf(stream) == WithHysteria(old(ViewOf(stream)), h)
  {
    ghost var before := stream.m;
    stream.m := stream.m["hysteriaSettings" := h.settings];
    if h.finalmask.Some? {
      stream.m := stream.m["finalmask" := h.finalmask.value];
    }
    stream.m := stream.m["network" := Str("hysteria")]["security" := Str("tls")];
    TopWritesCommute(before, h);
  }

  function JsonStream(base: View, p: Proxy, external: bool, hysteria: Option<Hysteria>): View {
    var v := StreamFor(base, p, external, false);
    if hysteria.Some? then WithHysteria(v, hysteria.value) else v
  }

  function JsonStreams(base: View, proxies: seq<Proxy>, external: bool, hysteria: Option<Hysteria>): (r: seq<View>)
    ensures |r| == |proxies| && forall i | 0 <= i < |r| :: r[i] == JsonStream(base, proxies[i], external, hysteria)
  {
    seq(|proxies|, i requires 0 <= i < |proxies| => JsonStream(base, proxies[i], external, hysteria))
  }

  method BuildJsonStream(base: Obj, p: Proxy, external: bool, hysteria: Option<Hysteria>) returns (out: Obj)
    ensures fresh(Parts(out)) && Separate(out)
    ensures ViewOf(out) == JsonStream(old(ViewOf(base)), p, external, hysteria)
  {
    out := BuildStream(base, p, external, false);
    if hysteria.Some? {
      GenHy(out, hysteria.value);
    }
  }

  function Addresses(proxies: seq<Proxy>): (r: seq<Address>)
    ensures |r| == |proxies| && forall i | 0 <= i < |r| :: r[i] == Address(proxies[i].dest, proxies[i].port)
  {
    seq(|proxies|, i requires 0 <= i < |proxies| => Address(proxies[i].dest, proxies[i].port))
  }

  // One iteration: the proxy's address goes into the inbound, and from there into the
  // outbound built for it.
  method NextOutbound(inbound: Inbound, base: Obj, p: Proxy, external: bool, hysteria: Option<Hysteria>)
    returns (out: Obj, address: Address)
    modifies inbound
    ensures fresh(Parts(out)) && ViewOf(out) == JsonStream(old(ViewOf(base)), p, external, hysteria)
    ensures address == Address(p.dest, p.port) == inbound.address
  {
    inbound.address := Address(p.dest, p.port);
    out := BuildJsonStream(base, p, external, hysteria);
    address := inbound.address;
  }

  lemma JsonStreamsExtend(base: View, proxies: seq<Proxy>, k: nat, external: bool, hysteria: Option<Hysteria>)
    requires k < |proxies|
    ensures JsonStreams(base, proxies[..k + 1], external, hysteria) ==
            JsonStreams(base, proxies[..k], external, hysteria) + [JsonStream(base, proxies[k], external, hysteria)]
    ensures Addresses(proxies[..k + 1]) == Addresses(proxies[..k]) + [Address(proxies[k].dest, proxies[k].port)]
  {
  }

  // The JSON loop isolates the streams in the same way, but it writes each proxy's address
  // into the inbound itself, which keeps the last one.
  method GetConfig(inbound: Inbound, base: Obj, proxies: seq<Proxy>, external: bool, hysteria: Option<Hysteria>)
    returns (streams: seq<Obj>, addresses: seq<Address>, ghost made: set<Obj>)
    modifies inbound
    ensures fresh(made)
    ensures AllSay(streams, JsonStreams(old(ViewOf(base)), proxies, external, hysteria), made)
    ensures addresses == Addresses(proxies)
    ensures inbound.address == if proxies == [] then old(inbound.address) else Addresses(proxies)[|proxies| - 1]
  {
    streams, addresses, made := [], [], {};
    ghost var v := ViewOf(base);
    for k := 0 to |proxies|
      invariant fresh(made) && ViewOf(base) == v
      invariant AllSay(streams, JsonStreams(v, proxies[..k], external, hysteria), made)
      invariant addresses == Addresses(proxies[..k])
      invariant inbound.address == if k == 0 then old(inbound.address)
        else Address(proxies[k - 1].dest, proxies[k - 1].port)
    {
      var s, address := NextOutbound(inbound, base, proxies[k], external, hysteria);
      JsonStreamsExtend(v, proxies, k, external, hysteria);
      AllSayExtends(streams, JsonStreams(v, proxies[..k], external, hysteria), made, s);
      streams, addresses, made := streams + [s], addresses + [address], made + Parts(s);
    }
    assert proxies[..|proxies|] == proxies;
  }

  // ------------------------------------------------------------------
  // What the streams say
  // ------------------------------------------------------------------

  predicate SameEntry(a: map<string, Val>, b: map<string, Val>, k: string) {
    (k in a <==> k in b) && (k in a ==> a[k] == b[k])
  }

  // k says v if that is given, and what it said before otherwise.
  predicate Entry(was: map<string, Val>, now: map<string, Val>, k: string, given: bool, v: Val) {
    if given then k in now && now[k] == v else SameEntry(was, now, k)
  }

  predicate IsTlsField(k: string) {
    k == "serverName" || k == "alpn" || k == "fingerprint"
  }

  lemma TlsNamesDiffer()
    ensures "alpn" != "fingerprint" && "alpn" != "serverName" && "fingerprint" != "serverName"
    ensures "settings" != "fingerprint" && "settings" != "alpn" && "settings" != "serverName"
  {
    assert "alpn"[0] != "fingerprint"[0] && "alpn"[0] != "serverName"[0] && "fingerprint"[0] != "serverName"[0];
    assert "settings"[0] != "fingerprint"[0] && "settings"[0] != "alpn"[0] && |"settings"| != |"serverName"|;
  }

  // The given values of the proxy, and nothing else, reach the TLS part: the fingerprint
  // also its settings, of which the other entries stay.
  lemma TlsSaysWhatProxyAsks(t: TlsView, p: Proxy)
    ensures var r := TlsApplied(t, p);
            && Entry(t.rest, r.rest, "serverName", p.sni != "", Str(p.sni))
            && Entry(t.rest, r.rest, "alpn", p.alpn != [], List(p.alpn))
            && Entry(t.rest, r.rest, "fingerprint", p.fingerprint != "", Str(p.fingerprint))
            && (forall k | !IsTlsField(k) && k != "settings" :: SameEntry(t.rest, r.rest, k))
            && (p.fingerprint == "" ==> r.settings == t.settings && SameEntry(t.rest, r.rest, "settings"))
            && (p.fingerprint != "" ==>
                  var was := if t.settings.Some? then t.settings.value else map[];
                  && r.settings.Some? && "settings" !in r.rest
                  && Entry(was, r.settings.value, "fingerprint", true, Str(p.fingerprint))
                  && forall k | k != "fingerprint" :: SameEntry(was, r.settings.value, k))
  {
    TlsNamesDiffer();
  }

  // What switching TLS on or off asks for: forced when the proxy says so and the stream does
  // not say it already.
  predicate Switches(base: View, p: Proxy, name: string) {
    p.forceTls == name && !HasSecurity(base.rest, name)
  }

  // Every entry of a stream but its TLS part: the security is the one forced, the reality
  // settings go only where the loop drops them, and all others are those of the base.
  lemma StreamKeepsOtherEntries(base: View, p: Proxy, external: bool, dropsReality: bool)
    ensures var v := StreamFor(base, p, external, dropsReality);
            && Entry(base.rest, v.rest, "security", p.forceTls == "tls" || p.forceTls == "none", Str(p.forceTls))
            && (if Switches(base, p, "none") && dropsReality then "realitySettings" !in v.rest
                else SameEntry(base.rest, v.rest, "realitySettings"))
            && (forall k | k != "security" && k != "realitySettings" && k != "tlsSettings" ::
                  SameEntry(base.rest, v.rest, k))
  {
    assert "security" != "tlsSettings" && "security" != "realitySettings" && "tlsSettings" != "realitySettings" by {
      assert "security"[0] != "tlsSettings"[0] && "security"[0] != "realitySettings"[0] &&
        "tlsSettings"[0] != "realitySettings"[0];
    }
  }

  // The TLS part: none when it is switched off, an empty one when it is switched on, and
  // otherwise the old one; a stream with TLS then carries an external proxy's values in it.
  lemma StreamSaysWhatProxyAsks(base: View, p: Proxy, external: bool, dropsReality: bool)
    ensures var v := StreamFor(base, p, external, dropsReality);
            var start := if Switches(base, p, "tls") then Some(TlsView(map[], None))
                         else if Switches(base, p, "none") then None else base.tls;
            && (p.forceTls == "tls" ==> HasSecurity(v.rest, "tls"))
            && (external && HasSecurity(v.rest, "tls") ==>
                  v.tls == Some(TlsApplied(if start.Some? then start.value else TlsView(map[], None), p)))
            && (!external || !HasSecurity(v.rest, "tls") ==> v.tls == start)
  {
  }

  // The hysteria outbound says its own four entries, the mask only when there is one, and
  // leaves the others.
  lemma HysteriaSaysItsEntries(v: View, h: Hysteria)
    ensures var r := WithHysteria(v, h);
            && r.tls == v.tls
            && Entry(v.rest, r.rest, "network", true, Str("hysteria"))
            && Entry(v.rest, r.rest, "security", true, Str("tls"))
            && Entry(v.rest, r.rest, "hysteriaSettings", true, h.settings)
            && Entry(v.rest, r.rest, "finalmask", h.finalmask.Some?,
                 if h.finalmask.Some? then h.finalmask.value else Str(""))
            && (forall k | k != "network" && k != "security" && k != "hysteriaSettings" && k != "finalmask" ::
                  SameEntry(v.rest, r.rest, k))
  {
    assert "network" != "security" && "network" != "hysteriaSettings" && "network" != "finalmask" &&
      "security" != "hysteriaSettings" && "security" != "finalmask" && "hysteriaSettings" != "finalmask" by {
      assert "network"[0] != "security"[0] && "network"[0] != "hysteriaSettings"[0] && "network"[0] != "finalmask"[0];
      assert "security"[0] != "hysteriaSettings"[0] && "security"[0] != "finalmask"[0];
      assert "hysteriaSettings"[0] != "finalmask"[0];
    }
  }
}
