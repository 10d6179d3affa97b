/** The credential registry of xray/limiter/hook.go: the map from each
    client credential of the Xray configuration to its inbound's protocol,
    rebuilt by ExtractUUIDs and read by IsUUIDRegistered and
    GetUUIDProtocol. The configuration arrives already decoded. */
module CredentialRegistry {
  import opened Wrappers

  /** A decoded JSON value, as `encoding/json` produces it into an `interface{}`. */
  datatype Json =
    | JNull
    | JBool(b: bool)
    | JNumber(n: real)
    | JString(str: string)
    | JArray(elems: seq<Json>)
    | JObject(fields: map<string, Json>)

  /** The protocols whose clients are registered. */
  predicate KnownProtocol(p: string) {
    p == "vmess" || p == "vless" || p == "trojan"
  }

  /** Every registered credential is non-empty and mapped to a known protocol. */
  predicate WellFormedMap(m: map<string, string>) {
    forall k :: k in m ==> k != "" && KnownProtocol(m[k])
  }

  /** The credential of one client entry: its `password` under trojan, its
      `id` otherwise, "" when the entry is not an object or the field is
      missing or not a string. */
  function ClientId(protocol: string, client: Json): (r: string)
    ensures r != "" ==> client.JObject?
    ensures r != "" && protocol == "trojan" ==> "password" in client.fields && client.fields["password"] == JString(r)
    ensures r != "" && protocol != "trojan" ==> "id" in client.fields && client.fields["id"] == JString(r)
    ensures var key := if protocol == "trojan" then "password" else "id";
            client.JObject? && key in client.fields && client.fields[key].JString? ==> r == client.fields[key].str
  {
    if !client.JObject? then ""
    else
      var key := if protocol == "trojan" then "password" else "id";
      if key in client.fields && client.fields[key].JString? then client.fields[key].str else ""
  }

  /** The entries one client list adds, in list order. */
  function IdsMap(protocol: string, clients: seq<Json>): map<string, string> {
    if clients == [] then map[]
    else
      var m := IdsMap(protocol, clients[..|clients| - 1]);
      var id := ClientId(protocol, clients[|clients| - 1]);
      if id != "" then m[id := protocol] else m
  }

  /** The protocol and client list of an inbound that is registered: an
      object with a string `protocol` that is known and an object
      `settings`; a `clients` that is not an array counts as empty. */
  function InboundClients(inbound: Json): Option<(string, seq<Json>)> {
    if !inbound.JObject? || "protocol" !in inbound.fields || !inbound.fields["protocol"].JString? then None
    else
      var protocol := inbound.fields["protocol"].str;
      if !KnownProtocol(protocol) || "settings" !in inbound.fields || !inbound.fields["settings"].JObject? then None
      else
        var settings := inbound.fields["settings"].fields;
        var clients := if "clients" in settings && settings["clients"].JArray? then settings["clients"].elems else [];
        Some((protocol, clients))
  }

  /** The entries one inbound adds. */
  function Contribution(inbound: Json): map<string, string> {
    match InboundClients(inbound)
    case None => map[]
    case Some((protocol, clients)) => IdsMap(protocol, clients)
  }

  lemma IdsMapStep(protocol: string, clients: seq<Json>, j: nat)
    requires j < |clients|
    ensures var id := ClientId(protocol, clients[j]);
            IdsMap(protocol, clients[..j + 1]) ==
              if id != "" then IdsMap(protocol, clients[..j])[id := protocol] else IdsMap(protocol, clients[..j])
  {
    assert clients[..j + 1][..j] == clients[..j];
  }

  lemma UnionUpdate(a: map<string, string>, b: map<string, string>, k: string, v: string)
    ensures (a + b)[k := v] == a + b[k := v]
  {
  }

  /** The entries of a list of inbounds; a later inbound overrides an earlier one. */
  function Scan(inbounds: seq<Json>): map<string, string> {
    if inbounds == [] then map[]
    else Scan(inbounds[..|inbounds| - 1]) + Contribution(inbounds[|inbounds| - 1])
  }

  /** The map ExtractUUIDs leaves behind, from the one before (`prior`) and
      the decoded configuration (None: it did not parse). */
  function Extracted(prior: map<string, string>, doc: Option<Json>): map<string, string> {
    match doc
    case None => prior
    case Some(root) =>
      if root.JObject? && "inbounds" in root.fields && root.fields["inbounds"].JArray?
      then Scan(root.fields["inbounds"].elems)
      else map[]
  }

  /** A client list registers exactly its non-empty credentials, all under its protocol. */
  lemma {:induction false} IdsMapSpec(protocol: string, clients: seq<Json>)
    ensures forall k :: k in IdsMap(protocol, clients) <==>
              k != "" && exists i :: 0 <= i < |clients| && ClientId(protocol, clients[i]) == k
    ensures forall k :: k in IdsMap(protocol, clients) ==> IdsMap(protocol, clients)[k] == protocol
  {
    if clients != [] {
      var init := clients[..|clients| - 1];
      IdsMapSpec(protocol, init);
      forall k | k != "" && exists i :: 0 <= i < |clients| && ClientId(protocol, clients[i]) == k
        ensures k in IdsMap(protocol, clients)
      {
        var i :| 0 <= i < |clients| && ClientId(protocol, clients[i]) == k;
        if i < |clients| - 1 {
          assert ClientId(protocol, init[i]) == k;
        }
      }
      forall k | k in IdsMap(protocol, clients)
        ensures k != "" && exists i :: 0 <= i < |clients| && ClientId(protocol, clients[i]) == k
      {
        if k in IdsMap(protocol, init) {
          var i :| 0 <= i < |init| && ClientId(protocol, init[i]) == k;
          assert clients[i] == init[i];
        } else {
          assert ClientId(protocol, clients[|clients| - 1]) == k;
        }
      }
    }
  }

  /** An inbound registers only non-empty credentials, under its own known protocol. */
  lemma ContributionWellFormed(inbound: Json)
    ensures WellFormedMap(Contribution(inbound))
    ensures forall k :: k in Contribution(inbound) ==> Contribution(inbound)[k] == inbound.fields["protocol"].str
  {
    match InboundClients(inbound)
    case None =>
    case Some((protocol, clients)) => IdsMapSpec(protocol, clients);
  }

  /** A credential is registered iff some inbound of the list registers it. */
  lemma {:induction false} ScanKeys(inbounds: seq<Json>)
    ensures forall k :: k in Scan(inbounds) <==> exists i :: 0 <= i < |inbounds| && k in Contribution(inbounds[i])
  {
    if inbounds != [] {
      var init := inbounds[..|inbounds| - 1];
      ScanKeys(init);
      forall k | k in Scan(inbounds)
        ensures exists i :: 0 <= i < |inbounds| && k in Contribution(inbounds[i])
      {
        if k in Scan(init) {
          var i :| 0 <= i < |init| && k in Contribution(init[i]);
          assert inbounds[i] == init[i];
        }
      }
      forall k | exists i :: 0 <= i < |inbounds| && k in Contribution(inbounds[i])
        ensures k in Scan(inbounds)
      {
        var i :| 0 <= i < |inbounds| && k in Contribution(inbounds[i]);
        if i < |inbounds| - 1 {
          assert k in Contribution(init[i]);
        }
      }
    }
  }

  /** The scanned map is well formed. */
  lemma {:induction false} ScanWellFormed(inbounds: seq<Json>)
    ensures WellFormedMap(Scan(inbounds))
  {
    if inbounds != [] {
      ScanWellFormed(inbounds[..|inbounds| - 1]);
      ContributionWellFormed(inbounds[|inbounds| - 1]);
    }
  }

  /** When a credential appears under several inbounds, the last of them decides its protocol. */
  lemma {:induction false} ScanLastWins(inbounds: seq<Json>, i: nat, k: string)
    requires i < |inbounds| && k in Contribution(inbounds[i])
    requires forall j :: i < j < |inbounds| ==> k !in Contribution(inbounds[j])
    ensures k in Scan(inbounds) && Scan(inbounds)[k] == Contribution(inbounds[i])[k]
  {
    var init := inbounds[..|inbounds| - 1];
    if i < |inbounds| - 1 {
      forall j | i < j < |init|
        ensures k !in Contribution(init[j])
      {
        assert init[j] == inbounds[j];
      }
      ScanLastWins(init, i, k);
    }
  }

  /** Whatever the configuration is, the registry stays well formed. */
  lemma ExtractedWellFormed(prior: map<string, string>, doc: Option<Json>)
    requires WellFormedMap(prior)
    ensures WellFormedMap(Extracted(prior, doc))
  {
    if doc.Some? && doc.value.JObject? && "inbounds" in doc.value.fields && doc.value.fields["inbounds"].JArray? {
      ScanWellFormed(doc.value.fields["inbounds"].elems);
    }
  }

  /** Extraction from a configuration that parses forgets every earlier
      entry: the result depends on the configuration alone. */
  lemma ExtractedForgetsPrior(p1: map<string, string>, p2: map<string, string>, root: Json)
    ensures Extracted(p1, Some(root)) == Extracted(p2, Some(root))
  {
  }

  /** The registry: the package-level `uuidMap`. */
  class Registry {
    var uuidMap: map<string, string>

    ghost predicate Valid()
      reads this
    {
      WellFormedMap(uuidMap)
    }

    constructor ()
      ensures Valid() && uuidMap == map[]
    {
      uuidMap := map[];
    }

    /** ExtractUUIDs: a configuration that does not parse leaves the map as
        it was; otherwise the map is emptied and refilled from the
        configuration's inbounds and their clients, in order. */
    method ExtractUUIDs(doc: Option<Json>)
      modifies this`uuidMap
      ensures uuidMap == Extracted(old(uuidMap), doc)
      ensures old(Valid()) ==> Valid()
    {
      if Valid() {
        ExtractedWellFormed(uuidMap, doc);
      }
      if doc.None? {
        return;
      }
      uuidMap := map[];
      var root := doc.value;
      if !root.JObject? {
        return;
      }
      if "inbounds" !in root.fields || !root.fields["inbounds"].JArray? {
        return;
      }
      var inbounds := root.fields["inbounds"].elems;
      var i := 0;
      while i < |inbounds|
        invariant 0 <= i <= |inbounds|
        invariant uuidMap == Scan(inbounds[..i])
      {
        var inbound := inbounds[i];
        assert inbounds[..i + 1][..i] == inbounds[..i];
        if inbound.JObject? && "protocol" in inbound.fields && inbound.fields["protocol"].JString? {
          var protocol := inbound.fields["protocol"].str;
          if KnownProtocol(protocol) && "settings" in inbound.fields && inbound.fields["settings"].JObject? {
            var settings := inbound.fields["settings"].fields;
            var clients: seq<Json> := [];
            if "clients" in settings && settings["clients"].JArray? {
              clients := settings["clients"].elems;
            }
            assert InboundClients(inbound) == Some((protocol, clients));
            AddClients(protocol, clients);
          }
        }
        i := i + 1;
      }
      assert inbounds[..|inbounds|] == inbounds;
    }

    /** The inner loop of ExtractUUIDs: registers the credential of every
        client entry of one inbound, in order. */
    method AddClients(protocol: string, clients: seq<Json>)
      modifies this`uuidMap
      ensures uuidMap == old(uuidMap) + IdsMap(protocol, clients)
    {
      var j := 0;
      while j < |clients|
        invariant 0 <= j <= |clients|
        invariant uuidMap == old(uuidMap) + IdsMap(protocol, clients[..j])
      {
        var client := clients[j];
        IdsMapStep(protocol, clients, j);
        if !client.JObject? {
          j := j + 1;
          continue;
        }
        var uuid := "";
        if protocol == "trojan" {
          if "password" in client.fields && client.fields["password"].JString? {
            uuid := client.fields["password"].str;
          }
        } else {
          if "id" in client.fields && client.fields["id"].JString? {
            uuid := client.fields["id"].str;
          }
        }
        assert uuid == ClientId(protocol, client);
        if uuid != "" {
          UnionUpdate(old(uuidMap), IdsMap(protocol, clients[..j]), uuid, protocol);
          uuidMap := uuidMap[uuid := protocol];
        }
        j := j + 1;
      }
      assert clients[..|clients|] == clients;
    }

    /** IsUUIDRegistered */
    function IsUUIDRegistered(uuid: string): (r: bool)
      reads this
      ensures r <==> uuid in uuidMap
    {
      uuid in uuidMap
    }

    /** GetUUIDProtocol: the map's value, "" for an unknown credential. */
    function GetUUIDProtocol(uuid: string): (r: string)
      reads this
      ensures uuid in uuidMap ==> r == uuidMap[uuid]
      ensures uuid !in uuidMap ==> r == ""
    {
      if uuid in uuidMap then uuidMap[uuid] else ""
    }
  }

  /** In a well-formed registry, a credential is registered exactly when
      its protocol reads as non-empty, and that protocol is a known one. */
  lemma RegisteredIffProtocol(reg: Registry, uuid: string)
    requires reg.Valid()
    ensures reg.IsUUIDRegistered(uuid) <==> reg.GetUUIDProtocol(uuid) != ""
    ensures reg.IsUUIDRegistered(uuid) ==> KnownProtocol(reg.GetUUIDProtocol(uuid))
  {
  }

  /** A trojan inbound with one client, whose password is "p1". */
  const TrojanInbound := JObject(map["protocol" := JString("trojan"),
    "settings" := JObject(map["clients" := JArray([JObject(map["password" := JString("p1")])])])])

  /** A vless inbound with one client whose id is "u1" and one whose id is empty. */
  const VlessInbound := JObject(map["protocol" := JString("vless"),
    "settings" := JObject(map["clients" := JArray([JObject(map["id" := JString("u1")]), JObject(map["id" := JString("")])])])])

  /** A shadowsocks inbound, whose clients are not registered. */
  const ShadowsocksInbound := JObject(map["protocol" := JString("shadowsocks"),
    "settings" := JObject(map["clients" := JArray([JObject(map["password" := JString("s1")])])])])

  lemma TrojanContribution()
    ensures Contribution(TrojanInbound) == map["p1" := "trojan"]
  {
    var cs := [JObject(map["password" := JString("p1")])];
    assert InboundClients(TrojanInbound) == Some(("trojan", cs));
    assert cs[..0] == [];
  }

  lemma VlessContribution()
    ensures Contribution(VlessInbound) == map["u1" := "vless"]
  {
    var cs := [JObject(map["id" := JString("u1")]), JObject(map["id" := JString("")])];
    assert InboundClients(VlessInbound) == Some(("vless", cs));
    assert ClientId("vless", cs[0]) == "u1";
    assert ClientId("vless", cs[1]) == "";
    assert cs[..1][..0] == [];
    assert IdsMap("vless", cs[..1]) == map["u1" := "vless"];
  }

  lemma ScanThree(a: Json, b: Json, c: Json)
    ensures Scan([a, b, c]) == Contribution(a) + Contribution(b) + Contribution(c)
  {
    assert [a, b, c][..2] == [a, b];
    assert [a, b][..1] == [a];
    assert [a][..0] == [];
    assert Scan([a]) == map[] + Contribution(a) == Contribution(a);
    assert Scan([a, b]) == Contribution(a) + Contribution(b);
  }

  lemma ShadowsocksContribution()
    ensures Contribution(ShadowsocksInbound) == map[]
  {
    assert !KnownProtocol("shadowsocks");
    assert InboundClients(ShadowsocksInbound) == None;
  }

  /** A configuration with a trojan inbound, a vless inbound holding one
      empty id, and a shadowsocks inbound. */
  const MixedConfig := JObject(map["inbounds" := JArray([TrojanInbound, VlessInbound, ShadowsocksInbound])])

  lemma MixedConfigInbounds()
    ensures Extracted(map[], Some(MixedConfig)) == Scan([TrojanInbound, VlessInbound, ShadowsocksInbound])
  {
  }

  /** MixedConfig registers the trojan password and the non-empty vless
      id, and nothing else. */
  lemma MixedInbounds()
    ensures Extracted(map[], Some(MixedConfig)) == map["p1" := "trojan", "u1" := "vless"]
  {
    TrojanContribution();
    VlessContribution();
    ShadowsocksContribution();
    ScanThree(TrojanInbound, VlessInbound, ShadowsocksInbound);
    MixedConfigInbounds();
    assert map["p1" := "trojan"] + map["u1" := "vless"] + map[] == map["p1" := "trojan", "u1" := "vless"];
  }
}
