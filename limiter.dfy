/** The package state of xray/limiter and the operations that read and
    change it: the client's one-time initialisation, the configuration
    accessors and loader, and the admission operations, each applied to the
    Redis contents as one step. Network outcomes (ping, failed reads, failed
    writes) are parameters. */
module Limiter {
  import opened Wrappers
  import opened GoStrings
  import opened Admission
  import opened IpLimitConfig

  class Limiter {
    /** The configuration the package-level `config` pointer refers to. */
    var config: Config
    /** `client != nil` */
    var hasClient: bool
    /** `clientOnce` has run its function. */
    var initDone: bool
    /** What the Redis server holds. */
    var store: Store

    /** A client exists only once the one-time initialisation has run. */
    ghost predicate Valid()
      reads this
    {
      hasClient ==> initDone
    }

    /** The package before any call, talking to a server that holds `server`. */
    constructor (server: Store)
      ensures Valid()
      ensures config == DefaultConfig && !hasClient && !initDone && store == server
    {
      config := DefaultConfig;
      hasClient := false;
      initDone := false;
      store := server;
    }

    /** `isEnabled` */
    predicate IsEnabled()
      reads this
    {
      config.enabled && hasClient
    }

    /** InitRedisClient: only the first call does anything. It creates the
        client when the configuration is enabled, before the ping, so a
        failed ping still leaves a client; only that first call can report
        the failed ping. */
    method InitRedisClient(pingOk: bool) returns (pingFailed: bool)
      requires Valid()
      modifies this`hasClient, this`initDone
      ensures Valid() && initDone
      ensures old(initDone) ==> hasClient == old(hasClient) && !pingFailed
      ensures !old(initDone) ==> hasClient == config.enabled && pingFailed == (config.enabled && !pingOk)
    {
      pingFailed := false;
      if initDone {
        return;
      }
      initDone := true;
      if !config.enabled {
        return;
      }
      hasClient := true;
      if !pingOk {
        pingFailed := true;
      }
    }

    method GetConfig() returns (c: Config)
      ensures c == config
    {
      c := config;
    }

    method SetConfig(cfg: Config)
      modifies this`config
      ensures config == cfg
    {
      config := cfg;
    }

    /** CheckConnection, read-only: admits whenever the limiter is off, and
        otherwise exactly when the admission rule does. */
    method CheckConnection(uuid: string, clientIP: string, faults: ReadFaults) returns (ok: bool)
      ensures ok == (!IsEnabled() || Admits(config, store, uuid, clientIP, faults))
    {
      if !IsEnabled() {
        return true;
      }
      var ipsKey := IpsKey(uuid);
      var ipCountKey := CountKey(uuid, clientIP);
      if faults.membersFailed {
        return true;
      }
      var ips := SMembers(store, ipsKey);
      if |ips| >= config.maxIPLimit {
        var isMember := !faults.isMemberFailed && clientIP in SMembers(store, ipsKey);
        if !isMember {
          return false;
        }
      }
      if faults.getFailed {
        return true;
      }
      var connCount := 0;
      if ipCountKey in store.counters {
        connCount := store.counters[ipCountKey];
      }
      if connCount >= config.maxIpPerConn {
        return false;
      }
      return true;
    }

    /** AddConnection: when enabled and the pipeline goes through, the
        address joins the set and its counter goes up by one. */
    method AddConnection(uuid: string, clientIP: string, execFailed: bool)
      modifies this`store
      ensures store == if IsEnabled() && !execFailed then AfterAdd(old(store), uuid, clientIP) else old(store)
      ensures Consistent(old(store)) && NoColon(uuid) ==> Consistent(store)
    {
      if !IsEnabled() {
        return;
      }
      var ipsKey := IpsKey(uuid);
      var ipCountKey := CountKey(uuid, clientIP);
      if !execFailed {
        ghost var before := store;
        store := SAdd(store, ipsKey, clientIP);
        store := Incr(store, ipCountKey);
        if Consistent(before) && NoColon(uuid) {
          AddPreservesConsistent(before, uuid, clientIP);
        }
      }
    }

    /** RemoveConnection: when enabled and DECR goes through, the counter
        goes down by one, and a result of at most 0 removes both the address
        and the counter. */
    method RemoveConnection(uuid: string, clientIP: string, decrFailed: bool)
      modifies this`store
      ensures store == if IsEnabled() && !decrFailed then AfterRemove(old(store), uuid, clientIP) else old(store)
      ensures Consistent(old(store)) && NoColon(uuid) ==> Consistent(store)
    {
      if !IsEnabled() {
        return;
      }
      var ipsKey := IpsKey(uuid);
      var ipCountKey := CountKey(uuid, clientIP);
      if decrFailed {
        return;
      }
      ghost var before := store;
      store := Decr(store, ipCountKey);
      var count := store.counters[ipCountKey];
      if count <= 0 {
        store := SRem(store, ipsKey, clientIP);
        store := DelCounter(store, ipCountKey);
      }
      if Consistent(before) && NoColon(uuid) {
        RemovePreservesConsistent(before, uuid, clientIP);
      }
    }

    /** ClearAllConnections: when enabled and both KEYS and DEL go through,
        every `user:` key is gone and every other key is kept. */
    method ClearAllConnections(keysFailed: bool, delFailed: bool)
      modifies this`store
      ensures store == if IsEnabled() && !keysFailed && !delFailed then AfterClear(old(store)) else old(store)
      ensures Consistent(old(store)) ==> Consistent(store)
    {
      if !IsEnabled() {
        return;
      }
      if keysFailed {
        return;
      }
      ghost var before := store;
      var keys := KeysWithPrefix(store, KeyPrefix);
      if |keys| > 0 {
        if !delFailed {
          store := Del(store, keys);
        }
      } else {
        assert Del(store, keys) == store by {
          assert store.sets - keys == store.sets;
          assert store.counters - keys == store.counters;
        }
      }
      if Consistent(before) {
        ClearPreservesConsistent(before);
      }
    }

    /** GetActiveIPs, read-only: the credential's address set, or nothing
        when the limiter is off or the read fails. */
    method GetActiveIPs(uuid: string, readFailed: bool) returns (ips: set<string>)
      ensures ips == if IsEnabled() && !readFailed then SMembers(store, IpsKey(uuid)) else {}
    {
      if !IsEnabled() {
        return {};
      }
      var ipsKey := IpsKey(uuid);
      if readFailed {
        return {};
      }
      ips := SMembers(store, ipsKey);
    }

    /** LoadIPLimitConfig: an unopened database is an error that leaves the
        configuration alone; otherwise the fields are updated one by one and
        the result is nil. */
    method LoadIPLimitConfig(dbOpened: bool, settings: map<string, string>) returns (failed: bool)
      modifies this`config
      ensures failed == !dbOpened
      ensures config == if dbOpened then LoadedConfig(old(config), settings) else old(config)
    {
      if !dbOpened {
        return true;
      }
      if "enableIpLimit" !in settings {
        config := config.(enabled := false);
        return false;
      }
      var enabledStr := settings["enableIpLimit"];
      if enabledStr == "true" {
        config := config.(enabled := true);
      } else {
        config := config.(enabled := false);
        return false;
      }
      // the remaining fields are read into a copy that replaces the
      // configuration once all are read
      var c := config;
      if "redisAddr" in settings && settings["redisAddr"] != "" {
        c := c.(redisAddr := settings["redisAddr"]);
      }
      var port := ParsedSetting(settings, "redisPort");
      if port.Some? && ValidPort(port.value) {
        c := c.(redisPort := port.value);
      }
      if "redisPassword" in settings {
        c := c.(redisPass := settings["redisPassword"]);
      }
      var db := ParsedSetting(settings, "redisDb");
      if db.Some? && db.value >= 0 {
        c := c.(redisDB := db.value);
      }
      var limit := ParsedSetting(settings, "maxIpLimit");
      if limit.Some? && limit.value > 0 {
        c := c.(maxIPLimit := limit.value);
      }
      var perConn := ParsedSetting(settings, "maxIpPerConn");
      if perConn.Some? && perConn.value > 0 {
        c := c.(maxIpPerConn := perConn.value);
      }
      config := c;
      return false;
    }
  }

  /** The limiter can be on only after the one-time initialisation ran
      while the configuration was enabled or was enabled later. */
  lemma EnabledNeedsInit(l: Limiter)
    requires l.Valid()
    ensures l.IsEnabled() ==> l.initDone && l.config.enabled
  {
  }

  /** While the limiter is off every operation fails open and changes nothing. */
  method DisabledFailsOpen(server: Store, uuid: string, ip: string, f: ReadFaults) {
    var l := new Limiter(server);
    var ok := l.CheckConnection(uuid, ip, f);
    assert ok;
    l.AddConnection(uuid, ip, false);
    l.RemoveConnection(uuid, ip, false);
    l.ClearAllConnections(false, false);
    var ips := l.GetActiveIPs(uuid, false);
    assert ips == {} && l.store == server;
  }

  /** When the first InitRedisClient runs with the limiter disabled, no
      later call creates a client, whatever the configuration becomes. */
  method DisabledFirstInitNeverConnects(server: Store) {
    var l := new Limiter(server);
    var failed := l.InitRedisClient(true);
    assert !failed && !l.hasClient;
    l.SetConfig(DefaultConfig.(enabled := true));
    failed := l.InitRedisClient(true);
    assert !failed && !l.hasClient && !l.IsEnabled();
  }

  /** A failed ping is reported once, and the client it leaves makes the
      limiter count as enabled. */
  method FailedPingStillEnables(server: Store) {
    var l := new Limiter(server);
    l.SetConfig(DefaultConfig.(enabled := true));
    var failed := l.InitRedisClient(false);
    assert failed && l.IsEnabled();
    failed := l.InitRedisClient(false);
    assert !failed && l.IsEnabled();
  }

  /** Loading a table that switches the limiter on, then connecting: the
      limits of the table apply to the next admission checks. */
  method LoadThenAdmit(server: Store) {
    var l := new Limiter(server);
    var failed := l.LoadIPLimitConfig(true, map["enableIpLimit" := "true", "maxIpLimit" := "1"]);
    assert !failed && l.config.enabled && l.config.maxIPLimit == 1 by {
      assert Atoi("1") == Some(1) by {
        assert DecimalValue("1") == 10 * DecimalValue("") + DigitValue('1');
      }
    }
  }
}
