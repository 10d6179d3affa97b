/** The admission state the limiter keeps in Redis, the Redis commands it
    issues, the effect of each limiter operation on that state, and the
    admission rule of CheckConnection (xray/limiter/redis.go), all as values.
    Key expiry is not modelled: every statement here holds "ignoring TTL". */
module Admission {
  import opened GoStrings

  /** The limiter's settings. */
  datatype Config = Config(
    enabled: bool,
    redisAddr: string,
    redisPort: int,
    redisPass: string,
    redisDB: int,
    maxIPLimit: int,
    maxIpPerConn: int)

  /** The settings the package starts with. */
  const DefaultConfig := Config(false, "127.0.0.1", 6379, "", 0, 2, 10)

  /** The part of the Redis keyspace the limiter uses: keys holding sets of
      strings and keys holding integers. */
  datatype Store = Store(sets: map<string, set<string>>, counters: map<string, int>)

  /** Redis never keeps a set key without members. */
  ghost predicate WellFormed(st: Store) {
    forall k :: k in st.sets ==> st.sets[k] != {}
  }

  const KeyPrefix := "user:"

  /** `user:<uuid>:ips`, the set of client addresses of a credential. */
  function IpsKey(uuid: string): string {
    "user:" + uuid + ":ips"
  }

  /** `user:<uuid>:ipcount:<ip>`, the connection counter of one address. */
  function CountKey(uuid: string, ip: string): string {
    "user:" + uuid + ":ipcount:" + ip
  }

  predicate NoColon(s: string) {
    forall i :: 0 <= i < |s| ==> s[i] != ':'
  }

  lemma IpsKeyInjective(u1: string, u2: string)
    requires IpsKey(u1) == IpsKey(u2)
    ensures u1 == u2
  {
    var k := IpsKey(u1);
    assert |u1| == |u2|;
    assert u1 == k[5..5 + |u1|];
    assert u2 == IpsKey(u2)[5..5 + |u2|];
  }

  /** Counter keys of one credential differ for different addresses. */
  lemma CountKeySameUuid(u: string, ip1: string, ip2: string)
    requires CountKey(u, ip1) == CountKey(u, ip2)
    ensures ip1 == ip2
  {
    var n := 5 + |u| + 9;
    assert ip1 == CountKey(u, ip1)[n..];
    assert ip2 == CountKey(u, ip2)[n..];
  }

  /** The characters of a counter key: the credential starts at offset 5 and
      is followed by ':'. */
  lemma CountKeyLayout(u: string, ip: string)
    ensures |CountKey(u, ip)| > 5 + |u| && CountKey(u, ip)[5 + |u|] == ':'
    ensures forall i :: 0 <= i < |u| ==> CountKey(u, ip)[5 + i] == u[i]
  {
  }

  /** For credentials without ':' (every credential the log patterns can
      capture) the counter key determines credential and address. */
  lemma CountKeyInjective(u1: string, ip1: string, u2: string, ip2: string)
    requires NoColon(u1) && NoColon(u2)
    requires CountKey(u1, ip1) == CountKey(u2, ip2)
    ensures u1 == u2 && ip1 == ip2
  {
    var k := CountKey(u1, ip1);
    CountKeyLayout(u1, ip1);
    CountKeyLayout(u2, ip2);
    assert |u1| == |u2|;
    assert u1 == k[5..5 + |u1|];
    assert u2 == k[5..5 + |u2|];
    CountKeySameUuid(u1, ip1, ip2);
  }

  /** With a ':' in the credential two different (credential, address) pairs
      share one counter key, so the key layout is unambiguous only for
      colon-free credentials. */
  lemma CountKeyCollision()
    ensures CountKey("a", "b:ipcount:c") == CountKey("a:ipcount:b", "c")
  {
    assert CountKey("a", "b:ipcount:c") == "user:a:ipcount:b:ipcount:c";
    assert CountKey("a:ipcount:b", "c") == "user:a:ipcount:b:ipcount:c";
  }

  lemma KeysHavePrefix(u: string, ip: string)
    ensures HasPrefix(IpsKey(u), KeyPrefix) && HasPrefix(CountKey(u, ip), KeyPrefix)
  {
    assert IpsKey(u)[..5] == KeyPrefix;
    assert CountKey(u, ip)[..5] == KeyPrefix;
  }

  // ---------------------------------------------------------------------
  // Redis commands on the model

  /** SMEMBERS: a missing key reads as the empty set. */
  function SMembers(st: Store, key: string): set<string> {
    if key in st.sets then st.sets[key] else {}
  }

  /** The integer INCR and DECR start from: a missing key counts as 0. */
  function CounterOrZero(st: Store, key: string): int {
    if key in st.counters then st.counters[key] else 0
  }

  /** SADD */
  function SAdd(st: Store, key: string, member: string): (r: Store)
    ensures WellFormed(st) ==> WellFormed(r)
  {
    st.(sets := st.sets[key := SMembers(st, key) + {member}])
  }

  /** SREM: removing the last member deletes the key. */
  function SRem(st: Store, key: string, member: string): (r: Store)
    ensures WellFormed(st) ==> WellFormed(r)
  {
    var rest := SMembers(st, key) - {member};
    if rest == {} then st.(sets := st.sets - {key}) else st.(sets := st.sets[key := rest])
  }

  /** INCR */
  function Incr(st: Store, key: string): Store {
    st.(counters := st.counters[key := CounterOrZero(st, key) + 1])
  }

  /** DECR: a missing key is first taken as 0, so it ends at -1. */
  function Decr(st: Store, key: string): Store {
    st.(counters := st.counters[key := CounterOrZero(st, key) - 1])
  }

  /** DEL of several keys at once. */
  function Del(st: Store, keys: set<string>): Store {
    Store(st.sets - keys, st.counters - keys)
  }

  /** DEL of a key that holds an integer. */
  function DelCounter(st: Store, key: string): Store {
    st.(counters := st.counters - {key})
  }

  /** KEYS <prefix>*: every key, of either kind, starting with `prefix`. */
  function KeysWithPrefix(st: Store, prefix: string): set<string> {
    set k | k in st.sets.Keys + st.counters.Keys && HasPrefix(k, prefix)
  }

  // ---------------------------------------------------------------------
  // Effects of the limiter's operations

  /** AddConnection's pipeline: SADD the address, INCR its counter. */
  function AfterAdd(st: Store, uuid: string, ip: string): Store {
    Incr(SAdd(st, IpsKey(uuid), ip), CountKey(uuid, ip))
  }

  /** RemoveConnection: DECR the counter; when it is then at most 0, SREM
      the address and DEL the counter. */
  function AfterRemove(st: Store, uuid: string, ip: string): Store {
    var k := CountKey(uuid, ip);
    var st1 := Decr(st, k);
    if st1.counters[k] <= 0 then DelCounter(SRem(st1, IpsKey(uuid), ip), k) else st1
  }

  /** ClearAllConnections: DEL every key matching `user:*`. */
  function AfterClear(st: Store): (r: Store)
    ensures forall k :: k in r.sets <==> k in st.sets && !HasPrefix(k, KeyPrefix)
    ensures forall k :: k in r.sets ==> r.sets[k] == st.sets[k]
    ensures forall k :: k in r.counters <==> k in st.counters && !HasPrefix(k, KeyPrefix)
    ensures forall k :: k in r.counters ==> r.counters[k] == st.counters[k]
  {
    Del(st, KeysWithPrefix(st, KeyPrefix))
  }

  /** Which of CheckConnection's three reads failed with an error other
      than "key not found". A failed SISMEMBER reads as "not a member". */
  datatype ReadFaults = ReadFaults(membersFailed: bool, isMemberFailed: bool, getFailed: bool)

  const NoFaults := ReadFaults(false, false, false)

  /** The admission rule when the limiter is enabled: the connection is
      refused when the credential already has `maxIPLimit` addresses and
      this address is not (known to be) one of them, or when the address
      already holds `maxIpPerConn` connections; a failed read of the address
      set, or of the counter once the first test passed, admits. */
  predicate Admits(cfg: Config, st: Store, uuid: string, ip: string, f: ReadFaults) {
    var ips := SMembers(st, IpsKey(uuid));
    var ipLimitHit := |ips| >= cfg.maxIPLimit && (f.isMemberFailed || ip !in ips);
    var connLimitHit := !f.getFailed && CounterOrZero(st, CountKey(uuid, ip)) >= cfg.maxIpPerConn;
    f.membersFailed || !(ipLimitHit || connLimitHit)
  }

  /** The three reads fail differently: a failed SMEMBERS admits whatever
      the store holds, while a failed SISMEMBER refuses a credential whose
      address set is full, even for an address already in it. */
  lemma ReadFaultsAsymmetric(cfg: Config, st: Store, uuid: string, ip: string, f: ReadFaults)
    ensures f.membersFailed ==> Admits(cfg, st, uuid, ip, f)
    ensures !f.membersFailed && f.isMemberFailed && |SMembers(st, IpsKey(uuid))| >= cfg.maxIPLimit
            ==> !Admits(cfg, st, uuid, ip, f)
    ensures !f.membersFailed && f.getFailed && (|SMembers(st, IpsKey(uuid))| < cfg.maxIPLimit || (!f.isMemberFailed && ip in SMembers(st, IpsKey(uuid))))
            ==> Admits(cfg, st, uuid, ip, f)
  {
  }

  // ---------------------------------------------------------------------
  // The bookkeeping invariant

  /** For one (credential, address): the address is in the credential's set
      exactly when its counter exists, an existing counter is at least 1,
      and the credential's set key is not left empty. */
  ghost predicate LocallyConsistent(st: Store, uuid: string, ip: string) {
    && (ip in SMembers(st, IpsKey(uuid)) <==> CountKey(uuid, ip) in st.counters)
    && (CountKey(uuid, ip) in st.counters ==> st.counters[CountKey(uuid, ip)] >= 1)
    && (IpsKey(uuid) in st.sets ==> st.sets[IpsKey(uuid)] != {})
  }

  /** The invariant AddConnection and RemoveConnection keep, for every
      colon-free credential and every address. */
  ghost predicate Consistent(st: Store) {
    WellFormed(st) && forall u, ip :: NoColon(u) ==> LocallyConsistent(st, u, ip)
  }

  lemma EmptyStoreConsistent()
    ensures Consistent(Store(map[], map[]))
  {
  }

  /** AddConnection's counter goes up by exactly one, its address joins the
      set, and no other key changes. */
  lemma AddEffect(st: Store, uuid: string, ip: string)
    ensures SMembers(AfterAdd(st, uuid, ip), IpsKey(uuid)) == SMembers(st, IpsKey(uuid)) + {ip}
    ensures CounterOrZero(AfterAdd(st, uuid, ip), CountKey(uuid, ip)) == CounterOrZero(st, CountKey(uuid, ip)) + 1
    ensures AfterAdd(st, uuid, ip).sets - {IpsKey(uuid)} == st.sets - {IpsKey(uuid)}
    ensures AfterAdd(st, uuid, ip).counters - {CountKey(uuid, ip)} == st.counters - {CountKey(uuid, ip)}
  {
    var r := AfterAdd(st, uuid, ip);
    assert r.sets - {IpsKey(uuid)} == st.sets - {IpsKey(uuid)};
    assert r.counters - {CountKey(uuid, ip)} == st.counters - {CountKey(uuid, ip)};
  }

  lemma {:induction false} AddPreservesConsistent(st: Store, uuid: string, ip: string)
    requires Consistent(st) && NoColon(uuid)
    ensures Consistent(AfterAdd(st, uuid, ip))
  {
    var r := AfterAdd(st, uuid, ip);
    forall u, a | NoColon(u) ensures LocallyConsistent(r, u, a) {
      assert LocallyConsistent(st, u, a);
      if IpsKey(u) == IpsKey(uuid) {
        IpsKeyInjective(u, uuid);
      }
      if CountKey(u, a) == CountKey(uuid, ip) {
        CountKeyInjective(u, a, uuid, ip);
      }
    }
  }

  /** RemoveConnection on any store: a counter above 1 goes down by one; a
      counter of 1, or a missing one, leaves neither the counter nor the
      address behind; nothing else changes. */
  lemma RemoveEffect(st: Store, uuid: string, ip: string)
    ensures var r, ik, k := AfterRemove(st, uuid, ip), IpsKey(uuid), CountKey(uuid, ip);
            && (forall x :: x != ik ==> SMembers(r, x) == SMembers(st, x))
            && (forall x :: x != k ==> (x in r.counters <==> x in st.counters))
            && (forall x :: x != k && x in r.counters ==> r.counters[x] == st.counters[x])
            && (CounterOrZero(st, k) <= 1 ==> k !in r.counters && SMembers(r, ik) == SMembers(st, ik) - {ip})
            && (CounterOrZero(st, k) > 1 ==> k in r.counters && r.counters[k] == st.counters[k] - 1
                                              && SMembers(r, ik) == SMembers(st, ik))
  {
    var r, ik, k := AfterRemove(st, uuid, ip), IpsKey(uuid), CountKey(uuid, ip);
    var st1 := Decr(st, k);
    if CounterOrZero(st, k) <= 1 {
      assert st1.counters[k] <= 0;
      assert r == DelCounter(SRem(st1, ik, ip), k);
    } else {
      assert r == st1;
    }
  }

  /** RemoveConnection on a missing counter (DECR gives -1, then SREM and
      DEL) leaves the store as it was exactly when the address is not in
      the credential's set; otherwise it drops the address from the set. */
  lemma MissingCounterRemove(st: Store, uuid: string, ip: string)
    requires WellFormed(st) && CountKey(uuid, ip) !in st.counters
    ensures AfterRemove(st, uuid, ip) == st <==> ip !in SMembers(st, IpsKey(uuid))
    ensures SMembers(AfterRemove(st, uuid, ip), IpsKey(uuid)) == SMembers(st, IpsKey(uuid)) - {ip}
  {
    var r, ik, k := AfterRemove(st, uuid, ip), IpsKey(uuid), CountKey(uuid, ip);
    var st1 := Decr(st, k);
    assert r == DelCounter(SRem(st1, ik, ip), k);
    assert r.counters == st.counters;
    if ip !in SMembers(st, ik) {
      if ik in st.sets {
        assert SMembers(st, ik) - {ip} == st.sets[ik];
        assert r.sets == st.sets[ik := st.sets[ik]] == st.sets;
      } else {
        assert r.sets == st.sets - {ik} == st.sets;
      }
    } else {
      assert ip !in SMembers(r, ik);
    }
  }

  lemma {:induction false} RemovePreservesConsistent(st: Store, uuid: string, ip: string)
    requires Consistent(st) && NoColon(uuid)
    ensures Consistent(AfterRemove(st, uuid, ip))
  {
    var r := AfterRemove(st, uuid, ip);
    var k := CountKey(uuid, ip);
    assert LocallyConsistent(st, uuid, ip);
    RemoveEffect(st, uuid, ip);
    forall x | x in r.sets ensures r.sets[x] != {} {
      assert SMembers(r, x) != {};
    }
    forall u, a | NoColon(u) ensures LocallyConsistent(r, u, a) {
      assert LocallyConsistent(st, u, a);
      if IpsKey(u) == IpsKey(uuid) {
        IpsKeyInjective(u, uuid);
        if a != ip && CountKey(u, a) == k {
          CountKeySameUuid(uuid, a, ip);
        }
      } else if CountKey(u, a) == k {
        CountKeyInjective(u, a, uuid, ip);
      }
    }
  }

  /** After a flush no credential has an address or a counter left. */
  lemma ClearLeavesNoUser(st: Store)
    ensures forall u :: SMembers(AfterClear(st), IpsKey(u)) == {}
    ensures forall u, ip :: CountKey(u, ip) !in AfterClear(st).counters
  {
    forall u ensures SMembers(AfterClear(st), IpsKey(u)) == {} {
      KeysHavePrefix(u, "");
    }
    forall u, ip ensures CountKey(u, ip) !in AfterClear(st).counters {
      KeysHavePrefix(u, ip);
    }
  }

  lemma ClearPreservesConsistent(st: Store)
    requires Consistent(st)
    ensures Consistent(AfterClear(st))
  {
    ClearLeavesNoUser(st);
  }

  // ---------------------------------------------------------------------
  // Repeated operations on one (credential, address)

  /** `n` AddConnection calls for one (credential, address). */
  function AddN(st: Store, uuid: string, ip: string, n: nat): Store
    decreases n
  {
    if n == 0 then st else AfterAdd(AddN(st, uuid, ip, n - 1), uuid, ip)
  }

  /** `n` RemoveConnection calls for one (credential, address). */
  function RemoveN(st: Store, uuid: string, ip: string, n: nat): Store
    decreases n
  {
    if n == 0 then st else RemoveN(AfterRemove(st, uuid, ip), uuid, ip, n - 1)
  }

  /** One RemoveConnection undoes one AddConnection exactly, whole store
      included, wherever the pair's bookkeeping is consistent. */
  lemma RemoveUndoesAdd(st: Store, uuid: string, ip: string)
    requires LocallyConsistent(st, uuid, ip)
    ensures AfterRemove(AfterAdd(st, uuid, ip), uuid, ip) == st
  {
    var ik, k := IpsKey(uuid), CountKey(uuid, ip);
    var r := AfterRemove(AfterAdd(st, uuid, ip), uuid, ip);
    if k in st.counters {
      assert SMembers(st, ik) + {ip} == st.sets[ik];
      assert st.sets[ik := SMembers(st, ik) + {ip}] == st.sets;
      assert st.counters[k := st.counters[k]] == st.counters;
    } else {
      if ik in st.sets {
        assert st.sets[ik := SMembers(st, ik) + {ip}][ik := SMembers(st, ik)] == st.sets;
      } else {
        assert st.sets[ik := {ip}] - {ik} == st.sets;
      }
      assert st.counters[k := 1][k := 0] - {k} == st.counters;
    }
    assert r.sets == st.sets;
    assert r.counters == st.counters;
  }

  lemma AddKeepsLocallyConsistent(st: Store, uuid: string, ip: string)
    requires LocallyConsistent(st, uuid, ip)
    ensures LocallyConsistent(AfterAdd(st, uuid, ip), uuid, ip)
  {
  }

  lemma {:induction false} AddNKeepsLocallyConsistent(st: Store, uuid: string, ip: string, n: nat)
    requires LocallyConsistent(st, uuid, ip)
    ensures LocallyConsistent(AddN(st, uuid, ip, n), uuid, ip)
    decreases n
  {
    if n > 0 {
      AddNKeepsLocallyConsistent(st, uuid, ip, n - 1);
      AddKeepsLocallyConsistent(AddN(st, uuid, ip, n - 1), uuid, ip);
    }
  }

  /** `n` AddConnection calls followed by `n` RemoveConnection calls on one
      (credential, address) give back the store they started from. */
  lemma {:induction false} AddsThenRemovesRestore(st: Store, uuid: string, ip: string, n: nat)
    requires LocallyConsistent(st, uuid, ip)
    ensures RemoveN(AddN(st, uuid, ip, n), uuid, ip, n) == st
    decreases n
  {
    if n > 0 {
      var before := AddN(st, uuid, ip, n - 1);
      AddNKeepsLocallyConsistent(st, uuid, ip, n - 1);
      RemoveUndoesAdd(before, uuid, ip);
      assert RemoveN(AddN(st, uuid, ip, n), uuid, ip, n)
          == RemoveN(AfterRemove(AfterAdd(before, uuid, ip), uuid, ip), uuid, ip, n - 1);
      AddsThenRemovesRestore(st, uuid, ip, n - 1);
    }
  }

  /** In particular an address that was not tracked before is, after `n`
      adds and `n` removes, neither in the set nor counted. */
  lemma AddsThenRemovesLeaveNoTrace(st: Store, uuid: string, ip: string, n: nat)
    requires WellFormed(st)
    requires ip !in SMembers(st, IpsKey(uuid)) && CountKey(uuid, ip) !in st.counters
    ensures ip !in SMembers(RemoveN(AddN(st, uuid, ip, n), uuid, ip, n), IpsKey(uuid))
    ensures CountKey(uuid, ip) !in RemoveN(AddN(st, uuid, ip, n), uuid, ip, n).counters
  {
    AddsThenRemovesRestore(st, uuid, ip, n);
  }

  // ---------------------------------------------------------------------
  // The two limits

  lemma {:induction false} AddNCounts(st: Store, uuid: string, ip: string, n: nat)
    requires ip !in SMembers(st, IpsKey(uuid)) && CountKey(uuid, ip) !in st.counters
    ensures CounterOrZero(AddN(st, uuid, ip, n), CountKey(uuid, ip)) == n
    ensures SMembers(AddN(st, uuid, ip, n), IpsKey(uuid)) == SMembers(st, IpsKey(uuid)) + (if n == 0 then {} else {ip})
    decreases n
  {
    if n > 0 {
      AddNCounts(st, uuid, ip, n - 1);
    }
  }

  /** Once an address holds `maxIpPerConn` connections the next one is
      refused. */
  lemma LimitReachedRefuses(cfg: Config, st: Store, uuid: string, ip: string)
    requires ip !in SMembers(st, IpsKey(uuid)) && CountKey(uuid, ip) !in st.counters
    requires cfg.maxIpPerConn >= 1
    ensures !Admits(cfg, AddN(st, uuid, ip, cfg.maxIpPerConn), uuid, ip, NoFaults)
  {
    AddNCounts(st, uuid, ip, cfg.maxIpPerConn);
  }

  /** Releasing one of those connections gives back the store with one
      connection fewer. */
  lemma ReleaseStepsBack(st: Store, uuid: string, ip: string, m: nat)
    requires WellFormed(st)
    requires ip !in SMembers(st, IpsKey(uuid)) && CountKey(uuid, ip) !in st.counters
    requires m >= 1
    ensures AfterRemove(AddN(st, uuid, ip, m), uuid, ip) == AddN(st, uuid, ip, m - 1)
  {
    var prev := AddN(st, uuid, ip, m - 1);
    assert LocallyConsistent(st, uuid, ip);
    AddNKeepsLocallyConsistent(st, uuid, ip, m - 1);
    RemoveUndoesAdd(prev, uuid, ip);
    assert AddN(st, uuid, ip, m) == AfterAdd(prev, uuid, ip);
  }

  /** Once an address holds `maxIpPerConn` connections the next one is
      refused; after one release it is admitted again, unless that release
      dropped the address from a credential already at its address limit. */
  lemma PerAddressLimit(cfg: Config, st: Store, uuid: string, ip: string)
    requires WellFormed(st)
    requires ip !in SMembers(st, IpsKey(uuid)) && CountKey(uuid, ip) !in st.counters
    requires cfg.maxIpPerConn >= 1
    ensures !Admits(cfg, AddN(st, uuid, ip, cfg.maxIpPerConn), uuid, ip, NoFaults)
    ensures cfg.maxIpPerConn >= 2 || |SMembers(st, IpsKey(uuid))| < cfg.maxIPLimit ==>
              Admits(cfg, AfterRemove(AddN(st, uuid, ip, cfg.maxIpPerConn), uuid, ip), uuid, ip, NoFaults)
  {
    var m := cfg.maxIpPerConn;
    LimitReachedRefuses(cfg, st, uuid, ip);
    ReleaseStepsBack(st, uuid, ip, m);
    AddNCounts(st, uuid, ip, m - 1);
  }

  /** AddConnection for each address of `ips`, in order. */
  function AddAll(st: Store, uuid: string, ips: seq<string>): Store
    decreases |ips|
  {
    if |ips| == 0 then st else AfterAdd(AddAll(st, uuid, ips[..|ips| - 1]), uuid, ips[|ips| - 1])
  }

  predicate Distinct(ips: seq<string>) {
    forall i, j :: 0 <= i < j < |ips| ==> ips[i] != ips[j]
  }

  lemma {:induction false} DistinctCardinality(ips: seq<string>)
    requires Distinct(ips)
    ensures |set a | a in ips| == |ips|
    decreases |ips|
  {
    if |ips| > 0 {
      var init := ips[..|ips| - 1];
      DistinctCardinality(init);
      assert (set a | a in ips) == (set a | a in init) + {ips[|ips| - 1]};
    }
  }

  lemma {:induction false} AddAllEffect(st: Store, uuid: string, ips: seq<string>)
    requires Distinct(ips)
    requires forall a :: a in ips ==> CountKey(uuid, a) !in st.counters
    ensures SMembers(AddAll(st, uuid, ips), IpsKey(uuid)) == SMembers(st, IpsKey(uuid)) + (set a | a in ips)
    ensures forall a :: a in ips ==> CounterOrZero(AddAll(st, uuid, ips), CountKey(uuid, a)) == 1
    ensures forall a :: a !in ips ==> CounterOrZero(AddAll(st, uuid, ips), CountKey(uuid, a)) == CounterOrZero(st, CountKey(uuid, a))
    decreases |ips|
  {
    if |ips| > 0 {
      var init, last := ips[..|ips| - 1], ips[|ips| - 1];
      assert ips == init + [last];
      assert Distinct(init);
      AddAllEffect(st, uuid, init);
      assert last !in init by {
        forall i | 0 <= i < |init| ensures init[i] != last {
          assert init[i] == ips[i];
        }
      }
      AddOneMore(st, AddAll(st, uuid, init), uuid, init, last);
    }
  }

  /** The step of AddAllEffect: one more fresh address on top of `init`. */
  lemma AddOneMore(st: Store, prev: Store, uuid: string, init: seq<string>, last: string)
    requires last !in init && CountKey(uuid, last) !in st.counters
    requires SMembers(prev, IpsKey(uuid)) == SMembers(st, IpsKey(uuid)) + (set a | a in init)
    requires forall a :: a in init ==> CounterOrZero(prev, CountKey(uuid, a)) == 1
    requires forall a :: a !in init ==> CounterOrZero(prev, CountKey(uuid, a)) == CounterOrZero(st, CountKey(uuid, a))
    ensures SMembers(AfterAdd(prev, uuid, last), IpsKey(uuid)) == SMembers(st, IpsKey(uuid)) + (set a | a in init + [last])
    ensures forall a :: a in init + [last] ==> CounterOrZero(AfterAdd(prev, uuid, last), CountKey(uuid, a)) == 1
    ensures forall a :: a !in init + [last] ==> CounterOrZero(AfterAdd(prev, uuid, last), CountKey(uuid, a)) == CounterOrZero(st, CountKey(uuid, a))
  {
    var next := AfterAdd(prev, uuid, last);
    AddEffect(prev, uuid, last);
    assert (set a | a in init + [last]) == (set a | a in init) + {last};
    forall a | a != last
      ensures CounterOrZero(next, CountKey(uuid, a)) == CounterOrZero(prev, CountKey(uuid, a))
    {
      if CountKey(uuid, a) == CountKey(uuid, last) {
        CountKeySameUuid(uuid, a, last);
      }
      assert CountKey(uuid, a) in next.counters - {CountKey(uuid, last)} <==> CountKey(uuid, a) in prev.counters - {CountKey(uuid, last)};
    }
  }

  /** With `maxIPLimit = k`, after AddConnection for k distinct addresses of
      a credential that had none, a further address is refused, while each
      of the k is still admitted when an address may hold more than one
      connection. */
  lemma DistinctAddressLimit(cfg: Config, st: Store, uuid: string, ips: seq<string>, ip: string)
    requires IpsKey(uuid) !in st.sets
    requires Distinct(ips) && |ips| == cfg.maxIPLimit
    requires forall a :: a in ips ==> CountKey(uuid, a) !in st.counters
    ensures ip !in ips ==> !Admits(cfg, AddAll(st, uuid, ips), uuid, ip, NoFaults)
    ensures ip in ips && cfg.maxIpPerConn > 1 ==> Admits(cfg, AddAll(st, uuid, ips), uuid, ip, NoFaults)
  {
    AddAllEffect(st, uuid, ips);
    DistinctCardinality(ips);
  }

  /** The worked example: limits 2 addresses and 1 connection per address. */
  lemma TwoAddressScenario()
    ensures var cfg := DefaultConfig.(enabled := true, maxIPLimit := 2, maxIpPerConn := 1);
            var s2 := AfterAdd(AfterAdd(Store(map[], map[]), "U", "1.1.1.1"), "U", "2.2.2.2");
            && !Admits(cfg, s2, "U", "3.3.3.3", NoFaults)
            && !Admits(cfg, s2, "U", "1.1.1.1", NoFaults)
            && Admits(cfg, AfterRemove(s2, "U", "1.1.1.1"), "U", "1.1.1.1", NoFaults)
  {
    var cfg := DefaultConfig.(enabled := true, maxIPLimit := 2, maxIpPerConn := 1);
    var s0 := Store(map[], map[]);
    var ips := ["1.1.1.1", "2.2.2.2"];
    assert AddAll(s0, "U", ips[..1]) == AfterAdd(s0, "U", "1.1.1.1");
    DistinctAddressLimit(cfg, s0, "U", ips, "3.3.3.3");
    AddAllEffect(s0, "U", ips);
    var s2 := AddAll(s0, "U", ips);
    assert CounterOrZero(s2, CountKey("U", "1.1.1.1")) == 1;
    var s1 := AfterAdd(s0, "U", "1.1.1.1");
    if CountKey("U", "1.1.1.1") == CountKey("U", "2.2.2.2") {
      CountKeySameUuid("U", "1.1.1.1", "2.2.2.2");
    }
    assert CountKey("U", "2.2.2.2") !in s1.counters;
    assert LocallyConsistent(s1, "U", "2.2.2.2");
    var s3 := AfterRemove(s2, "U", "1.1.1.1");
    assert CountKey("U", "1.1.1.1") !in s3.counters;
    assert SMembers(s3, IpsKey("U")) == {"2.2.2.2"};
  }
}
