# x-ui connection limiter and system helpers, modelled in Dafny

This project models the per-credential connection limiter of x-ui, an
Xray control panel, together with the panel's settings check and its small
system helpers, and proves properties of the model.

- **Admission store** (`admission.dfy`) models the Redis contents behind
  the limiter as values. For each credential, a set key `user:<uuid>:ips`
  holds its client addresses. For each (credential, address) pair, an
  integer key `user:<uuid>:ipcount:<ip>` holds its connection count. Each
  Redis command the limiter issues is a function on the store. The proofs
  cover: what AddConnection, RemoveConnection and ClearAllConnections do;
  the consistency invariant they keep (an address is in the set exactly
  when its counter exists, and the counter is at least 1); the admission
  rule of CheckConnection; both limits; and the collision of counter keys
  for credentials that contain a colon.
- **Limiter** (`limiter.dfy`) is a class that holds the package state of
  `xray/limiter`: the configuration, whether a client exists, whether the
  one-time initialisation has run, and the server's contents. Its methods
  are InitRedisClient, GetConfig, SetConfig, CheckConnection,
  AddConnection, RemoveConnection, ClearAllConnections, GetActiveIPs and
  LoadIPLimitConfig. Each method is proved against the store functions.
  The methods DisabledFailsOpen, DisabledFirstInitNeverConnects,
  FailedPingStillEnables and LoadThenAdmit at the end of the file run
  short call sequences on a fresh Limiter and assert their outcomes.
- **Configuration loading** (`ipconfig.dfy`): `LoadedConfig` says which
  settings rows LoadIPLimitConfig accepts and which fields they change.
- **Credential registry** (`registry.dfy`) is the `uuidMap` that
  ExtractUUIDs rebuilds from the decoded Xray configuration, with its
  nested loops and the two lookups.
- **Log patterns** (`logpatterns.dfy`): the two fixed regular expressions
  of `hook.go`, written out by hand with leftmost-first matching, a greedy
  `[a-zA-Z0-9\-]+` and a lazy `(.+?)`. `correlator.dfy` builds ProcessLog
  on top of them.
- **Settings check** (`entity.dfy`): AllSetting.CheckValid, with the
  library checks it calls (IP parsing, key-pair loading, Xray config
  decoding, time zones) as oracle predicates.
- **Linux helpers** (`syslinux.dfy`): getLinesNum over an 8192-byte
  array buffer, the /proc/net line counts, getValueFromFile and
  GetSystemInfo. File contents and read outcomes are parameters.
- **Windows helpers** (`syswindows.dfy`): the netstat line counts and
  GetPid. Command outputs are parameters. The Windows GetSystemInfo is
  the constant "Windows".
- **Go library pieces** (`gostrings.dfy`): Split, Join, Fields, TrimSpace,
  Contains, ReplaceAll of a single character, the 64-bit range of Atoi,
  and Itoa.

Four behaviours of the code are worth stating plainly, because a reader
might expect otherwise:

- **RemoveConnection on a missing counter.** Redis DECR treats a missing
  key as 0, so it returns −1 and no error. The `<= 0` branch then removes
  the address from the set and deletes the counter. When the address was
  not in the set, as the bookkeeping invariant guarantees, the store ends
  as it began. A counter can, however, expire while its address stays
  listed: each AddConnection refreshes the set's 24-hour TTL, but only its
  own address's counter. In that case the address is dropped from the set
  (`Admission.RemoveEffect`, `Admission.MissingCounterRemove`).
- **A failed ping.** A failed ping still enables the limiter.
  InitRedisClient assigns the client before it pings, so `client != nil`
  holds. Only the first call reports the error, because `sync.Once` runs
  its function once whether or not it succeeds
  (`Limiter.Limiter.InitRedisClient`).
- **A configuration that fails to parse.** Such a configuration leaves the
  old map in place, because ExtractUUIDs returns before clearing when
  `json.Unmarshal` fails. A configuration that parses but has no inbound
  list does clear it (`CredentialRegistry.Extracted`).
- **Read errors in CheckConnection.** A failed SMEMBERS read, or a failed
  GET of the counter, admits the connection. A failed SISMEMBER does the
  opposite: `.Val()` is `false` on error, so once the address set is full
  the connection is refused, even from an address already in the set
  (`Admission.Admits`, `Admission.ReadFaultsAsymmetric`).

## Model

| member | source | states |
|---|---|---|
| Admission.IpsKeyInjective | xray/limiter/redis.go:91 | two credentials with the same address-set key are the same credential |
| Admission.CountKeySameUuid | xray/limiter/redis.go:92 | for one credential, two addresses with the same counter key are the same address |
| Admission.CountKeyLayout | xray/limiter/redis.go:92 | the counter key carries the credential at positions 5.. and a ':' right after it |
| Admission.CountKeyInjective | xray/limiter/redis.go:91-92 | for colon-free credentials, equal counter keys mean the same credential and the same address |
| Admission.CountKeyCollision | xray/limiter/redis.go:92 | credentials that contain a colon can share a counter key: ("a", "b:ipcount:c") and ("a:ipcount:b", "c") collide |
| Admission.KeysHavePrefix | xray/limiter/redis.go:185 | both key kinds start with `user:`, so `KEYS user:*` finds them |
| Admission.SAdd | xray/limiter/redis.go:140 | SADD never leaves an empty set key behind |
| Admission.SRem | xray/limiter/redis.go:173 | SREM deletes a set key once its last member is gone, so no set is left empty |
| Admission.AfterClear | xray/limiter/redis.go:185-196 | deleting the `user:*` keys removes exactly the keys with that prefix and keeps every other key with its value |
| Admission.EmptyStoreConsistent | xray/limiter/redis.go:128-176 | an empty server satisfies the bookkeeping invariant |
| Admission.AddEffect | xray/limiter/redis.go:133-147 | AddConnection adds the address to the set and raises its counter by exactly one; no other key changes |
| Admission.AddPreservesConsistent | xray/limiter/redis.go:133-147 | for a colon-free credential, AddConnection keeps "address in set ⇔ counter exists, counter ≥ 1, no empty set" for every credential and address |
| Admission.RemoveEffect | xray/limiter/redis.go:161-175 | on every store, RemoveConnection lowers a counter above 1 by one; a counter of 1 or a missing one leaves neither counter nor address behind; no other key changes |
| Admission.MissingCounterRemove | xray/limiter/redis.go:161-175 | with the counter missing, RemoveConnection drops the address from the set, and leaves the store unchanged exactly when the address was not in the set |
| Admission.RemovePreservesConsistent | xray/limiter/redis.go:161-175 | for a colon-free credential, RemoveConnection keeps the bookkeeping invariant |
| Admission.ClearLeavesNoUser | xray/limiter/redis.go:185-196 | after ClearAllConnections no credential has any address and no counter key exists |
| Admission.ClearPreservesConsistent | xray/limiter/redis.go:185-196 | ClearAllConnections keeps the bookkeeping invariant |
| Admission.RemoveUndoesAdd | xray/limiter/redis.go:161-175 | on a consistent pair, a RemoveConnection right after an AddConnection gives back the original store |
| Admission.AddKeepsLocallyConsistent | xray/limiter/redis.go:133-147 | one AddConnection keeps the pair's invariant |
| Admission.AddNKeepsLocallyConsistent | xray/limiter/redis.go:133-147 | any number of AddConnections keep the pair's invariant |
| Admission.AddsThenRemovesRestore | xray/limiter/redis.go:161-175 | n AddConnections followed by n RemoveConnections give back the original store |
| Admission.AddsThenRemovesLeaveNoTrace | xray/limiter/redis.go:171-175 | a fresh address that is added and removed equally often ends with neither set entry nor counter |
| Admission.AddNCounts | xray/limiter/redis.go:140-143 | for a fresh address, n AddConnections give a counter of n and put the address in the set when n > 0 |
| Admission.ReadFaultsAsymmetric | xray/limiter/redis.go:95-112 | a failed SMEMBERS admits; a failed SISMEMBER refuses once the address set is full; a failed GET admits once the address test has passed |
| Admission.LimitReachedRefuses | xray/limiter/redis.go:119-122 | once an address holds maxIpPerConn connections, the next one from it is refused |
| Admission.ReleaseStepsBack | xray/limiter/redis.go:165-175 | one RemoveConnection after m AddConnections of a fresh address is the same as m − 1 AddConnections |
| Admission.PerAddressLimit | xray/limiter/redis.go:107-122 | the per-address limit refuses connection maxIpPerConn + 1; after one connection closes, the address is admitted again unless the address limit keeps it out (possible only when maxIpPerConn is 1) |
| Admission.AddAllEffect | xray/limiter/redis.go:133-147 | adding distinct fresh addresses puts all of them in the set, each with a counter of 1, and leaves other counters alone |
| Admission.DistinctAddressLimit | xray/limiter/redis.go:101-105 | once maxIPLimit distinct addresses are recorded, a new address is refused and a recorded one is admitted while below its own limit |
| Admission.TwoAddressScenario | xray/limiter/redis.go:101-122 | with limits 2 and 1, a third address is refused, a second connection from a recorded address is refused, and it is admitted again after a close |
| IpLimitConfig.LoadedConfig | xray/limiter/config.go:19-33 | only the exact setting "true" enables the limiter; otherwise the limiter is disabled and nothing else changes |
| IpLimitConfig.LoadChangesOnlyToAccepted | xray/limiter/config.go:35-81 | each field either keeps its value or takes its own setting's value, and only if that value passes the field's guard (non-empty address, port 1..65535, db ≥ 0, positive limits) |
| IpLimitConfig.LoadTakesAccepted | xray/limiter/config.go:35-81 | once the limiter is enabled, every setting that passes its guard is taken |
| IpLimitConfig.LoadKeepsRanges | xray/limiter/config.go:41-81 | loading never takes the port, db index or limits out of range, whatever the table holds |
| IpLimitConfig.DefaultInRange | xray/limiter/redis.go:32-40 | the built-in defaults are in range |
| IpLimitConfig.LoadIdempotent | xray/limiter/config.go:11-90 | loading the same table twice gives the same result as loading it once |
| IpLimitConfig.BadPortKeepsPrior | xray/limiter/config.go:42-48 | a port setting that Atoi rejects leaves the previous port in place |
| Limiter.Limiter.constructor | xray/limiter/redis.go:14-40 | the package starts with the default configuration, no client, and initialisation not yet run |
| Limiter.Limiter.InitRedisClient | xray/limiter/redis.go:43-67 | only the first call acts; it creates a client exactly when the configuration is enabled, and reports a failed ping only then |
| Limiter.Limiter.GetConfig | xray/limiter/redis.go:70-72 | returns the current configuration |
| Limiter.Limiter.SetConfig | xray/limiter/redis.go:75-77 | replaces the configuration |
| Limiter.Limiter.CheckConnection | xray/limiter/redis.go:85-125 | admits when the limiter is off, and otherwise exactly when the admission rule does (admitting on a failed SMEMBERS or GET, refusing on a failed SISMEMBER once the set is full); the store is untouched |
| Limiter.Limiter.AddConnection | xray/limiter/redis.go:128-153 | when enabled and the pipeline goes through, the store becomes AfterAdd; otherwise it is unchanged; the invariant is kept |
| Limiter.Limiter.RemoveConnection | xray/limiter/redis.go:156-176 | when enabled and DECR goes through, the store becomes AfterRemove; otherwise it is unchanged; the invariant is kept |
| Limiter.Limiter.ClearAllConnections | xray/limiter/redis.go:179-197 | when enabled and KEYS and DEL go through, every `user:` key is removed; otherwise the store is unchanged; the invariant is kept |
| Limiter.Limiter.GetActiveIPs | xray/limiter/redis.go:200-214 | returns the credential's address set, or the empty set when disabled or when the read fails |
| Limiter.Limiter.LoadIPLimitConfig | xray/limiter/config.go:11-90 | an unopened database is an error that keeps the configuration; otherwise the configuration becomes LoadedConfig of the table and the result is nil |
| Limiter.EnabledNeedsInit | xray/limiter/redis.go:80-82 | the limiter counts as enabled only after the one-time initialisation has run and while the configuration is enabled |
| CredentialRegistry.ClientId | xray/limiter/hook.go:86-91 | a non-empty credential is the string `password` field of a trojan client object, or the string `id` field for the other protocols; conversely, when that field is present and a string, it is the result |
| CredentialRegistry.IdsMapStep | xray/limiter/hook.go:80-99 | each client of the list adds its credential when it is non-empty and is skipped otherwise |
| CredentialRegistry.IdsMapSpec | xray/limiter/hook.go:80-99 | a client list registers exactly its non-empty credentials, all under its protocol |
| CredentialRegistry.ContributionWellFormed | xray/limiter/hook.go:45-99 | an inbound registers only non-empty credentials, under its own protocol, which is vmess, vless or trojan |
| CredentialRegistry.ScanKeys | xray/limiter/hook.go:45-100 | a credential is registered exactly when some inbound of the list registers it |
| CredentialRegistry.ScanWellFormed | xray/limiter/hook.go:45-100 | the rebuilt map holds only non-empty credentials with known protocols |
| CredentialRegistry.ScanLastWins | xray/limiter/hook.go:93-96 | when several inbounds register a credential, the last of them decides its protocol |
| CredentialRegistry.ExtractedWellFormed | xray/limiter/hook.go:18-101 | whatever the configuration, the registry stays well formed |
| CredentialRegistry.ExtractedForgetsPrior | xray/limiter/hook.go:26-29 | a configuration that parses forgets every earlier entry |
| CredentialRegistry.Registry.constructor | xray/limiter/hook.go:11-15 | the registry starts empty |
| CredentialRegistry.Registry.ExtractUUIDs | xray/limiter/hook.go:18-101 | the nested loops leave exactly Extracted(old map, document) and keep the map well formed |
| CredentialRegistry.Registry.AddClients | xray/limiter/hook.go:80-99 | the inner loop adds exactly the credentials of the client list |
| CredentialRegistry.Registry.IsUUIDRegistered | xray/limiter/hook.go:161-166 | true exactly when the credential is in the map |
| CredentialRegistry.Registry.GetUUIDProtocol | xray/limiter/hook.go:169-173 | the credential's protocol, or "" for an unknown credential |
| CredentialRegistry.RegisteredIffProtocol | xray/limiter/hook.go:160-173 | in a well-formed registry, a credential is registered exactly when its protocol is non-empty, and that protocol is a known one |
| CredentialRegistry.TrojanContribution | xray/limiter/hook.go:86-91 | a trojan inbound registers its client's password |
| CredentialRegistry.VlessContribution | xray/limiter/hook.go:86-96 | a vless inbound registers the non-empty id and skips the empty one |
| CredentialRegistry.ShadowsocksContribution | xray/limiter/hook.go:61-63 | an inbound of another protocol registers nothing |
| CredentialRegistry.ScanThree | xray/limiter/hook.go:45-100 | three inbounds contribute in order, later ones overriding earlier ones |
| CredentialRegistry.MixedConfigInbounds | xray/limiter/hook.go:32-42 | a configuration object with an inbound list is scanned through that list |
| CredentialRegistry.MixedInbounds | xray/limiter/hook.go:18-101 | a trojan, a vless and a shadowsocks inbound register exactly the trojan password and the non-empty vless id |
| LogPatterns.IdRun | xray/limiter/hook.go:105-106 | `[a-zA-Z0-9\-]+` consumes the longest run of identifier characters |
| LogPatterns.DigitRun | xray/limiter/hook.go:105 | `\d+` consumes the longest run of digits |
| LogPatterns.FindIdentifierFrom | xray/limiter/hook.go:106 | the leftmost uuidRegex match: it matches there, and nowhere between the start and that position; None when it matches nowhere |
| LogPatterns.FindIdentifier | xray/limiter/hook.go:131-132 | a match exists exactly when uuidRegex matches somewhere; its group is non-empty, made of identifier characters, and is the group of the leftmost match (FindIdentifierFrom from 0) |
| LogPatterns.IdentifierGroupAt | xray/limiter/hook.go:133 | the group of a match is non-empty and made of identifier characters |
| LogPatterns.IdentifierGroupAtEnd | xray/limiter/hook.go:131-133 | when the leftmost match runs to the end of the line, its group is the rest of the line |
| LogPatterns.GroupAtEnd | xray/limiter/hook.go:133 | a match whose run reaches the end of the line has the rest of the line as its group |
| LogPatterns.LazyAddress | xray/limiter/hook.go:105 | `(.+?)` takes the shortest length, from the given one on, that is followed by ':' and a digit and crosses no newline |
| LogPatterns.FindAcceptFrom | xray/limiter/hook.go:105 | the leftmost acceptRegex match: it matches there and nowhere earlier; None when it matches nowhere |
| LogPatterns.PortColon | xray/limiter/hook.go:105 | the address group is followed by ':' and a digit |
| LogPatterns.PortEnd | xray/limiter/hook.go:105 | the port group is at least one character long and ends inside the line |
| LogPatterns.MatchAtGroups | xray/limiter/hook.go:105 | the groups are a non-empty identifier, a non-empty address without newlines and without an inner ":digit", and a non-empty run of digits |
| LogPatterns.AcceptAtStart | xray/limiter/hook.go:105 | a line that begins "accept a <proto> connection from <addr>:<digit>", with a colon-free address, matches at 0 with that address as its group |
| LogPatterns.WholeAddress | xray/limiter/hook.go:105 | a colon-free address followed by ':' and a digit is taken whole by the lazy group |
| LogPatterns.MatchAtText | xray/limiter/hook.go:105 | a match covers exactly the text its groups spell out with the literals between them |
| LogPatterns.FindAccept | xray/limiter/hook.go:136-138 | a match exists exactly when acceptRegex matches somewhere; its three groups have the shapes the pattern demands and are those of the leftmost match (FindAcceptFrom from 0) |
| LogPatterns.IdentifierNeedsGuard | xray/limiter/hook.go:130-131 | any uuidRegex match implies the line contains "identifier:", so the guard excludes no match |
| LogPatterns.AcceptNeedsGuard | xray/limiter/hook.go:117-118 | any acceptRegex match implies the line contains "accept" |
| LogHook.Correlate | xray/limiter/hook.go:130-138 | a correlated line yields a non-empty identifier credential and a non-empty address without newlines, and both patterns matched |
| LogHook.GuardChangesNothing | xray/limiter/hook.go:130-138 | a line is correlated exactly when both patterns match it, with the identifier group as credential and the lazy group as address |
| LogHook.NoIdentifierBefore | xray/limiter/hook.go:106 | no uuidRegex match starts before an "identifier: " whose only earlier colon is not followed by a space |
| LogHook.AcceptPartMatches | xray/limiter/hook.go:136-138 | the accept part of an accept-then-identifier line matches at 0 and yields its address |
| LogHook.OnlyPortColon | xray/limiter/hook.go:105-106 | the only colon before the identifier part of such a line is the port colon, and no space follows it |
| LogHook.IdentifierPartMatches | xray/limiter/hook.go:131-133 | the identifier part of such a line is the leftmost uuidRegex match, and its group is the credential |
| LogHook.AcceptThenIdentifierCorrelates | xray/limiter/hook.go:130-138 | "accept a P connection from A:N identifier: U" with a colon-free A correlates to exactly (U, A) |
| LogHook.CorrelatedUuidHasNoColon | xray/limiter/hook.go:106 | a correlated credential never contains a colon, so its counter keys cannot collide |
| LogHook.ProcessLog | xray/limiter/hook.go:110-158 | when enabled and correlated, the connection is checked and, if admitted and the pipeline goes through, added; otherwise the store is unchanged; the invariant is kept |
| Settings.NormalizeBasePath | web/entity/entity.go:69-74 | the result starts and ends with "/", "" becomes "/", a path with both slashes is unchanged, and at most two characters are added around the original |
| Settings.NormalizeIdempotent | web/entity/entity.go:69-74 | normalising twice gives the same result as normalising once |
| Settings.AllSetting.constructor | web/entity/entity.go:29-48 | a settings record holds the fourteen given fields |
| Settings.AllSetting.FirstError | web/entity/entity.go:50-104 | a returned error is one whose check fails; no error means a valid web port, Xray template and time zone, and, with the IP limit on, a non-empty Redis address, a valid Redis port and positive limits |
| Settings.AllSetting.NormalizeWebBasePath | web/entity/entity.go:69-74 | rewrites the base path in place to its normalised form |
| Settings.AllSetting.CheckValid | web/entity/entity.go:50-104 | returns FirstError, and the base path is normalised exactly when the listen, port and certificate checks pass |
| Settings.FirstErrorIsFirstFailing | web/entity/entity.go:50-104 | no check ranked before the returned error fails, and None is returned exactly when no check fails |
| Settings.BadWebPortRejected | web/entity/entity.go:58-60 | a web port outside 1..65535 is always rejected, by the listen check if that fails first, otherwise by the port check |
| Settings.DisabledIgnoresRedis | web/entity/entity.go:87-101 | with the IP limit off, the Redis and limit fields never change the verdict, and any error comes from an earlier check |
| GoStrings.Split | util/sys/sys_linux.go:49 | strings.Split always yields at least one piece |
| GoStrings.SplitCount | util/sys/sys_linux.go:49-50 | splitting yields exactly one more piece than there are separators |
| GoStrings.SplitPiecesFree | util/sys/sys_linux.go:93-95 | no piece of a split holds the separator |
| GoStrings.SplitJoinBack | util/sys/sys_linux.go:93-95 | joining the pieces with the separator gives back the text |
| GoStrings.SplitJoin | util/sys/sys_linux.go:93-95 | both of the above: split and join are inverse |
| GoStrings.TrimSpace | util/sys/sys_linux.go:76 | the result neither starts nor ends with white space, is no longer than the input, and equals the input when the input is already trimmed |
| GoStrings.TrimSpaceInfix | util/sys/sys_linux.go:76 | the input is a run of white space, then the result, then a run of white space; with TrimSpace's own contract this fixes the result to the input less its leading and trailing white space |
| GoStrings.WordPrefix | util/sys/sys_windows.go:71 | the longest prefix with no white space |
| GoStrings.Fields | util/sys/sys_windows.go:71 | every field is non-empty and free of white space |
| GoStrings.FieldsWord | util/sys/sys_windows.go:71 | a non-empty text with no white space is exactly one field, itself |
| GoStrings.FieldsSplitAt | util/sys/sys_windows.go:71 | a white space character separates fields: the fields of `a + [c] + b` are the fields of `a` followed by those of `b`; with FieldsWord and the empty case this makes the fields the maximal runs of non-space characters, in order |
| GoStrings.WordPrefixBeforeSpace | util/sys/sys_windows.go:71 | a word ends at the first white space character |
| GoStrings.RemoveChar | util/sys/sys_linux.go:80 | ReplaceAll with "" leaves no occurrence of the character, and the result is shorter by exactly the number of occurrences |
| GoStrings.RemoveCharAppend | util/sys/sys_linux.go:80 | removal works piece by piece: removing from `a + b` is removing from `a` followed by removing from `b` |
| GoStrings.RemoveCharSingle | util/sys/sys_linux.go:80 | a single character is dropped when it is the removed character and kept otherwise; with RemoveCharAppend every other character is kept, in order |
| GoStrings.Atoi | xray/limiter/config.go:44 | a parsed value is an optionally signed run of digits, fits Go's 64-bit int, is negative only with a '-', and equals the signed decimal value of the digits; conversely every optionally signed non-empty run of digits whose value fits is accepted |
| GoStrings.Digits | xray/limiter/redis.go:114-117 | the decimal text of a counter is a non-empty run of digits |
| GoStrings.DigitsValue | xray/limiter/redis.go:114-117 | the value of a number's decimal digits is the number |
| GoStrings.AtoiFormatInt | xray/limiter/redis.go:114-117 | the text INCR stores for any 64-bit counter reads back to that counter through Atoi |
| LinuxSys.Zeros | util/sys/sys_linux.go:21 | a fresh buffer of n zero bytes |
| LinuxSys.IndexByte | util/sys/sys_linux.go:27 | bytes.IndexByte: the first position holding the byte, or −1 when there is none |
| LinuxSys.Overlay | util/sys/sys_linux.go:23 | a read puts its bytes at the front of the buffer and leaves the rest of the buffer as it was |
| LinuxSys.ScanAsWritten | util/sys/sys_linux.go:25-33 | the inner loop as written counts the newlines of the read, or of the whole buffer when the read does not end in a newline |
| LinuxSys.GetLinesNum | util/sys/sys_linux.go:13-41 | an open failure gives 0 and an error; otherwise the sum over the reads as written, with the final read's error |
| LinuxSys.AsWrittenNeverUndercounts | util/sys/sys_linux.go:22-40 | the sum as written is at least the number of newlines in the file |
| LinuxSys.AsWrittenExactOnLineReads | util/sys/sys_linux.go:22-40 | when every read ends in a newline, the sum is exactly the number of newlines in the file |
| LinuxSys.SingleReadExact | util/sys/sys_linux.go:21-33 | a file that fits in one read is counted exactly, because the buffer behind it is still zero |
| LinuxSys.StaleNewlineCountedTwice | util/sys/sys_linux.go:26-33 | a full read with one newline at position 5, then a one-byte read, counts 2 although the file holds 1 newline |
| LinuxSys.ScanRead | util/sys/sys_linux.go:26-33 | the corrected inner loop counts exactly the newlines of the bytes read |
| LinuxSys.GetLinesNumFixed | util/sys/sys_linux.go:13-41 | the corrected getLinesNum returns exactly the number of newlines in the file |
| LinuxSys.ProcNetCount | util/sys/sys_linux.go:43-61 | GetTCPCount and GetUDPCount return the number of newlines of the file, or the read error |
| LinuxSys.AllParts | util/sys/sys_linux.go:93-95 | each line is trimmed and split at '=' |
| LinuxSys.FirstValueSpec | util/sys/sys_linux.go:94-103 | a value is found exactly when some line has two parts, the first the key, and it is the second part of the first such line |
| LinuxSys.QualifiesOneEquals | util/sys/sys_linux.go:95-99 | a line qualifies exactly when its trimmed text has one '=' and the key before it |
| LinuxSys.ValueHasNoEquals | util/sys/sys_linux.go:95-100 | a value taken from a line holds no '=', and neither does a key that matched |
| LinuxSys.GetValueFromFile | util/sys/sys_linux.go:88-104 | the loop returns the value of the first qualifying line, or the default for an unreadable file or no qualifying line |
| LinuxSys.GetSystemInfo | util/sys/sys_linux.go:71-86 | the builder ends with the system name that SystemInfo describes |
| LinuxSys.SystemInfoNeedsLSB | util/sys/sys_linux.go:73 | without "LSB" in either probe file the system name is empty |
| LinuxSys.NameThenVersion | util/sys/sys_linux.go:76-83 | the name comes first; a space follows it exactly when the version is non-empty, and what follows holds no '"' |
| LinuxSys.SystemInfoShape | util/sys/sys_linux.go:71-86 | with "LSB", the name is the trimmed ID, then a space and the quote-free VERSION_ID exactly when VERSION_ID is non-empty |
| LinuxSys.QuotedEmptyVersion | util/sys/sys_linux.go:78-83 | a VERSION_ID of just two quotes leaves a trailing space and no version |
| WindowsSys.CountLines | util/sys/sys_windows.go:21-30 | a count of lines is at most the number of lines |
| WindowsSys.CountLinesAppend | util/sys/sys_windows.go:23-29 | counts over two runs of lines add up |
| WindowsSys.CountLinesExtremes | util/sys/sys_windows.go:23-29 | the count is 0 exactly when no line qualifies, and the number of lines exactly when every line does |
| WindowsSys.CountLinesMonotone | util/sys/sys_windows.go:24-27 | a test that holds of fewer lines counts fewer lines |
| WindowsSys.CountsBounded | util/sys/sys_windows.go:21-50 | both counts are at most the number of lines, and the TCP count at most the number of lines mentioning TCP |
| WindowsSys.GetTCPCount | util/sys/sys_windows.go:13-33 | the command error, or the number of lines mentioning TCP and one of ESTABLISHED, LISTENING, TIME_WAIT |
| WindowsSys.GetUDPCount | util/sys/sys_windows.go:35-52 | the command error, or the number of lines mentioning UDP |
| WindowsSys.Pids | util/sys/sys_windows.go:69-79 | at most one pid per line |
| WindowsSys.PidsAppend | util/sys/sys_windows.go:69-79 | the pids of two runs of lines are those of the first run followed by those of the second |
| WindowsSys.PidsSound | util/sys/sys_windows.go:69-79 | every collected pid is the parsed second field of some line mentioning the process |
| WindowsSys.PidsComplete | util/sys/sys_windows.go:69-79 | every line's pid is collected |
| WindowsSys.PidsEmpty | util/sys/sys_windows.go:81-83 | no pid is collected exactly when no line yields one |
| WindowsSys.GetPid | util/sys/sys_windows.go:58-86 | the command error; "process not found" when no pid was collected; otherwise the collected pids in line order |
| WindowsSys.GetSystemInfo | util/sys/sys_windows.go:54-56 | the Windows system name is the constant "Windows" |

## Left out

- Concurrency is not modelled: `sync.Once`, the registry's RWMutex, and races between CheckConnection and AddConnection. Every operation is one atomic step.
- Admission.Incr: counters are unbounded integers. Redis INCR and DECR work on signed 64-bit values and fail on overflow; that error path is not modelled, because reaching it takes 2^63 connections.
- The 24-hour EXPIRE on both keys is not modelled, because time is not modelled. Entries never expire. Expiry can take a counter away while its address stays in the set, which breaks the bookkeeping invariant. RemoveEffect and MissingCounterRemove hold on such stores too, since they do not assume the invariant.
- Logging is not modelled. Neither are the Redis client's options (the address string and the password), nor network timeouts.
- Limiter.Limiter.AddConnection: the model applies the pipeline all or nothing (`execFailed`). A Redis pipeline is not a transaction, so a partly applied pipeline is not modelled.
- Limiter.Limiter.RemoveConnection: SREM and DEL after the decrement are taken to succeed, as their errors are ignored by the code.
- Limiter.Limiter.CheckConnection: counters are held as integers. AtoiFormatInt shows this matches the text INCR stores. A counter key holding non-numeric text, or a key of the wrong Redis type, is not modelled.
- Limiter.Limiter.SetConfig: the model copies the configuration value. Go stores the caller's pointer, so later writes through that pointer (aliasing) are not modelled.
- Limiter.Limiter.GetConfig: the model returns a copy of the configuration. Go returns the stored `*Config` itself, so a caller's writes through it would change the limiter's configuration; that aliasing is not modelled.
- Limiter.Limiter.LoadIPLimitConfig: the six optional fields are written through a local copy, assigned once at the end, instead of field by field. Without concurrent readers the result is the same.
- Limiter.Limiter.LoadIPLimitConfig: the SQLite database is the settings map. A missing key stands for any failed query of that key. Opening the database is a boolean outcome.
- The JSON decoding of the Xray configuration is not modelled. ExtractUUIDs receives the decoded tree, or None when `json.Unmarshal` fails.
- The `tag` field is read by ExtractUUIDs only for logging, so it is not modelled.
- Only the two fixed patterns of `hook.go` are modelled, not a general regular-expression engine. The "accept"-only branch and the "connection closed" branch of ProcessLog only log or do nothing, so they leave the store alone.
- Settings.AllSetting.CheckValid: `net.ParseIP`, `tls.LoadX509KeyPair`, `json.Unmarshal` into `xray.Config` and `time.LoadLocation` are oracles. CheckValid does not check `RedisDb`, and neither does the model. The error messages are the constructors of SettingError, not their texts.
- `Msg` and `Pager` in `web/entity/entity.go` are plain records without behaviour, so they are not modelled.
- LinuxSys.GetLinesNum: each read returns 1 to 8192 bytes with no error, and a final read of 0 bytes reports `io.EOF` or an error. A read that returns data and an error together is not modelled.
- LinuxSys.GetValueFromFile: the two reads of `/etc/os-release` in GetSystemInfo are given the same content.
- File and command I/O are parameters: `os.ReadFile`, `os.Open`, `exec.Command(...).Output()`. Each is `Ok(text)` or `Err(e)` (or an `Option`); the processes and files themselves are not modelled.
- The Linux `GetPid` and `Kill` in `util/sys/sys_linux.go` are not modelled, because they are empty stubs that return nil.
- The Windows `Kill` is not modelled, because it only runs `taskkill`.
- Strings are sequences of code points. Go's byte strings, UTF-8 and `unicode.IsSpace` outside the characters listed in `GoStrings.IsSpace` are not modelled.

## Findings

| source | as written | input that shows it | evidently intended | confidence | as-written member | corrected member |
|---|---|---|---|---|---|---|
| util/sys/sys_linux.go:27 | the inner loop searches `buf[buffPosition:]`, the whole buffer, and stops at `n` only when it lands exactly there, so newlines left from an earlier, longer read are counted again | a file of 8192 bytes with one newline at position 5, then 1 more byte (a zero byte): the first read counts 1, and the second read of 1 byte scans the stale newline again, so the sum is 2 | count only the newlines of `buf[buffPosition:n]`, giving 1 | not executed | LinuxSys.StaleNewlineCountedTwice | LinuxSys.GetLinesNumFixed |
