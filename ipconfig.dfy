/** How LoadIPLimitConfig (xray/limiter/config.go) turns the key/value rows
    of the settings table into the limiter's configuration. The table is a
    map; a key that is absent stands for a failed query of that key. */
module IpLimitConfig {
  import opened Wrappers
  import opened GoStrings
  import opened Admission

  /** An integer setting: present, not empty, and accepted by `strconv.Atoi`. */
  function ParsedSetting(s: map<string, string>, key: string): Option<int> {
    if key in s && s[key] != "" then Atoi(s[key]) else None
  }

  predicate ValidPort(p: int) { 0 < p < 65536 }

  /** The configuration LoadIPLimitConfig leaves behind, from the one it
      found (`c`) and the settings table (`s`), when the database opened. */
  function LoadedConfig(c: Config, s: map<string, string>): (r: Config)
    // only the exact text "true" enables the limiter; otherwise nothing else is read
    ensures r.enabled <==> "enableIpLimit" in s && s["enableIpLimit"] == "true"
    ensures !r.enabled ==> r == c.(enabled := false)
  {
    if "enableIpLimit" !in s || s["enableIpLimit"] != "true" then c.(enabled := false)
    else
      // each field depends on its own setting only, so the updates, which
      // LoadIPLimitConfig makes one after the other, are independent
      var port := ParsedSetting(s, "redisPort");
      var db := ParsedSetting(s, "redisDb");
      var limit := ParsedSetting(s, "maxIpLimit");
      var perConn := ParsedSetting(s, "maxIpPerConn");
      c.(enabled := true,
         redisAddr := if "redisAddr" in s && s["redisAddr"] != "" then s["redisAddr"] else c.redisAddr,
         redisPort := if port.Some? && ValidPort(port.value) then port.value else c.redisPort,
         redisPass := if "redisPassword" in s then s["redisPassword"] else c.redisPass,
         redisDB := if db.Some? && db.value >= 0 then db.value else c.redisDB,
         maxIPLimit := if limit.Some? && limit.value > 0 then limit.value else c.maxIPLimit,
         maxIpPerConn := if perConn.Some? && perConn.value > 0 then perConn.value else c.maxIpPerConn)
  }

  /** A field changes only to an accepted value of its own setting. */
  lemma LoadChangesOnlyToAccepted(c: Config, s: map<string, string>)
    ensures var r := LoadedConfig(c, s);
            && (r.redisAddr == c.redisAddr || ("redisAddr" in s && s["redisAddr"] != "" && r.redisAddr == s["redisAddr"]))
            && (r.redisPass == c.redisPass || ("redisPassword" in s && r.redisPass == s["redisPassword"]))
            && (r.redisPort == c.redisPort || (ParsedSetting(s, "redisPort") == Some(r.redisPort) && ValidPort(r.redisPort)))
            && (r.redisDB == c.redisDB || (ParsedSetting(s, "redisDb") == Some(r.redisDB) && r.redisDB >= 0))
            && (r.maxIPLimit == c.maxIPLimit || (ParsedSetting(s, "maxIpLimit") == Some(r.maxIPLimit) && r.maxIPLimit > 0))
            && (r.maxIpPerConn == c.maxIpPerConn || (ParsedSetting(s, "maxIpPerConn") == Some(r.maxIpPerConn) && r.maxIpPerConn > 0))
  {
  }

  /** Once the limiter is enabled, every accepted value is taken. */
  lemma LoadTakesAccepted(c: Config, s: map<string, string>)
    ensures var r := LoadedConfig(c, s);
            && (r.enabled && "redisAddr" in s && s["redisAddr"] != "" ==> r.redisAddr == s["redisAddr"])
            && (r.enabled && "redisPassword" in s ==> r.redisPass == s["redisPassword"])
            && (r.enabled && ParsedSetting(s, "redisPort").Some? && ValidPort(ParsedSetting(s, "redisPort").value) ==>
                  r.redisPort == ParsedSetting(s, "redisPort").value)
            && (r.enabled && ParsedSetting(s, "redisDb").Some? && ParsedSetting(s, "redisDb").value >= 0 ==>
                  r.redisDB == ParsedSetting(s, "redisDb").value)
            && (r.enabled && ParsedSetting(s, "maxIpLimit").Some? && ParsedSetting(s, "maxIpLimit").value > 0 ==>
                  r.maxIPLimit == ParsedSetting(s, "maxIpLimit").value)
            && (r.enabled && ParsedSetting(s, "maxIpPerConn").Some? && ParsedSetting(s, "maxIpPerConn").value > 0 ==>
                  r.maxIpPerConn == ParsedSetting(s, "maxIpPerConn").value)
  {
  }

  /** The ranges LoadIPLimitConfig guards. */
  predicate InRange(c: Config) {
    ValidPort(c.redisPort) && c.redisDB >= 0 && c.maxIPLimit > 0 && c.maxIpPerConn > 0
  }

  /** Whatever the table holds, loading never takes a field out of range:
      positive limits stay positive, a valid port stays valid. */
  lemma LoadKeepsRanges(c: Config, s: map<string, string>)
    requires InRange(c)
    ensures InRange(LoadedConfig(c, s))
  {
  }

  lemma DefaultInRange()
    ensures InRange(DefaultConfig)
  {
  }

  /** Loading the same table twice is the same as loading it once. */
  lemma LoadIdempotent(c: Config, s: map<string, string>)
    ensures LoadedConfig(LoadedConfig(c, s), s) == LoadedConfig(c, s)
  {
  }

  /** A table that enables the limiter and sets the port to a value that
      does not parse keeps the port the configuration already had. */
  lemma BadPortKeepsPrior(c: Config)
    ensures var r := LoadedConfig(c, map["enableIpLimit" := "true", "redisPort" := "63 79"]);
            r.enabled && r.redisPort == c.redisPort
  {
    assert !AllDigits("63 79") by { assert !IsDigit("63 79"[2]); }
  }
}
