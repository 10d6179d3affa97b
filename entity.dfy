/** AllSetting.CheckValid of web/entity/entity.go: the checks the panel
    runs on its settings before saving them, and the one field it rewrites
    on the way (the base path). The library checks it calls are oracles. */
module Settings {
  import opened Wrappers
  import opened GoStrings

  /** The library checks CheckValid relies on, as total predicates:
      `net.ParseIP(s) != nil`, `tls.LoadX509KeyPair(cert, key)` succeeds,
      the text unmarshals into an `xray.Config`, `time.LoadLocation(s)`
      succeeds. */
  datatype Oracles = Oracles(
    parsesAsIP: string -> bool,
    loadsKeyPair: (string, string) -> bool,
    isXrayConfig: string -> bool,
    isLocation: string -> bool)

  /** The errors CheckValid returns, in the order it checks for them. */
  datatype SettingError =
    | InvalidListen
    | InvalidWebPort
    | InvalidCert
    | InvalidXrayTemplate
    | UnknownTimeLocation
    | EmptyRedisAddr
    | InvalidRedisPort
    | InvalidMaxIpLimit
    | InvalidMaxIpPerConn

  /** The position of a check in CheckValid. */
  function Rank(e: SettingError): nat {
    match e
    case InvalidListen => 0
    case InvalidWebPort => 1
    case InvalidCert => 2
    case InvalidXrayTemplate => 3
    case UnknownTimeLocation => 4
    case EmptyRedisAddr => 5
    case InvalidRedisPort => 6
    case InvalidMaxIpLimit => 7
    case InvalidMaxIpPerConn => 8
  }

  predicate ValidPort(p: int) { 0 < p <= 65535 }

  /** The base path with a leading and a trailing "/" added where missing. */
  function NormalizeBasePath(p: string): (r: string)
    ensures HasPrefix(r, "/") && HasSuffix(r, "/")
    ensures p == "" ==> r == "/"
    ensures HasPrefix(p, "/") && HasSuffix(p, "/") ==> r == p
    ensures |p| <= |r| <= |p| + 2 && Contains(r, p)
  {
    var withPrefix := if HasPrefix(p, "/") then p else "/" + p;
    var r := if HasSuffix(withPrefix, "/") then withPrefix else withPrefix + "/";
    var at := if HasPrefix(p, "/") then 0 else 1;
    assert r[at..at + |p|] == p;
    ContainsAt(r, p, at);
    r
  }

  /** Normalising twice is normalising once. */
  lemma NormalizeIdempotent(p: string)
    ensures NormalizeBasePath(NormalizeBasePath(p)) == NormalizeBasePath(p)
  {
  }

  class AllSetting {
    var webListen: string
    var webPort: int
    var webCertFile: string
    var webKeyFile: string
    var webBasePath: string
    var xrayTemplateConfig: string
    var timeLocation: string
    var enableIpLimit: bool
    var redisAddr: string
    var redisPort: int
    var redisPassword: string
    var redisDb: int
    var maxIpLimit: int
    var maxIpPerConn: int

    constructor (webListen: string, webPort: int, webCertFile: string, webKeyFile: string, webBasePath: string,
                 xrayTemplateConfig: string, timeLocation: string, enableIpLimit: bool, redisAddr: string,
                 redisPort: int, redisPassword: string, redisDb: int, maxIpLimit: int, maxIpPerConn: int)
      ensures this.webListen == webListen && this.webPort == webPort
      ensures this.webCertFile == webCertFile && this.webKeyFile == webKeyFile && this.webBasePath == webBasePath
      ensures this.xrayTemplateConfig == xrayTemplateConfig && this.timeLocation == timeLocation
      ensures this.enableIpLimit == enableIpLimit && this.redisAddr == redisAddr && this.redisPort == redisPort
      ensures this.redisPassword == redisPassword && this.redisDb == redisDb
      ensures this.maxIpLimit == maxIpLimit && this.maxIpPerConn == maxIpPerConn
    {
      this.webListen := webListen;
      this.webPort := webPort;
      this.webCertFile := webCertFile;
      this.webKeyFile := webKeyFile;
      this.webBasePath := webBasePath;
      this.xrayTemplateConfig := xrayTemplateConfig;
      this.timeLocation := timeLocation;
      this.enableIpLimit := enableIpLimit;
      this.redisAddr := redisAddr;
      this.redisPort := redisPort;
      this.redisPassword := redisPassword;
      this.redisDb := redisDb;
      this.maxIpLimit := maxIpLimit;
      this.maxIpPerConn := maxIpPerConn;
    }

    /** The check behind each error, taken on its own. The Redis and limit
        checks apply only while the IP limit is enabled. */
    predicate Fails(e: SettingError, o: Oracles)
      reads this`webListen, this`webPort, this`webCertFile, this`webKeyFile, this`xrayTemplateConfig,
            this`timeLocation, this`enableIpLimit, this`redisAddr, this`redisPort, this`maxIpLimit, this`maxIpPerConn
    {
      match e
      case InvalidListen => webListen != "" && !o.parsesAsIP(webListen)
      case InvalidWebPort => !ValidPort(webPort)
      case InvalidCert => (webCertFile != "" || webKeyFile != "") && !o.loadsKeyPair(webCertFile, webKeyFile)
      case InvalidXrayTemplate => !o.isXrayConfig(xrayTemplateConfig)
      case UnknownTimeLocation => !o.isLocation(timeLocation)
      case EmptyRedisAddr => enableIpLimit && redisAddr == ""
      case InvalidRedisPort => enableIpLimit && !ValidPort(redisPort)
      case InvalidMaxIpLimit => enableIpLimit && maxIpLimit <= 0
      case InvalidMaxIpPerConn => enableIpLimit && maxIpPerConn <= 0
    }

    /** The error CheckValid returns, following its sequence of early returns. */
    function FirstError(o: Oracles): (r: Option<SettingError>)
      reads this`webListen, this`webPort, this`webCertFile, this`webKeyFile, this`xrayTemplateConfig,
            this`timeLocation, this`enableIpLimit, this`redisAddr, this`redisPort, this`maxIpLimit, this`maxIpPerConn
      ensures r.Some? ==> Fails(r.value, o)
      ensures r.None? ==> ValidPort(webPort) && o.isXrayConfig(xrayTemplateConfig) && o.isLocation(timeLocation)
      ensures r.None? && enableIpLimit ==> redisAddr != "" && ValidPort(redisPort) && maxIpLimit > 0 && maxIpPerConn > 0
    {
      if webListen != "" && !o.parsesAsIP(webListen) then Some(InvalidListen)
      else if webPort <= 0 || webPort > 65535 then Some(InvalidWebPort)
      else if (webCertFile != "" || webKeyFile != "") && !o.loadsKeyPair(webCertFile, webKeyFile) then Some(InvalidCert)
      else if !o.isXrayConfig(xrayTemplateConfig) then Some(InvalidXrayTemplate)
      else if !o.isLocation(timeLocation) then Some(UnknownTimeLocation)
      else if enableIpLimit && redisAddr == "" then Some(EmptyRedisAddr)
      else if enableIpLimit && (redisPort <= 0 || redisPort > 65535) then Some(InvalidRedisPort)
      else if enableIpLimit && maxIpLimit <= 0 then Some(InvalidMaxIpLimit)
      else if enableIpLimit && maxIpPerConn <= 0 then Some(InvalidMaxIpPerConn)
      else None
    }

    /** The listen, port and certificate checks passed, so the base path
        has been normalised, whatever the later checks say. */
    predicate RewritesBasePath(o: Oracles)
      reads this`webListen, this`webPort, this`webCertFile, this`webKeyFile, this`xrayTemplateConfig,
            this`timeLocation, this`enableIpLimit, this`redisAddr, this`redisPort, this`maxIpLimit, this`maxIpPerConn
    {
      !Fails(InvalidListen, o) && !Fails(InvalidWebPort, o) && !Fails(InvalidCert, o)
    }

    /** The base-path step of CheckValid: a missing leading, then a missing
        trailing "/" is added in place. */
    method NormalizeWebBasePath()
      modifies this`webBasePath
      ensures webBasePath == NormalizeBasePath(old(webBasePath))
    {
      if !HasPrefix(webBasePath, "/") {
        webBasePath := "/" + webBasePath;
      }
      if !HasSuffix(webBasePath, "/") {
        webBasePath := webBasePath + "/";
      }
    }

    /** CheckValid: the error of the first check that fails, or None. */
    method CheckValid(o: Oracles) returns (err: Option<SettingError>)
      modifies this`webBasePath
      ensures err == FirstError(o)
      ensures webBasePath == if RewritesBasePath(o) then NormalizeBasePath(old(webBasePath)) else old(webBasePath)
    {
      if webListen != "" {
        if !o.parsesAsIP(webListen) {
          return Some(InvalidListen);
        }
      }
      if webPort <= 0 || webPort > 65535 {
        return Some(InvalidWebPort);
      }
      if webCertFile != "" || webKeyFile != "" {
        if !o.loadsKeyPair(webCertFile, webKeyFile) {
          return Some(InvalidCert);
        }
      }
      NormalizeWebBasePath();
      if !o.isXrayConfig(xrayTemplateConfig) {
        return Some(InvalidXrayTemplate);
      }
      if !o.isLocation(timeLocation) {
        return Some(UnknownTimeLocation);
      }
      if enableIpLimit {
        if redisAddr == "" {
          return Some(EmptyRedisAddr);
        }
        if redisPort <= 0 || redisPort > 65535 {
          return Some(InvalidRedisPort);
        }
        if maxIpLimit <= 0 {
          return Some(InvalidMaxIpLimit);
        }
        if maxIpPerConn <= 0 {
          return Some(InvalidMaxIpPerConn);
        }
      }
      return None;
    }
  }

  /** The result is the first failing check in CheckValid's order: no check
      before it fails, and None means that no check fails at all. */
  lemma FirstErrorIsFirstFailing(s: AllSetting, o: Oracles)
    ensures s.FirstError(o).Some? ==> forall e :: Rank(e) < Rank(s.FirstError(o).value) ==> !s.Fails(e, o)
    ensures s.FirstError(o).None? <==> forall e :: !s.Fails(e, o)
  {
  }

  /** A web port outside 1..65535 is always an error: the port's own, or
      the listen address's when that one fails first. */
  lemma BadWebPortRejected(s: AllSetting, o: Oracles)
    requires !ValidPort(s.webPort)
    ensures s.FirstError(o) == (if s.Fails(InvalidListen, o) then Some(InvalidListen) else Some(InvalidWebPort))
  {
  }

  /** With the IP limit disabled the Redis and limit fields are never
      looked at: two settings that differ only there get the same verdict. */
  lemma DisabledIgnoresRedis(s: AllSetting, t: AllSetting, o: Oracles)
    requires !s.enableIpLimit && !t.enableIpLimit
    requires s.webListen == t.webListen && s.webPort == t.webPort
    requires s.webCertFile == t.webCertFile && s.webKeyFile == t.webKeyFile
    requires s.xrayTemplateConfig == t.xrayTemplateConfig && s.timeLocation == t.timeLocation
    ensures s.FirstError(o) == t.FirstError(o)
    ensures s.FirstError(o).Some? ==> Rank(s.FirstError(o).value) < Rank(EmptyRedisAddr)
  {
  }
}
