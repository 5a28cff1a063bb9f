/**
 * The template variables of the VCL generator (getVariables in
 * Model/Varnish/VCLGenerator.php): a map with a fixed set of keys, built from
 * the constructor arguments, the configuration reader, the access-list
 * transform and the design-exception code. Rendering the template is not part
 * of this model.
 */
module VclGenerator {
  import opened Wrappers
  import Config
  import opened AccessList
  import opened DesignExceptions

  /** A value of the variable map. */
  datatype TemplateValue =
    | Text(text: string)
    | Number(number: int)
    | Flag(flag: bool)
    | Entries(entries: seq<AccessEntry>)
    | CookieRows(rows: seq<map<string, string>>)

  /** The generator's constructor arguments that the variables are built from. */
  datatype Generator = Generator(
    backendHost: string,
    backendPort: int,
    accessList: seq<string>,
    gracePeriod: int,
    sslOffloadedHeader: string,
    config: Config.Store,
    designExceptions: seq<Rule>
  )

  /** The keys of the variable map. */
  function VariableNames(): set<string> {
    {
      "host", "port", "access_list", "grace_period", "ssl_offloaded_header",
      "tracking_parameters", "enable_bfcache", "disable_bfcache", "enable_media_cache",
      "enable_static_cache", "use_xkey_vmod", "use_soft_purging",
      "pass_on_cookie_presence", "design_exceptions_code"
    }
  }

  /** The six switches read from the configuration; `disable_bfcache` is the negation of `enable_bfcache`. */
  function FlagVariables(config: Config.Store): (m: map<string, TemplateValue>)
    ensures m.Keys == {
      "enable_bfcache", "disable_bfcache", "enable_media_cache",
      "enable_static_cache", "use_xkey_vmod", "use_soft_purging"
    }
    ensures m["enable_bfcache"] == Flag(Config.GetEnableBfcache(config))
    ensures m["disable_bfcache"] == Flag(!Config.GetEnableBfcache(config))
    ensures m["enable_media_cache"] == Flag(Config.GetEnableMediaCache(config))
    ensures m["enable_static_cache"] == Flag(Config.GetEnableStaticCache(config))
    ensures m["use_xkey_vmod"] == Flag(Config.GetUseXkeyVmod(config))
    ensures m["use_soft_purging"] == Flag(Config.GetUseSoftPurging(config))
  {
    map[
      "enable_bfcache" := Flag(Config.GetEnableBfcache(config)),
      "disable_bfcache" := Flag(!Config.GetEnableBfcache(config)),
      "enable_media_cache" := Flag(Config.GetEnableMediaCache(config)),
      "enable_static_cache" := Flag(Config.GetEnableStaticCache(config)),
      "use_xkey_vmod" := Flag(Config.GetUseXkeyVmod(config)),
      "use_soft_purging" := Flag(Config.GetUseSoftPurging(config))
    ]
  }

  /** The variables passed on from the constructor arguments and the configuration. */
  function BaseVariables(g: Generator, tracking: string): (m: map<string, TemplateValue>)
    ensures m.Keys == {
      "host", "port", "grace_period", "ssl_offloaded_header",
      "tracking_parameters", "pass_on_cookie_presence"
    }
    ensures m["host"] == Text(g.backendHost) && m["port"] == Number(g.backendPort)
    ensures m["grace_period"] == Number(g.gracePeriod)
    ensures m["ssl_offloaded_header"] == Text(g.sslOffloadedHeader)
    ensures m["tracking_parameters"] == Text(tracking)
    ensures m["pass_on_cookie_presence"] == CookieRows(g.config.passOnCookiePresence)
  {
    map[
      "host" := Text(g.backendHost),
      "port" := Number(g.backendPort),
      "grace_period" := Number(g.gracePeriod),
      "ssl_offloaded_header" := Text(g.sslOffloadedHeader),
      "tracking_parameters" := Text(tracking),
      "pass_on_cookie_presence" := CookieRows(g.config.passOnCookiePresence)
    ]
  }

  /** The two generated variables: the transformed access list and the design-exception code. */
  function GeneratedParts(g: Generator): (m: map<string, TemplateValue>)
    requires SingleLine(g.designExceptions)
    ensures m.Keys == {"access_list", "design_exceptions_code"}
    ensures m["access_list"] == Entries(KeptEntries(g.accessList))
    ensures m["design_exceptions_code"] == Text(DesignExceptionsCode(g.designExceptions))
  {
    map[
      "access_list" := Entries(KeptEntries(g.accessList)),
      "design_exceptions_code" := Text(DesignExceptionsCode(g.designExceptions))
    ]
  }

  /** The whole map: the three parts side by side. */
  function Variables(g: Generator, tracking: string): map<string, TemplateValue>
    requires SingleLine(g.designExceptions)
  {
    BaseVariables(g, tracking) + FlagVariables(g.config) + GeneratedParts(g)
  }

  /**
   * getVariables: the fixed-key map handed to the template. With the
   * unserialized cookie rules taken as an input, it fails exactly where
   * reading the tracking parameters fails.
   */
  function GetVariables(g: Generator): (r: Result<map<string, TemplateValue>, Config.ConfigError>)
    requires SingleLine(g.designExceptions)
    ensures r.Failure? <==> !Config.TrackingReadable(g.config.trackingParameters)
  {
    match Config.GetTrackingParameters(g.config.trackingParameters)
    case Failure(e) => Failure(e)
    case Success(tracking) => Success(Variables(g, tracking))
  }

  /** No key belongs to two of the parts. */
  lemma PartsDisjoint(g: Generator, tracking: string)
    requires SingleLine(g.designExceptions)
    ensures BaseVariables(g, tracking).Keys !! FlagVariables(g.config).Keys
    ensures BaseVariables(g, tracking).Keys !! GeneratedParts(g).Keys
    ensures FlagVariables(g.config).Keys !! GeneratedParts(g).Keys
  {
    var base, flags, parts := BaseVariables(g, tracking).Keys, FlagVariables(g.config).Keys, GeneratedParts(g).Keys;
    forall k | k in base ensures k !in flags && k !in parts {
      assert k == "host" || k == "port" || k == "grace_period" || k == "ssl_offloaded_header"
        || k == "tracking_parameters" || k == "pass_on_cookie_presence";
    }
    forall k | k in parts ensures k !in flags {
      assert k == "access_list" || k == "design_exceptions_code";
    }
  }

  /** A variable of the base part keeps its value in the whole map. */
  lemma BaseLookup(g: Generator, tracking: string, k: string)
    requires SingleLine(g.designExceptions)
    requires k in BaseVariables(g, tracking)
    ensures k in Variables(g, tracking) && Variables(g, tracking)[k] == BaseVariables(g, tracking)[k]
  {
    PartsDisjoint(g, tracking);
    var base, flags := BaseVariables(g, tracking), FlagVariables(g.config);
    assert k !in flags.Keys && k !in GeneratedParts(g).Keys;
    assert (base + flags)[k] == base[k];
  }

  /** A switch keeps its value in the whole map. */
  lemma FlagLookup(g: Generator, tracking: string, k: string)
    requires SingleLine(g.designExceptions)
    requires k in FlagVariables(g.config)
    ensures k in Variables(g, tracking) && Variables(g, tracking)[k] == FlagVariables(g.config)[k]
  {
    PartsDisjoint(g, tracking);
    assert k !in GeneratedParts(g).Keys;
  }

  /** A generated variable keeps its value in the whole map. */
  lemma GeneratedLookup(g: Generator, tracking: string, k: string)
    requires SingleLine(g.designExceptions)
    requires k in GeneratedParts(g)
    ensures k in Variables(g, tracking) && Variables(g, tracking)[k] == GeneratedParts(g)[k]
  {
  }

  /** The template always receives the same fourteen variables. */
  lemma VariableKeys(g: Generator)
    requires SingleLine(g.designExceptions)
    requires Config.TrackingReadable(g.config.trackingParameters)
    ensures GetVariables(g).value.Keys == VariableNames()
  {
  }

  /** `enable_bfcache` and `disable_bfcache` are flags, each the negation of the other. */
  lemma BfcacheFlags(g: Generator)
    requires SingleLine(g.designExceptions)
    requires Config.TrackingReadable(g.config.trackingParameters)
    ensures var vars := GetVariables(g).value;
      && "enable_bfcache" in vars && "disable_bfcache" in vars
      && vars["enable_bfcache"].Flag? && vars["disable_bfcache"].Flag?
      && vars["enable_bfcache"].flag == !vars["disable_bfcache"].flag
      && (vars["enable_bfcache"].flag <==> !Config.IsFalsy(g.config.enableBfcache))
  {
    var tracking := Config.GetTrackingParameters(g.config.trackingParameters).value;
    assert GetVariables(g).value == Variables(g, tracking);
    FlagLookup(g, tracking, "enable_bfcache");
    FlagLookup(g, tracking, "disable_bfcache");
  }

  /** The four other switches hold the `(bool)` getters of the configuration reader. */
  lemma SwitchVariables(g: Generator)
    requires SingleLine(g.designExceptions)
    requires Config.TrackingReadable(g.config.trackingParameters)
    ensures var vars := GetVariables(g).value;
      && "enable_media_cache" in vars && vars["enable_media_cache"] == Flag(Config.GetEnableMediaCache(g.config))
      && "enable_static_cache" in vars && vars["enable_static_cache"] == Flag(Config.GetEnableStaticCache(g.config))
      && "use_xkey_vmod" in vars && vars["use_xkey_vmod"] == Flag(Config.GetUseXkeyVmod(g.config))
      && "use_soft_purging" in vars && vars["use_soft_purging"] == Flag(Config.GetUseSoftPurging(g.config))
  {
    var tracking := Config.GetTrackingParameters(g.config.trackingParameters).value;
    assert GetVariables(g).value == Variables(g, tracking);
    FlagLookup(g, tracking, "enable_media_cache");
    FlagLookup(g, tracking, "enable_static_cache");
    FlagLookup(g, tracking, "use_xkey_vmod");
    FlagLookup(g, tracking, "use_soft_purging");
  }

  /** `tracking_parameters` holds what the configuration reader's getTrackingParameters returns. */
  lemma TrackingVariable(g: Generator)
    requires SingleLine(g.designExceptions)
    requires Config.TrackingReadable(g.config.trackingParameters)
    ensures var vars := GetVariables(g).value;
      && "tracking_parameters" in vars
      && vars["tracking_parameters"] == Text(Config.GetTrackingParameters(g.config.trackingParameters).value)
  {
    var tracking := Config.GetTrackingParameters(g.config.trackingParameters).value;
    assert GetVariables(g).value == Variables(g, tracking);
    BaseLookup(g, tracking, "tracking_parameters");
  }

  /**
   * `host`, `port`, `grace_period`, `ssl_offloaded_header` and
   * `pass_on_cookie_presence` pass their inputs through unchanged.
   */
  lemma PassedThroughVariables(g: Generator)
    requires SingleLine(g.designExceptions)
    requires Config.TrackingReadable(g.config.trackingParameters)
    ensures var vars := GetVariables(g).value;
      && "host" in vars && vars["host"] == Text(g.backendHost)
      && "port" in vars && vars["port"] == Number(g.backendPort)
      && "grace_period" in vars && vars["grace_period"] == Number(g.gracePeriod)
      && "ssl_offloaded_header" in vars && vars["ssl_offloaded_header"] == Text(g.sslOffloadedHeader)
      && "pass_on_cookie_presence" in vars
      && vars["pass_on_cookie_presence"] == CookieRows(g.config.passOnCookiePresence)
  {
    var tracking := Config.GetTrackingParameters(g.config.trackingParameters).value;
    assert GetVariables(g).value == Variables(g, tracking);
    BaseLookup(g, tracking, "host");
    BaseLookup(g, tracking, "port");
    BaseLookup(g, tracking, "grace_period");
    BaseLookup(g, tracking, "ssl_offloaded_header");
    BaseLookup(g, tracking, "pass_on_cookie_presence");
  }

  /** The generated parts: the transformed access list and the design-exception code. */
  lemma GeneratedVariables(g: Generator)
    requires SingleLine(g.designExceptions)
    requires Config.TrackingReadable(g.config.trackingParameters)
    ensures var vars := GetVariables(g).value;
      && "access_list" in vars && "design_exceptions_code" in vars
      && vars["access_list"] == Entries(KeptEntries(g.accessList))
      && vars["design_exceptions_code"] == Text(DesignExceptionsCode(g.designExceptions))
  {
    var tracking := Config.GetTrackingParameters(g.config.trackingParameters).value;
    assert GetVariables(g).value == Variables(g, tracking);
    GeneratedLookup(g, tracking, "access_list");
    GeneratedLookup(g, tracking, "design_exceptions_code");
  }
}
