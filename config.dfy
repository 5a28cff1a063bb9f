/**
 * The extension's configuration reader (Model/Config.php). Every getter is a
 * pure function of the values stored in Magento's configuration, which are
 * collected here in a `Store` snapshot. JSON decoding happens outside this model:
 * its results are part of the stored value (see `TrackingRaw`).
 */
module Config {
  import opened Wrappers
  import opened PhpStrings

  /** A scalar as `scopeConfig->getValue` returns it. */
  datatype Scalar = Null | Bool(b: bool) | Int(i: int) | Str(s: string)

  /** The scalars PHP's `(bool)` cast turns into false: null, false, 0, "" and "0". */
  predicate IsFalsy(v: Scalar) {
    v == Null || v == Bool(false) || v == Int(0) || v == Str("") || v == Str("0")
  }

  /** PHP's `(bool)` cast on a scalar. */
  function AsBool(v: Scalar): (r: bool)
    ensures !r <==> IsFalsy(v)
  {
    match v
    case Null => false
    case Bool(b) => b
    case Int(i) => i != 0
    case Str(s) => !IsPhpEmpty(s)
  }

  /** One row of the tracking-parameter table; `param` is None when the row has no such key. */
  datatype ParamRow = ParamRow(param: Option<string>)

  /** What `json_decode($value, true)` yields: a PHP array of rows, or some other value. */
  datatype Assoc = Rows(rows: seq<ParamRow>) | NotAnArray

  /**
   * The stored tracking-parameter value. `Text` carries a string together with the
   * truthiness of `json_decode($s)` (object mode) and the result of
   * `json_decode($s, true)` (array mode); the two modes differ, for `"{}"` say.
   */
  datatype TrackingRaw =
    | Absent
    | Text(s: string, decodesTruthy: bool, assoc: Assoc)
    | Array(rows: seq<ParamRow>)

  /** The error PHP raises when `array_map` is given something that is not an array. */
  datatype ConfigError = ArrayMapOnNonArray

  /** The stored configuration values this model reads. */
  datatype Store = Store(
    trackingParameters: TrackingRaw,
    accessList: string,
    enableBfcache: Scalar,
    enableMediaCache: Scalar,
    enableStaticCache: Scalar,
    enable404Cache: Scalar,
    useXkeyVmod: Scalar,
    useSoftPurging: Scalar,
    passOnCookiePresence: seq<map<string, string>>
  )

  /** `$param['param']` as `implode` sees it: a missing key reads as null, which joins as "". */
  function ParamText(row: ParamRow): string {
    row.param.GetOr("")
  }

  function ParamTexts(rows: seq<ParamRow>): (r: seq<string>)
    ensures |r| == |rows|
    ensures forall i | 0 <= i < |rows| :: r[i] == ParamText(rows[i])
  {
    if rows == [] then [] else [ParamText(rows[0])] + ParamTexts(rows[1..])
  }

  /**
   * getTrackingParameters: a legacy string (one whose JSON decoding is falsy) is
   * returned as it is; otherwise the `param` fields of the decoded or stored rows
   * are joined with `|`. An absent value decodes `'{}'` to an empty array.
   */
  function GetTrackingParameters(raw: TrackingRaw): (r: Result<string, ConfigError>)
    ensures raw.Text? && !raw.decodesTruthy ==> r == Success(raw.s)
    ensures raw.Absent? ==> r == Success("")
    ensures r.Failure? <==> !TrackingReadable(raw)
    ensures IsListMode(raw) ==> r == Success(Implode('|', ParamTexts(ListModeRows(raw))))
  {
    match raw
    case Absent => Success(Implode('|', ParamTexts([])))
    case Text(s, truthy, assoc) =>
      if !truthy then Success(s)
      else if assoc.NotAnArray? then Failure(ArrayMapOnNonArray)
      else Success(Implode('|', ParamTexts(assoc.rows)))
    case Array(rows) => Success(Implode('|', ParamTexts(rows)))
  }

  /** The stored value can be read: it is not a string whose array-mode decoding is something other than an array. */
  predicate TrackingReadable(raw: TrackingRaw) {
    !(raw.Text? && raw.decodesTruthy && raw.assoc.NotAnArray?)
  }

  /** The stored value is joined rather than returned: a stored array, a missing value, or a string that decodes to an array. */
  predicate IsListMode(raw: TrackingRaw) {
    raw.Absent? || raw.Array? || (raw.Text? && raw.decodesTruthy && raw.assoc.Rows?)
  }

  /** The rows whose `param` fields make up the list-mode result. */
  function ListModeRows(raw: TrackingRaw): seq<ParamRow>
    requires IsListMode(raw)
  {
    match raw
    case Absent => []
    case Text(_, _, assoc) => assoc.rows
    case Array(rows) => rows
  }

  /**
   * Join/split round trip: in list mode, splitting the result on `|` gives back
   * the `param` fields in order, provided there is at least one and none holds a `|`.
   */
  lemma TrackingParametersSplit(raw: TrackingRaw)
    requires IsListMode(raw)
    requires ListModeRows(raw) != []
    requires forall i | 0 <= i < |ListModeRows(raw)| :: '|' !in ParamText(ListModeRows(raw)[i])
    ensures GetTrackingParameters(raw).Success?
    ensures Explode('|', GetTrackingParameters(raw).value) == ParamTexts(ListModeRows(raw))
  {
    ExplodeImplode('|', ParamTexts(ListModeRows(raw)));
  }

  /**
   * The list-mode result in the two cases the round trip above leaves out: no
   * rows give "", and a `|` inside a `param` field or a row without one is
   * joined as it is.
   */
  lemma TrackingParametersEdges()
    ensures GetTrackingParameters(Array([])) == Success("")
    ensures GetTrackingParameters(Text("{}", true, Rows([]))) == Success("")
    ensures GetTrackingParameters(Array([ParamRow(Some("a|b")), ParamRow(None)])) == Success("a|b|")
  {
    var rows := [ParamRow(Some("a|b")), ParamRow(None)];
    assert ParamTexts(rows) == ["a|b", ""];
    var texts := ["a|b", ""];
    assert texts[1..] == [""];
    assert Implode('|', texts) == "a|b" + "|" + "" == "a|b|";
  }

  /**
   * getAccessList: the comma-separated pieces of the stored value, each trimmed,
   * in order; empty pieces are kept.
   */
  function GetAccessList(store: Store): (r: seq<string>)
    ensures |r| == CountChar(',', store.accessList) + 1
    ensures forall i | 0 <= i < |r| :: IsTrimmed(r[i]) && ',' !in r[i]
    ensures forall i | 0 <= i < |r| :: r[i] == Trim(Explode(',', store.accessList)[i])
  {
    var pieces := Explode(',', store.accessList);
    seq(|pieces|, i requires 0 <= i < |pieces| => Trim(pieces[i]))
  }

  /** When no piece of the stored list carries surrounding white space, joining the entries with commas restores it. */
  lemma AccessListRestores(store: Store)
    requires forall i | 0 <= i < |Explode(',', store.accessList)| :: IsTrimmed(Explode(',', store.accessList)[i])
    ensures Implode(',', GetAccessList(store)) == store.accessList
  {
    var pieces := Explode(',', store.accessList);
    forall i | 0 <= i < |pieces| ensures GetAccessList(store)[i] == pieces[i] {
      TrimOfTrimmed(pieces[i]);
    }
    assert GetAccessList(store) == pieces;
    ImplodeExplode(',', store.accessList);
  }

  /** The PHP-truthy boolean getters: each is false exactly for null, false, 0, "" and "0". */
  function GetUseXkeyVmod(store: Store): (r: bool)
    ensures !r <==> IsFalsy(store.useXkeyVmod)
  {
    AsBool(store.useXkeyVmod)
  }

  function GetUseSoftPurging(store: Store): (r: bool)
    ensures !r <==> IsFalsy(store.useSoftPurging)
  {
    AsBool(store.useSoftPurging)
  }

  function GetEnableBfcache(store: Store): (r: bool)
    ensures !r <==> IsFalsy(store.enableBfcache)
  {
    AsBool(store.enableBfcache)
  }

  function GetEnableMediaCache(store: Store): (r: bool)
    ensures !r <==> IsFalsy(store.enableMediaCache)
  {
    AsBool(store.enableMediaCache)
  }

  function GetEnableStaticCache(store: Store): (r: bool)
    ensures !r <==> IsFalsy(store.enableStaticCache)
  {
    AsBool(store.enableStaticCache)
  }

  function GetEnable404Cache(store: Store): (r: bool)
    ensures !r <==> IsFalsy(store.enable404Cache)
  {
    AsBool(store.enable404Cache)
  }
}
