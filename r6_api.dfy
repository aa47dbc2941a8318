/** The stats client: the request path for a player, the mapping from the
    stats service's JSON body to the flat record the bot displays, and the
    demo/error policy around the single request. The request itself is not
    performed here: the service's answer is an input (`response`), and the
    result records which path would be requested, if any. */
module R6Api {
  import opened Wrappers
  import opened JsValue
  import NumberFormat
  import Unicode
  import Uri

  /** What a call can throw. */
  datatype Err =
    | RequestFailed(detail: string)  // transport failure, timeout or non-2xx status reported by the HTTP client
    | TypeError(detail: string)      // raised while mapping a body of an unexpected shape

  /** The module constants taken from the environment: whether an API key is
      configured, whether demo mode is on, and the default platform. */
  datatype Config = Config(hasKey: bool, demo: bool, defaultPlatform: string)

  /** The flat record handed to the command layer. `None` rank texts are `null`. */
  datatype StatsRecord = StatsRecord(
    username: JVal,
    timePlayed: JVal,
    kills: JVal,
    deaths: JVal,
    kd: JVal,
    wl: JVal,
    trnElo: JVal,
    currentRankText: Option<string>,
    peakRankText: Option<string>,
    topAttackerName: JVal,
    topDefenderName: JVal,
    topAttackerLine: JVal,
    topDefenderLine: JVal)

  /** One call of `fetchStats`: the path requested (`None` when no request is
      made) and the record returned or the error thrown. */
  datatype Fetch = Fetch(request: Option<string>, outcome: Result<StatsRecord, Err>)

  const DEFAULT_ATTACKER: string := "Ash"
  const DEFAULT_DEFENDER: string := "J\U{E4}ger"

  /** The separator between a rank name and its points, " — " (U+2014). */
  const RANK_SEPARATOR: string := " \U{2014} "

  const PROFILE_PATH: string := "/r6siege/standard/profile/"

  const EMPTY: JVal := JObj(map[])

  // ---------------------------------------------------------------------
  // Reading the body

  /** The non-null value at `v[k][f]`, both levels being JSON objects. */
  function NonNullAt(v: JVal, k: string, f: string): Option<JVal>
  {
    if v.JObj? && k in v.fields && v.fields[k].JObj? && f in v.fields[k].fields && v.fields[k].fields[f] != JNull
    then Some(v.fields[k].fields[f])
    else None
  }

  /** `get(k)`: `stats[k]?.displayValue ?? stats[k]?.value ?? null`. */
  function Get(stats: JVal, k: string): (r: JVal)
    requires stats != JNull
    ensures NonNullAt(stats, k, "displayValue").Some? ==> r == NonNullAt(stats, k, "displayValue").value
    ensures NonNullAt(stats, k, "displayValue").None? && NonNullAt(stats, k, "value").Some? ==> r == NonNullAt(stats, k, "value").value
    ensures r == JNull <==> NonNullAt(stats, k, "displayValue").None? && NonNullAt(stats, k, "value").None?
    ensures !(stats.JObj? && k in stats.fields) ==> r == JNull
  {
    var v := Prop(stats, k);
    match Coalesce(Coalesce(OptProp(v, "displayValue"), OptProp(v, "value")), Some(JNull))
    case Some(x) => x
    case None => JNull
  }

  /** The `find` callback, `(s.type || '').toLowerCase() === 'overview'`.
      Reading `type` of a `null` segment, or lower-casing a truthy `type`
      that is not a string, throws. */
  function IsOverview(s: JVal): (r: Result<bool, Err>)
    ensures r == Success(true) ==> s.JObj?
    ensures r == Success(true) <==>
      s.JObj? && "type" in s.fields && s.fields["type"].JStr? && Unicode.ToLower(s.fields["type"].s) == "overview"
    ensures r.Failure? <==> MalformedSegment(s)
    ensures r.Failure? ==> r.error.TypeError?
  {
    if s == JNull then Failure(TypeError("Cannot read properties of null (reading 'type')"))
    else
      match OrElse(Prop(s, "type"), JStr(""))
      case JStr(t) => Success(Unicode.ToLower(t) == "overview")
      case _ => Failure(TypeError("toLowerCase is not a function"))
  }

  /** A segment on which the `find` callback throws: `null`, or an object
      whose `type` is truthy but not a string. */
  predicate MalformedSegment(s: JVal)
  {
    s == JNull || (s.JObj? && "type" in s.fields && Truthy(s.fields["type"]) && !s.fields["type"].JStr?)
  }

  /** The search throws: some segment met before the first match is malformed. */
  predicate ThrowsBeforeMatch(segs: seq<JVal>)
  {
    exists i :: 0 <= i < |segs| && MalformedSegment(segs[i])
      && forall j :: 0 <= j < i ==> IsOverview(segs[j]) == Success(false)
  }

  /** `Array.prototype.find` with `IsOverview`, as the index of the element
      found: the first segment the callback accepts, every earlier one
      being rejected; the first exception thrown stops the search. */
  function FindOverview(segs: seq<JVal>): (r: Result<Option<nat>, Err>)
    ensures r.Success? && r.value.Some? ==>
      && r.value.value < |segs|
      && IsOverview(segs[r.value.value]) == Success(true)
      && forall j :: 0 <= j < r.value.value ==> IsOverview(segs[j]) == Success(false)
    ensures r == Success(None) ==> forall j :: 0 <= j < |segs| ==> IsOverview(segs[j]) == Success(false)
    ensures r.Failure? ==> exists i :: (0 <= i < |segs| && IsOverview(segs[i]) == Failure(r.error)
      && forall j :: 0 <= j < i ==> IsOverview(segs[j]) == Success(false))
    ensures r.Failure? ==> r.error.TypeError?
  {
    if segs == [] then Success(None)
    else
      match IsOverview(segs[0])
      case Failure(e) => Failure(e)
      case Success(true) => Success(Some(0))
      case Success(false) =>
        match FindOverview(segs[1..])
        case Failure(e) => Failure(e)
        case Success(None) => Success(None)
        case Success(Some(i)) => Success(Some(i + 1))
  }

  /** The segment list, `d.segments || []`. */
  function Segments(d: JVal): (r: JVal)
    requires d != JNull
    ensures Truthy(r)
    ensures !TruthyOpt(Prop(d, "segments")) ==> r == JArr([])
    ensures TruthyOpt(Prop(d, "segments")) ==> r == d.fields["segments"]
  {
    OrElse(Prop(d, "segments"), JArr([]))
  }

  /** `segs.find(...) || segs[0] || {}`. A truthy `segments` that is not an
      array has no `find` and throws. */
  function SelectSegment(d: JVal): (r: Result<JVal, Err>)
    requires d != JNull
    ensures r.Success? ==> Truthy(r.value)
    ensures !Segments(d).JArr? ==> r.Failure?
    ensures Segments(d).JArr? ==>
      var items := Segments(d).items;
      match FindOverview(items)
      case Failure(e) => r == Failure(e)
      case Success(Some(i)) => r == Success(items[i])
      case Success(None) =>
        r == Success(if |items| > 0 && Truthy(items[0]) then items[0] else EMPTY)
  {
    var segs := Segments(d);
    if !segs.JArr? then Failure(TypeError("segs.find is not a function"))
    else
      var items := segs.items;
      match FindOverview(items)
      case Failure(e) => Failure(e)
      case Success(found) =>
        var first := if |items| > 0 then Some(items[0]) else None;
        Success(OrElse(if found.Some? then Some(items[found.value]) else None, OrElse(first, EMPTY)))
  }

  // ---------------------------------------------------------------------
  // Formatting

  /** `Number(n).toLocaleString('en-US')` */
  function LocaleNumber(x: Numeric): (r: string)
    ensures r == "NaN" <==> x == NaN
    ensures x.Int? && x.n >= 0 ==> NumberFormat.IsNumeral(r) && NumberFormat.ValueOf(r) == x.n
    ensures x.Int? && x.n >= 0 ==> r == NumberFormat.Grouped(x.n)
  {
    match x
    case Int(n) => NumberFormat.LocaleInt(n)
    case NaN => "NaN"
  }

  /** `fmtRP(n)`: the points followed by " RP", or `null` for `null`. */
  function FmtRP(v: JVal): (r: Option<string>)
    ensures r.None? <==> v == JNull
    ensures r.Some? ==> |r.value| >= 3 && r.value[|r.value| - 3..] == " RP"
    ensures v.JNum? && v.n >= 0 ==> r == Some(NumberFormat.Grouped(v.n) + " RP")
  {
    if v == JNull then None else Some(LocaleNumber(ToNumber(v)) + " RP")
  }

  /** The rank line, `(name || fallbackName) && points ? `${name || fallbackName} — ${fmtRP(points)}` : null`:
      present only when a name and the points are both truthy, and then
      complete, the preferred name winning. */
  function RankText(name: JVal, fallbackName: JVal, points: JVal): (r: Option<string>)
    ensures r.Some? <==> (Truthy(name) || Truthy(fallbackName)) && Truthy(points)
    ensures r.Some? ==> r.value == ToJsString(if Truthy(name) then name else fallbackName) + RANK_SEPARATOR + FmtRP(points).value
  {
    var n := Or(name, fallbackName);
    if Truthy(n) && Truthy(points) then Some(ToJsString(n) + RANK_SEPARATOR + FmtRP(points).value) else None
  }

  // ---------------------------------------------------------------------
  // The record

  /** The reported handle, `d.platformInfo?.platformUserHandle ?? d.userInfo?.username ?? username`. */
  function ResolveUsername(d: JVal, username: string): (r: JVal)
    requires d != JNull
    ensures NonNullAt(d, "platformInfo", "platformUserHandle").Some? ==> r == NonNullAt(d, "platformInfo", "platformUserHandle").value
    ensures NonNullAt(d, "platformInfo", "platformUserHandle").None? && NonNullAt(d, "userInfo", "username").Some? ==>
      r == NonNullAt(d, "userInfo", "username").value
    ensures NonNullAt(d, "platformInfo", "platformUserHandle").None? && NonNullAt(d, "userInfo", "username").None? ==>
      r == JStr(username)
  {
    var handle := Coalesce(OptProp(Prop(d, "platformInfo"), "platformUserHandle"), OptProp(Prop(d, "userInfo"), "username"));
    match Coalesce(handle, Some(JStr(username)))
    case Some(x) => x
    case None => JStr(username)
  }

  /** The record built from the response's `data` object and the selected segment's `stats`. */
  function MapStats(d: JVal, stats: JVal, username: string): (r: StatsRecord)
    requires d != JNull && stats != JNull
    ensures r.username == ResolveUsername(d, username)
    ensures r.timePlayed == Get(stats, "timePlayed") && r.kills == Get(stats, "kills") && r.deaths == Get(stats, "deaths")
    ensures r.kd == if Truthy(Get(stats, "kd")) then Get(stats, "kd") else Get(stats, "kdr")
    ensures r.wl == if Truthy(Get(stats, "wlPercentage")) then Get(stats, "wlPercentage") else Get(stats, "winLossRatio")
    ensures r.trnElo == if Truthy(Get(stats, "trnRating")) then Get(stats, "trnRating") else JNull
    ensures r.currentRankText == RankText(Get(stats, "rankName"), Get(stats, "rank"), Get(stats, "mmr"))
    ensures r.peakRankText == RankText(Get(stats, "maxRankName"), Get(stats, "peakRank"), Get(stats, "maxMmr"))
    ensures Truthy(r.topAttackerName) && Truthy(r.topDefenderName)
    ensures r.topAttackerName == if Truthy(Get(stats, "topAttacker")) then Get(stats, "topAttacker") else JStr(DEFAULT_ATTACKER)
    ensures r.topDefenderName == if Truthy(Get(stats, "topDefender")) then Get(stats, "topDefender") else JStr(DEFAULT_DEFENDER)
    ensures r.topAttackerLine == r.topAttackerName && r.topDefenderLine == r.topDefenderName
  {
    var topAttackerName := Or(Get(stats, "topAttacker"), JStr(DEFAULT_ATTACKER));
    var topDefenderName := Or(Get(stats, "topDefender"), JStr(DEFAULT_DEFENDER));
    StatsRecord(
      username := ResolveUsername(d, username),
      timePlayed := Get(stats, "timePlayed"),
      kills := Get(stats, "kills"),
      deaths := Get(stats, "deaths"),
      kd := Or(Get(stats, "kd"), Get(stats, "kdr")),
      wl := Or(Get(stats, "wlPercentage"), Get(stats, "winLossRatio")),
      trnElo := Or(Get(stats, "trnRating"), JNull),
      currentRankText := RankText(Get(stats, "rankName"), Get(stats, "rank"), Get(stats, "mmr")),
      peakRankText := RankText(Get(stats, "maxRankName"), Get(stats, "peakRank"), Get(stats, "maxMmr")),
      topAttackerName := topAttackerName,
      topDefenderName := topDefenderName,
      topAttackerLine := topAttackerName,
      topDefenderLine := topDefenderName)
  }

  /** The `data` object of a body, `data?.data || {}`. */
  function DataOf(body: JVal): (d: JVal)
    ensures Truthy(d)
    ensures TruthyOpt(OptProp(Some(body), "data")) ==> d == body.fields["data"]
    ensures !TruthyOpt(OptProp(Some(body), "data")) ==> d == EMPTY
  {
    OrElse(OptProp(Some(body), "data"), EMPTY)
  }

  /** Everything the `try` block does after the response arrives. */
  function MapResponse(body: JVal, username: string): (r: Result<StatsRecord, Err>)
    ensures r.Failure? <==> !Segments(DataOf(body)).JArr? || ThrowsBeforeMatch(Segments(DataOf(body)).items)
    ensures r.Failure? ==> r.error.TypeError?
    ensures SelectSegment(DataOf(body)).Failure? ==> r == Failure(SelectSegment(DataOf(body)).error)
    ensures SelectSegment(DataOf(body)).Success? ==>
      r == Success(MapStats(DataOf(body), OrElse(Prop(SelectSegment(DataOf(body)).value, "stats"), EMPTY), username))
  {
    var d := DataOf(body);
    if Segments(d).JArr? then FindOverviewThrows(Segments(d).items); MapSegment(d, username) else MapSegment(d, username)
  }

  function MapSegment(d: JVal, username: string): Result<StatsRecord, Err>
    requires d != JNull
  {
    match SelectSegment(d)
    case Failure(e) => Failure(e)
    case Success(ov) => Success(MapStats(d, OrElse(Prop(ov, "stats"), EMPTY), username))
  }

  // ---------------------------------------------------------------------
  // The call

  /** `/r6siege/standard/profile/<platform>/<username>`, both components URI-encoded. */
  function RequestPath(platform: string, username: string): (r: string)
    ensures |r| > |PROFILE_PATH| && r[..|PROFILE_PATH|] == PROFILE_PATH
    ensures FirstSlash(r[|PROFILE_PATH|..]) == |Uri.EncodeURIComponent(platform)|
    ensures forall i :: |PROFILE_PATH| <= i < |r| ==> Uri.IsUnreserved(r[i]) || r[i] == '%' || r[i] == '/'
  {
    var e, f := Uri.EncodeURIComponent(platform), Uri.EncodeURIComponent(username);
    var r := PROFILE_PATH + e + "/" + f;
    FirstSlashAfter(e, f);
    assert r[|PROFILE_PATH|..] == e + "/" + f;
    r
  }

  /** The canned record of demo mode; only the user name comes from the caller. */
  function DemoData(username: string): (r: StatsRecord)
    ensures r.username == JStr(username)
  {
    StatsRecord(
      username := JStr(username),
      timePlayed := JStr("5d 20h 56m"),
      kills := JNum(1833),
      deaths := JNum(1773),
      kd := JStr("1.03"),
      wl := JStr("52.8"),
      trnElo := JNum(1337),
      currentRankText := Some("Platinum I" + RANK_SEPARATOR + "3,444 RP"),
      peakRankText := Some("Platinum I" + RANK_SEPARATOR + "3,460 RP"),
      topAttackerName := JStr(DEFAULT_ATTACKER),
      topDefenderName := JStr(DEFAULT_DEFENDER),
      topAttackerLine := JStr(DEFAULT_ATTACKER + RANK_SEPARATOR + "Top 12%"),
      topDefenderLine := JStr(DEFAULT_DEFENDER + RANK_SEPARATOR + "Top 9%"))
  }

  /** `fetchStats(username, platform, playlist)`. `platform` is `None` when
      the caller leaves it out; `response` is what the service answers. */
  function FetchStats(cfg: Config, username: string, platform: Option<string>, playlist: string,
                      response: Result<JVal, Err>): (r: Fetch)
    ensures r.request.None? <==> !cfg.hasKey && cfg.demo
  {
    if !cfg.hasKey && cfg.demo then Fetch(None, Success(DemoData(username)))
    else
      var path := RequestPath(if platform.Some? then platform.value else cfg.defaultPlatform, username);
      var attempt := match response
        case Failure(e) => Failure(e)
        case Success(body) => MapResponse(body, username);
      match attempt
      case Success(record) => Fetch(Some(path), Success(record))
      case Failure(e) => Fetch(Some(path), if cfg.demo then Success(DemoData(username)) else Failure(e))
  }

  /** The weekly challenges: there is no source for them, so the list is empty. */
  datatype Challenge = Challenge(title: string, description: string)

  function FetchChallenges(): (r: seq<Challenge>)
    ensures |r| == 0
  {
    []
  }

  // ---------------------------------------------------------------------
  // The demo/error policy

  /** Without an API key in demo mode the canned record is returned and no
      request is made, whatever the service would have answered. */
  lemma NoKeyInDemoModeMakesNoRequest(cfg: Config, username: string, platform: Option<string>, playlist: string,
                                      response: Result<JVal, Err>)
    requires !cfg.hasKey && cfg.demo
    ensures FetchStats(cfg, username, platform, playlist, response) == Fetch(None, Success(DemoData(username)))
  {
  }

  /** Otherwise exactly one request is made, for the player's profile path;
      a missing platform falls back to the configured default. */
  lemma RequestIsTheProfilePath(cfg: Config, username: string, platform: Option<string>, playlist: string,
                                response: Result<JVal, Err>)
    requires cfg.hasKey || !cfg.demo
    ensures FetchStats(cfg, username, platform, playlist, response).request
      == Some(RequestPath(if platform.Some? then platform.value else cfg.defaultPlatform, username))
  {
  }

  /** A failed request in demo mode yields the canned record. */
  lemma FailureInDemoModeGivesDemoData(cfg: Config, username: string, platform: Option<string>, playlist: string,
                                       response: Result<JVal, Err>)
    requires cfg.demo && response.Failure?
    ensures FetchStats(cfg, username, platform, playlist, response).outcome == Success(DemoData(username))
  {
  }

  /** A failed request outside demo mode rethrows the same error, with no record. */
  lemma FailureOutsideDemoModeRethrows(cfg: Config, username: string, platform: Option<string>, playlist: string,
                                       response: Result<JVal, Err>)
    requires !cfg.demo && response.Failure?
    ensures FetchStats(cfg, username, platform, playlist, response).outcome == Failure(response.error)
  {
  }

  /** An answer is mapped; an exception raised by the mapping is caught by
      the same handler as a failed request. */
  lemma AnswerIsMapped(cfg: Config, username: string, platform: Option<string>, playlist: string,
                       response: Result<JVal, Err>)
    requires (cfg.hasKey || !cfg.demo) && response.Success?
    ensures var out := FetchStats(cfg, username, platform, playlist, response).outcome;
      match MapResponse(response.value, username)
      case Success(record) => out == Success(record)
      case Failure(e) => out == if cfg.demo then Success(DemoData(username)) else Failure(e)
  {
  }

  /** In demo mode a call never throws. */
  lemma DemoModeNeverThrows(cfg: Config, username: string, platform: Option<string>, playlist: string,
                            response: Result<JVal, Err>)
    requires cfg.demo
    ensures FetchStats(cfg, username, platform, playlist, response).outcome.Success?
  {
  }

  /** The playlist changes neither the request nor the result. */
  lemma PlaylistIsIgnored(cfg: Config, username: string, platform: Option<string>, p1: string, p2: string,
                          response: Result<JVal, Err>)
    ensures FetchStats(cfg, username, platform, p1, response) == FetchStats(cfg, username, platform, p2, response)
  {
  }

  /** The canned record echoes the user name and is otherwise the same for everyone. */
  lemma DemoDataIsConstant(a: string, b: string)
    ensures DemoData(a).(username := JStr(b)) == DemoData(b)
    ensures DemoData(a).kills == JNum(1833) && DemoData(a).deaths == JNum(1773) && DemoData(a).kd == JStr("1.03")
  {
  }

  /** The canned rank lines are exactly what the live formatter writes for
      "Platinum I" with 3444 and 3460 points. */
  lemma DemoRankTextsAreFormatted(username: string)
    ensures DemoData(username).currentRankText == RankText(JStr("Platinum I"), JNull, JNum(3444))
    ensures DemoData(username).peakRankText == RankText(JStr("Platinum I"), JNull, JNum(3460))
  {
    assert NumberFormat.Pad3(444) == "444" && NumberFormat.Pad3(460) == "460";
    assert "3" + "," + "444" == "3,444" && "3" + "," + "460" == "3,460";
    assert [NumberFormat.DigitChar(3)] == "3";
    RankLineOfFourDigits("Platinum I", 3, 444);
    RankLineOfFourDigits("Platinum I", 3, 460);
    assert "Platinum I" + RANK_SEPARATOR + ("3,444" + " RP") == "Platinum I" + RANK_SEPARATOR + "3,444 RP";
    assert "Platinum I" + RANK_SEPARATOR + ("3,460" + " RP") == "Platinum I" + RANK_SEPARATOR + "3,460 RP";
  }

  /** The rank line for a four-digit number of points: the thousands digit,
      a comma, the other three digits, then " RP". */
  lemma RankLineOfFourDigits(name: string, thousands: nat, units: nat)
    requires name != [] && 1 <= thousands <= 9 && units < 1000
    ensures RankText(JStr(name), JNull, JNum(thousands * 1000 + units))
         == Some(name + RANK_SEPARATOR + (([NumberFormat.DigitChar(thousands)] + "," + NumberFormat.Pad3(units)) + " RP"))
  {
    var n := thousands * 1000 + units;
    var digits := [NumberFormat.DigitChar(thousands)] + "," + NumberFormat.Pad3(units);
    assert NumberFormat.Grouped(n) == digits by {
      assert n / 1000 == thousands && n % 1000 == units;
      assert NumberFormat.Grouped(thousands) == [NumberFormat.DigitChar(thousands)];
    }
    assert FmtRP(JNum(n)) == Some(digits + " RP");
  }

  // ---------------------------------------------------------------------
  // The request path

  /** Index of the first `/` of `s`, or `|s|` when there is none. */
  function FirstSlash(s: string): (i: nat)
    ensures i <= |s|
    ensures i < |s| ==> s[i] == '/'
    ensures forall j :: 0 <= j < i ==> s[j] != '/'
  {
    if s == [] || s[0] == '/' then 0 else 1 + FirstSlash(s[1..])
  }

  lemma {:induction false} FirstSlashAfter(a: string, b: string)
    requires forall i :: 0 <= i < |a| ==> a[i] != '/'
    ensures FirstSlash(a + "/" + b) == |a|
  {
    if a != [] {
      assert (a + "/" + b)[1..] == a[1..] + "/" + b;
      FirstSlashAfter(a[1..], b);
    }
  }

  lemma SplitAtSlash(a: string, b: string, c: string, d: string)
    requires forall i :: 0 <= i < |a| ==> a[i] != '/'
    requires forall i :: 0 <= i < |c| ==> c[i] != '/'
    requires a + "/" + b == c + "/" + d
    ensures a == c && b == d
  {
    var x := a + "/" + b;
    FirstSlashAfter(a, b);
    FirstSlashAfter(c, d);
    assert a == x[..|a|] && c == x[..|c|];
    assert b == x[|a| + 1..] && d == x[|c| + 1..];
  }

  /** Different players, or different platforms, are different requests. */
  lemma RequestPathInjective(p1: string, u1: string, p2: string, u2: string)
    requires RequestPath(p1, u1) == RequestPath(p2, u2)
    ensures p1 == p2 && u1 == u2
  {
    var e1, e2 := Uri.EncodeURIComponent(p1), Uri.EncodeURIComponent(p2);
    var f1, f2 := Uri.EncodeURIComponent(u1), Uri.EncodeURIComponent(u2);
    RequestPathTail(p1, u1);
    RequestPathTail(p2, u2);
    SplitAtSlash(e1, f1, e2, f2);
    Uri.EncodeInjective(p1, p2);
    Uri.EncodeInjective(u1, u2);
  }

  /** What follows the fixed prefix of a request path. */
  lemma RequestPathTail(platform: string, username: string)
    ensures RequestPath(platform, username)[|PROFILE_PATH|..]
         == Uri.EncodeURIComponent(platform) + "/" + Uri.EncodeURIComponent(username)
  {
    var e, f := Uri.EncodeURIComponent(platform), Uri.EncodeURIComponent(username);
    assert RequestPath(platform, username) == PROFILE_PATH + (e + "/" + f);
  }

  // ---------------------------------------------------------------------
  // The mapping

  /** A segment the search can read: an object whose `type` is absent, falsy or a string. */
  predicate ReadableSegment(s: JVal)
  {
    s.JObj? && ("type" in s.fields ==> !Truthy(s.fields["type"]) || s.fields["type"].JStr?)
  }

  /** The search throws exactly when a malformed segment comes before the
      first match. */
  lemma {:induction false} FindOverviewThrows(segs: seq<JVal>)
    ensures FindOverview(segs).Failure? <==> ThrowsBeforeMatch(segs)
  {
    if segs != [] {
      FindOverviewThrows(segs[1..]);
      var head := IsOverview(segs[0]);
      if head.Failure? {
        assert MalformedSegment(segs[0]);
        assert ThrowsBeforeMatch(segs);
      } else if head.value {
        NoThrowAfterMatch(segs);
      } else {
        ThrowsShift(segs);
      }
    }
  }

  /** Once the first segment matches, nothing after it is examined. */
  lemma NoThrowAfterMatch(segs: seq<JVal>)
    requires segs != [] && IsOverview(segs[0]) == Success(true)
    ensures !ThrowsBeforeMatch(segs)
  {
  }

  /** A rejected first segment passes the question on to the rest. */
  lemma ThrowsShift(segs: seq<JVal>)
    requires segs != [] && IsOverview(segs[0]) == Success(false)
    ensures ThrowsBeforeMatch(segs) <==> ThrowsBeforeMatch(segs[1..])
  {
    var rest := segs[1..];
    if ThrowsBeforeMatch(segs) {
      var i :| 0 <= i < |segs| && MalformedSegment(segs[i])
        && forall j :: 0 <= j < i ==> IsOverview(segs[j]) == Success(false);
      assert i != 0;
      assert rest[i - 1] == segs[i];
      assert forall j :: 0 <= j < i - 1 ==> IsOverview(rest[j]) == Success(false) by {
        forall j | 0 <= j < i - 1 ensures IsOverview(rest[j]) == Success(false) {
          assert rest[j] == segs[j + 1];
        }
      }
    }
    if ThrowsBeforeMatch(rest) {
      var i :| 0 <= i < |rest| && MalformedSegment(rest[i])
        && forall j :: 0 <= j < i ==> IsOverview(rest[j]) == Success(false);
      assert segs[i + 1] == rest[i];
      assert forall j :: 0 <= j < i + 1 ==> IsOverview(segs[j]) == Success(false) by {
        forall j | 0 <= j < i + 1 ensures IsOverview(segs[j]) == Success(false) {
          if j > 0 {
            assert segs[j] == rest[j - 1];
          }
        }
      }
    }
  }

  lemma {:induction false} FindOverviewTotal(segs: seq<JVal>)
    requires forall i :: 0 <= i < |segs| ==> ReadableSegment(segs[i])
    ensures FindOverview(segs).Success?
  {
    if segs != [] {
      FindOverviewTotal(segs[1..]);
    }
  }

  /** A body whose segment list, if any, is an array of readable segments
      never makes the mapping throw. */
  lemma WellShapedBodyMaps(body: JVal, username: string)
    requires Segments(DataOf(body)).JArr?
    requires forall i :: 0 <= i < |Segments(DataOf(body)).items| ==> ReadableSegment(Segments(DataOf(body)).items[i])
    ensures MapResponse(body, username).Success?
  {
    FindOverviewTotal(Segments(DataOf(body)).items);
  }

  /** A truthy `segments` that is not an array throws: the mapping is not
      lenient about every shape of body. */
  lemma MalformedSegmentsThrow(username: string)
    ensures MapResponse(JObj(map["data" := JObj(map["segments" := JStr("x")])]), username).Failure?
  {
    var d := JObj(map["segments" := JStr("x")]);
    assert DataOf(JObj(map["data" := d])) == d;
    assert Segments(d) == JStr("x");
  }

  /** A `null` segment searched before any match throws. */
  lemma NullSegmentThrows(username: string)
    ensures MapResponse(JObj(map["data" := JObj(map["segments" := JArr([JNull])])]), username).Failure?
  {
    var d := JObj(map["segments" := JArr([JNull])]);
    assert DataOf(JObj(map["data" := d])) == d;
    assert Segments(d) == JArr([JNull]);
    assert FindOverview([JNull]).Failure?;
  }

  /** The `type` test ignores case: on an ASCII `type` it compares the
      ASCII-lower-cased text with "overview". */
  lemma OverviewTypeIgnoresCase(fields: map<string, JVal>, t: string)
    requires "type" in fields && fields["type"] == JStr(t)
    requires forall i :: 0 <= i < |t| ==> Text.IsAscii(t[i])
    ensures IsOverview(JObj(fields)) == Success(seq(|t|, i requires 0 <= i < |t| => Text.AsciiLowerChar(t[i])) == "overview")
  {
    Unicode.ToLowerAscii(t);
  }

  /** Without any segment every stat reads as `null`: the record has only
      the defaults. */
  lemma NoSegmentsAllNull(d: JVal, username: string, k: string)
    requires d != JNull && Segments(d) == JArr([])
    ensures SelectSegment(d) == Success(EMPTY)
    ensures Get(EMPTY, k) == JNull
  {
  }

  /** An empty body gives the record of defaults: every stat `null`, no
      rank lines, the default operators, and the caller's user name. */
  lemma EmptyBodyRecord(username: string)
    ensures MapResponse(EMPTY, username) == Success(StatsRecord(
      JStr(username), JNull, JNull, JNull, JNull, JNull, JNull, None, None,
      JStr(DEFAULT_ATTACKER), JStr(DEFAULT_DEFENDER), JStr(DEFAULT_ATTACKER), JStr(DEFAULT_DEFENDER)))
  {
    assert DataOf(EMPTY) == EMPTY;
    assert SelectSegment(EMPTY) == Success(EMPTY);
  }

  /** With integer points the rank line is the name, the separator and the
      comma-grouped points, which read back as the points. */
  lemma RankTextIntegerPoints(name: JVal, fallbackName: JVal, n: nat)
    requires Truthy(name) && n > 0
    ensures RankText(name, fallbackName, JNum(n)) == Some(ToJsString(name) + RANK_SEPARATOR + NumberFormat.Grouped(n) + " RP")
    ensures NumberFormat.ValueOf(NumberFormat.Grouped(n)) == n
  {
    NumberFormat.GroupedValue(n);
    var text := ToJsString(name) + RANK_SEPARATOR;
    assert FmtRP(JNum(n)).value == NumberFormat.Grouped(n) + " RP";
    assert text + (NumberFormat.Grouped(n) + " RP") == text + NumberFormat.Grouped(n) + " RP";
  }

  /** Points that `Number()` cannot read are shown as "NaN RP". */
  lemma FmtRPOfNaN(v: JVal)
    requires v != JNull && ToNumber(v) == NaN
    ensures FmtRP(v) == Some("NaN RP")
  {
    var t := LocaleNumber(NaN) + " RP";
    assert t == "NaN" + " RP";
    assert |t| == 6 && t[0] == 'N' && t[1] == 'a' && t[2] == 'N' && t[3] == ' ' && t[4] == 'R' && t[5] == 'P';
    assert t == "NaN RP";
    assert FmtRP(v) == Some(t);
  }

  /** A comma-grouped display value for the points is not a number, so the
      rank line reads "NaN RP". */
  lemma RankTextOfGroupedDisplayValue(name: string)
    requires name != []
    ensures RankText(JStr(name), JNull, JStr("3,444")) == Some(name + RANK_SEPARATOR + "NaN RP")
  {
    var points := JStr("3,444");
    CommaIsNaN(points.s, 1);
    FmtRPOfNaN(points);
    assert Truthy(JStr(name)) && Truthy(points);
    assert ToJsString(JStr(name)) == name;
  }
}
