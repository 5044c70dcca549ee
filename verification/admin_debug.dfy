/**
  The admin debug event recorder: the normalisation that turns one call's
  arguments into the record handed to the event store and the line handed to
  the structured logger, and the serialization of stored events for display.
  The store, the logger and the time services are collaborators; the store's
  create operation is read as "the record built", the logger as "the call
  made", and the clock is a parameter.
 */
module AdminDebug {
  import opened Prelude
  import opened AdminDebugTypes

  /**
    The request's identity is adopted: no explicit user was given, and the
    request carries an identity that reports itself authenticated.
   */
  predicate AdoptsRequestUser(user: Option<User>, request: Option<Request>) {
    && user.None?
    && request.Some?
    && request.value.user.Some?
    && request.value.user.value.isAuthenticated
  }

  /**
    The acting user after consulting the request. An explicit user is never
    replaced; without one, only an authenticated identity of the request is
    taken over.
   */
  function EffectiveUser(user: Option<User>, request: Option<Request>): (u: Option<User>)
    ensures user.Some? ==> u == user
    ensures AdoptsRequestUser(user, request) ==> u == request.value.user
    ensures !AdoptsRequestUser(user, request) ==> u == user
    ensures u.Some? ==> u == user || u.value.isAuthenticated
  {
    if request.Some? && user.None? then
      match request.value.user
      case Some(candidate) => if candidate.isAuthenticated then Some(candidate) else user
      case None => user
    else
      user
  }

  /** The user written to the store: kept only when it reports itself authenticated. */
  function StoredUser(user: Option<User>): (s: Option<User>)
    ensures s.Some? <==> user.Some? && user.value.isAuthenticated
    ensures s.Some? ==> s == user
  {
    match user
    case Some(u) => if u.isAuthenticated then user else None
    case None => None
  }

  /**
    The session key before truncation. An explicit non-empty key, or a call
    without a request, keeps what was passed; otherwise the request's session
    supplies its key, and a missing session or key gives the empty string.
   */
  function ResolveSessionKey(sessionKey: string, request: Option<Request>): (k: string)
    ensures request.None? || sessionKey != "" ==> k == sessionKey
    ensures request.Some? && sessionKey == "" ==>
      if request.value.session.Some? && request.value.session.value.sessionKey.Some?
      then k == request.value.session.value.sessionKey.value
      else k == ""
  {
    if request.Some? && sessionKey == "" then
      match request.value.session
      case Some(session) => session.sessionKey.GetOr("")
      case None => ""
    else
      sessionKey
  }

  /** The stored payload: an absent or empty payload becomes the empty map. */
  function StoredPayload(payload: Option<Dict>): (d: Dict)
    ensures d == map[] <==> payload.None? || payload.value == map[]
    ensures payload.Some? ==> d == payload.value
  {
    if payload.Some? && payload.value != map[] then payload.value else map[]
  }

  /** The log level: informational for "info" and "success", a warning for every other severity. */
  function LevelFor(severity: string): (l: Level)
    ensures l == Info <==> severity == "info" || severity == "success"
    ensures l == Warning <==> severity != "info" && severity != "success"
    ensures l.Number() >= Info.Number()
  {
    if severity in InfoSeverities then Info else Warning
  }

  /** The username reported to the logger: that of the given identity, if any. */
  function LoggedUsername(user: Option<User>): (name: Option<string>)
    ensures user.None? ==> name.None?
    ensures user.Some? ==> name == user.value.username
  {
    match user
    case Some(u) => u.username
    case None => None
  }

  /**
    The stored occurrence time. No timestamp, or an empty one, means now; a
    timestamp that does not parse means now; a parsed aware timestamp is kept;
    a parsed naive one is localised to the current time zone, and if that
    localisation raises, it is now after all. No case is an error.
   */
  function ResolveOccurredAt(occurredAt: Option<string>, clock: Clock): (t: DateTime)
    ensures occurredAt.None? || occurredAt.value == "" ==> t == clock.now
    ensures occurredAt.Some? && clock.parse(occurredAt.value).ParseFailed? ==> t == clock.now
    ensures occurredAt.Some? && occurredAt.value != "" && clock.parse(occurredAt.value).ParsedAt? ==>
      var dt := clock.parse(occurredAt.value).dt;
      && (dt.IsAware() ==> t == dt)
      && (!dt.IsAware() && clock.makeAware(dt).Some? ==> t == clock.makeAware(dt).value)
      && (!dt.IsAware() && clock.makeAware(dt).None? ==> t == clock.now)
    ensures clock.Consistent() ==> t.IsAware()
  {
    if occurredAt.Some? && occurredAt.value != "" then
      match clock.parse(occurredAt.value)
      case ParseFailed => clock.now
      case ParsedAt(dt) =>
        if dt.IsAware() then dt
        else clock.makeAware(dt).GetOr(clock.now)
    else
      clock.now
  }

  /**
    One call of the recorder: the record handed to the store and the call
    made to the logger. Stored keys are cut to 64 characters while the logged
    event type is not, and the logged username is that of the acting user
    before the authentication check that decides the stored user.
   */
  function RecordAdminDebugEvent(args: EventArgs, clock: Clock): (r: Recorded)
    ensures r.event.eventType <= args.eventType
    ensures |r.event.eventType| == Min(|args.eventType|, MaxKeyLength)
    ensures |r.event.sessionKey| <= MaxKeyLength
    ensures r.event.user.Some? ==>
      && r.event.user.value.isAuthenticated
      && (r.event.user == args.user
          || (AdoptsRequestUser(args.user, args.request) && r.event.user == args.request.value.user))
    ensures clock.Consistent() ==> r.event.occurredAt.IsAware()
    ensures r.event.message == args.message && r.log.message == args.message
    ensures r.event.severity == args.severity && r.log.extra.severity == args.severity
    ensures r.event.source == args.source && r.log.extra.source == args.source
    ensures r.log.extra.eventType == args.eventType
    ensures r.log.level == Info <==> args.severity in InfoSeverities
    ensures r.log.format == LogFormat
  {
    var user := EffectiveUser(args.user, args.request);
    var sessionKey := ResolveSessionKey(args.sessionKey, args.request);
    var event := EventRecord(
      Take(args.eventType, MaxKeyLength),
      args.message,
      args.severity,
      args.source,
      StoredUser(user),
      Take(sessionKey, MaxKeyLength),
      StoredPayload(args.payload),
      ResolveOccurredAt(args.occurredAt, clock));
    var extra := LogExtra(args.source, args.severity, args.eventType, LoggedUsername(user));
    Recorded(event, LogCall(LevelFor(args.severity), LogFormat, args.message, extra))
  }

  /**
    Stored events as dictionaries, one per event and in the same order, each
    being what the event's own `asDict` reports.
   */
  function SerializeEvents<E>(events: seq<E>, asDict: E -> Dict): (dicts: seq<Dict>)
    ensures |dicts| == |events|
    ensures forall i :: 0 <= i < |events| ==> dicts[i] == asDict(events[i])
  {
    if |events| == 0 then [] else [asDict(events[0])] + SerializeEvents(events[1..], asDict)
  }
}
