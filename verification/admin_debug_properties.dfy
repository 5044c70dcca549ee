/**
  Properties of the admin debug event recorder stated over whole calls: who
  ends up as the stored user, where the session key comes from, how the
  stored record and the log line differ, that a stored record is a fixed
  point of normalisation, and that serialization streams in order.
 */
module AdminDebugProperties {
  import opened Prelude
  import opened AdminDebugTypes
  import opened AdminDebug

  /**
    A user is stored exactly when an explicit user is authenticated, or when
    there is no explicit user and the request's identity is authenticated.
    An explicit but unauthenticated user is stored as null.
   */
  lemma StoredUserIsAuthenticatedOnly(args: EventArgs, clock: Clock)
    ensures var r := RecordAdminDebugEvent(args, clock);
      && (r.event.user.Some? <==>
            (args.user.Some? && args.user.value.isAuthenticated) || AdoptsRequestUser(args.user, args.request))
      && (args.user.Some? && !args.user.value.isAuthenticated ==> r.event.user.None?)
  {
  }

  /**
    Without an explicit user, an authenticated identity on the request is
    both stored and reported to the logger.
   */
  lemma RequestUserAdopted(args: EventArgs, clock: Clock)
    requires AdoptsRequestUser(args.user, args.request)
    ensures var r := RecordAdminDebugEvent(args, clock);
      && r.event.user == args.request.value.user
      && r.log.extra.user == args.request.value.user.value.username
  {
  }

  /**
    An explicit user is never replaced by the request's identity: it is
    either stored itself or not at all, and its username is what is logged.
   */
  lemma ExplicitUserNeverReplaced(args: EventArgs, clock: Clock)
    requires args.user.Some?
    ensures var r := RecordAdminDebugEvent(args, clock);
      && (r.event.user.None? || r.event.user == args.user)
      && r.log.extra.user == args.user.value.username
  {
  }

  /**
    The stored session key is the explicit key cut to 64 characters unless
    that key is empty and there is a request; then it is the request's
    session key cut to 64 characters, or empty when there is no session or
    the session has no key.
   */
  lemma StoredSessionKeyFallback(args: EventArgs, clock: Clock)
    ensures var r := RecordAdminDebugEvent(args, clock);
      && (args.request.None? || args.sessionKey != "" ==>
            r.event.sessionKey == Take(args.sessionKey, MaxKeyLength))
      && (args.request.Some? && args.sessionKey == "" ==>
            var session := args.request.value.session;
            if session.Some? && session.value.sessionKey.Some?
            then r.event.sessionKey == Take(session.value.sessionKey.value, MaxKeyLength)
            else r.event.sessionKey == "")
  {
  }

  /** An absent or empty payload is stored as the empty map; any other is stored unchanged. */
  lemma StoredPayloadDefaulted(args: EventArgs, clock: Clock)
    ensures var r := RecordAdminDebugEvent(args, clock);
      && (r.event.payload == map[] <==> args.payload.None? || args.payload.value == map[])
      && (args.payload.Some? ==> r.event.payload == args.payload.value)
  {
  }

  /**
    The log line reports the call as made, not as stored: the event type is
    not truncated, so it matches the stored one exactly when it has at most
    64 characters; and the username is that of the acting user whether or
    not that user was authenticated enough to be stored.
   */
  lemma LoggedFieldsPrecedeNormalisation(args: EventArgs, clock: Clock)
    ensures var r := RecordAdminDebugEvent(args, clock);
      && r.log.extra.eventType == args.eventType
      && (r.event.eventType == r.log.extra.eventType <==> |args.eventType| <= MaxKeyLength)
      && (args.user.Some? ==> r.log.extra.user == args.user.value.username)
      && (AdoptsRequestUser(args.user, args.request) ==>
            r.log.extra.user == args.request.value.user.value.username)
      && (args.user.None? && !AdoptsRequestUser(args.user, args.request) ==> r.log.extra.user.None?)
  {
  }

  /** "success" is logged at the informational level; "warning" and "error" as warnings. */
  lemma SeverityLevels(args: EventArgs, clock: Clock)
    ensures var r := RecordAdminDebugEvent(args, clock);
      && (args.severity == "success" ==> r.log.level == Info && r.log.level.Number() == 20)
      && (args.severity in {"warning", "error"} ==> r.log.level == Warning && r.log.level.Number() == 30)
  {
  }

  /**
    A call with only the positional arguments logs at the informational
    level from source "backend", stores no user, no session key and an empty
    payload, and stamps the event with the current time.
   */
  lemma DefaultCall(eventType: string, message: string, clock: Clock)
    ensures var r := RecordAdminDebugEvent(DefaultArgs(eventType, message), clock);
      && r.log.level == Info
      && r.event.source == "backend" && r.log.extra.source == "backend"
      && r.event.user.None? && r.log.extra.user.None?
      && r.event.sessionKey == ""
      && r.event.payload == map[]
      && r.event.occurredAt == clock.now
  {
  }

  /** The arguments that record a stored event again, at the moment it occurred. */
  function ReplayArgs(e: EventRecord): EventArgs {
    EventArgs(e.eventType, e.message, e.severity, e.source, e.user, None, Some(e.payload), e.sessionKey, None)
  }

  /**
    A stored record is a fixed point of normalisation: recording its own
    fields again, with the clock at its occurrence time, stores the same
    record. Truncation, user gating and payload defaulting are idempotent.
   */
  lemma NormalisationIsIdempotent(args: EventArgs, clock: Clock)
    ensures var e := RecordAdminDebugEvent(args, clock).event;
      RecordAdminDebugEvent(ReplayArgs(e), clock.(now := e.occurredAt)).event == e
  {
  }

  /**
    Serialization streams: serializing a concatenation is serializing each
    part in turn, so a prefix of the events yields a prefix of the output.
   */
  lemma SerializeEventsAppend<E>(a: seq<E>, b: seq<E>, asDict: E -> Dict)
    ensures SerializeEvents(a + b, asDict) == SerializeEvents(a, asDict) + SerializeEvents(b, asDict)
  {
  }

  /** Two events serialize to exactly their two dictionaries, in order. */
  lemma SerializeTwoEvents<E>(e1: E, e2: E, asDict: E -> Dict)
    ensures SerializeEvents([e1, e2], asDict) == [asDict(e1), asDict(e2)]
  {
  }
}
