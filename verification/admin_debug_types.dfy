/**
  The data handled by the admin debug event recorder: the arguments of a
  call, the request context it may draw the acting user and session from,
  the clock and timestamp parser it relies on, the record handed to the
  event store, and the line handed to the structured logger.
 */
module AdminDebugTypes {
  import opened Prelude

  /** Stored `event_type` and `session_key` keep at most this many characters. */
  const MaxKeyLength: nat := 64

  /** Keyword defaults of the recorder. */
  const DefaultSeverity: string := "info"
  const DefaultSource: string := "backend"

  /** Severities that are logged at the informational level; every other one is a warning. */
  const InfoSeverities: set<string> := {"info", "success"}

  /** The format string of every log line; the message fills its one placeholder. */
  const LogFormat: string := "[AdminDebug] %s"

  /** A JSON-like value, the contents of a payload or of a serialized event. */
  datatype Json =
    | JNull
    | JBool(b: bool)
    | JInt(i: int)
    | JStr(s: string)
    | JList(items: seq<Json>)
    | JDict(entries: map<string, Json>)

  type Dict = map<string, Json>

  /**
    An identity object. `username` is `None` for an object that has no such
    attribute; `isAuthenticated` is the flag the identity reports about itself.
   */
  datatype User = User(username: Option<string>, isAuthenticated: bool)

  /** A session object; `sessionKey` is `None` while the session has no key yet. */
  datatype Session = Session(sessionKey: Option<string>)

  /** A web request, carrying (or not) an identity and a session. */
  datatype Request = Request(user: Option<User>, session: Option<Session>)

  /**
    A point in time: a wall-clock reading in an abstract unit, and the time
    zone attached to it. A timestamp is aware exactly when it has a zone.
   */
  datatype DateTime = DateTime(wall: int, zone: Option<string>) {
    predicate IsAware() {
      zone.Some?
    }
  }

  /** The outcome of ISO-8601 parsing: a failure, or a naive or aware timestamp. */
  datatype Parsed = ParseFailed | ParsedAt(dt: DateTime)

  /**
    The time services the recorder consults: the current time, the ISO-8601
    parser, and localisation of a naive timestamp to the current time zone,
    which yields `None` when it raises.
   */
  datatype Clock = Clock(
    now: DateTime,
    parse: string -> Parsed,
    makeAware: DateTime -> Option<DateTime>)
  {
    /** The clock reports aware times and localisation only produces aware ones. */
    ghost predicate Consistent() {
      && now.IsAware()
      && forall t :: makeAware(t).Some? ==> makeAware(t).value.IsAware()
    }
  }

  /** The arguments of one call, keyword arguments included. */
  datatype EventArgs = EventArgs(
    eventType: string,
    message: string,
    severity: string,
    source: string,
    user: Option<User>,
    request: Option<Request>,
    payload: Option<Dict>,
    sessionKey: string,
    occurredAt: Option<string>)

  /** The fields handed to the event store's create operation. */
  datatype EventRecord = EventRecord(
    eventType: string,
    message: string,
    severity: string,
    source: string,
    user: Option<User>,
    sessionKey: string,
    payload: Dict,
    occurredAt: DateTime)

  /** The two log levels the recorder uses, with the logging module's numbers. */
  datatype Level = Info | Warning {
    function Number(): int {
      match this
      case Info => 20
      case Warning => 30
    }
  }

  /** The structured fields attached to a log line. */
  datatype LogExtra = LogExtra(
    source: string,
    severity: string,
    eventType: string,
    user: Option<string>)

  /** One call of the logger: level, format string, its argument and the extras. */
  datatype LogCall = LogCall(level: Level, format: string, message: string, extra: LogExtra)

  /** Everything one call of the recorder produces. */
  datatype Recorded = Recorded(event: EventRecord, log: LogCall)

  /** A call that passes only the two positional arguments and keeps every keyword default. */
  function DefaultArgs(eventType: string, message: string): EventArgs {
    EventArgs(eventType, message, DefaultSeverity, DefaultSource, None, None, None, "", None)
  }
}
