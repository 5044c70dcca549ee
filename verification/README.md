# Admin debug event recorder — a Dafny model

This project models the Admin Debug Console helper of the MCQ reader's Django
application (`django_neurology_mcq/mcq/admin_debug.py`). The helper does two
things:

- `record_admin_debug_event` normalises one application event. It resolves
  the acting user and session from an optional request and normalises the
  occurrence time. It cuts `event_type` and `session_key` to 64 characters
  and defaults the payload. It then hands the record to the event store and
  mirrors the event to the structured logger at INFO or WARNING level.
- `serialize_events` turns stored events into dictionaries for display.

The model is functional. The call's arguments, the request and its
identity/session, the stored record and the log call are immutable
datatypes (`admin_debug_types.dfy`). The normalisation is the pure function
`AdminDebug.RecordAdminDebugEvent`. It returns the record that the store's
create operation receives and the logger call it makes (`admin_debug.dfy`).
The time services are a `Clock` parameter: the current time, the ISO-8601
parser as an abstract `ParseFailed | ParsedAt(dt)` result (naive or aware
according to `dt.zone`), and localisation to the current time zone. Python's
slice `s[:n]` is `Prelude.Take`. Properties that span a whole call are
lemmas in `admin_debug_properties.dfy`.

Strings are sequences of Unicode scalar values, which matches Python's
code-point slicing of `str`.

One detail follows the code rather than a plain reading of its description.
Localisation of a naive timestamp (`make_aware`) runs inside the same
`try`/`except Exception` as parsing. So if localisation raises, the stored
time is "now", the same as for a parse failure. `Clock.makeAware` returns
`None` for that case, and `ResolveOccurredAt` falls back to `clock.now`.

## Model

| member | source | states |
|---|---|---|
| Prelude.Take | django_neurology_mcq/mcq/admin_debug.py:50-55 | The slice `s[:64]` is a prefix of `s` of length min(len(s), 64), and equals `s` exactly when `s` has at most 64 characters |
| Prelude.TakeIsStepwise | django_neurology_mcq/mcq/admin_debug.py:50-55 | The slice agrees on every input with an independent element-by-element prefix definition |
| Prelude.TakeIdempotent | django_neurology_mcq/mcq/admin_debug.py:50-55 | Cutting an already cut key to 64 characters again changes nothing |
| AdminDebug.EffectiveUser | django_neurology_mcq/mcq/admin_debug.py:32-35 | An explicit user is never replaced. The request's identity is taken over exactly when no user was given and that identity is present and authenticated; otherwise the user is unchanged |
| AdminDebug.ResolveSessionKey | django_neurology_mcq/mcq/admin_debug.py:36-37 | A non-empty explicit key, or a call without a request, keeps the key. Otherwise the request session's key is used, and a missing session or key gives "" |
| AdminDebug.StoredUser | django_neurology_mcq/mcq/admin_debug.py:54 | A user is stored iff it is present and authenticated, and then it is that same user |
| AdminDebug.StoredPayload | django_neurology_mcq/mcq/admin_debug.py:56 | The stored payload is empty iff the payload is absent or empty; a given payload is stored unchanged |
| AdminDebug.LevelFor | django_neurology_mcq/mcq/admin_debug.py:66-67 | INFO iff the severity is "info" or "success", WARNING iff it is anything else; the level is never below INFO (20) |
| AdminDebug.LoggedUsername | django_neurology_mcq/mcq/admin_debug.py:64 | The logged username is null without a user, and otherwise that user's `username` attribute (null if it has none) |
| AdminDebug.ResolveOccurredAt | django_neurology_mcq/mcq/admin_debug.py:39-47 | An absent, empty or unparsable timestamp gives now. A parsed aware time is kept. A parsed naive time is localised, or is now if localisation raises. With a consistent clock the result is always aware |
| AdminDebug.RecordAdminDebugEvent | django_neurology_mcq/mcq/admin_debug.py:17-72 | The stored event type is its input's 64-character prefix and the stored session key has at most 64 characters. A stored user is authenticated and is the explicit or adopted user. The stored time is aware under a consistent clock. Message, severity and source reach both store and log. The log carries the untruncated event type, and its level is INFO iff the severity is in {"info", "success"} |
| AdminDebug.SerializeEvents | django_neurology_mcq/mcq/admin_debug.py:75-78 | One dictionary per event, in input order, the i-th being `asDict` of the i-th event |
| AdminDebugProperties.StoredUserIsAuthenticatedOnly | django_neurology_mcq/mcq/admin_debug.py:32-35 | Over a whole call, a user is stored iff the explicit user is authenticated or the request's identity is adopted. An explicit unauthenticated user is stored as null |
| AdminDebugProperties.RequestUserAdopted | django_neurology_mcq/mcq/admin_debug.py:32-35 | With no explicit user and an authenticated request identity, that identity is stored and its username is logged |
| AdminDebugProperties.ExplicitUserNeverReplaced | django_neurology_mcq/mcq/admin_debug.py:32-35 | With an explicit user, the stored user is that user or null, and the logged username is that user's |
| AdminDebugProperties.StoredSessionKeyFallback | django_neurology_mcq/mcq/admin_debug.py:36-55 | The stored session key is the 64-character prefix of the explicit key, or of the request session's key when the explicit one is empty. It is "" when the session or its key is missing |
| AdminDebugProperties.StoredPayloadDefaulted | django_neurology_mcq/mcq/admin_debug.py:56 | Over a whole call, an absent or empty payload is stored as the empty map and any other payload is stored unchanged |
| AdminDebugProperties.LoggedFieldsPrecedeNormalisation | django_neurology_mcq/mcq/admin_debug.py:60-65 | The logged event type is untruncated and equals the stored one iff it has at most 64 characters. The logged username belongs to the acting user before authentication gating, and is null without one |
| AdminDebugProperties.SeverityLevels | django_neurology_mcq/mcq/admin_debug.py:66-67 | "success" logs at INFO (20); "warning" and "error" log at WARNING (30) |
| AdminDebugProperties.DefaultCall | django_neurology_mcq/mcq/admin_debug.py:17-28 | With only positional arguments: INFO level, source "backend", no user, empty session key, empty payload, and the current time |
| AdminDebugProperties.NormalisationIsIdempotent | django_neurology_mcq/mcq/admin_debug.py:49-58 | Recording a stored record's own fields again, at its occurrence time, stores the same record |
| AdminDebugProperties.SerializeEventsAppend | django_neurology_mcq/mcq/admin_debug.py:75-78 | Serializing a concatenation serializes each part in turn, so a consumed prefix of the events yields a prefix of the output |
| AdminDebugProperties.SerializeTwoEvents | django_neurology_mcq/mcq/admin_debug.py:75-78 | Two events serialize to exactly their two dictionaries, in order |

## Left out

- Persistence: `AdminDebugEvent.objects.create` is read as "the record built". Identifiers and defaults the store assigns are not modelled. The model class is not part of this model.
- `as_dict` is the parameter `asDict` of `SerializeEvents`, because the event model's code is not part of this model.
- Logging: only the chosen level, format string, message and extras are modelled, not emission or formatting by the logging backend.
- `datetime.fromisoformat`, `timezone.now`, `timezone.make_aware` and the time-zone database: these are foreign library behaviour, and appear as the `Clock` parameter's `parse`, `now` and `makeAware`.
- Python truthiness and `getattr` probing: request, user and session are explicit `Option` fields. A user object is treated as truthy whenever present.
- An identity object without an `is_authenticated` attribute: line 34 would raise `AttributeError` there. The model gives every `User` the flag.
- Non-string arguments such as a non-string `occurred_at`, which could raise `TypeError` inside the parser: arguments are typed.
- Exceptions raised by the store or the logger propagate to the caller in the source. The model has no failure path for them.
- Database transactions and concurrent writers: these are the store's concern.
- `serialize_events` is a lazy generator. It is modelled as the finite sequence it yields, and `SerializeEventsAppend` states its streaming behaviour.
