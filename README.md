# AMI session engine (diesel `AsteriskAMIClient`)

A Dafny model of the session engine of diesel's Asterisk Manager Interface
client, `diesel/protocols/asteriskami.py`. The engine parses the frames the
server sends. It encodes commands with a per-command `actionid` token. It
routes every parsed message either to the caller waiting on its token or to
the handlers subscribed to its event. For a command it either returns the
first reply or collects replies up to a stop event. It also decides whether
login succeeded.

Files and modules:

- `common.dfy` (`Common`): `Option`, `Result`, and `Failure`, the exceptions
  the client raises. `EmptyCommand` and `UnknownEvent` are the two
  `AMIError`s. `CommandFailed` is `AMICommandError`. `MissingField` is the
  `KeyError` raised when a reply lacks a field the client reads directly.
- `text.dfy` (`Text`): the Python built-ins the parser relies on. These are
  `str.split(sep)` with a non-empty separator and the ASCII `str.lower()` of
  Python 2 byte strings. `Join` is there only to state that `split` loses
  nothing; the encoder's `''.join` is modelled by `Frame.Lines` and
  `Frame.Serialize`.
- `frame.dfy` (`Frame`): `_parse` as a method with its loop. `Collect` is the
  specification function of that loop. This file also has the serialisation
  half of `_send_command` and the encode/parse round trip.
- `session.dfy` (`Session`): the routing step of `_dispatch_messages`, and
  the client object as a class `AmiClient<H>`. The class holds the
  credentials and the subscription table. Its methods are the constructor
  (the `__init__` part), `Subscribe`, `Dispatch` and `Login`. This file also
  has the reply handling of `_send_command`, the whole `_send_command` as
  `SendCommand`, and the `_do_login` check.
- `scenarios.dfy` (`Scenarios`): concrete frames and reply streams worked
  through the model, as verified statements. They cover a login that is accepted, refused or
  answered with `Goodbye`, a hangup event with two subscribers, the refusal
  of a lower-case event name, and two commands whose replies arrive
  interleaved.

Modelling choices:

- A command is a `seq<(string, string)>` with distinct keys, so the order
  of the encoded lines is fixed. When the command already has an
  `actionid`, the token replaces its value in place. Otherwise the token is
  added as the last field. Python 2 leaves dictionary order to hashing.
- The token is a parameter. The model assumes the caller supplies a fresh
  token, as `uuid4` would.
- The read loop is modelled over the frames read so far (`Dispatch`). Each
  frame gives a `Route`: `ToCaller(token, message)`, `ToHandlers(handlers,
  message)` or `Drop`. The replies a caller sees are the messages routed to
  its token, in order (`RepliesFor`). A call whose awaited reply is not
  among them ends `Blocked`, meaning it is still suspended in `wait`.
- Handlers are values of a type parameter `H`. Starting them (`fork_child`)
  is represented by the `ToHandlers` route.

Behaviour worth noting:

- Event names are matched exactly, both in `subscribe` and for stop events.
  Only keys are lower-cased; values, including event names, are kept
  verbatim. So the hangup event reaches its handlers as `event: Hangup`, and
  subscribing to `hangup` is refused.
- A line yields a field only when it splits into exactly two pieces on
  `": "`. A line with two separators is skipped, not split at the first one.
- Login is judged only on `response == 'Success'`. The `message` text is not
  checked. A refused login raises `AMICommandError` carrying the server's
  message.
- An empty command raises `AMIError`. A reply whose `response` is `Error`
  raises `AMICommandError`. A first reply without a `response` field raises
  `KeyError`, and so does a failure reply without a `message` field.
- A reply reaches its caller through the scheduler's `fire`/`wait` on the
  token; the client keeps no table of outstanding commands.

## Model

| member | source | states |
|---|---|---|
| Text.SplitJoin | diesel/protocols/asteriskami.py:98-102 | joining the pieces of `split(sep)` with `sep` gives back the input string |
| Text.SplitPiecesFree | diesel/protocols/asteriskami.py:98-102 | no piece produced by `split(sep)` contains the separator |
| Text.LowerIsLower | diesel/protocols/asteriskami.py:103 | `lower()` yields a string with no upper-case ASCII letter and is idempotent |
| Frame.Parse | diesel/protocols/asteriskami.py:93-106 | `None` gives the empty map; otherwise the result is the fold of the frame's `\r\n`-separated lines, and every key is lower case |
| Frame.CollectKeys | diesel/protocols/asteriskami.py:100-105 | a key is in the parsed map iff some line splits into exactly two pieces on ": " and its lower-cased first piece is that key |
| Frame.CollectValue | diesel/protocols/asteriskami.py:100-105 | the value stored under a key is the verbatim second piece of the LAST line naming it (a later duplicate overwrites) |
| Frame.CollectKeysLower | diesel/protocols/asteriskami.py:103 | every key of a parsed message is lower case |
| Frame.SkipMalformed | diesel/protocols/asteriskami.py:101-105 | removing a non-conforming line (no ": ", or two of them, or empty) anywhere leaves the parsed map unchanged |
| Frame.ParseSkipsMalformedLine | diesel/protocols/asteriskami.py:98-105 | a garbage line inside an otherwise well-formed frame is skipped and the other lines parse as usual |
| Frame.WithActionIdSetsToken | diesel/protocols/asteriskami.py:138-139 | after injection the command has `actionid` = token, and any `actionid` it already had is overwritten |
| Frame.WithActionIdKeepsFields | diesel/protocols/asteriskami.py:139 | every field other than `actionid` survives token injection |
| Frame.WithActionIdAddsNothing | diesel/protocols/asteriskami.py:139 | token injection adds no field other than `actionid` |
| Frame.WithActionIdDistinct | diesel/protocols/asteriskami.py:139 | the injected command still has distinct keys, as a dictionary does |
| Frame.WithActionIdAppends | diesel/protocols/asteriskami.py:138-139 | a command without `actionid` keeps all its fields in order and gains the token as one more field |
| Frame.EncodeCommand | diesel/protocols/asteriskami.py:135-146 | fails with the empty-command error exactly when the command is empty, whatever the token; otherwise the frame ends in "\r\n\r\n" |
| Frame.LinesEndInCrlf | diesel/protocols/asteriskami.py:142-144 | the `Key: Value\r\n` lines of a non-empty command end in "\r\n" |
| Frame.SplitSerialized | diesel/protocols/asteriskami.py:142-146 | splitting an encoded frame on "\r\n" gives its `Key: Value` lines followed by two empty pieces |
| Frame.ParseSerialized | diesel/protocols/asteriskami.py:98-105 | parsing a serialised field list with lower-case keys and no "\r\n" or ": " inside a key or value gives back its map |
| Frame.AsMapValues | diesel/protocols/asteriskami.py:142-144 | each field of a command with distinct keys is found in its dictionary with its own value |
| Frame.AsMapWithActionId | diesel/protocols/asteriskami.py:139 | the map of the command after token injection is the caller's map with `actionid` set to the token |
| Frame.RoundTrip | diesel/protocols/asteriskami.py:93-146 | parsing the encoding of a non-empty well-formed command gives the command's map plus `actionid` -> token |
| Session.RouteMessage | diesel/protocols/asteriskami.py:78-91 | a message with `actionid` goes only to the caller on that token even if it has `event`; otherwise one with a known event and a non-empty handler list goes to exactly that list in order; anything else is dropped |
| Session.RouteAfterSubscribe | diesel/protocols/asteriskami.py:82-85 | after a handler is appended to an event's list, an unsolicited message with that event reaches the earlier handlers and then the new one |
| Session.RepliesForMeaning | diesel/protocols/asteriskami.py:79 | the replies a caller sees are exactly the messages fired for its token |
| Session.RepliesCarryToken | diesel/protocols/asteriskami.py:78-79 | when every reply is fired under the `actionid` it carries, a caller only ever sees messages whose `actionid` is its own token |
| Session.AmiClient.constructor | diesel/protocols/asteriskami.py:35-53 | credentials default to the empty string; the table holds exactly the fixed event names, each with no handler list |
| Session.AmiClient.Subscribe | diesel/protocols/asteriskami.py:170-186 | an unknown name (exact, case-sensitive) fails and leaves the table unchanged; a known one gets the handler appended after the existing ones (None becoming a list); no other entry changes |
| Session.AmiClient.Dispatch | diesel/protocols/asteriskami.py:67-91 | each frame read is parsed and routed against the current table, in arrival order; every reply fired for a token carries that token |
| Session.AmiClient.Login | diesel/protocols/asteriskami.py:113-122 | sends the login command with the token; succeeds iff the first reply has `response` = `Success`; a first reply without `response` raises the missing-key error for `response`; any other reply raises with its `message` (or a missing-key error for `message`) |
| Session.StopIndex | diesel/protocols/asteriskami.py:164 | the index found is the first reply whose `event` equals the stop name, or the end if there is none |
| Session.CallOutcome | diesel/protocols/asteriskami.py:155-168 | an `Error` or missing `response` in the first reply raises; with no stop event the first reply is returned; with one the result is the arrival-order prefix ending at the first stop-event reply, no earlier element is a stop event, and the call stays blocked if none has arrived |
| Session.LateRepliesIgnored | diesel/protocols/asteriskami.py:160-168 | once a call has returned or raised, replies arriving later (errors included) do not change its outcome |
| Session.AwaitReplies | diesel/protocols/asteriskami.py:155-168 | the waiting loop of `_send_command` computes exactly `CallOutcome` |
| Session.SendCommand | diesel/protocols/asteriskami.py:127-168 | an empty command raises before anything is sent; otherwise the encoded frame is sent and the outcome is `CallOutcome` of the replies |
| Session.LoginCommandWithToken | diesel/protocols/asteriskami.py:117-119 | the login command is `action`, `username`, `secret` with the token appended as a fourth field |
| Session.LoginVerdict | diesel/protocols/asteriskami.py:121-122 | login is accepted iff `response` is `Success`; otherwise it raises with the reply's `message` |
| Scenarios.ParseLoginReply | diesel/protocols/asteriskami.py:93-106 | the frame `response: Success / message: Authentication accepted / actionid: T1` parses to those three fields |
| Scenarios.ParseHangup | diesel/protocols/asteriskami.py:93-106 | `event: Hangup / channel: SIP/100` parses with its values verbatim |
| Scenarios.LoginSession | diesel/protocols/asteriskami.py:113-122 | the login reply read off the wire is routed to token T1 and the login succeeds |
| Scenarios.LoginRefused | diesel/protocols/asteriskami.py:121-122 | a `response: Error` login reply raises with the server's message |
| Scenarios.LoginGoodbye | diesel/protocols/asteriskami.py:121-122 | a `response: Goodbye` login reply raises as well, since only `Success` is accepted |
| Scenarios.LoginWithoutResponse | diesel/protocols/asteriskami.py:157 | a login reply without `response` raises the missing-key error for `response` |
| Scenarios.LowerCaseNameRefused | diesel/protocols/asteriskami.py:181-182 | subscribing to `hangup` fails because names match exactly |
| Scenarios.HangupSession | diesel/protocols/asteriskami.py:80-85 | two handlers subscribed to `Hangup` both receive the unsolicited hangup message, in subscription order |
| Scenarios.InterleavedRouting | diesel/protocols/asteriskami.py:78-85 | interleaved replies for two tokens go to their callers and the unsolicited event to its handler |
| Scenarios.InterleavedCorrelation | diesel/protocols/asteriskami.py:78-79 | each token's caller sees only its own replies, in arrival order |
| Scenarios.InterleavedOutcomes | diesel/protocols/asteriskami.py:157-168 | the stop-event call ends at `QueueStatusComplete` and never sees the error arriving after it; the plain call returns its single reply |

## Left out

- Connection setup, the version banner (`_get_ami_version`) and the
  `on_connect`/`on_logged_in` hooks are left out. They are transport and
  start-up with no logic of their own.
- Framing the byte stream with `until('\r\n\r\n')` is left out, because the
  runtime library does it. Frames are given as strings.
- `send`, `fire`, `wait` and `fork_child` are abstracted. Sending is the
  frame a method returns. A wake-up is a `ToCaller` route, and the replies
  for a token form a sequence. Starting handlers is a `ToHandlers` route.
  The model does not capture the case where a reply is fired while its
  caller is not yet waiting.
- The `first(sleep=0.01, ...)` polling workaround and the commented-out
  timeout are left out. They are scheduling details with no effect on the
  results.
- `uuid4` token generation is left out. The token is a parameter.
- The `isinstance` and `callable` checks are left out, because Dafny's types
  already guarantee them.
- The convenience methods (`absolute_timeout` and the others) are left out.
  They only build dictionaries that go through `_send_command`.
- `print` logging, the `ipdb` import, `diesel/interactive.py` and the
  examples are left out.
- The client keeps no session state and does not fail waiting calls when
  the connection drops, so the model has neither. The `timeout` parameter of
  `_send_command` is unused, because the timed wait is commented out.
- Session.AmiClient.Dispatch: models a finite prefix of the endless read
  loop. It returns the routes instead of spawning tasks.
- Frame.WithActionId: writes the token into a returned field list. The
  caller's `cmd_dict` is updated in place in the code, and that aliasing is
  not modelled.
- Text.Lower: ASCII only, as Python 2 `str.lower()` in the C locale. Unicode
  case mapping is not modelled.
