# ESP32 IR remote and web server: replay schedule and request dispatch

This project models two pieces of pure logic from a MicroPython ESP32 project, with the
hardware and the sockets taken out, and proves what they do.

**IR replay** (`IRRemote`, module `IrRemote` in `ir_remote.dfy`). A captured IR signal is a
list of `(timestamp, state)` records. `send_ir_signal` replays it on a PWM output at the
carrier frequency. For each pair of consecutive records it writes duty 512 when the state is
1 and duty 0 otherwise. It then sleeps for the gap to the next record when that gap is
positive. At the end it switches the output off. Construction sets the carrier frequency,
38000 Hz unless another is given, and switches the output off. The model turns a trace into the list of
requests made of the hardware: `SetDuty`, `Sleep` and, at construction, `SetFrequency`.
What those requests do is given separately. `Waveform` gives the stretches of output at each
duty. `FinalDuty` gives the duty left at the end. `DutyWrites` and `TotalSleep` give the
duties written and the time slept. The replay is proved against reference definitions on the
trace:
- `Marks` is the output the trace describes.
- `PositiveTime` is the sum of its positive gaps.
- `PositiveGapsBefore` is where each pair's requests start.

**Request dispatch** (`SimpleWebServer`, modules `Text`, `HttpRequest` and `WebServer`).
The server takes the request text apart in the style of the request-line of section 3 of
RFC 9112. The method and the target are fields 0 and 1 of the text split on `' '`. The path
is the target before the first `'?'`. The query is the text between the first and second
`'?'`, in the style of the query component of section 3.4 of RFC 3986. The query becomes a
dictionary built from its `&`-separated segments. The `(method, path)` pair then selects a
handler, and a route without one gets a fixed 404 response. `Text.Split` is Python's
`str.split` with one separator; it is proved against `Join` in both directions. `OpensWith`
states "`a` and `b` are fields 0 and 1" without splitting. The registry is a
`map<(string, string), H>` over an abstract handler type `H`. A handler's answer is a
function parameter `call: (H, QueryMap) -> string`. A handler is assumed to always return
a string; nothing else is assumed about what it returns. Every way the
request parsing and `add_handler` raise becomes an `Err` value of `HttpRequest.Result`:
- `MissingTarget` is the `IndexError` for a request with no space.
- `MalformedQuery` is the `ValueError` from `dict` for a segment with two or more `'='`.
- `UnsupportedMethod` is the failing `assert` in `add_handler`.

Facts about the replay loop that the model keeps as the code has them:
- The last record's state is never written. The loop reads only its timestamp, and the
  final write is always duty 0. See `ReplayIgnoresLastState` and `ReplayTwoRecords`:
  `[(0, 0), (10, 1)]` replays as idle for 10 us, then idle, so the active state is never
  driven.
- The duty is written for every pair of records, whatever the gap. Only the sleep depends on
  the gap being positive. See `ReplayPairLayout`.
- Any list of records is accepted. Timestamps need not increase, states need not alternate
  and the first timestamp need not be 0. A gap that is not positive is skipped without a
  sleep.
- An exception raised while a request is handled is not caught. It leaves the accept loop in
  `start`, so the server stops; an empty request (a client that connects and closes) is
  enough. The model returns the error value and says nothing about what follows.

## Model

| member | source | states |
|---|---|---|
| `IrRemote.DutyFor` | src/ir_remote.py:28-33 | a state gives duty 512 exactly when it equals 1, and duty 0 otherwise |
| `IrRemote.Construct` | src/ir_remote.py:6-9 | construction puts the given frequency (38000 Hz by default) in force whatever was set before, leaves the output idle from any prior duty, and produces no output and no sleep |
| `IrRemote.Step` | src/ir_remote.py:24-36 | one iteration first writes the duty for the current state, then sleeps for exactly the gap to the next record if that gap is positive, and makes no other request |
| `IrRemote.StepEffect` | src/ir_remote.py:24-36 | one iteration produces exactly the output the two records describe and writes exactly one duty |
| `IrRemote.Pairs` | src/ir_remote.py:23-36 | after k loop iterations there are between k and 2k requests |
| `IrRemote.PairsRequests` | src/ir_remote.py:23-36 | the loop never sets the frequency and sleeps only for positive times |
| `IrRemote.PairsLocal` | src/ir_remote.py:23-27 | the first k iterations depend only on the records before record k and on record k's timestamp |
| `IrRemote.Replay` | src/ir_remote.py:18-38 | an empty trace makes no request at all; a trace of n records makes between n and 2n-1 requests, ends with a write of duty 0, and sleeps only for positive times |
| `IrRemote.SendIrSignal` | src/ir_remote.py:11-38 | the loop over consecutive pairs makes exactly the requests of the schedule `Replay` |
| `IrRemote.ReplayWaveform` | src/ir_remote.py:23-36 | timing fidelity: from any prior duty, the output is each record's state's duty held for exactly the gap to the next record, in trace order, with non-positive gaps absent |
| `IrRemote.ReplayDuration` | src/ir_remote.py:23-36 | total sleep time is the sum over pairs of max(0, gap) |
| `IrRemote.ReplayTelescopes` | src/ir_remote.py:23-36 | for non-decreasing timestamps total sleep time is the last timestamp minus the first |
| `IrRemote.ReplayDutyWrites` | src/ir_remote.py:23-38 | a trace of n records makes exactly n duty writes: 512 or 0 for each of the first n-1 states (512 exactly when the state is 1), then 0 |
| `IrRemote.ReplayPairLayout` | src/ir_remote.py:23-36 | pair i's requests start after i duty writes and one sleep per earlier positive gap; the duty write comes first, then a sleep of exactly the gap if and only if the gap is positive, otherwise the next duty write |
| `IrRemote.ReplayIgnoresLastState` | src/ir_remote.py:23-25 | changing the last record's state does not change the schedule: only its timestamp is used |
| `IrRemote.ReplayEndsIdle` | src/ir_remote.py:18-38 | a non-empty replay leaves the output at duty 0; an empty one leaves it as it was |
| `IrRemote.ReplayAllEndsIdle` | src/ir_remote.py:18-38 | any sequence of replays started idle ends idle |
| `IrRemote.SessionEndsIdle` | src/ir_remote.py:6-38 | after construction and any number of replays the output is at duty 0 |
| `IrRemote.ReplayAllKeepsCarrier` | src/ir_remote.py:11-38 | replays never change the carrier frequency |
| `IrRemote.SessionKeepsCarrier` | src/ir_remote.py:6-38 | after construction and any number of replays the carrier is the frequency given at construction |
| `IrRemote.ReplayTwoRecords` | src/ir_remote.py:23-38 | the trace [(0, 0), (10, 1)] gives duty 0, a 10 us sleep, duty 0: 10 us of idle output and no active output |
| `Text.Split` | src/simple_web_server.py:19 | split yields at least one field and no field contains the separator |
| `Text.SplitCount` | src/simple_web_server.py:19 | there is one more field than there are separators, so field 1 exists exactly when the separator occurs |
| `Text.JoinSplit` | src/simple_web_server.py:19-25 | joining the fields with the separator gives back the text |
| `Text.SplitJoin` | src/simple_web_server.py:19-25 | splitting separator-free fields joined by the separator gives back the fields |
| `Text.SplitPartsWithin` | src/simple_web_server.py:19-25 | no field holds more of any character than the whole text |
| `Text.SplitFirstTwo` | src/simple_web_server.py:19-23 | when the separator occurs, fields 0 and 1 are the text before the first separator and the text from there up to the next separator or the end |
| `Text.OpensWithUnique` | src/simple_web_server.py:19-23 | no other pair of strings than fields 0 and 1 is separated that way at the head of the text |
| `HttpRequest.RequestLine` | src/simple_web_server.py:19 | the request fails with `MissingTarget` exactly when it has no space; otherwise the method and target are its first two space-free fields |
| `HttpRequest.RequestLineOpensWith` | src/simple_web_server.py:19 | a request that opens with a method, a space and a target is read as exactly that method and target |
| `HttpRequest.SplitTarget` | src/simple_web_server.py:21-23 | path and query contain no '?'; without a '?' the path is the whole target and the query is empty; with one they are the text before the first '?' and between the first and second |
| `HttpRequest.SplitTargetOpensWith` | src/simple_web_server.py:21-23 | a target that opens with a path, '?' and a query is read as exactly that path and query |
| `HttpRequest.SegmentFields` | src/simple_web_server.py:25 | a segment with an '=' splits into exactly two parts if and only if it has one '=', and they are the text before and after it |
| `HttpRequest.Collect` | src/simple_web_server.py:25 | when building the map fails, the error names one of the segments, and that segment has two or more '=' |
| `HttpRequest.ParseQuery` | src/simple_web_server.py:23-25 | a query fails only on an '&'-free stretch with two or more '=', so only a query with two or more '=' can fail; a query without '=', the empty one included, gives the empty map |
| `HttpRequest.NoPairs` | src/simple_web_server.py:25 | segments without any '=' build the empty map |
| `HttpRequest.CollectOk` | src/simple_web_server.py:25 | the query map is built if and only if no segment has two or more '=' |
| `HttpRequest.CollectError` | src/simple_web_server.py:25 | on failure the error names the first segment with two or more '=' |
| `HttpRequest.CollectKeys` | src/simple_web_server.py:25 | the keys of the query map are exactly the keys of the segments that contain '='; segments without '=' add nothing |
| `HttpRequest.CollectLastWins` | src/simple_web_server.py:25 | for a repeated key the value of its last segment is kept |
| `WebServer.EmptyRegistry` | src/simple_web_server.py:10 | a new server has no route registered |
| `WebServer.AddHandler` | src/simple_web_server.py:38-41 | registration fails exactly for a method other than GET, POST, PUT and DELETE; otherwise the route maps to the new handler, replacing any old one, the set of routes gains only that route, and every other route keeps its handler |
| `WebServer.Dispatch` | src/simple_web_server.py:19-32 | a request without a space fails with `MissingTarget` |
| `WebServer.DispatchOpensWith` | src/simple_web_server.py:19-32 | for every request that opens with a method, a space and a target, where the target is a path alone or a path, '?' and a query: a malformed query fails; otherwise the handler registered for exactly that method and path gets the query map, or the response is exactly the fixed 404 text |
| `WebServer.DispatchSecondQuestionMark` | src/simple_web_server.py:19-32 | `GET /p?a=1?x=2 HTTP/1.1` reaches the `GET /p` handler with only `a` set to `1`: the text after a second '?' is dropped |
| `WebServer.QueryOfOnePair` | src/simple_web_server.py:25 | the query `a=1` gives the map with `a` set to `1` |
| `WebServer.DispatchEndsAtTarget` | src/simple_web_server.py:19-32 | a request that ends right after its target, `GET /x`, reaches the `GET /x` handler with the empty map |
| `WebServer.RequestTextFields` | src/simple_web_server.py:19-23 | a request `M P?Q rest` with space-free M, P, Q and '?'-free P, Q reads back as method M, path P, query Q |
| `WebServer.DispatchRoute` | src/simple_web_server.py:19-32 | for such a request a malformed query fails whether or not the route is registered; otherwise the registered handler answers with the query map, or the response is exactly the fixed 404 text |
| `WebServer.DispatchAfterAdd` | src/simple_web_server.py:27-41 | after registering a handler for a route, a request for that route is answered by that handler with the parsed query |
| `WebServer.PlainRequestFields` | src/simple_web_server.py:19-23 | a request `M P rest` with space-free M, P and '?'-free P reads back as method M, path P and the empty query |
| `WebServer.DispatchPlainRoute` | src/simple_web_server.py:19-32 | for such a request the registered handler answers with the empty map, or the response is exactly the fixed 404 text |
| `WebServer.DispatchPlainAfterAdd` | src/simple_web_server.py:19-41 | after registering a handler for a route, a request for that route without a query is answered by that handler with the empty map |
| `WebServer.DispatchOtherRoute` | src/simple_web_server.py:27-41 | registering a handler does not change the answer to a request for any other route |
| `WebServer.DispatchEmpty` | src/simple_web_server.py:10-32 | a new server answers every request it can take apart with the 404 text |

## Left out

- PWM hardware: the pin number, the real duty and frequency effects, and the accuracy of
  `utime.sleep_us` are not modelled. They become the abstract requests `SetFrequency`,
  `SetDuty` and `Sleep`.
- The `verbose` status messages of `send_ir_signal` are console output and are not modelled.
- Signal capture (the `listen_ir` routine named in the docstring) is not part of this model.
  No source for it is available.
- An exception in the middle of a replay (for instance a keyboard interrupt) leaves the output
  at whatever duty it had. The code has no guard for this, and the model has no such
  exceptions.
- Timestamps and states are unbounded integers. The source compares the state with `== 1`,
  which a Python `True` also satisfies.
- The socket lifecycle is I/O and is not modelled. This covers bind, listen, accept,
  `recv(1024)` with its truncation, UTF-8 decoding, send and close. Dispatch starts from the
  decoded request text and ends with the response text.
- The infinite accept loop of `start` is not modelled, including the fact that an uncaught
  error ends it. Dispatch handles one request and returns its error as a value.
- Handlers that raise, or return something other than a string, are not modelled. In the
  source either one ends the accept loop: the first at the call on line 29, the second at
  `response.encode()` on line 35.
- Handlers are assumed to be truthy callables. The source would answer 404 for a route
  registered with a falsy value such as `None`.
- `add_handler`'s check is modelled as always active. Python skips `assert` statements when
  run with optimisation.
- The `__main__` example handlers and their JSON encoding use a foreign library and are not
  modelled.
- `src/connect_wifi.py`, `src/boot.py` and `src/projects/ir_remote/boot.py` are network and
  board bring-up glue. The last one also calls `extract_json_from_request` and passes
  `content_type` to `add_handler`, neither of which exists in the web server shown, so its
  behaviour has no source to follow.
