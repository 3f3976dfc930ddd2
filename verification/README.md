# nest-mqtt routing core in Dafny

This is a model of the topic-routing and message-dispatch core of the NestJS MQTT
integration (`MqttService` in src/mqtt.service.ts and the payload transforms in
src/mqtt.transform.ts). It covers how subscription topics are preprocessed, how a
topic pattern is compiled into an anchored matcher and how that matcher behaves,
how the wildcard captures are extracted, the subscriber registry with its
first-match lookup, and the `'message'` callback. The callback lays out the handler
arguments by parameter index, runs the `beforeHandle` hook first and catches
every exception from the transform, the hook and the handler.

Modules, one per file:

- `Common`: `Option`, `Result`, bytes and exceptions.
- `Topics`: `preprocess`.
  - The namespace strips: the first `$queue/` anywhere, then a leading `$share/<alnum>/`.
  - The queue/share prefix rule.
  - Idempotence and the "pre-prefixed equals bare" lemmas.
- `Patterns`: `topicToRegexp`.
  - A pattern compiles to a token sequence: literal characters and `+`, plus a flag for a trailing `/#`.
  - The backtracking search `MatchFrom` models the JavaScript engine: greedy `([^/]+)`, and an optional `(/.*)?` whose `.` stops at line terminators.
  - It is proved sound and complete against a declarative reference, `Yields`, and unique when every `+` is followed by `/` or ends the pattern body.
  - The wildcard lemmas sit on top of that.
  - Also in this file: the sticky `exec` and `matchGroups` with its loop.
- `Transforms`: `getTransform` and the JSON, text and raw decoders. UTF-8 decoding and `JSON.parse` are parameters (`Platform`).
- `Interface`: the records of src/mqtt.interface.ts.
  - `MqttSubscribeOptions` is a class, because `_subscribe` overwrites its `topic`.
- `Routing`: the dispatcher.
  - First-match `Route`.
  - The sparse `scatterParameters` layout, with a loop and with its reference function.
  - The argument builder, with a loop and with its reference function.
  - `Dispatch`, the reference behaviour of one inbound message, as a trace of events: hook called, handler called, error logged.
- `Service`: the `MqttService` object, with its `subscribers` registry.
  - `Subscribe` models `_subscribe`.
  - `GetSubscriber` and `OnMessage`.
  - A client scenario (`FirstRegisteredWins`): registering `a/+` before `a/b` sends `a/b` to the `a/+` entry.

External capabilities are parameters:

- **Variable tokens.** `TOPIC_VAR_REGEX` (src/mqtt.constants.ts is not part of this model) is `Topics.TopicVariables`. It has a detection predicate and a substitution function, and substitution receives the configured `topicResolver`.
- **Broker acknowledgement.** The broker's answer to a subscribe is the `failed` argument of `Subscribe`.
- **Hook and handlers.** The hook and the handlers are functions that return the exception they throw, if any.
- **Decoding.** UTF-8 decoding and `JSON.parse` are fields of `Transforms.Platform`.

The resolver is applied to every topic, whatever its length (src/mqtt.service.ts:134-136).

## Model

| member | source | states |
|---|---|---|
| Topics.RemoveFirst | src/mqtt.service.ts:131 | `replace('$queue/', '')` leaves the topic alone when the marker does not occur; otherwise the result is 7 characters shorter, and a leading marker is cut off the front |
| Topics.RemoveFirstCutsFirstOccurrence | src/mqtt.service.ts:131 | when the marker occurs, the part cut out is its first occurrence, wherever it stands, and everything before and after it is kept |
| Topics.ProcessAll | src/mqtt.service.ts:148-149 | an array of topics gives an array of the same length whose element i is topic i processed |
| Topics.PrefixRule | src/mqtt.service.ts:138-146 | the result is the canonical topic with `$queue/` put in front when the queue flag holds, else `$share/<share>/` when the share is truthy, else nothing |
| Topics.OverrideRule | src/mqtt.service.ts:126-129 | a boolean queue or string share on the subscription overrides the module setting, even `false` or `""`; otherwise the module setting applies |
| Topics.StripUndoesPrefix | src/mqtt.service.ts:130-132 | stripping the namespace from a prefixed clean topic gives the topic back (for an alphanumeric share group) |
| Topics.QueuePrefixedSameAsBare | src/mqtt.service.ts:130-131 | writing `$queue/` in front of a pattern yourself gives the same processed topic as the bare pattern, when the pattern holds no other `$queue/` |
| Topics.RemoveFirstAfterDollarFree | src/mqtt.service.ts:131 | a head without `$` is kept and the marker removed from what follows it |
| Topics.RemoveFirstOfSharePrefixed | src/mqtt.service.ts:131 | the first `$queue/` of a topic starting with `$share/<g>/` (alphanumeric `g`) lies after that marker, which is kept |
| Topics.SharePrefixedSameAsBare | src/mqtt.service.ts:130-132 | writing `$share/<g>/` in front yourself, with `g` alphanumeric, gives the same processed topic as the bare pattern, unless the bare pattern itself starts with a share marker once its `$queue/` is removed |
| Topics.ProcessIdempotent | src/mqtt.service.ts:125-147 | processing the output of `processTopic` again changes nothing, when the canonical topic is clean, substitution fixes it and the share group is alphanumeric |
| Patterns.Run | src/mqtt.service.ts:283 | the reach of `[^/]+`: the longest `/`-free prefix of the input |
| Patterns.MatchSound | src/mqtt.service.ts:277-286 | every match the backtracking search returns spells out the topic in the reference sense (`Yields`) |
| Patterns.MatchComplete | src/mqtt.service.ts:277-286 | whenever some captures spell out the topic, the search finds a match |
| Patterns.MatchUnique | src/mqtt.service.ts:283-284 | when every `+` of the pattern body is followed by `/` or ends the body, the captures of a match are unique, so the search returns exactly them |
| Patterns.AcceptsIff | src/mqtt.service.ts:277-286 | `regexp.test(topic)` holds exactly when some captures spell out the topic |
| Patterns.ExactMatch | src/mqtt.service.ts:277-286 | a pattern that, once its namespace prefix is stripped, has no `+`, no braces and no trailing `/#` accepts a topic if and only if the topic equals the stripped pattern, and captures nothing |
| Patterns.SingleLevelWildcard | src/mqtt.service.ts:283 | for a pattern that is `u+v` once its namespace is stripped, with `u` and `v` free of `+` and braces, `v` empty or starting with `/`, and no trailing `/#`: it accepts a topic if and only if it is `u + w + v` with `w` non-empty and `/`-free, and `w` is the only capture |
| Patterns.MultiLevelWildcard | src/mqtt.service.ts:284 | for a pattern that is `u/#` once its namespace is stripped, with `u` free of `+` and braces: it accepts `u` (capture undefined) and `u/` + any line-terminator-free rest (capture keeps the leading `/`), and nothing else |
| Patterns.SingleLevelExample | src/mqtt.service.ts:283 | `a/+/c` accepts `a/x/c` with capture `x`, and rejects `a/c` and `a/x/y/c` |
| Patterns.TrailingPlusExample | src/mqtt.service.ts:283 | `a/+` accepts `a/b` and captures `b` |
| Patterns.MultiLevelExample | src/mqtt.service.ts:284 | `a/#` accepts `a`, `a/b` and `a/b/c`; the capture is undefined for `a` and `/b/c` for `a/b/c` |
| Patterns.MatchGroups | src/mqtt.service.ts:290-310 | the loop returns exactly the captures of the one anchored match, in wildcard order, or the empty list when the topic does not match, and leaves `lastIndex` at 0 |
| Transforms.GetTransform | src/mqtt.transform.ts:15-29 | a transform is found exactly when the option is absent, a function, or one of `text`, `json`, `raw` |
| Transforms.DefaultIsJson | src/mqtt.transform.ts:15-25 | no option selects `JsonTransform` and decodes as `'json'` does |
| Transforms.CustomPassesThrough | src/mqtt.transform.ts:18-20 | a function option is returned unchanged, and its result or exception is the payload's |
| Transforms.RawIsIdentity | src/mqtt.transform.ts:11-27 | `'raw'` returns the payload bytes unchanged |
| Transforms.TextIsUtf8 | src/mqtt.transform.ts:7-23 | `'text'` returns the UTF-8 decoding of the payload |
| Transforms.JsonFailsWithParse | src/mqtt.transform.ts:3-25 | `'json'` returns the parse of the UTF-8 text, and fails exactly when the parse throws, with that exception |
| Routing.Route | src/mqtt.service.ts:265-273 | the position of the earliest entry whose matcher accepts the topic; none when no entry accepts it |
| Routing.EarliestWins | src/mqtt.service.ts:266-270 | an accepting entry at position i means the topic is routed to position i or earlier |
| Routing.LastAt | src/mqtt.service.ts:230-232 | the last parameter declared with a given index, or none |
| Routing.SlotCount | src/mqtt.service.ts:229-232 | the length of `scatterParameters`: it exceeds every index and is one past an index that occurs |
| Routing.LaterParameterWins | src/mqtt.service.ts:230-232 | the last parameter declared with an index is the one in that slot |
| Routing.ArraySet | src/mqtt.service.ts:231 | `scatterParameters[parameter.index] = parameter`: the element lands at its index, other elements keep their values, and an index past the end grows the array to index + 1 with holes in between |
| Routing.Scatter | src/mqtt.service.ts:229-232 | the loop builds the sparse layout: slot i holds the last parameter with index i, and holes are empty |
| Routing.BuildArguments | src/mqtt.service.ts:242-255 | the `map` over the slots gives the reference argument list, or the exception of the first payload slot whose decoding fails |
| Routing.SlotArguments | src/mqtt.service.ts:242-254 | argument j is the decoded payload, the topic, the packet, the wildcard captures, `null` or `undefined`, according to the kind of the last parameter with index j |
| Routing.UnmatchedIsDropped | src/mqtt.service.ts:226-227 | a message does nothing at all if and only if no entry accepts its topic |
| Routing.HookRunsFirst | src/mqtt.service.ts:237-239 | with a hook and a routed message, the hook is the first event; a hook event occurs only first and only with a hook configured |
| Routing.HandlerCall | src/mqtt.service.ts:226-256 | a handler call is unique per message, belongs to the routed entry and receives that entry's argument list |
| Routing.ErrorsAreCaught | src/mqtt.service.ts:233-259 | an exception from the hook or from decoding the payload is logged as the last event and no handler is called; without one, the handler is called; a logged error is always the last event |
| Routing.HandlerErrorLogged | src/mqtt.service.ts:241-259 | the handler's exception is logged right after its call, and only then does anything follow the call |
| Routing.UnknownTransformOnlyHurtsPayload | src/mqtt.service.ts:234-245 | an unrecognised transform name makes argument building fail, with a TypeError, if and only if there is a payload slot |
| Service.Entries | src/mqtt.service.ts:173-185 | one entry per topic, in order; its route is the topic with the namespace stripped, and its matcher is compiled from the topic |
| Service.PrefixDoesNotChangeRoute | src/mqtt.service.ts:176-179 | a preprocessed clean topic is registered with the canonical topic as its route and the canonical topic's matcher |
| Service.MqttService.constructor | src/mqtt.service.ts:23-29 | the registry starts empty |
| Service.MqttService.ProcessOneRule | src/mqtt.service.ts:126-146 | on one subscription, its own queue and share settings take precedence over the module's; when queue and share are both in effect only `$queue/` is put in front, and a share of `""` puts nothing in front |
| Service.MqttService.Preprocess | src/mqtt.service.ts:122-154 | a single topic gives a single processed topic; a list gives a list of the same length, processed element by element |
| Service.MqttService.ListTopicsRegisteredRaw | src/mqtt.service.ts:167-173 | topics given as a list are registered as written, without substitution |
| Service.MqttService.SingleTopicRegistered | src/mqtt.service.ts:167-171 | a single topic is registered processed if it holds a variable token, and as written otherwise |
| Service.MqttService.Subscribe | src/mqtt.service.ts:156-191 | `_subscribe` itself returns nothing; the out-parameter `wire` is the preprocessed topic handed to `client.subscribe` (line 164). On a refused subscribe nothing changes. Otherwise a single topic is replaced in the caller's options by a one-element list, and one entry per registered topic is appended after the unchanged earlier entries |
| Service.MqttService.AppendEntries | src/mqtt.service.ts:173-185 | the registry becomes the old registry followed by the new entries |
| Service.MqttService.GetSubscriber | src/mqtt.service.ts:265-273 | returns the earliest-registered entry whose matcher accepts the topic, and none when no entry does |
| Service.MqttService.OnMessage | src/mqtt.service.ts:223-262 | handling a message produces exactly the reference trace `Routing.Dispatch` |

## Left out

- `connect` and its event listeners (src/mqtt.service.ts:35-70): asynchronous wiring to the `mqtt` client. The password refresh on reconnect is an un-awaited listener, which makes it a concurrency question.
- The `subscribe`, `unsubscribe` and `publish` promise wrappers (src/mqtt.service.ts:72-117): thin wrappers over the foreign client.
- Provider discovery in `explore` (src/mqtt.service.ts:193-222): framework reflection. Registration is modelled as explicit `Subscribe` calls.
- `onModuleInit` / `onModuleDestroy`, src/mqtt.module.ts and src/mqtt.module-definition.ts: lifecycle and dependency-injection wiring.
- Logger calls: no-ops. A caught exception appears as an `ErrorLogged` event.
- The broker round trip of `_subscribe`:
  - The acknowledgement is assumed to arrive before the next registration.
  - Entries therefore appear in call order. With real acknowledgements they appear in acknowledgement order.
- Asynchronous handlers: a handler that returns a rejected promise escapes the `try`/`catch`. The model's handlers throw synchronously or not at all.
- `Patterns.Compile` does not escape `{` and `}` (src/mqtt.service.ts:282), so a pattern such as `a{2}` is a quantifier in JavaScript but literal characters in the model. The matching lemmas assume `NoBraces`.
- Patterns.MatchGroups and the character model: JavaScript strings are UTF-16 code units, and the model's strings are sequences of characters. Topics with characters outside the Basic Multilingual Plane are not modelled exactly.
- `Transforms.Platform`: UTF-8 decoding and `JSON.parse` are uninterpreted parameters, and JSON numbers are reals rather than doubles.
- Values of `TOPIC_VAR_REGEX` and its substitution: uninterpreted parameters, because src/mqtt.constants.ts is not part of this model.
- `MqttSubscriberParameter.transform` (src/mqtt.interface.ts:71): the dispatcher never reads it, so it is carried but unused.
- `Routing.Dispatch`: the logged line itself and the `this` binding of the handler (the provider is passed explicitly) are not modelled.
- Setting `lastIndex` to a non-zero value between uses is not modelled: every use of a matcher in the source resets it first (src/mqtt.service.ts:267, 291).
