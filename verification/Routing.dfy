/**
 * What the service does with an inbound message (the `'message'` callback
 * registered in `explore` and `getSubscriber`, src/mqtt.service.ts): find
 * the first matching entry, lay the handler's parameters out by index,
 * build the arguments and call the hook and the handler, catching every
 * exception from the transform, the hook and the handler.
 */
module Routing {
  import opened Common
  import opened Interface
  import Patterns
  import Transforms

  /** Position of the earliest registered entry whose matcher accepts `topic`. */
  function Route(subscribers: seq<Subscriber>, topic: string): (r: Option<nat>)
    ensures r.Some? ==> r.value < |subscribers| && Patterns.Accepts(subscribers[r.value].regexp, topic)
    ensures r.Some? ==> forall j :: 0 <= j < r.value ==> !Patterns.Accepts(subscribers[j].regexp, topic)
    ensures r.None? ==> forall j :: 0 <= j < |subscribers| ==> !Patterns.Accepts(subscribers[j].regexp, topic)
  {
    if subscribers == [] then None
    else if Patterns.Accepts(subscribers[0].regexp, topic) then Some(0)
    else match Route(subscribers[1..], topic)
      case Some(i) => Some(i + 1)
      case None => None
  }

  /** An entry registered earlier than any other accepting entry takes the message. */
  lemma EarliestWins(subscribers: seq<Subscriber>, i: nat, topic: string)
    requires i < |subscribers| && Patterns.Accepts(subscribers[i].regexp, topic)
    ensures Route(subscribers, topic).Some? && Route(subscribers, topic).value <= i
  {
  }

  /** Position of the last parameter declared for argument slot `i`. */
  function LastAt(parameters: seq<SubscriberParameter>, i: nat): (r: Option<nat>)
    ensures r.Some? ==> r.value < |parameters| && parameters[r.value].index == i
    ensures r.Some? ==> forall k :: r.value < k < |parameters| ==> parameters[k].index != i
    ensures r.None? ==> forall k :: 0 <= k < |parameters| ==> parameters[k].index != i
  {
    if parameters == [] then None
    else if parameters[|parameters| - 1].index == i then Some(|parameters| - 1)
    else LastAt(parameters[..|parameters| - 1], i)
  }

  /** The parameter that ends up in slot `i` of `scatterParameters`, if any. */
  function SlotAt(parameters: seq<SubscriberParameter>, i: nat): Option<SubscriberParameter> {
    match LastAt(parameters, i)
    case Some(k) => Some(parameters[k])
    case None => None
  }

  /** The `length` of `scatterParameters`: one past the largest index. */
  function SlotCount(parameters: seq<SubscriberParameter>): (n: nat)
    ensures forall k :: 0 <= k < |parameters| ==> parameters[k].index < n
    ensures n == 0 || exists k :: 0 <= k < |parameters| && parameters[k].index == n - 1
  {
    if parameters == [] then 0
    else
      var rest := SlotCount(parameters[..|parameters| - 1]);
      var last := parameters[|parameters| - 1].index + 1;
      if rest < last then last else rest
  }

  function Slots(parameters: seq<SubscriberParameter>): seq<Option<SubscriberParameter>> {
    seq(SlotCount(parameters), i requires 0 <= i => SlotAt(parameters, i))
  }

  /** A later parameter with the same index overwrites an earlier one. */
  lemma LaterParameterWins(parameters: seq<SubscriberParameter>, k: nat)
    requires k < |parameters|
    requires forall k' :: k < k' < |parameters| ==> parameters[k'].index != parameters[k].index
    ensures parameters[k].index < |Slots(parameters)|
    ensures Slots(parameters)[parameters[k].index] == Some(parameters[k])
  {
  }

  lemma {:induction false} SlotAtSnoc(parameters: seq<SubscriberParameter>, p: SubscriberParameter, i: nat)
    ensures SlotAt(parameters + [p], i) == if p.index == i then Some(p) else SlotAt(parameters, i)
  {
    var all := parameters + [p];
    assert all[..|all| - 1] == parameters;
  }

  /**
   * A JavaScript array element assignment `a[i] = v`: past the end it grows
   * the array to `i + 1` elements, leaving holes (`None`) in between.
   */
  function ArraySet(a: seq<Option<SubscriberParameter>>, i: nat, v: Option<SubscriberParameter>): (r: seq<Option<SubscriberParameter>>)
    ensures |r| == if i < |a| then |a| else i + 1
    ensures r[i] == v
    ensures forall j :: 0 <= j < |a| && j != i ==> r[j] == a[j]
    ensures forall j :: |a| <= j < i ==> r[j] == None
  {
    if i < |a| then a[i := v] else a + seq(i - |a|, _ => None) + [v]
  }

  /** One round of the loop below keeps the slots equal to those of the parameters placed so far. */
  lemma {:induction false} PlaceParameter(parameters: seq<SubscriberParameter>, p: SubscriberParameter,
                                          slots: seq<Option<SubscriberParameter>>)
    requires |slots| == SlotCount(parameters)
    requires forall i :: 0 <= i < |slots| ==> slots[i] == SlotAt(parameters, i)
    ensures var next := ArraySet(slots, p.index, Some(p));
            && |next| == SlotCount(parameters + [p])
            && forall i :: 0 <= i < |next| ==> next[i] == SlotAt(parameters + [p], i)
  {
    var all := parameters + [p];
    var next := ArraySet(slots, p.index, Some(p));
    assert all[..|all| - 1] == parameters;
    forall i | 0 <= i < |next| ensures next[i] == SlotAt(all, i) {
      SlotAtSnoc(parameters, p, i);
    }
  }

  /**
   * The loop that fills `scatterParameters`: `scatterParameters[p.index] = p`
   * for each parameter in order; an assignment past the end grows the array
   * and leaves holes.
   */
  method Scatter(parameters: seq<SubscriberParameter>) returns (slots: seq<Option<SubscriberParameter>>)
    ensures |slots| == SlotCount(parameters)
    ensures forall i :: 0 <= i < |slots| ==> slots[i] == SlotAt(parameters, i)
  {
    slots := [];
    var k := 0;
    while k < |parameters|
      invariant 0 <= k <= |parameters|
      invariant |slots| == SlotCount(parameters[..k])
      invariant forall i :: 0 <= i < |slots| ==> slots[i] == SlotAt(parameters[..k], i)
    {
      var parameter := parameters[k];
      PlaceParameter(parameters[..k], parameter, slots);
      slots := ArraySet(slots, parameter.index, Some(parameter));
      assert parameters[..k + 1] == parameters[..k] + [parameter];
      k := k + 1;
    }
    assert parameters[..k] == parameters;
  }

  const NotAFunction: Exception := Exception("TypeError", "transform is not a function")

  /** `transform(payload)`; an unrecognised transform name left `transform` undefined. */
  function Decode(transform: Option<Transforms.Transformer>, platform: Transforms.Platform, payload: seq<byte>): Result<Transforms.Value, Exception> {
    match transform
    case Some(t) => Transforms.Apply(t, platform, payload)
    case None => Failure(NotAFunction)
  }

  predicate IsPayloadSlot(slot: Option<SubscriberParameter>) {
    slot.Some? && slot.value.kind == PayloadParam
  }

  predicate HasPayloadSlot(slots: seq<Option<SubscriberParameter>>) {
    exists i :: 0 <= i < |slots| && IsPayloadSlot(slots[i])
  }

  /** The `switch` of the argument builder, for one slot. */
  function ArgFor(slot: Option<SubscriberParameter>, decoded: Result<Transforms.Value, Exception>, topic: string, packet: Packet, params: seq<Patterns.Capture>): Arg
    requires IsPayloadSlot(slot) ==> decoded.Success?
  {
    match slot
    case None => Absent
    case Some(p) =>
      match p.kind
      case PayloadParam => PayloadArg(decoded.value)
      case TopicParam => TopicArg(topic)
      case PacketParam => PacketArg(packet)
      case ParamsParam => ParamsArg(params)
      case OtherParam(_) => NullArg
  }

  /** The argument list, or the exception that building it throws (only a payload slot can throw). */
  function Arguments(slots: seq<Option<SubscriberParameter>>, decoded: Result<Transforms.Value, Exception>, topic: string, packet: Packet, params: seq<Patterns.Capture>): Result<seq<Arg>, Exception> {
    if HasPayloadSlot(slots) && decoded.Failure? then Failure(decoded.error)
    else Success(seq(|slots|, i requires 0 <= i < |slots| => ArgFor(slots[i], decoded, topic, packet, params)))
  }

  /**
   * `scatterParameters.map(...)`: slots are evaluated left to right; a
   * payload slot calls the transform, a params slot runs `matchGroups`.
   */
  method BuildArguments(slots: seq<Option<SubscriberParameter>>, transform: Option<Transforms.Transformer>, platform: Transforms.Platform,
                        topic: string, payload: seq<byte>, packet: Packet, regexp: Patterns.Matcher)
    returns (r: Result<seq<Arg>, Exception>)
    ensures r == Arguments(slots, Decode(transform, platform, payload), topic, packet, Patterns.Groups(regexp, topic))
  {
    ghost var decoded := Decode(transform, platform, payload);
    ghost var params := Patterns.Groups(regexp, topic);
    var args: seq<Arg> := [];
    var i := 0;
    while i < |slots|
      invariant 0 <= i <= |slots|
      invariant forall k :: 0 <= k < i ==> IsPayloadSlot(slots[k]) ==> decoded.Success?
      invariant |args| == i
      invariant forall k :: 0 <= k < i ==> args[k] == ArgFor(slots[k], decoded, topic, packet, params)
    {
      var slot := slots[i];
      var arg: Arg;
      match slot {
        case None => arg := Absent;
        case Some(p) =>
          match p.kind {
            case PayloadParam =>
              var value := Decode(transform, platform, payload);
              if value.Failure? {
                assert IsPayloadSlot(slots[i]);
                return Failure(value.error);
              }
              arg := PayloadArg(value.value);
            case TopicParam => arg := TopicArg(topic);
            case PacketParam => arg := PacketArg(packet);
            case ParamsParam =>
              var matches, _ := Patterns.MatchGroups(topic, regexp);
              arg := ParamsArg(matches);
            case OtherParam(_) => arg := NullArg;
          }
      }
      args := args + [arg];
      i := i + 1;
    }
    assert !(HasPayloadSlot(slots) && decoded.Failure?);
    assert args == seq(|slots|, k requires 0 <= k < |slots| => ArgFor(slots[k], decoded, topic, packet, params));
    r := Success(args);
  }

  /** What handling one message does, in order. */
  datatype Event =
    | HookCalled(topic: string, payload: seq<byte>, packet: Packet)
    | HandlerCalled(subscriber: Subscriber, args: seq<Arg>)
    | ErrorLogged(error: Exception)

  /** The reference behaviour of the `'message'` callback. */
  function Dispatch(subscribers: seq<Subscriber>, options: ModuleOptions, platform: Transforms.Platform,
                    topic: string, payload: seq<byte>, packet: Packet): seq<Event>
  {
    match Route(subscribers, topic)
    case None => []
    case Some(i) =>
      var s := subscribers[i];
      var slots := Slots(s.parameters.GetOr([]));
      var transform := Transforms.GetTransform(s.options.transform);
      var hook := if options.beforeHandle.Some? then [HookCalled(topic, payload, packet)] else [];
      var hookError := if options.beforeHandle.Some? then options.beforeHandle.value(topic, payload, packet) else None;
      if hookError.Some? then hook + [ErrorLogged(hookError.value)]
      else match Arguments(slots, Decode(transform, platform, payload), topic, packet, Patterns.Groups(s.regexp, topic))
        case Failure(e) => hook + [ErrorLogged(e)]
        case Success(args) =>
          var called := hook + [HandlerCalled(s, args)];
          match s.handle(s.provider, args)
          case Some(e) => called + [ErrorLogged(e)]
          case None => called
  }

  /** A message no entry accepts is dropped: nothing is called and nothing is logged. */
  lemma {:induction false} UnmatchedIsDropped(subscribers: seq<Subscriber>, options: ModuleOptions, platform: Transforms.Platform,
                           topic: string, payload: seq<byte>, packet: Packet)
    ensures Dispatch(subscribers, options, platform, topic, payload, packet) == [] <==> Route(subscribers, topic).None?
  {
  }

  /** With a hook configured, the hook is the first thing a routed message causes; without one, it never runs. */
  lemma {:induction false} HookRunsFirst(subscribers: seq<Subscriber>, options: ModuleOptions, platform: Transforms.Platform,
                      topic: string, payload: seq<byte>, packet: Packet)
    ensures var trace := Dispatch(subscribers, options, platform, topic, payload, packet);
            options.beforeHandle.Some? && Route(subscribers, topic).Some? ==> trace[0] == HookCalled(topic, payload, packet)
    ensures var trace := Dispatch(subscribers, options, platform, topic, payload, packet);
            forall k :: 0 <= k < |trace| && trace[k].HookCalled? ==> k == 0 && options.beforeHandle.Some?
  {
  }

  /**
   * No broadcast: at most one handler call per message, it belongs to the
   * routed entry, and its arguments are the ones built for that entry.
   */
  lemma {:induction false} HandlerCall(subscribers: seq<Subscriber>, options: ModuleOptions, platform: Transforms.Platform,
                    topic: string, payload: seq<byte>, packet: Packet, k: nat)
    requires var trace := Dispatch(subscribers, options, platform, topic, payload, packet);
             k < |trace| && trace[k].HandlerCalled?
    ensures var trace := Dispatch(subscribers, options, platform, topic, payload, packet);
            var i := Route(subscribers, topic);
            var s := trace[k].subscriber;
            && i.Some? && s == subscribers[i.value]
            && (forall j :: 0 <= j < |trace| && j != k ==> !trace[j].HandlerCalled?)
            && Arguments(Slots(s.parameters.GetOr([])), Decode(Transforms.GetTransform(s.options.transform), platform, payload),
                         topic, packet, Patterns.Groups(s.regexp, topic)) == Success(trace[k].args)
  {
  }

  /**
   * Argument slot j is filled by the kind of the last parameter declared
   * with index j: the decoded payload, the topic, the packet, the wildcard
   * captures, `null` for any other kind and `undefined` for a hole.
   */
  lemma {:induction false} SlotArguments(parameters: seq<SubscriberParameter>, decoded: Result<Transforms.Value, Exception>,
                      topic: string, packet: Packet, params: seq<Patterns.Capture>, args: seq<Arg>)
    requires Arguments(Slots(parameters), decoded, topic, packet, params) == Success(args)
    ensures |args| == SlotCount(parameters)
    ensures forall j :: 0 <= j < |args| ==>
              match SlotAt(parameters, j)
              case None => args[j] == Absent
              case Some(p) =>
                match p.kind
                case PayloadParam => decoded.Success? && args[j] == PayloadArg(decoded.value)
                case TopicParam => args[j] == TopicArg(topic)
                case PacketParam => args[j] == PacketArg(packet)
                case ParamsParam => args[j] == ParamsArg(params)
                case OtherParam(_) => args[j] == NullArg
  {
    var slots := Slots(parameters);
    assert !HasPayloadSlot(slots) || decoded.Success?;
    assert forall j :: 0 <= j < |args| ==> slots[j] == SlotAt(parameters, j) && args[j] == ArgFor(slots[j], decoded, topic, packet, params);
  }

  /**
   * Every exception is caught and logged, and ends the handling of the
   * message: one thrown by the hook, by the transform of a payload slot
   * (a parse failure, or an unknown transform name) or by the handler.
   */
  lemma {:induction false} ErrorsAreCaught(subscribers: seq<Subscriber>, options: ModuleOptions, platform: Transforms.Platform,
                        topic: string, payload: seq<byte>, packet: Packet)
    requires Route(subscribers, topic).Some?
    ensures var trace := Dispatch(subscribers, options, platform, topic, payload, packet);
            var s := subscribers[Route(subscribers, topic).value];
            var decoded := Decode(Transforms.GetTransform(s.options.transform), platform, payload);
            var hookError := if options.beforeHandle.Some? then options.beforeHandle.value(topic, payload, packet) else None;
            && (forall k :: 0 <= k < |trace| && trace[k].ErrorLogged? ==> k == |trace| - 1)
            && (hookError.Some? ==> trace[|trace| - 1] == ErrorLogged(hookError.value)
                                    && forall k :: 0 <= k < |trace| ==> !trace[k].HandlerCalled?)
            && (hookError.None? && HasPayloadSlot(Slots(s.parameters.GetOr([]))) && decoded.Failure? ==>
                  trace[|trace| - 1] == ErrorLogged(decoded.error)
                  && forall k :: 0 <= k < |trace| ==> !trace[k].HandlerCalled?)
            && (hookError.None? && !(HasPayloadSlot(Slots(s.parameters.GetOr([]))) && decoded.Failure?) ==>
                  exists k :: 0 <= k < |trace| && trace[k].HandlerCalled?)
  {
    var trace := Dispatch(subscribers, options, platform, topic, payload, packet);
    var s := subscribers[Route(subscribers, topic).value];
    var decoded := Decode(Transforms.GetTransform(s.options.transform), platform, payload);
    var hookError := if options.beforeHandle.Some? then options.beforeHandle.value(topic, payload, packet) else None;
    if hookError.None? && !(HasPayloadSlot(Slots(s.parameters.GetOr([]))) && decoded.Failure?) {
      var hook := if options.beforeHandle.Some? then [HookCalled(topic, payload, packet)] else [];
      assert trace[|hook|].HandlerCalled?;
    }
  }

  /** A handler that throws has its exception logged after its call. */
  lemma {:induction false} HandlerErrorLogged(subscribers: seq<Subscriber>, options: ModuleOptions, platform: Transforms.Platform,
                           topic: string, payload: seq<byte>, packet: Packet, k: nat)
    requires var trace := Dispatch(subscribers, options, platform, topic, payload, packet);
             k < |trace| && trace[k].HandlerCalled?
    ensures var trace := Dispatch(subscribers, options, platform, topic, payload, packet);
            var e := trace[k].subscriber.handle(trace[k].subscriber.provider, trace[k].args);
            && (e.Some? <==> k + 1 < |trace|)
            && (e.Some? ==> trace[k + 1] == ErrorLogged(e.value))
  {
  }

  /**
   * An unrecognised transform name costs nothing until a payload slot
   * asks for the payload; then the call `transform(payload)` throws.
   */
  lemma UnknownTransformOnlyHurtsPayload(slots: seq<Option<SubscriberParameter>>, platform: Transforms.Platform, name: string,
                                         topic: string, payload: seq<byte>, packet: Packet, params: seq<Patterns.Capture>)
    requires !Transforms.KnownName(name)
    ensures var decoded := Decode(Transforms.GetTransform(Some(Transforms.Named(name))), platform, payload);
            Arguments(slots, decoded, topic, packet, params).Failure? <==> HasPayloadSlot(slots)
    ensures var decoded := Decode(Transforms.GetTransform(Some(Transforms.Named(name))), platform, payload);
            HasPayloadSlot(slots) ==> Arguments(slots, decoded, topic, packet, params) == Failure(NotAFunction)
  {
  }
}
