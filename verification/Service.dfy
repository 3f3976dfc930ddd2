/**
 * `MqttService` (src/mqtt.service.ts) as an object: the module options it
 * was built with and the registry it appends to. Registration is the
 * explicit `_subscribe` call; the broker's subscribe acknowledgement is the
 * `failed` argument, delivered before the call returns.
 */
module Service {
  import opened Common
  import opened Interface
  import Topics
  import Patterns
  import Transforms
  import Routing

  /** The registry entry `_subscribe` pushes for one topic. */
  function Entry(aTopic: string, handle: Handler, provider: Provider, options: SubscribeOptions,
                 parameters: Option<seq<SubscriberParameter>>): Subscriber {
    Subscriber(aTopic, handle, Topics.StripNamespace(aTopic), provider, Patterns.Compile(aTopic), options, parameters)
  }

  /** `topics.forEach(push)`: one entry per topic, in order. */
  function Entries(topics: seq<string>, handle: Handler, provider: Provider, options: SubscribeOptions,
                   parameters: Option<seq<SubscriberParameter>>): (r: seq<Subscriber>)
    ensures |r| == |topics|
    ensures forall i :: 0 <= i < |topics| ==>
              && r[i].topic == topics[i]
              && r[i].route == Topics.StripNamespace(topics[i])
              && r[i].regexp == Patterns.Compile(topics[i])
              && r[i].handle == handle && r[i].provider == provider
              && r[i].options == options && r[i].parameters == parameters
  {
    seq(|topics|, i requires 0 <= i < |topics| => Entry(topics[i], handle, provider, options, parameters))
  }

  lemma EntriesSnoc(topics: seq<string>, t: string, handle: Handler, provider: Provider, options: SubscribeOptions,
                    parameters: Option<seq<SubscriberParameter>>)
    ensures Entries(topics + [t], handle, provider, options, parameters)
         == Entries(topics, handle, provider, options, parameters) + [Entry(t, handle, provider, options, parameters)]
  {
  }

  /**
   * The route of a preprocessed topic is its canonical topic, and its
   * matcher is the one compiled from the canonical topic: the prefix
   * `preprocess` adds changes neither.
   */
  lemma PrefixDoesNotChangeRoute(queue: bool, share: Option<string>, topic: string, handle: Handler, provider: Provider,
                                 options: SubscribeOptions, parameters: Option<seq<SubscriberParameter>>)
    requires Topics.Clean(topic)
    requires !queue && Topics.Truthy(share) ==> Topics.ValidGroup(share.value)
    ensures var e := Entry(Topics.ApplyPrefix(queue, share, topic), handle, provider, options, parameters);
            e.route == topic && e.regexp == Patterns.Compile(topic)
  {
    Topics.StripUndoesPrefix(queue, share, topic);
    Topics.StripUndoesPrefix(false, None, topic);
  }

  class MqttService {
    const options: ModuleOptions
    /** How variable tokens are found and replaced (the service's `TOPIC_VAR_REGEX`). */
    const topicVariables: Topics.TopicVariables
    /** UTF-8 decoding and `JSON.parse`, used by the transforms. */
    const platform: Transforms.Platform
    var subscribers: seq<Subscriber>

    constructor (options: ModuleOptions, topicVariables: Topics.TopicVariables, platform: Transforms.Platform)
      ensures this.options == options && this.topicVariables == topicVariables && this.platform == platform
      ensures subscribers == []
    {
      this.options := options;
      this.topicVariables := topicVariables;
      this.platform := platform;
      subscribers := [];
    }

    /** Substitution of every variable token through the configured `topicResolver`, if there is one. */
    function Resolve(): Option<string -> string> {
      match options.topicResolver
      case None => None
      case Some(resolver) =>
        var tv := topicVariables;
        Some(t => tv.substitute(t, resolver))
    }

    function ProcessOne(subscription: SubscribeOptions, topic: string): string {
      Topics.ProcessTopic(Topics.EffectiveQueue(subscription.queue, options.queue),
                          Topics.EffectiveShare(subscription.share, options.share), Resolve(), topic)
    }

    /**
     * The prefix rule on one subscription, with its own settings taking
     * precedence: when queue and share are both in effect only `$queue/` is
     * put in front, and a share of `""` puts nothing in front.
     */
    lemma ProcessOneRule(subscription: SubscribeOptions, topic: string)
      ensures var r := ProcessOne(subscription, topic);
              var q := subscription.queue == Some(true) || (subscription.queue.None? && options.queue == Some(true));
              var sh := if subscription.share.Some? then subscription.share else options.share;
              var c := Topics.Canonical(Resolve(), topic);
              && (q ==> r == Topics.QueuePrefix + c)
              && (!q && Topics.Truthy(sh) ==> r == Topics.SharePrefix + sh.value + "/" + c)
              && (!q && !Topics.Truthy(sh) ==> r == c)
    {
    }

    /** `preprocess`: a single topic gives a single topic, a list gives the list processed element by element. */
    function Preprocess(subscription: SubscribeOptions): (r: TopicSpec)
      reads subscription
      ensures r.Single? <==> subscription.topic.Single?
      ensures r.Single? ==> r.topic == ProcessOne(subscription, subscription.topic.topic)
      ensures r.Many? ==> |r.topics| == |subscription.topic.topics|
      ensures r.Many? ==> forall i :: 0 <= i < |r.topics| ==> r.topics[i] == ProcessOne(subscription, subscription.topic.topics[i])
    {
      match subscription.topic
      case Single(t) => Single(ProcessOne(subscription, t))
      case Many(ts) =>
        Many(Topics.ProcessAll(Topics.EffectiveQueue(subscription.queue, options.queue),
                               Topics.EffectiveShare(subscription.share, options.share), Resolve(), ts))
    }

    /**
     * The topics `_subscribe` registers: for a single topic, the
     * preprocessed one if the topic holds a variable token and the topic
     * as written otherwise; for a list, the list as written.
     */
    function Registered(topic: TopicSpec, wire: TopicSpec): seq<string>
      requires topic.Single? <==> wire.Single?
    {
      match topic
      case Single(t) => [if topicVariables.occursIn(t) then wire.topic else t]
      case Many(ts) => ts
    }

    /** Topics in a list are registered without variable substitution. */
    lemma ListTopicsRegisteredRaw(subscription: SubscribeOptions)
      requires subscription.topic.Many?
      ensures Registered(subscription.topic, Preprocess(subscription)) == subscription.topic.topics
    {
    }

    /** A single topic is registered processed if and only if it holds a variable token. */
    lemma SingleTopicRegistered(subscription: SubscribeOptions)
      requires subscription.topic.Single?
      ensures var t := subscription.topic.topic;
              var r := Registered(subscription.topic, Preprocess(subscription));
              && |r| == 1
              && (topicVariables.occursIn(t) ==> r[0] == ProcessOne(subscription, t))
              && (!topicVariables.occursIn(t) ==> r[0] == t)
    {
    }

    /**
     * `_subscribe`: subscribe to the preprocessed topic(s); once the
     * broker accepts, replace a single topic in the caller's options by a
     * one-element list and append one entry per topic. Earlier entries stay
     * as they are, and nothing changes when the broker refuses.
     */
    method Subscribe(subscription: SubscribeOptions, parameters: Option<seq<SubscriberParameter>>,
                     handle: Handler, provider: Provider, failed: bool) returns (wire: TopicSpec)
      modifies this, subscription
      ensures wire == old(Preprocess(subscription))
      ensures failed ==> subscribers == old(subscribers) && subscription.topic == old(subscription.topic)
      ensures !failed ==> subscription.topic == Many(Registered(old(subscription.topic), wire))
      ensures !failed ==> subscribers == old(subscribers) + Entries(Registered(old(subscription.topic), wire), handle, provider, subscription, parameters)
    {
      wire := Preprocess(subscription);
      if failed {
        return;
      }
      if subscription.topic.Single? {
        var topicToPush := if topicVariables.occursIn(subscription.topic.topic) then wire.topic else subscription.topic.topic;
        subscription.topic := Many([topicToPush]);
      }
      AppendEntries(subscription.topic.topics, handle, provider, subscription, parameters);
    }

    /** `options.topic.forEach(...)`: push one entry per topic onto the registry. */
    method AppendEntries(topics: seq<string>, handle: Handler, provider: Provider, subscription: SubscribeOptions,
                         parameters: Option<seq<SubscriberParameter>>)
      modifies this
      ensures subscribers == old(subscribers) + Entries(topics, handle, provider, subscription, parameters)
    {
      ghost var added: seq<Subscriber> := [];
      var k := 0;
      while k < |topics|
        invariant 0 <= k <= |topics|
        invariant subscribers == old(subscribers) + added
        invariant added == Entries(topics[..k], handle, provider, subscription, parameters)
      {
        assert topics[..k + 1] == topics[..k] + [topics[k]];
        EntriesSnoc(topics[..k], topics[k], handle, provider, subscription, parameters);
        var entry := Entry(topics[k], handle, provider, subscription, parameters);
        subscribers := subscribers + [entry];
        added := added + [entry];
        k := k + 1;
      }
      assert topics[..k] == topics;
    }

    /** `getSubscriber`: the earliest entry whose matcher accepts the topic, or none. */
    method GetSubscriber(topic: string) returns (r: Option<Subscriber>)
      ensures r.Some? <==> exists j :: 0 <= j < |subscribers| && Patterns.Accepts(subscribers[j].regexp, topic)
      ensures r.Some? ==> exists j :: 0 <= j < |subscribers| && r.value == subscribers[j]
                                        && Patterns.Accepts(subscribers[j].regexp, topic)
                                        && forall i :: 0 <= i < j ==> !Patterns.Accepts(subscribers[i].regexp, topic)
      ensures Routing.Route(subscribers, topic).Some? ==> r == Some(subscribers[Routing.Route(subscribers, topic).value])
      ensures Routing.Route(subscribers, topic).None? ==> r.None?
    {
      var i := 0;
      while i < |subscribers|
        invariant 0 <= i <= |subscribers|
        invariant forall j :: 0 <= j < i ==> !Patterns.Accepts(subscribers[j].regexp, topic)
      {
        var subscriber := subscribers[i];
        var test := Patterns.Exec(subscriber.regexp, topic, 0);
        if test.0.Some? {
          Routing.EarliestWins(subscribers, i, topic);
          return Some(subscriber);
        }
        i := i + 1;
      }
      r := None;
    }

    /** The `'message'` callback: route, lay out the arguments, run the hook and the handler. */
    method OnMessage(topic: string, payload: seq<byte>, packet: Packet) returns (trace: seq<Routing.Event>)
      ensures trace == Routing.Dispatch(subscribers, options, platform, topic, payload, packet)
    {
      var found := GetSubscriber(topic);
      if found.None? {
        return [];
      }
      var subscriber := found.value;
      var slots := Routing.Scatter(subscriber.parameters.GetOr([]));
      assert slots == Routing.Slots(subscriber.parameters.GetOr([]));
      var transform := Transforms.GetTransform(subscriber.options.transform);
      trace := [];
      if options.beforeHandle.Some? {
        trace := [Routing.HookCalled(topic, payload, packet)];
        var hookError := options.beforeHandle.value(topic, payload, packet);
        if hookError.Some? {
          trace := trace + [Routing.ErrorLogged(hookError.value)];
          return;
        }
      }
      var args := Routing.BuildArguments(slots, transform, platform, topic, payload, packet, subscriber.regexp);
      if args.Failure? {
        trace := trace + [Routing.ErrorLogged(args.error)];
        return;
      }
      trace := trace + [Routing.HandlerCalled(subscriber, args.value)];
      var handlerError := subscriber.handle(subscriber.provider, args.value);
      if handlerError.Some? {
        trace := trace + [Routing.ErrorLogged(handlerError.value)];
      }
    }
  }

  /** Registering `a/+` before `a/b` sends `a/b` to the `a/+` entry: first match wins, no broadcast. */
  method FirstRegisteredWins(handle: Handler, provider: Provider, topicVariables: Topics.TopicVariables, platform: Transforms.Platform)
    requires forall t :: !topicVariables.occursIn(t)
  {
    var service := new MqttService(ModuleOptions(None, None, None, None), topicVariables, platform);
    var first := new SubscribeOptions(Single("a/+"), None, None, None);
    var second := new SubscribeOptions(Single("a/b"), None, None, None);
    var _ := service.Subscribe(first, None, handle, provider, false);
    var _ := service.Subscribe(second, None, handle, provider, false);
    assert service.subscribers[0].regexp == Patterns.Compile("a/+");
    Patterns.TrailingPlusExample();
    assert Patterns.Accepts(service.subscribers[0].regexp, "a/b");
    Routing.EarliestWins(service.subscribers, 0, "a/b");
    var found := service.GetSubscriber("a/b");
    assert found == Some(service.subscribers[0]);
    assert found.value.topic == "a/+";
  }
}
