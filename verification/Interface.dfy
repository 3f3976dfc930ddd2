/**
 * The records the service works with (src/mqtt.interface.ts): module
 * options, subscription options, handler parameters and subscriber entries.
 */
module Interface {
  import opened Common
  import Transforms
  import Patterns

  /** The MQTT packet that came with a message; the core passes it through untouched. */
  datatype Packet = Packet(cmd: string, qos: nat, retain: bool, dup: bool)

  /** The object a handler method belongs to (`provider`), bound as `this` when it is called. */
  datatype Provider = Provider(name: string)

  /** One positional argument handed to a handler. */
  datatype Arg =
    | Absent                                   // a hole of the sparse array: `undefined`
    | NullArg                                  // a parameter of no known kind: `null`
    | PayloadArg(value: Transforms.Value)
    | TopicArg(topic: string)
    | PacketArg(packet: Packet)
    | ParamsArg(params: seq<Patterns.Capture>)

  /** `handle.bind(provider)(...args)`: `Some(e)` when the handler throws `e`. */
  type Handler = (Provider, seq<Arg>) -> Option<Exception>

  /** `beforeHandle(topic, payload, packet)`: `Some(e)` when the hook throws `e`. */
  type Hook = (string, seq<byte>, Packet) -> Option<Exception>

  /** The routing part of `MqttModuleOptions`; connection settings are not part of this model. */
  datatype ModuleOptions = ModuleOptions(
    queue: Option<bool>,
    share: Option<string>,
    topicResolver: Option<string -> string>,
    beforeHandle: Option<Hook>)

  /** `string | string[]`. */
  datatype TopicSpec = Single(topic: string) | Many(topics: seq<string>)

  /** `MqttSubscribeOptions`. Its `topic` is overwritten by the service after a successful subscribe. */
  class SubscribeOptions {
    var topic: TopicSpec
    const queue: Option<bool>
    const share: Option<string>
    const transform: Option<Transforms.TransformOption>

    constructor (topic: TopicSpec, queue: Option<bool>, share: Option<string>, transform: Option<Transforms.TransformOption>)
      ensures this.topic == topic && this.queue == queue && this.share == share && this.transform == transform
    {
      this.topic := topic;
      this.queue := queue;
      this.share := share;
      this.transform := transform;
    }
  }

  /** `MqttSubscriberParameter['type']`, plus any other string the metadata might hold. */
  datatype ParamKind = PayloadParam | TopicParam | PacketParam | ParamsParam | OtherParam(name: string)

  /** `MqttSubscriberParameter`: which argument position receives what. */
  datatype SubscriberParameter = SubscriberParameter(index: nat, kind: ParamKind, transform: Option<Transforms.TransformOption>)

  /** `MqttSubscriber`: one registry entry. */
  datatype Subscriber = Subscriber(
    topic: string,
    handle: Handler,
    route: string,
    provider: Provider,
    regexp: Patterns.Matcher,
    options: SubscribeOptions,
    parameters: Option<seq<SubscriberParameter>>)
}
