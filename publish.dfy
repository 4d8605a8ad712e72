/** `mqtt_publish`: the outbound half of the bridge.  The MQTT client
    library is not part of this model; what it does on one publish is
    given as a `ClientCall` value, and the bridge's decision on it is a
    status code. */
module Publish {
  import opened Wrappers
  import opened Bytes
  import Utf8

  /** What `wait_for_publish()` did: raised, or returned, after which
      `is_published()` says whether the message went out. */
  datatype WaitResult = WaitRaises | WaitReturns(publishedAfter: bool)

  /** What the client's `publish(...)` did: raised, or returned a message
      handle whose `is_published()` was first `publishedAtOnce`; when it
      was false the bridge waited, with result `wait`. */
  datatype ClientCall = PublishRaises | Returned(publishedAtOnce: bool, wait: WaitResult)

  /** The outcome of one publish attempt. */
  datatype Outcome = Published | NotPublished | Raised

  function OutcomeOf(call: ClientCall): Outcome {
    match call
    case PublishRaises => Raised
    case Returned(true, _) => Published
    case Returned(false, WaitRaises) => Raised
    case Returned(false, WaitReturns(p)) => if p then Published else NotPublished
  }

  /** The message handed to the client: `publish(topic, payload, qos=0,
      retain=False)`; the client sends a text payload as its UTF-8 bytes. */
  datatype Message = Message(topic: string, payload: seq<byte>, qos: nat, retain: bool)

  /** The status `mqtt_publish` returns, and the message it hands to the
      client (None when there is no client). */
  datatype Attempt = Attempt(status: int, sent: Option<Message>)

  function MqttPublish(hasClient: bool, topic: string, payload: string, call: ClientCall): (r: Attempt)
    ensures r.status == 200 || r.status == 500
    ensures r.status == 200 <==> hasClient && OutcomeOf(call) == Published
    ensures r.sent.Some? <==> hasClient
    ensures r.sent.Some? ==> r.sent.value == Message(topic, Utf8.Encode(payload), 0, false)
  {
    if !hasClient then Attempt(500, None)
    else
      var msg := Some(Message(topic, Utf8.Encode(payload), 0, false));
      match call
      case PublishRaises => Attempt(500, msg)
      case Returned(atOnce, wait) =>
        if atOnce then Attempt(200, msg)
        else match wait
          case WaitRaises => Attempt(500, msg)
          case WaitReturns(after) => Attempt(if after then 200 else 500, msg)
  }
}
