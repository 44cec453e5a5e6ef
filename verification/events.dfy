/** The publish side of the `PubSub` instance (src/resolvers.js:13), kept as
    a log of every message published. Delivery to subscribers is not modelled. */
module Events {
  import opened Schema

  /** A published message: its topic and the payload `{ bookAdded: book }`. */
  datatype Message = Message(topic: string, bookAdded: Book)

  class PubSub {
    var published: seq<Message>

    constructor ()
      ensures published == []
    {
      published := [];
    }

    /** `publish(topic, payload)`: the message is logged after all earlier ones. */
    method Publish(topic: string, bookAdded: Book)
      modifies this
      ensures published == old(published) + [Message(topic, bookAdded)]
    {
      published := published + [Message(topic, bookAdded)];
    }
  }
}
