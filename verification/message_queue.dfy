/** The identity of one queue of a topic on one broker. */
module MessageQueues {

  /** `MessageQueue`: equal exactly when topic, broker name and queue id are. */
  datatype MessageQueue = MessageQueue(topic: string, brokerName: string, queueId: int)
}
