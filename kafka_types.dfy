// Value types of kafka_types.go, together with the two fields of the admin
// client's own structs (TopicSpecification, TopicMetadata) that kafka.go reads.

module KafkaTypes {

  datatype Option<+T> = None | Some(value: T)

  /** One topic entry of the configuration file. */
  datatype TopicConfig = TopicConfig(family: string, partitions: int, name: string)

  /** The whole configuration: the topics to manage and how to reach the brokers. */
  datatype KafkaConfig = KafkaConfig(
    topics: seq<TopicConfig>,
    group: string,
    hosts: seq<string>,
    port: string,
    replicationFactor: int)

  /** The admin client's description of a topic to create (the fields this code sets). */
  datatype TopicSpecification = TopicSpecification(topic: string, numPartitions: int, replicationFactor: int)

  /** The admin client's metadata of one existing topic: its name and its number of partitions. */
  datatype TopicMetadata = TopicMetadata(topic: string, partitionCount: nat)

  /** Result of a topic creation: the metadata of the topic. */
  datatype CreateTopicResult = CreateTopicResult(topic: TopicMetadata)

  /** Result of a successful validation: the snapshot entry that matched. */
  datatype TopicValidationResult = TopicValidationResult(topic: TopicMetadata)

  /** A per-topic failure of create, delete or validate. */
  datatype CreateTopicError = CreateTopicError(topic: TopicSpecification, message: string) {

    /** The error text: "Topic ", the topic name, " is ", then the message. */
    function Error(): (s: string)
      ensures |s| == |topic.topic| + |message| + 10
      ensures s[..6] == "Topic "
      ensures s[6..6 + |topic.topic|] == topic.topic
      ensures s[6 + |topic.topic|..10 + |topic.topic|] == " is "
      ensures s[10 + |topic.topic|..] == message
    {
      "Topic " + topic.topic + " is " + message
    }
  }

  /** A failure of validating one topic, carrying only a message. */
  datatype TopicValidationError = TopicValidationError(message: string) {

    /** The error text is the message itself, with nothing added. */
    function Error(): (s: string)
      ensures s == message
    {
      message
    }
  }

  /** Reads the message back out of an error text for the topic called `name`,
      or None when the text does not have the shape CreateTopicError.Error gives. */
  function MessageOf(name: string, s: string): (m: Option<string>)
    ensures m.Some? ==> |s| == |name| + |m.value| + 10 && s[|s| - |m.value|..] == m.value
  {
    var head := "Topic " + name + " is ";
    if |head| <= |s| && s[..|head|] == head then Some(s[|head|..]) else None
  }

  /** The message of an error can be recovered from its text. */
  lemma MessageOfError(e: CreateTopicError)
    ensures MessageOf(e.topic.topic, e.Error()) == Some(e.message)
  {
  }

  /** For one topic name, different messages give different error texts. */
  lemma ErrorInjective(a: CreateTopicError, b: CreateTopicError)
    requires a.topic.topic == b.topic.topic
    requires a.message != b.message
    ensures a.Error() != b.Error()
  {
  }
}
