# kafkautil topic reconciliation, modelled in Dafny

kafkautil creates and deletes Apache Kafka topics from a configuration file
and checks that topics exist with the expected number of partitions. The
protocol work is done by the confluent-kafka-go admin client; what the
repository decides itself is:

- `IsValid`: does some existing topic have the requested name and partition count?
- `IsAvailable`: is a topic name still free?
- `checkAvailability`: one `"Unavailable"` error for each requested topic whose name is taken.
- `validateTopics`: pass/fail, plus one `"Unavailable"` error for each topic that fails `IsValid`.
- `parseConfig`: turn the configured topics into admin-client topic specifications.
- The gates of `CreateTopics` and `DeleteTopics`: whether to call the admin client at all.
- The error texts of `ACXCreateTopicError` and `ACXTopicValidationError`.

Two modules, one per source file:

- `KafkaTypes` (`kafka_types.dfy`, pure) holds the configuration records and the result and error records.
  It also holds the two fields this code reads from the admin client's `TopicSpecification` and `TopicMetadata`.
  `CreateTopicError.Error` is characterised piece by piece.
  `MessageOf` is its partner: it parses the message back out of the text.
- `Kafka` (`kafka.dfy`, imperative) models each Go function as a method with the same search or append loop.
  Each method is proved against a specification function.
  `Flagged` is the one filter behind both error lists.
  `Selected` gives the positions that filter keeps, so order preservation is stated exactly.

The cluster metadata is a parameter: a `Snapshot`, which is the sequence of
`(name, partition count)` entries the admin client would report. The source
fetches fresh metadata inside every `IsValid` and `IsAvailable` call. The model
uses one snapshot for a whole operation. The admin client's create and delete
calls are not modelled. `CreateTopics` and `DeleteTopics` instead return the
request they would hand to the client (`issued`), or `None` when they return
early.

Where the code differs from the repository's own description:

- The failure messages are `"Not Found"` (kafka.go:29) and `"Unavailable"` (kafka.go:56, kafka.go:70).
  The reasons `"Topic Not Found"` and `"Incorrect Partition Count"` do not exist in the code.
  There is no three-way Missing / PartitionMismatch / Matching outcome either.
  A missing topic and a topic with the wrong partition count give the same error (`PartitionMismatchIsUnavailable`).
- Deletion goes ahead only when every requested topic exists (kafka.go:153).
  When deletion is refused, the returned list names the topics that do exist, not the missing ones.
  When none exist, that list is empty (`DeleteRefusedWithEmptyList`).
- `validateTopics` returns `nil` on success. The model returns the empty sequence.

## Model

| member | source | states |
|---|---|---|
| `KafkaTypes.CreateTopicError.Error` | kafka_types.go:32-34 | the text is "Topic ", then the topic name, then " is ", then the message. Its length is the name's length plus the message's length plus 10 |
| `KafkaTypes.MessageOf` | kafka_types.go:33 | whenever a message is recovered from a text, the text has the error's length and ends with that message |
| `KafkaTypes.MessageOfError` | kafka_types.go:33 | the message can be read back out of the text for the same topic name (round trip) |
| `KafkaTypes.ErrorInjective` | kafka_types.go:33 | for a fixed topic name, different messages give different texts |
| `KafkaTypes.TopicValidationError.Error` | kafka_types.go:48-50 | the text is the message unchanged |
| `Kafka.IsValid` | kafka.go:21-29 | returns a result and no error iff some entry has the name and exactly the partition count. The result is the first such entry in snapshot order. Otherwise it returns no result and the error "Not Found" |
| `Kafka.IsAvailable` | kafka.go:40-48 | true iff no entry has the topic's name; the partition count plays no part |
| `Kafka.Flagged` | kafka.go:54-58 | the error list is no longer than the input. Every entry carries the given message, a selected topic, and a topic that was in the input |
| `Kafka.FlaggedIsSelected` | kafka.go:54-58 | the error list is exactly the selected specifications, in input order, each paired with the message |
| `Kafka.FlaggedMembership` | kafka.go:66-71 | a specification is reported iff it is in the input and is selected |
| `Kafka.FlaggedEmpty` | kafka.go:74-78 | the error list is empty iff no specification is selected |
| `Kafka.FlaggedFull` | kafka.go:151-155 | the error list is as long as the input iff every specification is selected |
| `Kafka.CheckAvailability` | kafka.go:51-61 | returns the "Unavailable" errors for exactly the specifications whose name is taken, in input order |
| `Kafka.ValidateTopics` | kafka.go:63-79 | passes iff every specification is satisfied, and iff the error list is empty. The list holds the unsatisfied specifications in input order, tagged "Unavailable". An empty input passes |
| `Kafka.SpecsFor` | kafka.go:84-90 | one specification per configured topic, in order, with its name and partition count and the configuration's replication factor |
| `Kafka.ParseConfig` | kafka.go:81-93 | the loop builds exactly the specifications `SpecsFor` describes |
| `Kafka.CreateTopics` | kafka.go:113-145 | a creation request is issued iff no configured topic's name is taken. It then asks for all parsed specifications and returns no error. Otherwise nothing is issued, and the non-empty availability list is returned |
| `Kafka.DeleteTopics` | kafka.go:148-169 | a deletion request is issued iff every configured topic exists; an empty request passes. The names sent are the configured names, in order. Otherwise the availability list is returned, and it is shorter than the request |
| `Kafka.CreateConflictOnOneTopic` | kafka.go:51-61 | requesting "a" and "b" when only "a" exists gives exactly one conflict, for "a" |
| `Kafka.DeleteRefusedWithEmptyList` | kafka.go:151-155 | requesting "a" and "b" when neither exists refuses deletion with an empty error list |
| `Kafka.PartitionMismatchIsUnavailable` | kafka.go:66-71 | a wrong partition count and a missing topic give the same "Unavailable" error; a matching topic gives none |

## Left out

- `loadConfig` (kafka.go:95-110) reads a file through viper's global state and panics on error. The configuration is a parameter instead.
- The admin client is not modelled: creating it, `GetMetadata`, `CreateTopics`, `DeleteTopics` and `Close`.
  The metadata becomes the `Snapshot` parameter.
  The create and delete calls become the `issued` request, and the per-topic results they return are not modelled.
- A failed metadata fetch is not modelled. The source discards that error (kafka.go:19, kafka.go:38).
- The source fetches metadata again for each topic it checks. The model uses one snapshot for the whole operation.
- Kafka.DeleteTopics: does not model the single error entry built from a failed delete call (kafka.go:182-186). That entry depends only on the admin client's error.
- The cancellable context, the 60-second operation timeout and the `fmt.Printf` logging are not modelled.
- `kafka_test.go` is not modelled. It uses functions and types that are not part of this model (`UnmarshalConfig`, `ACXKafkaClient`) and needs a running broker.
