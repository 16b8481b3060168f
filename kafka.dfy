// The topic reconciliation decisions of kafka.go. The cluster metadata that
// the source fetches from the admin client is a parameter here: a snapshot,
// one entry per existing topic, in the order the client lists them.

module Kafka {
  import opened KafkaTypes

  type Snapshot = seq<TopicMetadata>

  /** Message of the error IsValid returns when no entry matches. */
  const NotFound: string := "Not Found"
  /** Message that tags every per-topic error of checkAvailability and validateTopics. */
  const Unavailable: string := "Unavailable"

  /** Some snapshot entry carries the name. */
  predicate Exists(meta: Snapshot, name: string)
  {
    exists i | 0 <= i < |meta| :: meta[i].topic == name
  }

  /** The entry has the requested name and exactly the requested number of partitions. */
  predicate Satisfies(t: TopicMetadata, spec: TopicSpecification)
  {
    t.topic == spec.topic && t.partitionCount == spec.numPartitions
  }

  /** Some snapshot entry satisfies the specification. */
  predicate ValidIn(meta: Snapshot, spec: TopicSpecification)
  {
    exists i | 0 <= i < |meta| :: Satisfies(meta[i], spec)
  }

  // ---------------------------------------------------------------------------
  // Filtering specifications into tagged errors

  /** The errors, each tagged with `message`, for the specifications `fails`
      selects. Both checkAvailability and validateTopics build their lists so. */
  function Flagged(specs: seq<TopicSpecification>, fails: TopicSpecification -> bool, message: string)
    : (r: seq<CreateTopicError>)
    ensures |r| <= |specs|
    ensures forall k | 0 <= k < |r| :: r[k].message == message && fails(r[k].topic) && r[k].topic in specs
  {
    if specs == [] then []
    else
      var last := specs[|specs| - 1];
      Flagged(specs[..|specs| - 1], fails, message)
        + if fails(last) then [CreateTopicError(last, message)] else []
  }

  /** The positions of the specifications `fails` selects: all of them, in increasing order. */
  function Selected(specs: seq<TopicSpecification>, fails: TopicSpecification -> bool): (idx: seq<nat>)
    ensures forall k | 0 <= k < |idx| :: idx[k] < |specs| && fails(specs[idx[k]])
    ensures forall k, l | 0 <= k < l < |idx| :: idx[k] < idx[l]
    ensures forall i | 0 <= i < |specs| && fails(specs[i]) :: i in idx
  {
    if specs == [] then []
    else
      var n := |specs| - 1;
      var front := Selected(specs[..n], fails);
      assert forall i | 0 <= i < n :: specs[..n][i] == specs[i];
      front + if fails(specs[n]) then [n] else []
  }

  /** Flagged keeps exactly the selected specifications, in their input order,
      each paired with the message. */
  lemma {:induction false} FlaggedIsSelected(specs: seq<TopicSpecification>, fails: TopicSpecification -> bool, message: string)
    ensures var r, idx := Flagged(specs, fails, message), Selected(specs, fails);
      |r| == |idx| && forall k | 0 <= k < |r| :: r[k] == CreateTopicError(specs[idx[k]], message)
  {
    if specs != [] {
      var n := |specs| - 1;
      FlaggedIsSelected(specs[..n], fails, message);
      var front, frontIdx := Flagged(specs[..n], fails, message), Selected(specs[..n], fails);
      var r, idx := Flagged(specs, fails, message), Selected(specs, fails);
      if fails(specs[n]) {
        assert r == front + [CreateTopicError(specs[n], message)];
        assert idx == frontIdx + [n];
      } else {
        assert r == front && idx == frontIdx;
      }
      forall k | 0 <= k < |front|
        ensures r[k] == CreateTopicError(specs[idx[k]], message)
      {
        assert specs[..n][frontIdx[k]] == specs[frontIdx[k]];
      }
    }
  }

  /** A specification is reported iff it is one of the inputs and is selected. */
  lemma FlaggedMembership(specs: seq<TopicSpecification>, fails: TopicSpecification -> bool, message: string, x: TopicSpecification)
    ensures CreateTopicError(x, message) in Flagged(specs, fails, message) <==> x in specs && fails(x)
  {
  }

  /** No error is reported iff no specification is selected. */
  lemma FlaggedEmpty(specs: seq<TopicSpecification>, fails: TopicSpecification -> bool, message: string)
    ensures Flagged(specs, fails, message) == [] <==> forall i | 0 <= i < |specs| :: !fails(specs[i])
  {
  }

  /** Every specification is reported iff every specification is selected. */
  lemma {:induction false} FlaggedFull(specs: seq<TopicSpecification>, fails: TopicSpecification -> bool, message: string)
    ensures |Flagged(specs, fails, message)| == |specs| <==> forall i | 0 <= i < |specs| :: fails(specs[i])
  {
    if specs != [] {
      var n := |specs| - 1;
      FlaggedFull(specs[..n], fails, message);
      assert forall i | 0 <= i < n :: specs[..n][i] == specs[i];
    }
  }

  /** Selects the specifications whose name the snapshot already holds. */
  function Taken(meta: Snapshot): TopicSpecification -> bool
  {
    (s: TopicSpecification) => Exists(meta, s.topic)
  }

  /** Selects the specifications no snapshot entry satisfies. */
  function Unsatisfied(meta: Snapshot): TopicSpecification -> bool
  {
    (s: TopicSpecification) => !ValidIn(meta, s)
  }

  /** The availability errors: the specifications whose names are already taken. */
  function Conflicts(specs: seq<TopicSpecification>, meta: Snapshot): seq<CreateTopicError>
  {
    Flagged(specs, Taken(meta), Unavailable)
  }

  /** The validation errors: the specifications no snapshot entry satisfies. */
  function Invalid(specs: seq<TopicSpecification>, meta: Snapshot): seq<CreateTopicError>
  {
    Flagged(specs, Unsatisfied(meta), Unavailable)
  }

  // ---------------------------------------------------------------------------
  // The operations of kafka.go

  /** Looks for the first snapshot entry with the topic's name and partition count. */
  method IsValid(topic: TopicSpecification, meta: Snapshot)
    returns (res: Option<TopicValidationResult>, err: Option<TopicValidationError>)
    ensures res.Some? <==> ValidIn(meta, topic)
    ensures res.Some? ==> err.None? && exists i | 0 <= i < |meta| ::
      res.value.topic == meta[i] && Satisfies(meta[i], topic) && forall j | 0 <= j < i :: !Satisfies(meta[j], topic)
    ensures res.None? ==> err == Some(TopicValidationError(NotFound))
  {
    for i := 0 to |meta|
      invariant forall j | 0 <= j < i :: !Satisfies(meta[j], topic)
    {
      if meta[i].topic == topic.topic && meta[i].partitionCount == topic.numPartitions {
        return Some(TopicValidationResult(meta[i])), None;
      }
    }
    return None, Some(TopicValidationError(NotFound));
  }

  /** The topic's name is free: no snapshot entry carries it, whatever its partitions. */
  method IsAvailable(topic: TopicSpecification, meta: Snapshot) returns (free: bool)
    ensures free <==> !Exists(meta, topic.topic)
  {
    for i := 0 to |meta|
      invariant forall j | 0 <= j < i :: meta[j].topic != topic.topic
    {
      if meta[i].topic == topic.topic {
        return false;
      }
    }
    return true;
  }

  /** One "Unavailable" error per specification whose name is taken, in input order. */
  method CheckAvailability(topics: seq<TopicSpecification>, meta: Snapshot) returns (errs: seq<CreateTopicError>)
    ensures errs == Conflicts(topics, meta)
  {
    errs := [];
    for i := 0 to |topics|
      invariant errs == Conflicts(topics[..i], meta)
    {
      var free := IsAvailable(topics[i], meta);
      if !free {
        errs := errs + [CreateTopicError(topics[i], Unavailable)];
      }
      assert topics[..i + 1][..i] == topics[..i];
    }
    assert topics[..|topics|] == topics;
  }

  /** Passes iff every specification is satisfied; otherwise lists the failing
      ones, in input order, each tagged "Unavailable". */
  method ValidateTopics(topics: seq<TopicSpecification>, meta: Snapshot) returns (ok: bool, errs: seq<CreateTopicError>)
    ensures ok <==> forall i | 0 <= i < |topics| :: ValidIn(meta, topics[i])
    ensures ok <==> errs == []
    ensures errs == Invalid(topics, meta)
  {
    errs := [];
    for i := 0 to |topics|
      invariant errs == Invalid(topics[..i], meta)
    {
      var res, err := IsValid(topics[i], meta);
      if err.Some? {
        errs := errs + [CreateTopicError(topics[i], Unavailable)];
      }
      assert topics[..i + 1][..i] == topics[..i];
    }
    assert topics[..|topics|] == topics;
    FlaggedEmpty(topics, Unsatisfied(meta), Unavailable);
    if |errs| > 0 {
      return false, errs;
    }
    return true, [];
  }

  /** The specifications the configuration describes, one per configured topic. */
  function SpecsFor(topics: seq<TopicConfig>, replicationFactor: int): (specs: seq<TopicSpecification>)
    ensures |specs| == |topics|
    ensures forall i | 0 <= i < |topics| ::
      specs[i].topic == topics[i].name && specs[i].numPartitions == topics[i].partitions
      && specs[i].replicationFactor == replicationFactor
  {
    if topics == [] then []
    else
      var n := |topics| - 1;
      assert forall i | 0 <= i < n :: topics[..n][i] == topics[i];
      SpecsFor(topics[..n], replicationFactor)
        + [TopicSpecification(topics[n].name, topics[n].partitions, replicationFactor)]
  }

  /** Maps the configured topics, in order, to specifications sharing the configuration's replication factor. */
  method ParseConfig(config: KafkaConfig) returns (specs: seq<TopicSpecification>)
    ensures specs == SpecsFor(config.topics, config.replicationFactor)
  {
    specs := [];
    for i := 0 to |config.topics|
      invariant specs == SpecsFor(config.topics[..i], config.replicationFactor)
    {
      var t := config.topics[i];
      specs := specs + [TopicSpecification(t.name, t.partitions, config.replicationFactor)];
      assert config.topics[..i + 1][..i] == config.topics[..i];
    }
    assert config.topics[..|config.topics|] == config.topics;
  }

  /** Decides whether to issue the creation request. `issued` is the request
      handed to the admin client, if any; `errs` is the error return. */
  method CreateTopics(config: KafkaConfig, meta: Snapshot)
    returns (issued: Option<seq<TopicSpecification>>, errs: Option<seq<CreateTopicError>>)
    ensures issued.Some? <==> forall i | 0 <= i < |config.topics| :: !Exists(meta, config.topics[i].name)
    ensures issued.Some? ==> issued.value == SpecsFor(config.topics, config.replicationFactor) && errs.None?
    ensures issued.None? ==>
      errs == Some(Conflicts(SpecsFor(config.topics, config.replicationFactor), meta)) && errs.value != []
  {
    var topicSpecs := ParseConfig(config);
    var errors := CheckAvailability(topicSpecs, meta);
    FlaggedEmpty(topicSpecs, Taken(meta), Unavailable);
    if |errors| > 0 {
      return None, Some(errors);
    }
    return Some(topicSpecs), None;
  }

  /** Decides whether to issue the deletion request: only when every requested
      topic exists. `issued` holds the names handed to the admin client, if any. */
  method DeleteTopics(config: KafkaConfig, meta: Snapshot)
    returns (issued: Option<seq<string>>, errs: Option<seq<CreateTopicError>>)
    ensures issued.Some? <==> forall i | 0 <= i < |config.topics| :: Exists(meta, config.topics[i].name)
    ensures issued.Some? ==> errs.None?
    ensures issued.Some? ==> |issued.value| == |config.topics|
    ensures issued.Some? ==> forall i | 0 <= i < |config.topics| :: issued.value[i] == config.topics[i].name
    ensures issued.None? ==>
      errs == Some(Conflicts(SpecsFor(config.topics, config.replicationFactor), meta))
      && |errs.value| < |config.topics|
  {
    var topicSpecs := ParseConfig(config);
    var errors := CheckAvailability(topicSpecs, meta);
    FlaggedFull(topicSpecs, Taken(meta), Unavailable);
    if |errors| < |topicSpecs| {
      return None, Some(errors);
    }
    var topicNames := [];
    for i := 0 to |topicSpecs|
      invariant |topicNames| == i
      invariant forall j | 0 <= j < i :: topicNames[j] == topicSpecs[j].topic
    {
      topicNames := topicNames + [topicSpecs[i].topic];
    }
    return Some(topicNames), None;
  }

  // ---------------------------------------------------------------------------
  // Concrete cases

  /** A two-topic request where only "a" exists: creation reports exactly one
      conflict, for "a", and so "b" is never requested. */
  lemma CreateConflictOnOneTopic()
    ensures var specs := [TopicSpecification("a", 1, 1), TopicSpecification("b", 1, 1)];
      Conflicts(specs, [TopicMetadata("a", 1)]) == [CreateTopicError(specs[0], Unavailable)]
  {
    var specs := [TopicSpecification("a", 1, 1), TopicSpecification("b", 1, 1)];
    var meta := [TopicMetadata("a", 1)];
    assert specs[..1] == [specs[0]] && [specs[0]][..0] == [];
    assert meta[0].topic == specs[0].topic;
    assert Taken(meta)(specs[0]) && !Taken(meta)(specs[1]);
  }

  /** A two-topic request where neither topic exists: deletion is refused
      (0 < 2) and the error list it returns is empty, naming neither topic. */
  lemma DeleteRefusedWithEmptyList()
    ensures var specs := [TopicSpecification("a", 1, 1), TopicSpecification("b", 1, 1)];
      Conflicts(specs, []) == [] && |Conflicts(specs, [])| < |specs|
  {
  }

  /** A topic that exists with the wrong number of partitions fails validation,
      and its error carries the same "Unavailable" message as a missing topic. */
  lemma PartitionMismatchIsUnavailable()
    ensures var orders := TopicSpecification("orders", 3, 1);
      Invalid([orders], [TopicMetadata("orders", 1)]) == [CreateTopicError(orders, Unavailable)]
      && Invalid([orders], []) == [CreateTopicError(orders, Unavailable)]
      && Invalid([orders], [TopicMetadata("orders", 3)]) == []
  {
    var orders := TopicSpecification("orders", 3, 1);
    assert [orders][..0] == [];
    assert Unsatisfied([TopicMetadata("orders", 1)])(orders);
    var good := [TopicMetadata("orders", 3)];
    assert Satisfies(good[0], orders);
    assert !Unsatisfied(good)(orders);
  }
}
