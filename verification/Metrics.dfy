/**
  * How the metrics mock spreads the replicas of a cluster over its nodes and shards.  Division
  * is exact here; the rounding of floating-point division is not modelled.
  */
module Metrics {
  import opened Arithmetic

  // ---------------------------------------------------------------------------------------
  // Counting residues
  // ---------------------------------------------------------------------------------------

  /** How many numbers below `n` leave remainder `r`. */
  function Count(n: nat, m: nat, r: int): nat
    requires m > 0
  {
    if n == 0 then 0 else Count(n - 1, m, r) + (if (n - 1) % m == r then 1 else 0)
  }

  lemma {:induction false} CountIs(n: nat, m: nat, r: nat)
    requires r < m
    ensures Count(n, m, r) == n / m + (if r < n % m then 1 else 0)
  {
    if n > 0 {
      CountIs(n - 1, m, r);
      DivStep(n - 1, m);
    } else {
      DivUnique(0, m, 0, 0);
    }
  }

  /** Round robin is even: any two remainders occur equally often, up to one. */
  lemma RoundRobinIsEven(n: nat, m: nat, r1: nat, r2: nat)
    requires r1 < m && r2 < m
    ensures -1 <= Count(n, m, r1) - Count(n, m, r2) <= 1
  {
    CountIs(n, m, r1);
    CountIs(n, m, r2);
  }

  // ---------------------------------------------------------------------------------------
  // Partitions per topic
  // ---------------------------------------------------------------------------------------

  function CeilDiv(a: nat, b: nat): (r: nat)
    requires b > 0
  {
    (a + b - 1) / b
  }

  /** What the loop computes for topic `t`: the target for all topics so far, rounded up, minus
      what earlier topics got. */
  function PartCount(t: nat, partitions: nat, topics: nat): int
    requires t < topics
  {
    CeilDiv((t + 1) * partitions, topics) - CeilDiv(t * partitions, topics)
  }

  function Total(t: nat, partitions: nat, topics: nat): int
    requires t <= topics
  {
    if t == 0 then 0 else Total(t - 1, partitions, topics) + PartCount(t - 1, partitions, topics)
  }

  lemma {:induction false} TotalIs(t: nat, partitions: nat, topics: nat)
    requires t <= topics && topics > 0
    ensures Total(t, partitions, topics) == CeilDiv(t * partitions, topics)
  {
    if t > 0 { TotalIs(t - 1, partitions, topics); } else { DivUnique(topics - 1, topics, 0, topics - 1); }
  }

  lemma CeilDivExact(q: nat, b: nat)
    requires b > 0
    ensures CeilDiv(q * b, b) == q
  {
    DivUnique(q * b + b - 1, b, q, b - 1);
  }

  /** All partitions are given to some topic. */
  lemma PartitionsAddUp(partitions: nat, topics: nat)
    requires topics > 0
    ensures Total(topics, partitions, topics) == partitions
  {
    TotalIs(topics, partitions, topics);
    assert topics * partitions == partitions * topics;
    CeilDivExact(partitions, topics);
  }

  lemma CeilDivAdd(x: nat, p: nat, b: nat)
    requires b > 0
    ensures p / b <= CeilDiv(x + p, b) - CeilDiv(x, b) <= CeilDiv(p, b)
  {
    var q, r := p / b, p % b;
    var c := CeilDiv(x, b);
    var s := (x + b - 1) % b;
    assert x + b - 1 == c * b + s;
    assert p == q * b + r;
    SumOfMultiples(c, q, b);
    NextMultiple(c + q, b);
    NextMultiple(q, b);
    if s + r < b {
      DivUnique(x + p + b - 1, b, c + q, s + r);
    } else {
      DivUnique(x + p + b - 1, b, c + q + 1, s + r - b);
    }
    if r == 0 {
      DivUnique(p + b - 1, b, q, b - 1);
    } else {
      DivUnique(p + b - 1, b, q + 1, r - 1);
    }
  }

  /** Every topic gets the average number of partitions, rounded down or up. */
  lemma PartCountIsAverage(t: nat, partitions: nat, topics: nat)
    requires t < topics
    ensures partitions / topics <= PartCount(t, partitions, topics) <= CeilDiv(partitions, topics)
    ensures PartCount(t, partitions, topics) >= 0
  {
    assert (t + 1) * partitions == t * partitions + partitions;
    CeilDivAdd(t * partitions, partitions, topics);
    assert partitions / topics >= 0;
  }

  // ---------------------------------------------------------------------------------------
  // Replicas
  // ---------------------------------------------------------------------------------------

  datatype Replica = Replica(topic: nat, part: nat)

  /** A replica on this node, with its shard. */
  datatype Placed = Placed(replica: Replica, shard: nat)

  /** A partition's entry in a consumer group that landed on this node. */
  datatype GroupOffset = GroupOffset(group: nat, topic: nat, part: nat)

  /** The replicas of a topic: each partition `rf` times in a row. */
  function TopicReplicas(t: nat, count: nat, rf: nat): (r: seq<Replica>)
    requires rf > 0
    ensures |r| == count * rf
  {
    seq(count * rf, j requires 0 <= j < count * rf => Replica(t, j / rf))
  }

  function AllReplicas(t: nat, partitions: nat, topics: nat, rf: nat): seq<Replica>
    requires t <= topics && rf > 0
  {
    if t == 0 then []
    else
      PartCountIsAverage(t - 1, partitions, topics);
      AllReplicas(t - 1, partitions, topics, rf) + TopicReplicas(t - 1, PartCount(t - 1, partitions, topics), rf)
  }

  /** What of `rs` lands on a node, dealt out round robin to nodes and then to the node's shards. */
  function OnNode(rs: seq<Replica>, nodes: nat, node: int, shards: nat): (r: seq<Placed>)
    requires nodes > 0 && shards > 0
  {
    if rs == [] then []
    else
      var n := |rs| - 1;
      var before := OnNode(rs[..n], nodes, node, shards);
      before + (if n % nodes == node then [Placed(rs[n], |before| % shards)] else [])
  }

  function GroupEntries(group: nat, t: nat, count: nat): seq<GroupOffset> {
    seq(count, p requires 0 <= p < count => GroupOffset(group, t, p))
  }

  /** The groups of topic `t` numbered `first` to `first + n` that land on the node. */
  function TopicGroups(t: nat, count: nat, first: nat, n: nat, nodes: nat, node: int): seq<GroupOffset>
    requires nodes > 0
  {
    if n == 0 then []
    else
      TopicGroups(t, count, first, n - 1, nodes, node) +
      (if (first + n - 1) % nodes == node then GroupEntries(first + n - 1, t, count) else [])
  }

  function AllGroups(t: nat, partitions: nat, topics: nat, perTopic: nat, nodes: nat, node: int): seq<GroupOffset>
    requires t <= topics && nodes > 0
  {
    if t == 0 then []
    else
      PartCountIsAverage(t - 1, partitions, topics);
      AllGroups(t - 1, partitions, topics, perTopic, nodes, node) +
      TopicGroups(t - 1, PartCount(t - 1, partitions, topics), (t - 1) * perTopic, perTopic, nodes, node)
  }

  /** Groups per topic, times the replication factor of the offsets topic. */
  function GroupReplicas(groupsPerTopic: nat, nodes: nat): nat {
    groupsPerTopic * (if nodes >= 3 then 3 else 1)
  }

  /** The inner loop over the groups of a topic. */
  method AddGroups(groupList: seq<GroupOffset>, topicId: nat, partCount: nat, firstGroup: nat, perTopic: nat,
                   nodes: nat, nodeId: int)
    returns (r: seq<GroupOffset>, currentGroup: nat)
    requires nodes > 0
    ensures r == groupList + TopicGroups(topicId, partCount, firstGroup, perTopic, nodes, nodeId)
    ensures currentGroup == firstGroup + perTopic
  {
    r, currentGroup := groupList, firstGroup;
    for g := 0 to perTopic
      invariant currentGroup == firstGroup + g
      invariant r == groupList + TopicGroups(topicId, partCount, firstGroup, g, nodes, nodeId)
    {
      if currentGroup % nodes == nodeId {
        ghost var before := r;
        for partId := 0 to partCount
          invariant r == before + GroupEntries(currentGroup, topicId, partId)
        {
          r := r + [GroupOffset(currentGroup, topicId, partId)];
        }
      }
      currentGroup := currentGroup + 1;
    }
  }

  /** The inner loop over the replicas of a topic.  `done` are the replicas of earlier topics. */
  method AddReplicas(partitionList: seq<Placed>, ghost done: seq<Replica>, topicId: nat, partCount: nat, rf: nat,
                     node: nat, shard: nat, nodes: nat, nodeId: int, shards: nat)
    returns (r: seq<Placed>, assignedNode: nat, assignedShard: nat)
    requires nodes > 0 && shards > 0 && rf > 0
    requires partitionList == OnNode(done, nodes, nodeId, shards) && node == |done| % nodes
             && shard == |partitionList| % shards
    ensures var all := done + TopicReplicas(topicId, partCount, rf);
            r == OnNode(all, nodes, nodeId, shards) && assignedNode == |all| % nodes && assignedShard == |r| % shards
  {
    r, assignedNode, assignedShard := partitionList, node, shard;
    ghost var mine := TopicReplicas(topicId, partCount, rf);
    assert done + mine[..0] == done;
    for j := 0 to partCount * rf
      invariant r == OnNode(done + mine[..j], nodes, nodeId, shards)
      invariant assignedNode == (|done| + j) % nodes && assignedShard == |r| % shards
    {
      var partId := j / rf;
      ghost var all := done + mine[..j + 1];
      assert all[..|all| - 1] == done + mine[..j] && all[|all| - 1] == mine[j] == Replica(topicId, partId);
      NextRemainder(|done| + j, nodes);
      NextRemainder(|r|, shards);
      if assignedNode == nodeId {
        r := r + [Placed(Replica(topicId, partId), assignedShard)];
        assignedShard := (assignedShard + 1) % shards;
      }
      assignedNode := (assignedNode + 1) % nodes;
    }
    assert mine[..partCount * rf] == mine;
  }

  /** The generation loop of the mock, for one node. */
  method Distribute(partitions: nat, topics: nat, rf: nat, nodes: nat, nodeId: int, shards: nat, groupsPerTopic: nat)
    returns (partitionList: seq<Placed>, groupList: seq<GroupOffset>)
    requires nodeId < nodes && rf > 0 && (topics > 0 || partitions == 0) && nodes > 0 && shards > 0
    ensures partitionList == OnNode(AllReplicas(topics, partitions, topics, rf), nodes, nodeId, shards)
    ensures groupList == AllGroups(topics, partitions, topics, GroupReplicas(groupsPerTopic, nodes), nodes, nodeId)
  {
    hide OnNode, TopicReplicas, TopicGroups, GroupReplicas, CeilDiv, PartCount;
    partitionList, groupList := [], [];
    var assignedNode, assignedShard, totalPartitions, currentGroup := 0, 0, 0, 0;
    var perTopic := GroupReplicas(groupsPerTopic, nodes);
    NothingPlaced(nodes, nodeId, shards);
    for topicId := 0 to topics
      invariant totalPartitions == Total(topicId, partitions, topics) && currentGroup == topicId * perTopic
      invariant groupList == AllGroups(topicId, partitions, topics, perTopic, nodes, nodeId)
      invariant var done := AllReplicas(topicId, partitions, topics, rf);
                partitionList == OnNode(done, nodes, nodeId, shards) && assignedNode == |done| % nodes
      invariant assignedShard == |partitionList| % shards
    {
      TopicShare(topicId, partitions, topics);
      NextMultiple(topicId, perTopic);
      var partCount: nat := CeilDiv((topicId + 1) * partitions, topics) - totalPartitions;
      totalPartitions := totalPartitions + partCount;
      groupList, currentGroup := AddGroups(groupList, topicId, partCount, currentGroup, perTopic, nodes, nodeId);
      partitionList, assignedNode, assignedShard :=
        AddReplicas(partitionList, AllReplicas(topicId, partitions, topics, rf), topicId, partCount, rf,
                    assignedNode, assignedShard, nodes, nodeId, shards);
    }
  }

  lemma TopicShare(t: nat, partitions: nat, topics: nat)
    requires t < topics
    ensures CeilDiv((t + 1) * partitions, topics) - Total(t, partitions, topics) ==
            PartCount(t, partitions, topics) >= 0
  {
    TotalIs(t, partitions, topics);
    PartCountIsAverage(t, partitions, topics);
  }

  lemma NothingPlaced(nodes: nat, nodeId: int, shards: nat)
    requires nodes > 0 && shards > 0
    ensures OnNode([], nodes, nodeId, shards) == [] && 0 % nodes == 0 && 0 % shards == 0
  {
    DivUnique(0, nodes, 0, 0);
    DivUnique(0, shards, 0, 0);
  }

  // ---------------------------------------------------------------------------------------
  // What the placement promises
  // ---------------------------------------------------------------------------------------

  /** The replica at place `k` of a node's list. */
  function Slot(node: nat, k: nat, nodes: nat): nat {
    node + k * nodes
  }

  lemma SlotOf(n: nat, nodes: nat)
    requires nodes > 0
    ensures Slot(n % nodes, n / nodes, nodes) == n
  {
  }

  /** A node's list holds every `nodes`-th replica, starting with its own number, and its shards
      take turns. */
  lemma {:induction false} EveryReplicaIsPlaced(rs: seq<Replica>, nodes: nat, node: nat, shards: nat)
    requires node < nodes && shards > 0
    ensures |OnNode(rs, nodes, node, shards)| == Count(|rs|, nodes, node)
    ensures forall k :: 0 <= k < |OnNode(rs, nodes, node, shards)| ==>
              Slot(node, k, nodes) < |rs| && OnNode(rs, nodes, node, shards)[k] ==
                Placed(rs[Slot(node, k, nodes)], k % shards)
  {
    hide Slot;
    if rs != [] {
      var n := |rs| - 1;
      EveryReplicaIsPlaced(rs[..n], nodes, node, shards);
      CountIs(n, nodes, node);
      SlotOf(n, nodes);
    }
  }

  /** Replica `i` is on node `i % nodes`, at place `i / nodes` of that node's list and nowhere
      else; so over all nodes the lists divide the replicas. */
  lemma ListsDivideReplicas(rs: seq<Replica>, nodes: nat, shards: nat, i: nat, node: nat, k: nat)
    requires node < nodes && shards > 0 && i < |rs|
    ensures (k < |OnNode(rs, nodes, node, shards)| && Slot(node, k, nodes) == i) <==>
            (node == i % nodes && k == i / nodes)
  {
    EveryReplicaIsPlaced(rs, nodes, node, shards);
    CountIs(|rs|, nodes, node);
    SlotOf(i, nodes);
    if Slot(node, k, nodes) == i { DivUnique(i, nodes, k, node); }
    if node == i % nodes {
      QuotientBelow(i, |rs|, nodes);
    }
  }

  /** Nodes carry equally many replicas, up to one, and so do the shards of a node. */
  lemma LoadsAreEven(rs: seq<Replica>, nodes: nat, node1: nat, node2: nat, shards: nat)
    requires node1 < nodes && node2 < nodes && shards > 0
    ensures -1 <= |OnNode(rs, nodes, node1, shards)| - |OnNode(rs, nodes, node2, shards)| <= 1
  {
    EveryReplicaIsPlaced(rs, nodes, node1, shards);
    EveryReplicaIsPlaced(rs, nodes, node2, shards);
    RoundRobinIsEven(|rs|, nodes, node1, node2);
  }

  function ShardLoad(ps: seq<Placed>, shard: nat): nat {
    if ps == [] then 0 else ShardLoad(ps[..|ps| - 1], shard) + (if ps[|ps| - 1].shard == shard then 1 else 0)
  }

  lemma {:induction false} ShardLoadIs(ps: seq<Placed>, shards: nat, shard: nat)
    requires shards > 0 && forall k :: 0 <= k < |ps| ==> ps[k].shard == k % shards
    ensures ShardLoad(ps, shard) == Count(|ps|, shards, shard)
  {
    if ps != [] { ShardLoadIs(ps[..|ps| - 1], shards, shard); }
  }

  lemma ShardLoadsAreEven(rs: seq<Replica>, nodes: nat, node: nat, shards: nat, s1: nat, s2: nat)
    requires node < nodes && s1 < shards && s2 < shards
    ensures -1 <= ShardLoad(OnNode(rs, nodes, node, shards), s1) - ShardLoad(OnNode(rs, nodes, node, shards), s2) <= 1
  {
    var ps := OnNode(rs, nodes, node, shards);
    EveryReplicaIsPlaced(rs, nodes, node, shards);
    ShardLoadIs(ps, shards, s1);
    ShardLoadIs(ps, shards, s2);
    RoundRobinIsEven(|ps|, shards, s1, s2);
  }

  lemma {:induction false} ReplicaCount(t: nat, partitions: nat, topics: nat, rf: nat)
    requires t <= topics && rf > 0
    ensures |AllReplicas(t, partitions, topics, rf)| == Total(t, partitions, topics) * rf
  {
    hide PartCount, TopicReplicas;
    if t > 0 {
      ReplicaCount(t - 1, partitions, topics, rf);
      PartCountIsAverage(t - 1, partitions, topics);
      var a, b := Total(t - 1, partitions, topics), PartCount(t - 1, partitions, topics);
      assert (a + b) * rf == a * rf + b * rf;
    }
  }

  lemma {:induction false} EarlierTopics(t: nat, partitions: nat, topics: nat, rf: nat)
    requires t <= topics && rf > 0
    ensures forall i :: 0 <= i < |AllReplicas(t, partitions, topics, rf)| ==>
            AllReplicas(t, partitions, topics, rf)[i].topic < t
  {
    hide PartCount;
    if t > 0 {
      EarlierTopics(t - 1, partitions, topics, rf);
      PartCountIsAverage(t - 1, partitions, topics);
    }
  }

  lemma CloseQuotients(i: nat, j: nat, rf: nat)
    requires rf > 0 && i / rf == j / rf
    ensures i - j < rf && j - i < rf
  {
    assert i == (i / rf) * rf + i % rf && j == (j / rf) * rf + j % rf;
  }

  /** The replicas of a partition are fewer than `rf` places apart. */
  lemma {:induction false} ReplicasAreClose(t: nat, partitions: nat, topics: nat, rf: nat, i: nat, j: nat)
    requires t <= topics && rf > 0
    requires i < |AllReplicas(t, partitions, topics, rf)| && j < |AllReplicas(t, partitions, topics, rf)|
    requires AllReplicas(t, partitions, topics, rf)[i] == AllReplicas(t, partitions, topics, rf)[j]
    ensures i - j < rf && j - i < rf
  {
    hide PartCount;
    EarlierTopics(t - 1, partitions, topics, rf);
    PartCountIsAverage(t - 1, partitions, topics);
    var n := |AllReplicas(t - 1, partitions, topics, rf)|;
    if i < n && j < n {
      ReplicasAreClose(t - 1, partitions, topics, rf, i, j);
    } else if i >= n && j >= n {
      CloseQuotients(i - n, j - n, rf);
    }
  }

  /** With no more replicas than nodes, no node holds two replicas of one partition. */
  lemma NoTwoReplicasOnANode(partitions: nat, topics: nat, rf: nat, nodes: nat, node: nat, shards: nat, k: nat, l: nat)
    requires 0 < rf <= nodes && node < nodes && shards > 0
    requires k < l < |OnNode(AllReplicas(topics, partitions, topics, rf), nodes, node, shards)|
    ensures var ps := OnNode(AllReplicas(topics, partitions, topics, rf), nodes, node, shards);
            ps[k].replica != ps[l].replica
  {
    var rs := AllReplicas(topics, partitions, topics, rf);
    EveryReplicaIsPlaced(rs, nodes, node, shards);
    var i, j := Slot(node, k, nodes), Slot(node, l, nodes);
    AtLeastOne(l, k, nodes);
    if rs[i] == rs[j] { ReplicasAreClose(topics, partitions, topics, rf, i, j); }
  }

  /** The first partition fills the first `rf` places. */
  lemma {:induction false} FirstPartition(t: nat, partitions: nat, topics: nat, rf: nat)
    requires t <= topics && rf > 0 && AllReplicas(t, partitions, topics, rf) != []
    ensures |AllReplicas(t, partitions, topics, rf)| >= rf
    ensures var rs := AllReplicas(t, partitions, topics, rf);
            forall i :: 0 <= i < rf ==> rs[i] == rs[0]
  {
    hide PartCount;
    if AllReplicas(t - 1, partitions, topics, rf) != [] {
      FirstPartition(t - 1, partitions, topics, rf);
    } else {
      PartCountIsAverage(t - 1, partitions, topics);
      var count: nat := PartCount(t - 1, partitions, topics);
      assert AllReplicas(t, partitions, topics, rf) == TopicReplicas(t - 1, count, rf);
      AtLeastOne(count, 0, rf);
      forall i: nat | i < rf
        ensures i / rf == 0
      {
        DivUnique(i, rf, 0, i);
      }
    }
  }

  ghost predicate NodesHoldDistinct(partitions: nat, topics: nat, rf: nat, nodes: nat, shards: nat)
    requires rf > 0 && nodes > 0 && shards > 0
  {
    forall node: nat, k: nat, l: nat
      | node < nodes && k < l < |OnNode(AllReplicas(topics, partitions, topics, rf), nodes, node, shards)|
      :: var ps := OnNode(AllReplicas(topics, partitions, topics, rf), nodes, node, shards);
         ps[k].replica != ps[l].replica
  }

  /** Replicas of a partition are always on different nodes exactly when there are enough nodes. */
  lemma DistinctExactly(partitions: nat, topics: nat, rf: nat, nodes: nat, shards: nat)
    requires rf > 0 && nodes > 0 && shards > 0 && topics > 0
    ensures NodesHoldDistinct(partitions, topics, rf, nodes, shards) <==> rf <= nodes || partitions == 0
  {
    hide OnNode, AllReplicas;
    var rs := AllReplicas(topics, partitions, topics, rf);
    ReplicaCount(topics, partitions, topics, rf);
    PartitionsAddUp(partitions, topics);
    if partitions == 0 || rf <= nodes {
      forall node: nat, k: nat, l: nat | node < nodes && k < l < |OnNode(rs, nodes, node, shards)|
        ensures OnNode(rs, nodes, node, shards)[k].replica != OnNode(rs, nodes, node, shards)[l].replica
      {
        SpreadOut(partitions, topics, rf, nodes, node, shards, k, l);
      }
    } else {
      AtLeastOne(partitions, 0, rf);
      FirstPartition(topics, partitions, topics, rf);
      EveryReplicaIsPlaced(rs, nodes, 0, shards);
      DivUnique(0, nodes, 0, 0);
      DivUnique(nodes, nodes, 1, 0);
      ListsDivideReplicas(rs, nodes, shards, 0, 0, 0);
      ListsDivideReplicas(rs, nodes, shards, nodes, 0, 1);
      var ps := OnNode(rs, nodes, 0, shards);
      assert ps[0].replica == ps[1].replica;
    }
  }

  lemma SpreadOut(partitions: nat, topics: nat, rf: nat, nodes: nat, node: nat, shards: nat, k: nat, l: nat)
    requires rf > 0 && topics > 0 && node < nodes && shards > 0 && (rf <= nodes || partitions == 0)
    requires k < l < |OnNode(AllReplicas(topics, partitions, topics, rf), nodes, node, shards)|
    ensures var ps := OnNode(AllReplicas(topics, partitions, topics, rf), nodes, node, shards);
            ps[k].replica != ps[l].replica
  {
    hide OnNode, AllReplicas;
    EveryReplicaIsPlaced(AllReplicas(topics, partitions, topics, rf), nodes, node, shards);
    ReplicaCount(topics, partitions, topics, rf);
    PartitionsAddUp(partitions, topics);
    if rf <= nodes {
      NoTwoReplicasOnANode(partitions, topics, rf, nodes, node, shards, k, l);
    }
  }

  /** Where the replicas of a partition stand: behind those of all earlier partitions. */
  lemma {:induction false} ReplicaStandsAt(t: nat, partitions: nat, topics: nat, rf: nat, topic: nat, part: nat,
                                           copy: nat)
    requires t <= topics && rf > 0 && topic < t && part < PartCount(topic, partitions, topics) && copy < rf
    ensures var i := (Total(topic, partitions, topics) + part) * rf + copy;
            0 <= i < |AllReplicas(t, partitions, topics, rf)|
              && AllReplicas(t, partitions, topics, rf)[i] == Replica(topic, part)
  {
    hide PartCount, TopicReplicas;
    ReplicaCount(t - 1, partitions, topics, rf);
    PartCountIsAverage(t - 1, partitions, topics);
    if topic < t - 1 {
      ReplicaStandsAt(t - 1, partitions, topics, rf, topic, part, copy);
    } else {
      var count: nat := PartCount(topic, partitions, topics);
      TotalIsNat(topic, partitions, topics);
      SumOfMultiples(Total(topic, partitions, topics), part, rf);
      TopicReplicaAt(topic, count, rf, part, copy);
    }
  }

  lemma {:induction false} TotalIsNat(t: nat, partitions: nat, topics: nat)
    requires t <= topics
    ensures Total(t, partitions, topics) >= 0
  {
    hide PartCount;
    if t > 0 {
      TotalIsNat(t - 1, partitions, topics);
      PartCountIsAverage(t - 1, partitions, topics);
    }
  }

  lemma TopicReplicaAt(t: nat, count: nat, rf: nat, part: nat, copy: nat)
    requires rf > 0 && part < count && copy < rf
    ensures part * rf + copy < count * rf && TopicReplicas(t, count, rf)[part * rf + copy] == Replica(t, part)
  {
    AtLeastOne(count, part, rf);
    DivUnique(part * rf + copy, rf, part, copy);
  }

  // ---------------------------------------------------------------------------------------
  // Consumer groups
  // ---------------------------------------------------------------------------------------

  /** One entry is listed before the other: by group, and by partition within a group. */
  predicate ListedBefore(a: GroupOffset, b: GroupOffset) {
    a.group < b.group || (a.group == b.group && a.part < b.part)
  }

  ghost predicate InListOrder(es: seq<GroupOffset>) {
    forall i, j :: 0 <= i < j < |es| ==> ListedBefore(es[i], es[j])
  }

  lemma {:induction false} TopicGroupsAre(t: nat, count: nat, first: nat, n: nat, nodes: nat, node: int)
    requires nodes > 0
    ensures var es := TopicGroups(t, count, first, n, nodes, node);
            && InListOrder(es)
            && (forall e :: e in es <==>
                  e.topic == t && e.part < count && first <= e.group < first + n && e.group % nodes == node)
  {
    if n > 0 {
      TopicGroupsAre(t, count, first, n - 1, nodes, node);
      var before, g := TopicGroups(t, count, first, n - 1, nodes, node), first + n - 1;
      var more := if g % nodes == node then GroupEntries(g, t, count) else [];
      GroupEntriesAre(g, t, count);
      hide GroupEntries, TopicGroups;
      TopicGroupsStep(t, count, first, n, nodes, node);
      InOrderConcat(before, more);
      MembersConcat(before, more);
    }
  }

  lemma TopicGroupsStep(t: nat, count: nat, first: nat, n: nat, nodes: nat, node: int)
    requires nodes > 0 && n > 0
    ensures TopicGroups(t, count, first, n, nodes, node) ==
            TopicGroups(t, count, first, n - 1, nodes, node) +
            if (first + n - 1) % nodes == node then GroupEntries(first + n - 1, t, count) else []
  {
  }

  lemma GroupEntriesAre(g: nat, t: nat, count: nat)
    ensures InListOrder(GroupEntries(g, t, count))
    ensures forall e :: e in GroupEntries(g, t, count) <==> e.group == g && e.topic == t && e.part < count
  {
    var es := GroupEntries(g, t, count);
    forall e: GroupOffset | e.group == g && e.topic == t && e.part < count
      ensures e in es
    {
      assert es[e.part] == e;
    }
  }

  lemma InOrderConcat(a: seq<GroupOffset>, b: seq<GroupOffset>)
    requires InListOrder(a) && InListOrder(b) && forall x, y :: x in a && y in b ==> ListedBefore(x, y)
    ensures InListOrder(a + b)
  {
    hide ListedBefore;
    forall i, j | 0 <= i < j < |a + b|
      ensures ListedBefore((a + b)[i], (a + b)[j])
    {
      if i >= |a| {
        assert ListedBefore(b[i - |a|], b[j - |a|]);
      } else if j >= |a| {
        assert a[i] in a && b[j - |a|] in b;
      } else {
        assert ListedBefore(a[i], a[j]);
      }
    }
  }

  lemma MembersConcat(a: seq<GroupOffset>, b: seq<GroupOffset>)
    ensures forall e :: e in a + b <==> e in a || e in b
  {
  }

  /** A node's list holds the entry of a partition of a group if and only if the group lands on the
      node, belongs to the topic, and the topic has the partition; the list is ordered by group and
      partition, so each entry occurs once. */
  lemma {:induction false} GroupsAre(t: nat, partitions: nat, topics: nat, perTopic: nat, nodes: nat, node: int)
    requires t <= topics && nodes > 0
    ensures var es := AllGroups(t, partitions, topics, perTopic, nodes, node);
            && InListOrder(es)
            && (forall e :: e in es <==> IsListed(e, t, partitions, topics, perTopic, nodes, node))
  {
    hide PartCount, TopicGroups;
    if t == 0 {
      assert AllGroups(0, partitions, topics, perTopic, nodes, node) == [];
    } else {
      GroupsAre(t - 1, partitions, topics, perTopic, nodes, node);
      PartCountIsAverage(t - 1, partitions, topics);
      var count: nat := PartCount(t - 1, partitions, topics);
      var before := AllGroups(t - 1, partitions, topics, perTopic, nodes, node);
      var more := TopicGroups(t - 1, count, (t - 1) * perTopic, perTopic, nodes, node);
      TopicGroupsAre(t - 1, count, (t - 1) * perTopic, perTopic, nodes, node);
      assert AllGroups(t, partitions, topics, perTopic, nodes, node) == before + more;
      hide AllGroups, InListOrder, ListedBefore;
      MembersConcat(before, more);
      forall e: GroupOffset
        ensures e in more <==> e.topic == t - 1 && IsListed(e, t, partitions, topics, perTopic, nodes, node)
      {
        OfTopic(e.group, t - 1, perTopic);
      }
      forall x, y | x in before && y in more
        ensures ListedBefore(x, y)
      {
        EarlierTopic(x, y, t, partitions, topics, perTopic, nodes, node);
      }
      InOrderConcat(before, more);
    }
  }

  predicate IsListed(e: GroupOffset, t: nat, partitions: nat, topics: nat, perTopic: nat, nodes: nat, node: int)
    requires t <= topics && nodes > 0
  {
    && perTopic > 0 && e.topic < t && e.topic == e.group / perTopic
    && e.part < PartCount(e.topic, partitions, topics) && e.group % nodes == node
  }

  lemma OfTopic(group: nat, t: nat, perTopic: nat)
    ensures perTopic > 0 && group / perTopic == t <==> t * perTopic <= group < t * perTopic + perTopic
  {
    if perTopic > 0 {
      if t * perTopic <= group < t * perTopic + perTopic {
        DivUnique(group, perTopic, t, group - t * perTopic);
      }
      assert group == group / perTopic * perTopic + group % perTopic;
    }
  }

  lemma EarlierTopic(x: GroupOffset, y: GroupOffset, t: nat, partitions: nat, topics: nat, perTopic: nat, nodes: nat,
                     node: int)
    requires 0 < t <= topics && nodes > 0 && IsListed(x, t - 1, partitions, topics, perTopic, nodes, node)
    requires (t - 1) * perTopic <= y.group
    ensures ListedBefore(x, y)
  {
    OfTopic(x.group, x.topic, perTopic);
    if x.topic + 1 < t - 1 { AtLeastOne(t - 1, x.topic + 1, perTopic); }
    NextMultiple(x.topic, perTopic);
  }

  /** The groups of the whole cluster: three replicas of each from three nodes on, and one below.
      Each lands on exactly one node. */
  lemma GroupListIs(partitions: nat, topics: nat, groupsPerTopic: nat, nodes: nat, node: int, e: GroupOffset)
    requires nodes > 0
    ensures var perTopic := if nodes >= 3 then groupsPerTopic * 3 else groupsPerTopic;
            var es := AllGroups(topics, partitions, topics, GroupReplicas(groupsPerTopic, nodes), nodes, node);
            && InListOrder(es)
            && (e in es <==>
                && e.group % nodes == node && perTopic > 0 && e.topic == e.group / perTopic && e.topic < topics
                && e.part < PartCount(e.topic, partitions, topics))
  {
    var perTopic := if nodes >= 3 then groupsPerTopic * 3 else groupsPerTopic;
    assert GroupReplicas(groupsPerTopic, nodes) == perTopic;
    GroupsAre(topics, partitions, topics, perTopic, nodes, node);
    hide AllGroups, PartCount, GroupReplicas;
  }
}
