/** The per-topic loop of `main` in src/index.ts: one group list per topic,
    each made from the same full user list. */
module TopicLoop {
  import opened Types
  import opened GroupDistribution

  /** The `--department` / `--level` choices, "max" and "min". */
  datatype Overlap = Max | Min

  /** The options object `main` builds for each topic. The allocator takes
      the user list only, so these values never reach it; `BuildTopicList`
      records the `prevGroupList` it passes in a ghost history. */
  datatype TopicOptions = TopicOptions(
    groupSize: int,
    prevGroupList: Option<seq<Group>>,
    depOverlap: Option<Overlap>,
    levelOverlap: Option<Overlap>)

  /** `overlap ? topicList[i - 1] : undefined`: the previous topic's groups
      when overlap is on and there is a previous topic, `undefined` when
      overlap is off or the index `i - 1` is out of range. */
  function PrevGroupList(topicList: seq<seq<Group>>, overlap: bool, i: int): Option<seq<Group>>
  {
    if overlap && 0 <= i - 1 < |topicList| then Some(topicList[i - 1]) else None
  }

  /** `prevs[t]` is what `overlap ? topicList[t - 1] : undefined` gave at
      iteration `t`, read against the final `topicList`. */
  ghost predicate HandedPrevious(topicList: seq<seq<Group>>, prevs: seq<Option<seq<Group>>>, overlap: bool)
  {
    |prevs| == |topicList| &&
    forall t :: 0 <= t < |prevs| ==> prevs[t] == if overlap && t >= 1 then Some(topicList[t - 1]) else None
  }

  /** Appending a topic and the value handed over for it keeps the history
      true: the entries already there are untouched. */
  lemma HandedPreviousStep(topicList: seq<seq<Group>>, prevs: seq<Option<seq<Group>>>, overlap: bool, groupList: seq<Group>)
    requires HandedPrevious(topicList, prevs, overlap)
    ensures HandedPrevious(topicList + [groupList], prevs + [PrevGroupList(topicList, overlap, |topicList|)], overlap)
  {
  }

  /** The facts of `GroupingFacts`, for every topic at once. */
  lemma TopicListFacts(userList: seq<UserRecord>, size: nat, topicList: seq<seq<Group>>)
    requires size >= 1
    requires forall t :: 0 <= t < |topicList| ==> IsGrouping(userList, size, topicList[t])
    ensures forall t :: 0 <= t < |topicList| ==> |topicList[t]| == GroupCount(|userList|, size)
    ensures forall t, j :: 0 <= t < |topicList| && 0 <= j < |topicList[t]| ==> 1 <= |topicList[t][j]| <= size
    ensures forall t, u :: 0 <= t < |topicList| ==> Occurrences(topicList[t], u) == multiset(userList)[u]
  {
    forall t | 0 <= t < |topicList|
      ensures |topicList[t]| == GroupCount(|userList|, size)
      ensures forall j :: 0 <= j < |topicList[t]| ==> 1 <= |topicList[t][j]| <= size
      ensures forall u :: Occurrences(topicList[t], u) == multiset(userList)[u]
    {
      GroupingFacts(userList, size, topicList[t]);
    }
  }

  /** For topics 0 .. topicCount - 1, in order, groups the whole user list
      afresh and appends the result. `defaultGroupSize` is the constant the
      allocator reads; `groupSize`, `overlap`, `department` and `level` are
      the command-line values, which only feed the options object.
      A count of 0 or less (also what a NaN count amounts to) runs no topic.
      `prevs[t]` is the `prevGroupList` handed over at iteration `t`. */
  method BuildTopicList(
    userList: seq<UserRecord>,
    topicCount: int,
    defaultGroupSize: nat,
    groupSize: int,
    overlap: bool,
    department: Option<Overlap>,
    level: Option<Overlap>)
    returns (topicList: seq<seq<Group>>, ghost prevs: seq<Option<seq<Group>>>)
    requires defaultGroupSize >= 1
    ensures |topicList| == if topicCount <= 0 then 0 else topicCount
    ensures forall t :: 0 <= t < |topicList| ==> IsGrouping(userList, defaultGroupSize, topicList[t])
    ensures forall t :: 0 <= t < |topicList| ==> |topicList[t]| == GroupCount(|userList|, defaultGroupSize)
    ensures forall t, j :: 0 <= t < |topicList| && 0 <= j < |topicList[t]| ==> 1 <= |topicList[t][j]| <= defaultGroupSize
    ensures forall t, u :: 0 <= t < |topicList| ==> Occurrences(topicList[t], u) == multiset(userList)[u]
    ensures |prevs| == |topicList|
    ensures forall t :: 0 <= t < |prevs| ==> prevs[t] == if overlap && t >= 1 then Some(topicList[t - 1]) else None
  {
    topicList, prevs := [], [];
    var i := 0;
    while i < topicCount
      invariant 0 <= i && (topicCount <= 0 ==> i == 0) && (topicCount > 0 ==> i <= topicCount)
      invariant |topicList| == i
      invariant forall t :: 0 <= t < i ==> IsGrouping(userList, defaultGroupSize, topicList[t])
      invariant HandedPrevious(topicList, prevs, overlap)
    {
      ghost var options := TopicOptions(groupSize, PrevGroupList(topicList, overlap, i), department, level);
      var groupList := GenerateTopicUserGroups(userList, defaultGroupSize);
      HandedPreviousStep(topicList, prevs, overlap, groupList);
      topicList := topicList + [groupList];
      prevs := prevs + [options.prevGroupList];
      i := i + 1;
    }
    TopicListFacts(userList, defaultGroupSize, topicList);
  }
}
