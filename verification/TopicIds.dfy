/** Topic ids: the generator numbers publishers and subscribers in ranges of their own, and the board
    indexes its topics by id. */
module TopicIds {
  import opened Options

  datatype Direction = Publisher | Subscriber

  const PUBLISHER_START: nat := 127
  const PUBLISHER_END: nat := 255
  const SUBSCRIBER_END: nat := 127

  /** How many of the topics go that way. */
  function Count(topics: seq<Direction>, d: Direction): nat {
    if topics == [] then 0
    else
      var n := |topics| - 1;
      Count(topics[..n], d) + if topics[n] == d then 1 else 0
  }

  /** The id of topic i: as many ids of its direction are taken as such topics come before it. */
  function IdOf(topics: seq<Direction>, i: nat): nat
    requires i < |topics|
  {
    Count(topics[..i], topics[i]) + if topics[i].Publisher? then PUBLISHER_START else 0
  }

  /** There are ids for all of them. */
  predicate Fits(topics: seq<Direction>) {
    && Count(topics, Publisher) <= PUBLISHER_END - PUBLISHER_START
    && Count(topics, Subscriber) <= SUBSCRIBER_END
  }

  /** The generator fails iff one of the ranges is exhausted. */
  method GenerateTopicIds(topics: seq<Direction>) returns (ids: Option<seq<nat>>)
    ensures ids.Some? <==> Fits(topics)
    ensures ids.Some? <==> Count(topics, Publisher) <= 128 && Count(topics, Subscriber) <= 127
    ensures ids.Some? ==> |ids.value| == |topics| && forall i | 0 <= i < |topics| :: ids.value[i] == IdOf(topics, i)
  {
    var subId, pubId, out := 0, 127, [];
    for i := 0 to |topics|
      invariant subId == Count(topics[..i], Subscriber) <= SUBSCRIBER_END
      invariant pubId == PUBLISHER_START + Count(topics[..i], Publisher) <= PUBLISHER_END
      invariant |out| == i && forall j | 0 <= j < i :: out[j] == IdOf(topics, j)
    {
      assert topics[..i + 1][..i] == topics[..i];
      match topics[i] {
        case Publisher =>
          if pubId >= 255 {
            CountMonotone(topics, i + 1, Publisher);
            return None;
          }
          out := out + [pubId];
          pubId := pubId + 1;
        case Subscriber =>
          if subId >= 127 {
            CountMonotone(topics, i + 1, Subscriber);
            return None;
          }
          out := out + [subId];
          subId := subId + 1;
      }
    }
    assert topics[..|topics|] == topics;
    ids := Some(out);
  }

  lemma {:induction false} CountMonotone(topics: seq<Direction>, i: nat, d: Direction)
    requires i <= |topics|
    ensures Count(topics[..i], d) <= Count(topics, d)
    decreases topics
  {
    if i == |topics| {
      assert topics[..i] == topics;
    } else {
      var n := |topics| - 1;
      CountMonotone(topics[..n], i, d);
      assert topics[..n][..i] == topics[..i];
    }
  }

  lemma CountAt(topics: seq<Direction>, i: nat, j: nat)
    requires i < j <= |topics|
    ensures Count(topics[..i], topics[i]) < Count(topics[..j], topics[i])
  {
    CountMonotone(topics[..j], i + 1, topics[i]);
    assert topics[..j][..i + 1] == topics[..i + 1] && topics[..i + 1][..i] == topics[..i];
  }

  /** Subscribers lie in 0 to 126, publishers in 127 to 254. */
  lemma {:induction false} IdRanges(topics: seq<Direction>, i: nat)
    requires Fits(topics) && i < |topics|
    ensures if topics[i].Publisher? then PUBLISHER_START <= IdOf(topics, i) < PUBLISHER_END
            else IdOf(topics, i) < SUBSCRIBER_END
  {
    CountAt(topics, i, |topics|);
    assert topics[..|topics|] == topics;
  }

  lemma {:induction false} IdsDistinct(topics: seq<Direction>, i: nat, j: nat)
    requires Fits(topics) && i < j < |topics|
    ensures IdOf(topics, i) != IdOf(topics, j)
  {
    IdRanges(topics, i);
    IdRanges(topics, j);
    CountAt(topics, i, j);
  }

  /** Later topics of a direction get higher ids. */
  lemma {:induction false} IdsInOrder(topics: seq<Direction>, i: nat, j: nat)
    requires i < j < |topics| && topics[i] == topics[j]
    ensures IdOf(topics, i) < IdOf(topics, j)
  {
    CountAt(topics, i, j);
  }

  /** No id is skipped: subscribers get 0, 1, 2 and so on, publishers 127, 128, 129 and so on. */
  lemma {:induction false} IdsDense(topics: seq<Direction>, d: Direction, n: nat) returns (i: nat)
    requires n < Count(topics, d)
    ensures i < |topics| && topics[i] == d && IdOf(topics, i) == if d.Publisher? then 127 + n else n
    decreases topics
  {
    var last := |topics| - 1;
    if n < Count(topics[..last], d) {
      i := IdsDense(topics[..last], d, n);
      assert topics[..last][..i] == topics[..i];
    } else {
      i := last;
    }
  }

  /** The side an id stands for. */
  function DirectionOf(id: nat): Direction {
    if id >= PUBLISHER_START then Publisher else Subscriber
  }

  lemma {:induction false} DirectionRecovered(topics: seq<Direction>, i: nat)
    requires Fits(topics) && i < |topics|
    ensures DirectionOf(IdOf(topics, i)) == topics[i]
  {
    IdRanges(topics, i);
  }

  // ---- the board's index ----

  /** The last topic with that id. */
  function LastWith(ids: seq<nat>, id: nat): Option<nat> {
    if ids == [] then None
    else
      var n := |ids| - 1;
      if ids[n] == id then Some(n) else LastWith(ids[..n], id)
  }

  /** The index once the topics with those ids are entered. */
  function Entered(before: Option<nat>, ids: seq<nat>, id: nat): Option<nat> {
    if LastWith(ids, id) == None then before else LastWith(ids, id)
  }

  /** The loop of nros_init. */
  method InitTopicMap(ids: seq<nat>, topicMap: array<Option<nat>>)
    requires forall i | 0 <= i < |ids| :: ids[i] < topicMap.Length
    modifies topicMap
    ensures forall k | 0 <= k < topicMap.Length :: topicMap[k] == Entered(old(topicMap[k]), ids, k)
  {
    for i := 0 to |ids|
      invariant forall k | 0 <= k < topicMap.Length :: topicMap[k] == Entered(old(topicMap[k]), ids[..i], k)
    {
      assert ids[..i + 1][..i] == ids[..i];
      topicMap[ids[i]] := Some(i);
    }
    assert ids[..|ids|] == ids;
  }

  lemma {:induction false} LastOfDistinct(ids: seq<nat>, i: nat)
    requires i < |ids| && forall j, k | 0 <= j < k < |ids| :: ids[j] != ids[k]
    ensures LastWith(ids, ids[i]) == Some(i)
    decreases ids
  {
    var n := |ids| - 1;
    if i < n {
      LastOfDistinct(ids[..n], i);
    }
  }

  /** With the generator's ids the index gives every id its own topic. */
  lemma {:induction false} IndexAgrees(topics: seq<Direction>, ids: seq<nat>, i: nat)
    requires Fits(topics) && i < |topics| == |ids| && forall j | 0 <= j < |topics| :: ids[j] == IdOf(topics, j)
    ensures ids[i] < 0x100 && LastWith(ids, ids[i]) == Some(i)
  {
    IdRanges(topics, i);
    forall j, k | 0 <= j < k < |ids|
      ensures ids[j] != ids[k]
    {
      IdsDistinct(topics, j, k);
    }
    LastOfDistinct(ids, i);
  }


}
