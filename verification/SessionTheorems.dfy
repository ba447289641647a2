/** What holds in every first session, and why registration gets done. */
module SessionTheorems {
  import opened Protocol
  import opened StreamParser
  import opened Registration
  import opened Board
  import opened Channel
  import opened AgentNode
  import opened Session

  // ---- every run ----

  lemma InvValid(s: Session, topics: seq<Topic>)
    requires Topics(topics) && Inv(s, topics)
    ensures s.Valid()
  {
    hide BoardStory, AgentStory, Run;
  }

  /** Every step keeps the invariant. */
  lemma InvNext(s: Session, topics: seq<Topic>, action: Action)
    requires Topics(topics) && s.Valid() && Inv(s, topics) && Legal(s, action)
    ensures Inv(Next(s, topics, action), topics)
  {
    match action
    case BoardWrites(n) => InvWrites(s, topics, n);
    case BoardReads(n) => InvReads(s, topics, n);
    case BoardPublishes(id, payload) => InvPublishes(s, topics, id, payload);
    case AgentTurns(n, outbound) => InvTurns(s, topics, n, outbound);
  }

  /** Legal actions that lead from s to t. */
  predicate Leads(s: Session, topics: seq<Topic>, actions: seq<Action>, t: Session)
    requires topics != []
    decreases actions
  {
    if actions == [] then s == t
    else s.Valid() && Legal(s, actions[0]) && Leads(Next(s, topics, actions[0]), topics, actions[1..], t)
  }

  lemma {:induction false} RunInv(s: Session, topics: seq<Topic>, actions: seq<Action>, t: Session)
    requires Topics(topics) && Inv(s, topics) && Leads(s, topics, actions, t)
    ensures Inv(t, topics)
    decreases actions
  {
    hide Inv, Legal, Next;
    if actions != [] {
      InvNext(s, topics, actions[0]);
      RunInv(Next(s, topics, actions[0]), topics, actions[1..], t);
    }
  }

  // ---- safety ----

  /** In every first session the agent's client is created with exactly the accepted topics of the board,
      in the board's order; a board that may publish has had all of them accepted or refused. */
  lemma {:induction false} RegistrationCorrect(topics: seq<Topic>, actions: seq<Action>, t: Session)
    requires Topics(topics) && Leads(Start(topics), topics, actions, t)
    ensures t.agent.client.Some? ==> t.agent.client.value == Accepted(topics)
    ensures t.mcu.registrationComplete ==> t.agent.newTopics == Accepted(topics)
  {
    hide Leads, BoardStory, AgentStory, Upstream, Downstream, Accepted;
    InvStart(topics);
    RunInv(Start(topics), topics, actions, t);
    ClientTopics(topics, t.agent, t.mcu.loaded, Dispatched(t.agent));
    if t.mcu.registrationComplete {
      CompleteHandled(t, topics);
    }
  }

  lemma {:induction false} ClientTopics(topics: seq<Topic>, a: Agent, loaded: seq<Frame>, d: nat)
    requires Topics(topics) && AgentStory(topics, a, loaded, d)
    ensures a.client.Some? ==> a.client.value == Accepted(topics)
    ensures d >= |topics| ==> a.newTopics == Accepted(topics)
  {
    hide Answers, Accepted, OnlyData;
    assert topics[..|topics|] == topics;
  }

  lemma CompleteHandled(t: Session, topics: seq<Topic>)
    requires Topics(topics) && Inv(t, topics) && t.mcu.registrationComplete
    ensures Dispatched(t.agent) >= |topics|
  {
    hide InFlight, Upstream, Script, OnlyData, Accepted, Answers;
    Delivered(t.mcu.parser, t.toMcu, t.agent.sent);
  }

  /** The agent never uses its client before it exists, and the board never loads a frame over one it is
      still sending. */
  lemma {:induction false} OrderingSafe(topics: seq<Topic>, actions: seq<Action>, t: Session)
    requires Topics(topics) && Leads(Start(topics), topics, actions, t)
    ensures !t.agent.fault && !t.mcu.overwrote
  {
    hide InFlight, Upstream, Script, OnlyData, Accepted, Answers;
    InvStart(topics);
    RunInv(Start(topics), topics, actions, t);
  }

  /** What the client has been given to publish is what the board published, in order, without loss or
      duplicate up to where the agent has got. */
  lemma {:induction false} PublishedInOrder(topics: seq<Topic>, actions: seq<Action>, t: Session)
    requires Topics(topics) && Leads(Start(topics), topics, actions, t)
    ensures t.agent.published != [] ==>
              |topics| + 1 <= |t.mcu.loaded| && t.agent.published <= t.mcu.loaded[|topics| + 1..]
    ensures |topics| + 1 <= |t.mcu.loaded| ==> OnlyData(t.mcu.loaded[|topics| + 1..])
  {
    hide InFlight, Script, Accepted, Answers;
    InvStart(topics);
    RunInv(Start(topics), topics, actions, t);
    var n, d := |topics| + 1, Dispatched(t.agent);
    if d >= n {
      assert t.mcu.loaded[n..d] == t.mcu.loaded[n..][..d - n];
    }
    if |t.mcu.parser.calls| <= |topics| {
      assert |t.mcu.loaded| <= |topics|;
    }
  }

  /** picked are the topics with a known quality of service, each once, in order: at gives the place of
      each in topics. */
  predicate Picks(topics: seq<Topic>, at: seq<nat>, picked: seq<Topic>) {
    && |at| == |picked|
    && (forall k | 0 <= k < |at| :: at[k] < |topics| && picked[k] == topics[at[k]])
    && (forall j, k | 0 <= j < k < |at| :: at[j] < at[k])
    && (forall i: nat | i < |topics| :: (topics[i].qos as nat < QOS_COUNT) <==> i in at)
  }

  lemma {:induction false} AcceptedExactly(topics: seq<Topic>) returns (at: seq<nat>)
    ensures Picks(topics, at, Accepted(topics))
  {
    hide Picks, Status;
    at := [];
    if topics == [] {
      PicksNone();
    } else {
      var n := |topics| - 1;
      at := AcceptedExactly(topics[..n]);
      PicksMore(topics[..n], at, Accepted(topics[..n]), topics[n]);
      assert topics == topics[..n] + [topics[n]];
      if Status(topics[n]) == ACK_OK {
        at := at + [n];
      } else {
        assert Accepted(topics) == Accepted(topics[..n]);
      }
    }
  }

  lemma PicksNone()
    ensures Picks([], [], [])
  {
  }

  lemma PicksMore(topics: seq<Topic>, at: seq<nat>, picked: seq<Topic>, t: Topic)
    requires Picks(topics, at, picked)
    ensures if Status(t) == ACK_OK then Picks(topics + [t], at + [|topics|], picked + [t])
            else Picks(topics + [t], at, picked)
  {
    var more := if Status(t) == ACK_OK then at + [|topics|] else at;
    forall i: nat | i < |topics| + 1
      ensures ((topics + [t])[i].qos as nat < QOS_COUNT) <==> i in more
    {
      if i < |topics| {
        assert (topics + [t])[i] == topics[i];
      } else {
        NotYet(at, i);
      }
    }
  }

  lemma NotYet(at: seq<nat>, i: nat)
    requires forall k | 0 <= k < |at| :: at[k] < i
    ensures i !in at
  {
  }
}
