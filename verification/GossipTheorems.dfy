/**
 Gossip over a network that may lose, duplicate and reorder pushes. In every run each member holds, for every node it
 has heard of, a highest-generation info among those it heard (`RunHoldsBest`); what it holds only grows
 (`StepGrows`); if id and generation determine the info, members that heard the same infos hold the same
 (`HeardDetermines`); and members that know the same ids route every key alike (`RoutesAgree`).
 */
module GossipTheorems {
  import opened Bytes
  import opened HashPoint
  import opened Messages
  import opened GossipSpec
  import HashRings
  import R = RingSpec
  import T = RingStability
  import W = RingWalks

  // ----- merging is a join -----------------------------------------------------------------------------------

  /** Held infos are under their ids, were heard, and none heard has a greater generation. */
  ghost predicate Best(infos: Infos, heard: set<NodeInfo>) {
    && (forall id :: id in infos ==> infos[id].id == id && infos[id] in heard)
    && (forall info :: info in heard ==> info.id in infos && info.generation <= infos[info.id].generation)
  }

  lemma MergeKeepsBest(infos: Infos, heard: set<NodeInfo>, info: NodeInfo)
    requires Best(infos, heard)
    ensures Best(Merge(infos, info), heard + {info})
  {
  }

  function InfosIn(news: seq<NodeInfo>): set<NodeInfo> {
    set info | info in news
  }

  lemma InfosCons(heard: set<NodeInfo>, news: seq<NodeInfo>)
    requires news != []
    ensures heard + {news[0]} + InfosIn(news[1..]) == heard + InfosIn(news)
  {
    assert news == [news[0]] + news[1..];
  }

  lemma {:induction false} MergeAllKeepsBest(infos: Infos, heard: set<NodeInfo>, news: seq<NodeInfo>)
    requires Best(infos, heard)
    ensures Best(MergeAll(infos, news), heard + InfosIn(news))
    decreases |news|
  {
    if news == [] {
      assert heard + InfosIn(news) == heard;
    } else {
      MergeKeepsBest(infos, heard, news[0]);
      MergeAllKeepsBest(Merge(infos, news[0]), heard + {news[0]}, news[1..]);
      InfosCons(heard, news);
    }
  }

  /** Knowledge grows: no id is lost and no generation falls. */
  ghost predicate Grows(before: Infos, after: Infos) {
    forall id :: id in before ==> id in after && before[id].generation <= after[id].generation
  }

  lemma {:induction false} MergeAllGrows(infos: Infos, news: seq<NodeInfo>)
    requires forall id :: id in infos ==> infos[id].id == id
    ensures Grows(infos, MergeAll(infos, news))
    decreases |news|
  {
    if news != [] { MergeAllGrows(Merge(infos, news[0]), news[1..]); }
  }

  /** Within a set of infos, id and generation determine the info. */
  ghost predicate Versioned(all: set<NodeInfo>) {
    forall a, b :: a in all && b in all && a.id == b.id && a.generation == b.generation ==> a == b
  }

  /** What is best among the infos heard is unique: the order and number of deliveries do not matter. */
  lemma HeardDetermines(one: Infos, other: Infos, heard: set<NodeInfo>)
    requires Best(one, heard) && Best(other, heard) && Versioned(heard)
    ensures one == other
  {
    forall id | id in one ensures id in other && other[id] == one[id] {
      assert one[id] in heard && other[id] in heard;
    }
    forall id | id in other ensures id in one {
      assert other[id] in heard;
    }
  }

  /** A push of everything a member holds, in some order. */
  ghost predicate PushOf(infos: Infos, push: seq<NodeInfo>) {
    InfosIn(push) == infos.Values
  }

  /** Whoever takes a member's push knows at least as much as that member did when it sent it. */
  lemma DeliveryDominates(sender: Infos, push: seq<NodeInfo>, receiver: Infos, heard: set<NodeInfo>)
    requires PushOf(sender, push) && Best(receiver, heard)
    requires forall id :: id in sender ==> sender[id].id == id
    ensures Grows(sender, MergeAll(receiver, push)) && Grows(receiver, MergeAll(receiver, push))
  {
    MergeAllKeepsBest(receiver, heard, push);
    MergeAllGrows(receiver, push);
    forall id | id in sender
      ensures id in MergeAll(receiver, push) && sender[id].generation <= MergeAll(receiver, push)[id].generation
    {
      assert sender[id] in sender.Values;
      assert sender[id] in InfosIn(push);
    }
  }

  /** What a member holds after a push from another is best among all that either had heard. */
  lemma DeliveryJoins(sender: Infos, sent: set<NodeInfo>, push: seq<NodeInfo>, receiver: Infos, heard: set<NodeInfo>,
                      all: set<NodeInfo>)
    requires Best(sender, sent) && PushOf(sender, push) && Best(receiver, heard) && all == heard + sent
    ensures Best(MergeAll(receiver, push), all)
  {
    var after := MergeAll(receiver, push);
    MergeAllKeepsBest(receiver, heard, push);
    DeliveryDominates(sender, push, receiver, heard);
    forall id | id in after ensures after[id].id == id && after[id] in all {
      if after[id] in sender.Values {
        var other :| other in sender && sender[other] == after[id];
      }
    }
  }

  /** Two members that have exchanged pushes agree. */
  lemma ExchangeAgrees(a: Infos, heardA: set<NodeInfo>, pushA: seq<NodeInfo>,
                       b: Infos, heardB: set<NodeInfo>, pushB: seq<NodeInfo>)
    requires Best(a, heardA) && PushOf(a, pushA) && Best(b, heardB) && PushOf(b, pushB)
    requires Versioned(heardA + heardB)
    ensures MergeAll(a, pushB) == MergeAll(b, pushA)
  {
    var all := heardA + heardB;
    DeliveryJoins(b, heardB, pushB, a, heardA, all);
    Swapped(heardA, heardB);
    DeliveryJoins(a, heardA, pushA, b, heardB, all);
    HeardDetermines(MergeAll(a, pushB), MergeAll(b, pushA), all);
  }

  lemma Swapped(a: set<NodeInfo>, b: set<NodeInfo>)
    ensures a + b == b + a
  {
  }

  // ----- runs over an unreliable network ---------------------------------------------------------------------

  /** The members, and every push ever sent; a push may be delivered at any later time, any number of times. */
  datatype Network = Network(members: map<NodeId, Member>, sent: set<seq<NodeInfo>>)

  /** A member hears an info in a handshake, sends a push, or is delivered one. */
  datatype Step =
    | Hear(who: NodeId, info: NodeInfo)
    | Send(who: NodeId, push: seq<NodeInfo>)
    | Deliver(who: NodeId, push: seq<NodeInfo>)

  ghost predicate Enabled(n: Network, step: Step) {
    && step.who in n.members
    && match step
       case Hear(_, _) => true
       case Send(who, push) => PushOf(n.members[who].infos, push)
       case Deliver(_, push) => push in n.sent
  }

  function Apply(n: Network, virtualNodes: u64, step: Step): (r: Network) {
    if step.who !in n.members then n
    else
      match step
      case Hear(who, info) => n.(members := n.members[who := Learn(n.members[who], virtualNodes, info)])
      case Send(_, push) => n.(sent := n.sent + {push})
      case Deliver(who, push) => n.(members := n.members[who := HandlePush(n.members[who], virtualNodes, push)])
  }

  function Run(selves: Infos, virtualNodes: u64, steps: seq<Step>): (n: Network)
    decreases |steps|
  {
    if steps == [] then Network(map who | who in selves :: Start(virtualNodes, selves[who]), {})
    else Apply(Run(selves, virtualNodes, steps[..|steps| - 1]), virtualNodes, steps[|steps| - 1])
  }

  /** Every step of the run is enabled where it is taken. */
  ghost predicate Possible(selves: Infos, virtualNodes: u64, steps: seq<Step>)
    decreases |steps|
  {
    steps == [] ||
    (Possible(selves, virtualNodes, steps[..|steps| - 1])
     && Enabled(Run(selves, virtualNodes, steps[..|steps| - 1]), steps[|steps| - 1]))
  }

  /** Every info a member was told in a run, itself included. */
  function HeardBy(selves: Infos, steps: seq<Step>, who: NodeId): set<NodeInfo>
    requires who in selves
    decreases |steps|
  {
    if steps == [] then {selves[who]}
    else
      HeardBy(selves, steps[..|steps| - 1], who) + HeardIn(steps[|steps| - 1], who)
  }

  lemma {:induction false} PushMerges(m: Member, virtualNodes: u64, news: seq<NodeInfo>)
    ensures HandlePush(m, virtualNodes, news).infos == MergeAll(m.infos, news)
    decreases |news|
  {
    if news != [] { PushMerges(Learn(m, virtualNodes, news[0]), virtualNodes, news[1..]); }
  }

  /**
   In every run, however pushes are lost, repeated or reordered, each member holds exactly the nodes it has heard of,
   each with a highest-generation info among those it heard.
   */
  lemma {:induction false} RunHoldsBest(selves: Infos, virtualNodes: u64, steps: seq<Step>, who: NodeId)
    requires who in selves && selves[who].id == who && Possible(selves, virtualNodes, steps)
    ensures who in Run(selves, virtualNodes, steps).members
    ensures Best(Run(selves, virtualNodes, steps).members[who].infos, HeardBy(selves, steps, who))
    decreases |steps|
  {
    if steps != [] {
      RunHoldsBest(selves, virtualNodes, steps[..|steps| - 1], who);
      StepHoldsBest(Run(selves, virtualNodes, steps[..|steps| - 1]), virtualNodes, steps[|steps| - 1], who,
                    HeardBy(selves, steps[..|steps| - 1], who));
    }
  }

  function HeardIn(step: Step, who: NodeId): set<NodeInfo> {
    match step
    case Hear(w, info) => if w == who then {info} else {}
    case Send(_, _) => {}
    case Deliver(w, push) => if w == who then InfosIn(push) else {}
  }

  lemma StepHoldsBest(n: Network, virtualNodes: u64, step: Step, who: NodeId, heard: set<NodeInfo>)
    requires Enabled(n, step) && who in n.members && Best(n.members[who].infos, heard)
    ensures Best(Apply(n, virtualNodes, step).members[who].infos, heard + HeardIn(step, who))
  {
    match step
    case Hear(w, info) =>
      if w == who { MergeKeepsBest(n.members[who].infos, heard, info); } else { assert heard + {} == heard; }
    case Send(_, _) =>
      assert heard + {} == heard;
    case Deliver(w, push) =>
      if w == who {
        PushMerges(n.members[who], virtualNodes, push);
        MergeAllKeepsBest(n.members[who].infos, heard, push);
      } else {
        assert heard + {} == heard;
      }
  }

  /** Over a run a member's knowledge only grows. */
  lemma {:induction false} RunGrows(selves: Infos, virtualNodes: u64, steps: seq<Step>, i: nat, who: NodeId)
    requires who in selves && selves[who].id == who && Possible(selves, virtualNodes, steps) && i <= |steps|
    ensures who in Run(selves, virtualNodes, steps[..i]).members && who in Run(selves, virtualNodes, steps).members
    ensures Grows(Run(selves, virtualNodes, steps[..i]).members[who].infos,
                  Run(selves, virtualNodes, steps).members[who].infos)
    decreases |steps|
  {
    RunHoldsBest(selves, virtualNodes, steps, who);
    if i == |steps| {
      assert steps[..i] == steps;
    } else {
      var shorter := steps[..|steps| - 1];
      assert shorter[..i] == steps[..i];
      RunGrows(selves, virtualNodes, shorter, i, who);
      RunHoldsBest(selves, virtualNodes, shorter, who);
      StepGrows(Run(selves, virtualNodes, shorter), virtualNodes, steps[|steps| - 1], who,
                HeardBy(selves, shorter, who));
    }
  }

  lemma StepGrows(n: Network, virtualNodes: u64, step: Step, who: NodeId, heard: set<NodeInfo>)
    requires Enabled(n, step) && who in n.members && Best(n.members[who].infos, heard)
    ensures Grows(n.members[who].infos, Apply(n, virtualNodes, step).members[who].infos)
  {
    if step.Deliver? {
      PushMerges(n.members[step.who], virtualNodes, step.push);
      if step.who == who { MergeAllGrows(n.members[who].infos, step.push); }
    }
  }

  /** Everything that entered the cluster from outside: the nodes themselves and what was heard in handshakes. */
  function Introduced(selves: Infos, steps: seq<Step>): set<NodeInfo>
    decreases |steps|
  {
    if steps == [] then selves.Values
    else
      Introduced(selves, steps[..|steps| - 1])
      + if steps[|steps| - 1].Hear? then {steps[|steps| - 1].info} else {}
  }

  /** Nothing is made up: what any member heard, and so what it holds, was introduced. */
  lemma {:induction false} HeardWasIntroduced(selves: Infos, virtualNodes: u64, steps: seq<Step>)
    requires (forall who :: who in selves ==> selves[who].id == who) && Possible(selves, virtualNodes, steps)
    ensures forall who :: who in selves ==> HeardBy(selves, steps, who) <= Introduced(selves, steps)
    ensures forall push :: push in Run(selves, virtualNodes, steps).sent ==> InfosIn(push) <= Introduced(selves, steps)
    decreases |steps|
  {
    if steps != [] {
      var shorter, last := steps[..|steps| - 1], steps[|steps| - 1];
      HeardWasIntroduced(selves, virtualNodes, shorter);
      var n := Run(selves, virtualNodes, shorter);
      match last
      case Hear(_, _) =>
      case Send(who, push) =>
        MembersAre(selves, virtualNodes, shorter);
        RunHoldsBest(selves, virtualNodes, shorter, who);
        SentWasHeard(n.members[who].infos, HeardBy(selves, shorter, who), push);
      case Deliver(_, _) =>
    }
  }

  lemma SentWasHeard(infos: Infos, heard: set<NodeInfo>, push: seq<NodeInfo>)
    requires Best(infos, heard) && PushOf(infos, push)
    ensures InfosIn(push) <= heard
  {
    forall info | info in InfosIn(push) ensures info in heard {
      var id :| id in infos && infos[id] == info;
    }
  }

  lemma {:induction false} MembersAre(selves: Infos, virtualNodes: u64, steps: seq<Step>)
    ensures Run(selves, virtualNodes, steps).members.Keys == selves.Keys
    decreases |steps|
  {
    if steps != [] { MembersAre(selves, virtualNodes, steps[..|steps| - 1]); }
  }

  /**
   If id and generation determine the info, then members of any two runs that heard the same infos hold the same,
   in whatever order and however often they heard them.
   */
  lemma OrderDoesNotMatter(selves: Infos, virtualNodes: u64, one: seq<Step>, a: NodeId, other: seq<Step>, b: NodeId)
    requires a in selves && b in selves && forall who :: who in selves ==> selves[who].id == who
    requires Possible(selves, virtualNodes, one) && Possible(selves, virtualNodes, other)
    requires Versioned(Introduced(selves, one))
    requires HeardBy(selves, one, a) == HeardBy(selves, other, b)
    ensures a in Run(selves, virtualNodes, one).members && b in Run(selves, virtualNodes, other).members
    ensures Run(selves, virtualNodes, one).members[a].infos == Run(selves, virtualNodes, other).members[b].infos
  {
    RunHoldsBest(selves, virtualNodes, one, a);
    RunHoldsBest(selves, virtualNodes, other, b);
    HeardWasIntroduced(selves, virtualNodes, one);
    HeardDetermines(Run(selves, virtualNodes, one).members[a].infos, Run(selves, virtualNodes, other).members[b].infos,
                    HeardBy(selves, one, a));
  }

  // ----- routing ---------------------------------------------------------------------------------------------

  /** The ring's nodes are the nodes known; without collisions each owns its points. */
  ghost predicate Routed(m: Member, virtualNodes: u64) {
    && R.Listed(m.ring)
    && m.ring.nodes == m.infos.Keys
    && W.OwnersPlaced(m.ring, HashRings.Placing(virtualNodes))
    && (T.Collisionless(HashRings.Placing(virtualNodes), m.infos.Keys)
        ==> T.Owned(m.ring, HashRings.Placing(virtualNodes)))
  }

  lemma FewerCollisions(place: T.Placement<NodeId>, some: set<NodeId>, all: set<NodeId>)
    requires some <= all && T.Collisionless(place, all)
    ensures T.Collisionless(place, some)
  {
  }

  lemma JoinRouted(ring: R.Ring<NodeId>, virtualNodes: u64, id: NodeId)
    requires R.Listed(ring) && W.OwnersPlaced(ring, HashRings.Placing(virtualNodes))
    requires T.Collisionless(HashRings.Placing(virtualNodes), ring.nodes)
        ==> T.Owned(ring, HashRings.Placing(virtualNodes))
    ensures var r := R.AddNode(ring, HashRings.Places(virtualNodes, id), id);
      && R.Listed(r) && r.nodes == ring.nodes + {id} && W.OwnersPlaced(r, HashRings.Placing(virtualNodes))
      && (T.Collisionless(HashRings.Placing(virtualNodes), r.nodes) ==> T.Owned(r, HashRings.Placing(virtualNodes)))
  {
    var place := HashRings.Placing(virtualNodes);
    assert place(id) == HashRings.Places(virtualNodes, id);
    T.AddListed(ring, place(id), id);
    W.AddKeepsPlaced(ring, place, id);
    if T.Collisionless(place, ring.nodes + {id}) {
      FewerCollisions(place, ring.nodes, ring.nodes + {id});
      T.AddKeepsOwned(ring, place, id);
    }
  }

  lemma StartRouted(virtualNodes: u64, self: NodeInfo)
    ensures Routed(Start(virtualNodes, self), virtualNodes)
  {
    JoinRouted(R.Empty(), virtualNodes, self.id);
  }

  lemma LearnKeepsRouted(m: Member, virtualNodes: u64, info: NodeInfo)
    requires Routed(m, virtualNodes)
    ensures Routed(Learn(m, virtualNodes, info), virtualNodes)
  {
    JoinRouted(m.ring, virtualNodes, info.id);
  }

  lemma {:induction false} PushKeepsRouted(m: Member, virtualNodes: u64, news: seq<NodeInfo>)
    requires Routed(m, virtualNodes)
    ensures Routed(HandlePush(m, virtualNodes, news), virtualNodes)
    decreases |news|
  {
    if news != [] {
      LearnKeepsRouted(m, virtualNodes, news[0]);
      PushKeepsRouted(Learn(m, virtualNodes, news[0]), virtualNodes, news[1..]);
    }
  }

  /** In every run the ring of every member is over exactly the nodes it knows. */
  lemma {:induction false} RunRouted(selves: Infos, virtualNodes: u64, steps: seq<Step>, who: NodeId)
    requires who in selves
    ensures who in Run(selves, virtualNodes, steps).members
    ensures Routed(Run(selves, virtualNodes, steps).members[who], virtualNodes)
    decreases |steps|
  {
    if steps == [] {
      StartRouted(virtualNodes, selves[who]);
    } else {
      RunRouted(selves, virtualNodes, steps[..|steps| - 1], who);
      var m, last := Run(selves, virtualNodes, steps[..|steps| - 1]).members[who], steps[|steps| - 1];
      match last
      case Hear(_, info) => LearnKeepsRouted(m, virtualNodes, info);
      case Send(_, _) =>
      case Deliver(_, push) => PushKeepsRouted(m, virtualNodes, push);
    }
  }

  /**
   Members that know the same ids have the same ring, so they choose the same nodes for every key, in the same order;
   and every node chosen is one they hold an info of.
   */
  lemma RoutesAgree(a: Member, b: Member, virtualNodes: u64, hash: nat, count: nat)
    requires Routed(a, virtualNodes) && Routed(b, virtualNodes) && a.infos.Keys == b.infos.Keys != {}
    requires T.Collisionless(HashRings.Placing(virtualNodes), a.infos.Keys) && virtualNodes > 0
    ensures a.ring == b.ring && R.Terminates(a.ring, hash, count)
    ensures R.GetNodes(a.ring, hash, count) == R.GetNodes(b.ring, hash, count)
    ensures forall i :: 0 <= i < |R.GetNodes(a.ring, hash, count)| ==> R.GetNodes(a.ring, hash, count)[i] in a.infos
  {
    var place := HashRings.Placing(virtualNodes);
    T.OwnedUnique(a.ring, b.ring, place);
    W.GetNodesExact(a.ring, place, hash, count, count);
  }

  /** So in every run, any two members that know the same ids route every key alike. */
  lemma RunRoutesAgree(selves: Infos, virtualNodes: u64, steps: seq<Step>, a: NodeId, b: NodeId, hash: nat, count: nat)
    requires a in selves && b in selves && virtualNodes > 0
    requires a in Run(selves, virtualNodes, steps).members && b in Run(selves, virtualNodes, steps).members
    requires var n := Run(selves, virtualNodes, steps);
      && n.members[a].infos.Keys == n.members[b].infos.Keys != {}
      && T.Collisionless(HashRings.Placing(virtualNodes), n.members[a].infos.Keys)
    ensures var n := Run(selves, virtualNodes, steps);
      && n.members[a].ring == n.members[b].ring
      && R.Listed(n.members[a].ring) && R.Terminates(n.members[a].ring, hash, count)
      && R.GetNodes(n.members[a].ring, hash, count) == R.GetNodes(n.members[b].ring, hash, count)
  {
    RunRouted(selves, virtualNodes, steps, a);
    RunRouted(selves, virtualNodes, steps, b);
    var n := Run(selves, virtualNodes, steps);
    RoutesAgree(n.members[a], n.members[b], virtualNodes, hash, count);
  }
}
