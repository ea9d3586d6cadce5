/**
 * Gossip membership (api/queel/cluster/membership.go) and the leader of the scheduled close worker
 * (api/scheduled_close.go).
 */
module Gossip {
  import opened Bytes
  import opened Sorting
  import opened HashRing

  datatype Status = Alive | Dead

  /** What a view believes about one node. */
  datatype Member = Member(node: Node, status: Status, incarnation: int)

  type View = map<Node, Member>

  /** Every entry is about the node it is stored under. */
  ghost predicate Keyed(v: View)
  {
    forall n :: n in v ==> v[n].node == n
  }

  /** A higher incarnation wins; at an equal one a verdict of death does. */
  predicate IsNewer(candidate: Member, current: Member)
  {
    if candidate.incarnation != current.incarnation then candidate.incarnation > current.incarnation
    else candidate.status == Dead && current.status == Alive
  }

  // ---- Views form a join semilattice ----

  function Join(a: View, b: View): View
  {
    map n | n in a.Keys + b.Keys :: if n in a && (n !in b || !IsNewer(b[n], a[n])) then a[n] else b[n]
  }

  /** Everything `a` knows, `b` knows as well or something newer. */
  ghost predicate AtMost(a: View, b: View)
  {
    forall n :: n in a ==> n in b && (a[n] == b[n] || IsNewer(b[n], a[n]))
  }

  lemma JoinCommutes(a: View, b: View)
    requires Keyed(a) && Keyed(b)
    ensures Join(a, b) == Join(b, a)
  {
    forall n | n in a && n in b
      ensures Join(a, b)[n] == Join(b, a)[n]
    {
      assert a[n].node == b[n].node;
    }
  }

  lemma JoinAssociates(a: View, b: View, c: View)
    ensures Join(Join(a, b), c) == Join(a, Join(b, c))
  {
    var x, y := Join(Join(a, b), c), Join(a, Join(b, c));
    assert x.Keys == y.Keys;
    forall n | n in x
      ensures x[n] == y[n]
    {
    }
  }

  lemma JoinIdempotent(a: View)
    ensures Join(a, a) == a
  {
  }

  /** The order of views is a partial order, and the join of two views their least upper bound. */
  lemma JoinIsLeastUpperBound(a: View, b: View, c: View)
    requires Keyed(a) && Keyed(b)
    ensures AtMost(a, Join(a, b)) && AtMost(b, Join(a, b))
    ensures AtMost(a, c) && AtMost(b, c) <==> AtMost(Join(a, b), c)
    ensures AtMost(a, b) <==> Join(a, b) == b
  {
    JoinAbove(a, b);
    JoinCommutes(a, b);
    JoinAbove(b, a);
    if AtMost(a, b) {
      assert Join(a, b) == b;
    }
    if AtMost(Join(a, b), c) {
      AtMostTransitive(a, Join(a, b), c);
      AtMostTransitive(b, Join(a, b), c);
    }
  }

  lemma JoinAbove(a: View, b: View)
    ensures AtMost(a, Join(a, b))
  {
  }

  lemma AtMostTransitive(a: View, b: View, c: View)
    requires AtMost(a, b) && AtMost(b, c)
    ensures AtMost(a, c)
  {
  }

  lemma AtMostAntisymmetric(a: View, b: View)
    requires AtMost(a, b) && AtMost(b, a)
    ensures a == b
  {
    assert a.Keys == b.Keys;
  }

  // ---- Merging messages ----

  /** What a message says, a later entry for a node counting only if it is newer. */
  function ViewOf(message: seq<Member>): View
  {
    if message == [] then map[]
    else
      var last := message[|message| - 1];
      Join(ViewOf(message[..|message| - 1]), map[last.node := last])
  }

  lemma {:induction false} ViewOfKeyed(message: seq<Member>)
    ensures Keyed(ViewOf(message))
  {
    if message != [] {
      ViewOfKeyed(message[..|message| - 1]);
    }
  }

  /** Each entry is covered by the view, and each entry of the view is one of the message's. */
  lemma {:induction false} ViewOfCovers(message: seq<Member>)
    ensures forall m :: m in message ==> AtMost(map[m.node := m], ViewOf(message))
    ensures forall n :: n in ViewOf(message) ==> ViewOf(message)[n] in message
  {
    if message != [] {
      var front, last := message[..|message| - 1], message[|message| - 1];
      ViewOfCovers(front);
      ViewOfKeyed(front);
      assert message == front + [last];
      JoinIsLeastUpperBound(ViewOf(front), map[last.node := last], ViewOf(message));
      forall m | m in message
        ensures AtMost(map[m.node := m], ViewOf(message))
      {
        if m in front {
          AtMostTransitive(map[m.node := m], ViewOf(front), ViewOf(message));
        }
      }
    }
  }

  /** What a message says depends only on the entries in it, not on their order or how often they occur. */
  lemma ViewOfSet(a: seq<Member>, b: seq<Member>)
    requires forall m :: m in a ==> m in b
    ensures AtMost(ViewOf(a), ViewOf(b))
    ensures (forall m :: m in b ==> m in a) ==> ViewOf(a) == ViewOf(b)
  {
    ViewOfCovers(a);
    ViewOfCovers(b);
    ViewOfKeyed(a);
    ViewOfKeyed(b);
    forall n | n in ViewOf(a)
      ensures n in ViewOf(b) && (ViewOf(a)[n] == ViewOf(b)[n] || IsNewer(ViewOf(b)[n], ViewOf(a)[n]))
    {
      var m := ViewOf(a)[n];
      assert AtMost(map[m.node := m], ViewOf(b));
      assert m in map[m.node := m].Values && m.node == n;
      assert n in map[m.node := m];
    }
    if forall m :: m in b ==> m in a {
      forall n | n in ViewOf(b)
        ensures n in ViewOf(a) && (ViewOf(b)[n] == ViewOf(a)[n] || IsNewer(ViewOf(a)[n], ViewOf(b)[n]))
      {
        var m := ViewOf(b)[n];
        assert AtMost(map[m.node := m], ViewOf(a));
        assert m.node == n;
        assert n in map[m.node := m];
      }
      AtMostAntisymmetric(ViewOf(a), ViewOf(b));
    }
  }

  /** A message listing a view once, in whatever order, says exactly that view. */
  lemma ListsView(v: View, message: seq<Member>)
    requires Keyed(v)
    requires forall m :: m in message <==> m.node in v && v[m.node] == m
    ensures ViewOf(message) == v
  {
    ViewOfCovers(message);
    ViewOfKeyed(message);
    forall n | n in v
      ensures n in ViewOf(message) && ViewOf(message)[n] == v[n]
    {
      var m := v[n];
      assert m in message;
      assert AtMost(map[m.node := m], ViewOf(message));
      assert n in map[m.node := m];
    }
  }

  /** The view after a run of messages arriving at one node. */
  function AfterMessages(v: View, messages: seq<seq<Member>>): View
  {
    if messages == [] then v else Join(AfterMessages(v, messages[..|messages| - 1]), ViewOf(messages[|messages| - 1]))
  }

  lemma NothingNew(v: View)
    ensures Join(v, ViewOf([])) == v
  {
  }

  lemma OneMoreEntry(v: View, message: seq<Member>, i: nat)
    requires i < |message|
    ensures var before, incoming := Join(v, ViewOf(message[..i])), message[i];
            Join(v, ViewOf(message[..i + 1])) ==
              if incoming.node !in before || IsNewer(incoming, before[incoming.node])
              then before[incoming.node := incoming]
              else before
  {
    var before, incoming := Join(v, ViewOf(message[..i])), message[i];
    assert message[..i + 1][..i] == message[..i];
    JoinAssociates(v, ViewOf(message[..i]), map[incoming.node := incoming]);
    JoinOne(before, incoming);
  }

  lemma JoinOne(v: View, m: Member)
    ensures Join(v, map[m.node := m]) == if m.node !in v || IsNewer(m, v[m.node]) then v[m.node := m] else v
  {
  }

  function Flatten(messages: seq<seq<Member>>): seq<Member>
  {
    if messages == [] then [] else Flatten(messages[..|messages| - 1]) + messages[|messages| - 1]
  }

  lemma {:induction false} ViewOfAppend(a: seq<Member>, b: seq<Member>)
    ensures ViewOf(a + b) == Join(ViewOf(a), ViewOf(b))
  {
    if b == [] {
      assert a + b == a;
      assert Join(ViewOf(a), map[]) == ViewOf(a);
    } else {
      var front, last := b[..|b| - 1], b[|b| - 1];
      ViewOfAppend(a, front);
      assert (a + b)[..|a + b| - 1] == a + front;
      JoinAssociates(ViewOf(a), ViewOf(front), map[last.node := last]);
    }
  }

  lemma {:induction false} AfterMessagesJoins(v: View, messages: seq<seq<Member>>)
    ensures AfterMessages(v, messages) == Join(v, ViewOf(Flatten(messages)))
  {
    if messages == [] {
      assert Join(v, map[]) == v;
    } else {
      var front, last := messages[..|messages| - 1], messages[|messages| - 1];
      AfterMessagesJoins(v, front);
      ViewOfAppend(Flatten(front), last);
      JoinAssociates(v, ViewOf(Flatten(front)), ViewOf(last));
    }
  }

  /** However messages are split, reordered or repeated, the view they leave behind is the same. */
  lemma OrderAndDuplicationDoNotMatter(v: View, a: seq<seq<Member>>, b: seq<seq<Member>>)
    requires forall m :: m in Flatten(a) <==> m in Flatten(b)
    ensures AfterMessages(v, a) == AfterMessages(v, b)
  {
    AfterMessagesJoins(v, a);
    AfterMessagesJoins(v, b);
    ViewOfSet(Flatten(a), Flatten(b));
  }

  // ---- Verdicts, and runs of everything that can happen ----

  /** A failed exchange: a known node is dead one incarnation later, an unknown one as of now. */
  function AfterMarkDead(v: View, node: Node, now: int): View
  {
    v[node := Member(node, Dead, if node in v then v[node].incarnation + 1 else now)]
  }

  /** The views of all nodes together with every message ever sent, any of which may still arrive, or arrive again. */
  datatype Network = Network(views: map<Node, View>, sent: set<View>)

  datatype Happening =
    | Starts(node: Node, now: int)
    | Sends(node: Node)
    | Receives(node: Node, message: View)
    | Condemns(node: Node, suspect: Node, now: int)

  /** Snapshots, deliveries and verdicts interleave in any order; a message may be late, lost or repeated. */
  ghost predicate Happens(s: Network, e: Happening, t: Network)
  {
    match e
    case Starts(n, now) => n !in s.views && t == s.(views := s.views[n := map[n := Member(n, Alive, now)]])
    case Sends(n) => n in s.views && t == s.(sent := s.sent + {s.views[n]})
    case Receives(n, message) =>
      n in s.views && message in s.sent && t == s.(views := s.views[n := Join(s.views[n], message)])
    case Condemns(n, suspect, now) =>
      n in s.views && t == s.(views := s.views[n := AfterMarkDead(s.views[n], suspect, now)])
  }

  ghost predicate Runs(run: seq<Network>, happenings: seq<Happening>)
  {
    |run| == |happenings| + 1 && forall i :: 0 <= i < |happenings| ==> Happens(run[i], happenings[i], run[i + 1])
  }

  /** What holds throughout: entries are stored under their own node, and no message knows more than some view does. */
  ghost predicate Sound(s: Network)
  {
    && (forall n :: n in s.views ==> Keyed(s.views[n]))
    && forall message :: message in s.sent ==>
         Keyed(message) && exists n :: n in s.views && AtMost(message, s.views[n])
  }

  lemma StepClimbs(s: Network, e: Happening, t: Network)
    requires Sound(s) && Happens(s, e, t)
    ensures Sound(t)
    ensures forall n :: n in s.views ==> n in t.views && AtMost(s.views[n], t.views[n])
  {
    hide Join;
    forall n | n in s.views
      ensures n in t.views && AtMost(s.views[n], t.views[n])
    {
      if e.Receives? && e.node == n {
        JoinIsLeastUpperBound(s.views[n], e.message, t.views[n]);
      }
    }
    if e.Receives? {
      JoinKeyed(s.views[e.node], e.message);
    }
    forall message | message in t.sent
      ensures Keyed(message) && exists n :: n in t.views && AtMost(message, t.views[n])
    {
      if message in s.sent {
        var n :| n in s.views && AtMost(message, s.views[n]);
        AtMostTransitive(message, s.views[n], t.views[n]);
      } else {
        assert AtMost(message, t.views[e.node]);
      }
    }
  }

  lemma JoinKeyed(a: View, b: View)
    requires Keyed(a) && Keyed(b)
    ensures Keyed(Join(a, b))
  {
  }

  /** Under every interleaving each entry of each view only climbs, and no message is ever ahead of all views. */
  lemma {:induction false} ViewsOnlyClimb(run: seq<Network>, happenings: seq<Happening>, i: nat, j: nat)
    requires Runs(run, happenings) && i <= j < |run| && Sound(run[i])
    ensures Sound(run[j])
    ensures forall n :: n in run[i].views ==> n in run[j].views && AtMost(run[i].views[n], run[j].views[n])
    decreases j - i
  {
    hide Happens;
    if i < j {
      ViewsOnlyClimb(run, happenings, i, j - 1);
      StepClimbs(run[j - 1], happenings[j - 1], run[j]);
      forall n | n in run[i].views
        ensures n in run[j].views && AtMost(run[i].views[n], run[j].views[n])
      {
        AtMostTransitive(run[i].views[n], run[j - 1].views[n], run[j].views[n]);
      }
    }
  }

  /**
   * A push-pull exchange with anything happening in between: `pushed` is the snapshot sent, `theirs` the peer's
   * view when it arrives, `mine` this node's view when the answer does. Both end knowing at least the join of the
   * two views, and exactly that when this node's view has not moved meanwhile.
   */
  lemma PushPullReachesJoin(pushed: View, theirs: View, mine: View)
    requires Keyed(pushed) && Keyed(theirs) && Keyed(mine) && AtMost(pushed, mine)
    ensures Join(theirs, pushed) == Join(pushed, theirs)
    ensures AtMost(Join(pushed, theirs), Join(mine, Join(theirs, pushed)))
    ensures mine == pushed ==> Join(mine, Join(theirs, pushed)) == Join(theirs, pushed) == Join(pushed, theirs)
  {
    JoinCommutes(pushed, theirs);
    var join := Join(pushed, theirs);
    JoinKeyed(pushed, theirs);
    JoinIsLeastUpperBound(mine, join, Join(mine, join));
    JoinAssociates(pushed, pushed, theirs);
    JoinIdempotent(pushed);
  }

  /** A restarted node is believed alive exactly where no later incarnation, nor a verdict on this one, is known. */
  lemma RestartBelievedExactly(v: View, node: Node, started: int)
    requires Keyed(v)
    ensures var after := Join(v, map[node := Member(node, Alive, started)]);
            node in after &&
            (after[node] == Member(node, Alive, started) <==>
              node !in v || v[node].incarnation < started || v[node] == Member(node, Alive, started))
  {
  }

  /** A verdict is believed wherever it arrives, exactly unless the node is known alive there in a later incarnation. */
  lemma VerdictBelievedExactly(judge: View, v: View, node: Node, now: int)
    requires Keyed(judge) && Keyed(v)
    ensures var verdict := AfterMarkDead(judge, node, now);
            node in AliveIn(Join(v, verdict)) <==>
              node in AliveIn(v) && v[node].incarnation > verdict[node].incarnation
  {
  }

  /** A node need not see itself alive: a verdict that reaches it is taken like any other news. */
  lemma OwnDeathIsBelieved(self: Node, started: int)
    ensures var own := map[self := Member(self, Alive, started)];
            Join(own, AfterMarkDead(own, self, 0))[self].status == Dead
  {
  }

  // ---- The leader ----

  function AliveIn(v: View): set<Node>
  {
    set n | n in v && v[n].status == Alive
  }

  /** The least of the nodes a view believes alive. */
  predicate Leads(v: View, self: Node)
  {
    self in AliveIn(v) && forall n :: n in AliveIn(v) && n != self ==> Less(self, n)
  }

  /** Nodes holding one view agree on at most one leader. */
  lemma AtMostOneLeader(v: View, a: Node, b: Node)
    requires Leads(v, a) && Leads(v, b)
    ensures a == b
  {
    LessTrichotomy(a, b);
  }

  /** As long as anyone is believed alive there is a leader. */
  lemma SomeLeader(v: View) returns (leader: Node)
    requires AliveIn(v) != {}
    ensures Leads(v, leader)
  {
    leader := LeastOf(AliveIn(v));
  }

  lemma {:induction false} LeastOf(s: set<Node>) returns (least: Node)
    requires s != {}
    ensures least in s && forall n :: n in s && n != least ==> Less(least, n)
    decreases |s|
  {
    var x :| x in s;
    least := x;
    var rest := s - {x};
    assert s == rest + {x};
    if rest != {} {
      var y := LeastOf(rest);
      LessTrichotomy(x, y);
      if !Less(x, y) {
        least := y;
      } else {
        forall n | n in s && n != x
          ensures Less(x, n)
        {
          if n != y {
            LessTransitive(x, y, n);
          }
        }
      }
    }
  }

  /** The nodes come out in ascending order, each once. */
  ghost predicate ListsNodes(s: seq<Node>, nodes: set<Node>)
  {
    (forall i, j :: 0 <= i < j < |s| ==> Less(s[i], s[j])) && forall n :: n in s <==> n in nodes
  }

  // ---- The membership a node keeps ----

  /** What becomes of one exchange: completed, refused with the peer's view merged or not, or answered illegibly. */
  datatype Exchange = Completed | Refused(merged: bool) | Illegible

  class Membership {
    const self: Node
    var members: View

    constructor (self: Node, now: int)
      ensures this.self == self && members == map[self := Member(self, Alive, now)]
    {
      this.self := self;
      members := map[self := Member(self, Alive, now)];
    }

    /** Takes every entry that is news. */
    method Merge(view: seq<Member>)
      modifies this
      ensures members == Join(old(members), ViewOf(view))
    {
      NothingNew(members);
      hide Join;
      hide ViewOf;
      for i := 0 to |view|
        invariant members == Join(old(members), ViewOf(view[..i]))
      {
        var incoming := view[i];
        OneMoreEntry(old(members), view, i);
        if incoming.node !in members || IsNewer(incoming, members[incoming.node]) {
          members := members[incoming.node := incoming];
        }
      }
      assert view[..|view|] == view;
    }

    /** The whole view as a message, in no particular order. */
    method Snapshot() returns (view: seq<Member>)
      requires Keyed(members)
      ensures forall m :: m in view <==> m.node in members && members[m.node] == m
      ensures ViewOf(view) == members
    {
      view := [];
      var todo := members.Keys;
      while todo != {}
        invariant todo <= members.Keys
        invariant forall m :: m in view <==> m.node in members.Keys - todo && members[m.node] == m
      {
        var n :| n in todo;
        view := view + [members[n]];
        todo := todo - {n};
      }
      ListsView(members, view);
    }

    /** Merges a peer's view and answers with the result. */
    method HandleGossip(theirView: seq<Member>) returns (view: seq<Member>)
      requires Keyed(members)
      modifies this
      ensures members == Join(old(members), ViewOf(theirView)) && Keyed(members)
      ensures ViewOf(view) == members
    {
      Merge(theirView);
      ViewOfKeyed(theirView);
      JoinKeyed(old(members), ViewOf(theirView));
      view := Snapshot();
    }

    /** The node is no longer believed alive; all else this view knew, it still knows or something newer. */
    method MarkDead(node: Node, now: int)
      modifies this
      ensures members == AfterMarkDead(old(members), node, now)
      ensures AtMost(old(members), members) && AliveIn(members) == AliveIn(old(members)) - {node}
      ensures node in members && members[node].status == Dead
        && members[node].incarnation == if node in old(members) then old(members)[node].incarnation + 1 else now
      ensures Keyed(old(members)) ==> Keyed(members)
    {
      var incarnation := if node in members then members[node].incarnation + 1 else now;
      members := members[node := Member(node, Dead, incarnation)];
    }

    /** One exchange with a peer: completed, both hold the join of the two views; failed, the peer is held dead. */
    method GossipWith(peer: Membership, exchange: Exchange, now: int) returns (ok: bool)
      requires peer != this && Keyed(members) && Keyed(peer.members)
      modifies this, peer
      ensures ok == exchange.Completed?
      ensures exchange.Completed? ==> members == peer.members == Join(old(members), old(peer.members))
      ensures exchange.Refused? ==> members == AfterMarkDead(old(members), peer.self, now)
      ensures exchange.Illegible? ==> members == old(members)
      ensures peer.members ==
        if exchange.Refused? && !exchange.merged then old(peer.members) else Join(old(peer.members), old(members))
      ensures AtMost(old(members), members) && AtMost(old(peer.members), peer.members)
    {
      hide Join;
      var view := Snapshot();
      JoinAbove(members, peer.members);
      JoinAbove(peer.members, members);
      var theirView := [];
      if !exchange.Refused? || exchange.merged {
        theirView := peer.HandleGossip(view);
      }
      match exchange
      case Refused(_) =>
        MarkDead(peer.self, now);
        return false;
      case Illegible =>
        return false;
      case Completed =>
        Merge(theirView);
        PushPullReachesJoin(old(members), old(peer.members), old(members));
        return true;
    }

    /** Everyone believed alive, in a stable order. */
    method AliveNodes() returns (nodes: seq<Node>)
      requires Keyed(members)
      ensures ListsNodes(nodes, AliveIn(members))
    {
      var found := [];
      var todo := members.Keys;
      while todo != {}
        invariant todo <= members.Keys
        invariant forall n :: n in found <==> n in AliveIn(members) && n !in todo
        invariant forall i, j :: 0 <= i < j < |found| ==> found[i] != found[j]
      {
        var n :| n in todo;
        if members[n].status == Alive {
          found := found + [members[n].node];
        }
        todo := todo - {n};
      }
      LessIsWeak();
      nodes := SortSlice(found, Less);
      SortedNodes(found, nodes);
    }
  }

  lemma LessIsWeak()
    ensures StrictWeakOrder(Less)
  {
    forall a, b | Less(a, b)
      ensures !Less(b, a)
    {
      LessTrichotomy(a, b);
    }
    forall a, b, c | !Less(b, a) && !Less(c, b)
      ensures !Less(c, a)
    {
      LessTrichotomy(c, a);
      LessTrichotomy(b, a);
      LessTrichotomy(c, b);
      if Less(c, a) && Less(b, c) {
        LessTransitive(b, c, a);
      }
    }
  }

  lemma SortedNodes(found: seq<Node>, nodes: seq<Node>)
    requires multiset(nodes) == multiset(found) && Sorted(nodes, Less)
    requires forall i, j :: 0 <= i < j < |found| ==> found[i] != found[j]
    ensures forall i, j :: 0 <= i < j < |nodes| ==> Less(nodes[i], nodes[j])
    ensures forall n :: n in nodes <==> n in found
  {
    forall n
      ensures n in nodes <==> n in found
    {
      assert n in nodes <==> n in multiset(nodes);
      assert n in found <==> n in multiset(found);
    }
    forall i, j | 0 <= i < j < |nodes|
      ensures Less(nodes[i], nodes[j])
    {
      LessTrichotomy(nodes[j], nodes[i]);
      if nodes[i] == nodes[j] {
        TwiceInSeq(nodes, i, j);
        OnceInSeq(found, nodes[i]);
      }
    }
  }

  /** Whether this node runs the worker that closes rounds when they fall due. */
  method IsScheduledCloseLeader(membership: Membership, self: Node) returns (leads: bool)
    requires Keyed(membership.members)
    ensures leads == Leads(membership.members, self)
    ensures leads <==>
      && self in membership.members && membership.members[self].status == Alive
      && forall n :: n in membership.members && membership.members[n].status == Alive && n != self ==> Less(self, n)
  {
    var alive := membership.AliveNodes();
    leads := |alive| > 0 && alive[0] == self;
    FirstLeads(alive, membership.members, self);
  }

  lemma FirstLeads(alive: seq<Node>, v: View, self: Node)
    requires ListsNodes(alive, AliveIn(v))
    ensures |alive| > 0 && alive[0] == self <==> Leads(v, self)
  {
    if |alive| > 0 && alive[0] == self {
      assert alive[0] in alive;
    }
    if Leads(v, self) {
      var i :| 0 <= i < |alive| && alive[i] == self;
      LessTrichotomy(alive[0], self);
      assert alive[0] in alive;
    }
  }
}
