/**
 Events and sessions: I/O threads push events onto a net's queue, the poller swaps the queue out and runs
 it, and the events keep two indexes of online connections, the pool's map and the nets' sets.
 Every step of every thread is one step of the machine, in any interleaving.
 */
module SessionSpec {

  /** `SessionId` is `unsigned long long`. */
  const ID_LIMIT: int := 0x1_0000_0000_0000_0000

  /** Connections are told apart by the order of their creation, from 1 on; ids wrap. */
  type Conn = nat
  type Name = string

  function Id(c: Conn): nat { c % ID_LIMIT }

  /** `Other` stands for events that do not touch the indexes: received messages, reconnects. */
  datatype Event = Connected(c: Conn) | Closed(c: Conn) | Other(tag: nat)

  datatype Net = Net(call: seq<Event>, batch: seq<Event>, executed: seq<Event>, pushed: seq<Event>, online: set<Conn>)

  datatype Service = Service(nets: map<Name, Net>, pool: map<nat, Conn>, created: nat, owner: map<Conn, Name>)

  const IDLE: Net := Net([], [], [], [], {})
  const EMPTY: Service := Service(map[], map[], 0, map[])

  function OnlineAfter(online: set<Conn>, e: Event): set<Conn>
  {
    match e
    case Connected(c) => online + {c}
    case Closed(c) => online - {c}
    case Other(_) => online
  }

  function PoolAfter(pool: map<nat, Conn>, e: Event): map<nat, Conn>
  {
    match e
    case Connected(c) => pool[Id(c) := c]
    case Closed(c) => pool - {Id(c)}
    case Other(_) => pool
  }

  function Pushed(t: Net, e: Event): Net { t.(call := t.call + [e], pushed := t.pushed + [e]) }

  /**
   The queue is taken to be run. A callback may poll again: what is queued then is run before the rest of the
   batch that callback belongs to.
   */
  function Swapped(t: Net): Net { t.(batch := t.call + t.batch, call := []) }

  function HeadRun(t: Net): Net
    requires t.batch != []
  {
    t.(batch := t.batch[1..], executed := t.executed + [t.batch[0]], online := OnlineAfter(t.online, t.batch[0]))
  }

  // ---------------------------------------------------------------- steps

  datatype Step =
    | AddNet(name: Name)
    | Create(name: Name)
    | Push(name: Name, e: Event)
    | Swap(name: Name)
    | RunNext(name: Name)

  /** The event closure was made by the net that created the connection. */
  predicate Owned(s: Service, name: Name, e: Event)
  {
    e.Other? || (e.c in s.owner && s.owner[e.c] == name)
  }

  predicate Enabled(s: Service, step: Step)
  {
    match step
    case AddNet(n) => n !in s.nets
    case Create(n) => n in s.nets
    case Push(n, e) => n in s.nets && Owned(s, n, e)
    case Swap(n) => n in s.nets
    case RunNext(n) => n in s.nets && s.nets[n].batch != []
  }

  function Do(s: Service, step: Step): Service
    requires Enabled(s, step)
  {
    match step
    case AddNet(n) => s.(nets := s.nets[n := IDLE])
    case Create(n) => s.(created := s.created + 1, owner := s.owner[s.created + 1 := n])
    case Push(n, e) => s.(nets := s.nets[n := Pushed(s.nets[n], e)])
    case Swap(n) => s.(nets := s.nets[n := Swapped(s.nets[n])])
    case RunNext(n) => s.(pool := PoolAfter(s.pool, s.nets[n].batch[0]), nets := s.nets[n := HeadRun(s.nets[n])])
  }

  /** What user code sees when the next event of `n` calls it: a connect is indexed before, a close after. */
  function AtCallback(s: Service, n: Name): Service
    requires Enabled(s, RunNext(n))
  {
    if s.nets[n].batch[0].Connected? then Do(s, RunNext(n)) else s
  }

  /** Steps that are not possible when their turn comes do nothing. */
  function Run(s: Service, steps: seq<Step>): Service
    decreases |steps|
  {
    if steps == [] then s
    else Run(if Enabled(s, steps[0]) then Do(s, steps[0]) else s, steps[1..])
  }

  // ---------------------------------------------------------------- what every step keeps

  predicate Online(s: Service, c: Conn)
  {
    exists n :: n in s.nets && c in s.nets[n].online
  }

  /** The pool's map holds exactly the connections of all nets' online sets, each under its id. */
  ghost predicate Agreement(s: Service)
  {
    && (forall c: Conn :: Online(s, c) ==> Id(c) in s.pool && s.pool[Id(c)] == c)
    && (forall i :: i in s.pool ==> Online(s, s.pool[i]) && Id(s.pool[i]) == i)
  }

  /** Nothing pushed is lost or doubled. */
  predicate Conserved(t: Net)
  {
    multiset(t.pushed) == multiset(t.executed) + multiset(t.batch) + multiset(t.call)
  }

  /** Events are executed in the order they were pushed in. */
  predicate InOrder(t: Net) { t.pushed == (t.executed + t.batch) + t.call }

  predicate NetOwned(s: Service, n: Name)
    requires n in s.nets
  {
    var t := s.nets[n];
    && (forall c :: c in t.online ==> c in s.owner && s.owner[c] == n)
    && (forall e :: e in t.call ==> Owned(s, n, e))
    && (forall e :: e in t.batch ==> Owned(s, n, e))
  }

  ghost predicate Inv(s: Service)
  {
    && (forall c :: c in s.owner ==> 1 <= c <= s.created && s.owner[c] in s.nets)
    && (forall n :: n in s.nets ==> NetOwned(s, n))
    && (s.created <= ID_LIMIT ==> Agreement(s))
  }

  /** Ids are 64 bits wide and start with 1; they repeat after 18446744073709551616 connections. */
  lemma IdsRepeat(c: Conn)
    ensures Id(c) < 18446744073709551616
    ensures c < 18446744073709551616 ==> Id(c) == c
    ensures Id(c + 18446744073709551616) == Id(c)
  {
  }

  lemma IdsDiffer(s: Service, c: Conn, d: Conn)
    requires s.created <= ID_LIMIT && 1 <= c <= s.created && 1 <= d <= s.created && Id(c) == Id(d)
    ensures c == d
  {
  }

  /** A step on the queue of one net, its online set and the pool untouched. */
  lemma QueueStep(s: Service, n: Name, t: Net)
    requires Inv(s) && n in s.nets && t.online == s.nets[n].online
    requires forall e :: e in t.call || e in t.batch ==> Owned(s, n, e)
    ensures Inv(s.(nets := s.nets[n := t]))
  {
    var r := s.(nets := s.nets[n := t]);
    assert NetOwned(s, n);
    forall m | m in r.nets ensures NetOwned(r, m) {
      if m != n {
        assert NetOwned(s, m);
      }
    }
    SameOnline(s, r);
  }

  lemma CreateStep(s: Service, n: Name)
    requires Inv(s) && n in s.nets
    ensures Inv(Do(s, Create(n)))
  {
    var r := Do(s, Create(n));
    forall m | m in r.nets ensures NetOwned(r, m) {
      assert NetOwned(s, m);
    }
    SameOnline(s, r);
  }

  lemma AddNetStep(s: Service, n: Name)
    requires Inv(s) && n !in s.nets
    ensures Inv(Do(s, AddNet(n)))
  {
    var r := Do(s, AddNet(n));
    forall m | m in r.nets ensures NetOwned(r, m) {
      if m != n {
        assert NetOwned(s, m);
      }
    }
    SameOnline(s, r);
  }

  lemma QuietStep(s: Service, step: Step)
    requires Inv(s) && Enabled(s, step) && !step.RunNext?
    ensures Inv(Do(s, step))
  {
    match step
    case AddNet(n) => AddNetStep(s, n);
    case Create(n) => CreateStep(s, n);
    case Push(n, e) =>
      var t := s.nets[n];
      assert NetOwned(s, n);
      QueueStep(s, n, Pushed(t, e));
    case Swap(n) =>
      var t := s.nets[n];
      assert NetOwned(s, n);
      QueueStep(s, n, Swapped(t));
  }

  /** Where the online sets are the same, new nets being empty, agreement is the same. */
  lemma SameOnline(s: Service, r: Service)
    requires r.pool == s.pool && s.nets.Keys <= r.nets.Keys
    requires forall n :: n in r.nets ==> r.nets[n].online == if n in s.nets then s.nets[n].online else {}
    ensures Agreement(s) ==> Agreement(r)
  {
  }

  lemma RunNextKeepsNets(s: Service, n: Name)
    requires Inv(s) && Enabled(s, RunNext(n))
    ensures var r := Do(s, RunNext(n));
      forall m :: m in r.nets ==> NetOwned(r, m)
  {
    var t, r := s.nets[n], Do(s, RunNext(n));
    assert NetOwned(s, n);
    assert t.batch[0] in t.batch && Owned(s, n, t.batch[0]);
    assert forall e :: e in t.batch[1..] ==> e in t.batch;
    forall m | m in r.nets ensures NetOwned(r, m) {
      assert NetOwned(s, m);
    }
  }

  /** Whose connection an event is about decides whose online set it can be in. */
  lemma OnlineNowhereElse(s: Service, n: Name, c: Conn)
    requires Inv(s) && n in s.nets && c in s.owner && s.owner[c] == n
    ensures Online(s, c) <==> c in s.nets[n].online
  {
  }

  lemma OnlineAfterRun(s: Service, n: Name, c: Conn)
    requires Inv(s) && Enabled(s, RunNext(n))
    ensures var e := s.nets[n].batch[0];
      Online(Do(s, RunNext(n)), c) <==>
        if e.Other? || e.c != c then Online(s, c) else e.Connected?
  {
    var r, e := Do(s, RunNext(n)), s.nets[n].batch[0];
    if e.Other? || e.c != c {
      if Online(s, c) {
        var m :| m in s.nets && c in s.nets[m].online;
        assert m in r.nets && c in r.nets[m].online;
      }
      if Online(r, c) {
        var m :| m in r.nets && c in r.nets[m].online;
        assert m in s.nets && c in s.nets[m].online;
      }
    } else {
      assert NetOwned(s, n) && e in s.nets[n].batch;
      OnlineNowhereElse(s, n, c);
      if e.Connected? {
        assert c in r.nets[n].online;
      }
    }
  }

  lemma OnlineIsOwned(s: Service, c: Conn)
    requires Inv(s) && Online(s, c)
    ensures c in s.owner && 1 <= c <= s.created
  {
  }

  lemma RunNextAgrees(s: Service, n: Name)
    requires Inv(s) && Enabled(s, RunNext(n)) && s.created <= ID_LIMIT
    ensures Agreement(Do(s, RunNext(n)))
  {
    var r, e := Do(s, RunNext(n)), s.nets[n].batch[0];
    assert NetOwned(s, n) && e in s.nets[n].batch;
    forall c: Conn | Online(r, c) ensures Id(c) in r.pool && r.pool[Id(c)] == c {
      OnlineAfterRun(s, n, c);
      if !e.Other? && e.c != c {
        OnlineIsOwned(s, c);
        if Id(c) == Id(e.c) {
          IdsDiffer(s, c, e.c);
        }
      }
    }
    forall i | i in r.pool ensures Online(r, r.pool[i]) && Id(r.pool[i]) == i {
      OnlineAfterRun(s, n, r.pool[i]);
    }
  }

  predicate NetConserved(s: Service, n: Name) { n in s.nets ==> Conserved(s.nets[n]) }

  lemma ConservedStep(s: Service, step: Step, n: Name)
    requires Enabled(s, step) && NetConserved(s, n)
    ensures NetConserved(Do(s, step), n)
  {
    if n in s.nets && step == RunNext(n) {
      assert s.nets[n].batch == [s.nets[n].batch[0]] + s.nets[n].batch[1..];
    }
  }

  /** Every step keeps the invariant, and every event, whichever thread takes it. */
  lemma StepKeepsInv(s: Service, step: Step)
    requires Inv(s) && Enabled(s, step)
    ensures Inv(Do(s, step))
    ensures forall n :: NetConserved(s, n) ==> NetConserved(Do(s, step), n)
  {
    forall n | NetConserved(s, n) ensures NetConserved(Do(s, step), n) {
      ConservedStep(s, step, n);
    }
    if step.RunNext? {
      RunNextKeepsNets(s, step.name);
      if s.created <= ID_LIMIT {
        RunNextAgrees(s, step.name);
      }
    } else {
      QuietStep(s, step);
    }
  }

  lemma {:induction false} RunKeepsInv(s: Service, steps: seq<Step>)
    requires Inv(s)
    ensures Inv(Run(s, steps))
    decreases |steps|
  {
    if steps != [] {
      if Enabled(s, steps[0]) {
        StepKeepsInv(s, steps[0]);
      }
      RunKeepsInv(if Enabled(s, steps[0]) then Do(s, steps[0]) else s, steps[1..]);
    }
  }

  // ---------------------------------------------------------------- over all runs

  lemma {:induction false} ConservedRun(s: Service, steps: seq<Step>, n: Name)
    requires NetConserved(s, n)
    ensures NetConserved(Run(s, steps), n)
    decreases |steps|
  {
    if steps != [] {
      if Enabled(s, steps[0]) {
        ConservedStep(s, steps[0], n);
      }
      ConservedRun(if Enabled(s, steps[0]) then Do(s, steps[0]) else s, steps[1..], n);
    }
  }

  /** Under every interleaving, nested polls included, no event is lost or doubled. */
  lemma NothingLost(steps: seq<Step>, n: Name)
    ensures NetConserved(Run(EMPTY, steps), n)
  {
    ConservedRun(EMPTY, steps, n);
  }

  /** A poll that now took the queue would let queued events overtake the rest of a batch. */
  predicate Overtakes(t: Net) { t.call + t.batch != t.batch + t.call }

  /** It would not between batches, nor with nothing queued; else it would whenever the first events differ. */
  lemma OvertakesNested(t: Net)
    ensures t.batch == [] || t.call == [] ==> !Overtakes(t)
    ensures t.batch != [] && t.call != [] && t.batch[0] != t.call[0] ==> Overtakes(t)
  {
    if t.batch == [] || t.call == [] {
      assert t.call + t.batch == t.batch + t.call;
    } else {
      assert (t.call + t.batch)[0] == t.call[0] && (t.batch + t.call)[0] == t.batch[0];
    }
  }

  /** Every poll of `n` in this run takes the queue when nothing is overtaken. */
  predicate InTurn(s: Service, steps: seq<Step>, n: Name)
    decreases |steps|
  {
    steps != [] ==>
      && (steps[0] == Swap(n) && n in s.nets ==> !Overtakes(s.nets[n]))
      && InTurn(if Enabled(s, steps[0]) then Do(s, steps[0]) else s, steps[1..], n)
  }

  predicate NetInOrder(s: Service, n: Name) { n in s.nets ==> InOrder(s.nets[n]) }

  /** One step keeps the order unless it is a poll that overtakes. */
  lemma OrderStep(s: Service, step: Step, n: Name)
    requires Enabled(s, step) && NetInOrder(s, n)
    ensures NetInOrder(Do(s, step), n) <==> !(step == Swap(n) && Overtakes(s.nets[n]))
  {
    if n in s.nets {
      var t := s.nets[n];
      match step
      case Push(m, e) =>
        assert (t.executed + t.batch) + (t.call + [e]) == ((t.executed + t.batch) + t.call) + [e];
      case RunNext(m) =>
        if m == n {
          assert t.batch == [t.batch[0]] + t.batch[1..];
          assert (t.executed + [t.batch[0]]) + t.batch[1..] == t.executed + t.batch;
        }
      case Swap(m) =>
        if m == n {
          SwapOrder(t.executed, t.batch, t.call);
        }
      case _ =>
    }
  }

  lemma SwapOrder(executed: seq<Event>, batch: seq<Event>, call: seq<Event>)
    ensures (executed + batch) + call == (executed + (call + batch)) + [] <==> batch + call == call + batch
  {
    assert (executed + batch) + call == executed + (batch + call);
    assert (executed + (call + batch)) + [] == executed + (call + batch);
    assert (executed + (batch + call))[|executed|..] == batch + call;
    assert (executed + (call + batch))[|executed|..] == call + batch;
  }

  lemma {:induction false} OrderOfRun(s: Service, steps: seq<Step>, n: Name)
    requires NetInOrder(s, n)
    ensures (forall k :: 0 <= k <= |steps| ==> NetInOrder(Run(s, steps[..k]), n)) <==> InTurn(s, steps, n)
    decreases |steps|
  {
    if steps == [] {
      assert forall k :: 0 <= k <= |steps| ==> steps[..k] == [];
    } else {
      var next, later := if Enabled(s, steps[0]) then Do(s, steps[0]) else s, steps[1..];
      forall k | 0 <= k <= |steps|
        ensures k == 0 ==> Run(s, steps[..k]) == s
        ensures 0 < k ==> Run(s, steps[..k]) == Run(next, later[..k - 1])
      {
        assert 0 < k ==> steps[..k][1..] == later[..k - 1];
      }
      if Enabled(s, steps[0]) {
        OrderStep(s, steps[0], n);
      }
      if NetInOrder(next, n) {
        OrderOfRun(next, later, n);
        assert forall k :: 0 <= k <= |later| ==> Run(next, later[..k]) == Run(s, steps[..k + 1]);
      } else {
        assert Run(s, steps[..1]) == Run(next, later[..0]) == next;
      }
    }
  }

  /**
   Event delivery, under every interleaving of all threads: at all times what a net has executed, the rest of
   its batch and its queue are together everything ever pushed to it, in push order, if and only if no poll
   was made from within a batch with events queued that differ from the rest of it.
   */
  lemma EventDelivery(steps: seq<Step>, n: Name)
    ensures (forall k :: 0 <= k <= |steps| ==> NetInOrder(Run(EMPTY, steps[..k]), n)) <==> InTurn(EMPTY, steps, n)
  {
    OrderOfRun(EMPTY, steps, n);
  }

  /**
   Events pushed during a batch wait for a later poll: until the next swap, whatever the threads do, what the
   net has executed and the rest of its batch stay together the same, and its queue only grows behind.
   */
  lemma {:induction false} BatchFrozen(s: Service, n: Name, steps: seq<Step>)
    requires n in s.nets && Swap(n) !in steps
    ensures var r := Run(s, steps);
      && n in r.nets
      && r.nets[n].executed + r.nets[n].batch == s.nets[n].executed + s.nets[n].batch
      && s.nets[n].call <= r.nets[n].call
    decreases |steps|
  {
    if steps != [] {
      var next := if Enabled(s, steps[0]) then Do(s, steps[0]) else s;
      assert steps[0] in steps;
      var t, t' := s.nets[n], next.nets[n];
      assert t'.executed + t'.batch == t.executed + t.batch by {
        if t.batch != [] {
          assert (t.executed + [t.batch[0]]) + t.batch[1..] == t.executed + t.batch;
        }
      }
      BatchFrozen(next, n, steps[1..]);
    }
  }

  /**
   Index agreement, while ids have not wrapped: after every step of every run, and in the state user code
   sees whenever an event calls it, the pool holds exactly the online connections of all nets.
   */
  lemma IndexAgreement(steps: seq<Step>)
    requires Run(EMPTY, steps).created <= ID_LIMIT
    ensures Agreement(Run(EMPTY, steps))
    ensures forall n :: Enabled(Run(EMPTY, steps), RunNext(n)) ==> Agreement(AtCallback(Run(EMPTY, steps), n))
  {
    RunKeepsInv(EMPTY, steps);
    var s := Run(EMPTY, steps);
    forall n | Enabled(s, RunNext(n)) ensures Agreement(AtCallback(s, n)) {
      RunNextAgrees(s, n);
    }
  }

  // ---------------------------------------------------------------- lookups

  /** An event about the connection waits to be run. */
  predicate Pending(s: Service, c: Conn)
  {
    exists n :: n in s.nets && exists e :: e in s.nets[n].call + s.nets[n].batch && !e.Other? && e.c == c
  }

  /** What still owns a connection: an online set, a pending event, or a holder elsewhere. */
  function Living(s: Service, held: set<Conn>): set<Conn>
  {
    held + set c | c in s.owner && (Online(s, c) || Pending(s, c))
  }

  datatype Found = Nobody | Somebody(c: Conn)

  /** `IoObjectPool::session`: the map keeps weak pointers, so the connection must be alive. */
  function Lookup(pool: map<nat, Conn>, alive: set<Conn>, id: nat): Found
  {
    if id in pool && pool[id] in alive then Somebody(pool[id]) else Nobody
  }

  function Session(s: Service, held: set<Conn>, id: nat): Found { Lookup(s.pool, Living(s, held), id) }

  /** Where the indexes agree and online connections are alive, what is found is what is online under the id. */
  lemma FoundIsOnline(s: Service, alive: set<Conn>, id: nat)
    requires Agreement(s) && forall c: Conn :: Online(s, c) ==> c in alive
    ensures forall c :: Lookup(s.pool, alive, id) == Somebody(c) <==> Online(s, c) && Id(c) == id
  {
  }

  /** Every connection in the pool's map is online, under its id. */
  ghost predicate PoolOnline(s: Service)
  {
    forall i :: i in s.pool ==> Online(s, s.pool[i]) && Id(s.pool[i]) == i
  }

  lemma PoolOnlineStep(s: Service, step: Step)
    requires Inv(s) && Enabled(s, step) && PoolOnline(s)
    ensures PoolOnline(Do(s, step))
  {
    var r := Do(s, step);
    forall i | i in r.pool ensures Online(r, r.pool[i]) && Id(r.pool[i]) == i {
      if step.RunNext? {
        OnlineAfterRun(s, step.name, r.pool[i]);
      } else {
        var n :| n in s.nets && s.pool[i] in s.nets[n].online;
        assert n in r.nets && r.pool[i] in r.nets[n].online;
      }
    }
  }

  lemma {:induction false} PoolOnlineRun(s: Service, steps: seq<Step>)
    requires Inv(s) && PoolOnline(s)
    ensures Inv(Run(s, steps)) && PoolOnline(Run(s, steps))
    decreases |steps|
  {
    if steps != [] {
      if Enabled(s, steps[0]) {
        StepKeepsInv(s, steps[0]);
        PoolOnlineStep(s, steps[0]);
      }
      PoolOnlineRun(if Enabled(s, steps[0]) then Do(s, steps[0]) else s, steps[1..]);
    }
  }

  /**
   Even when ids have wrapped, over every run: a weak pointer in the map never dangles, and what a lookup finds is
   online under that id. What wrapping can break is only that everybody online is found.
   */
  lemma NeverDangling(steps: seq<Step>, held: set<Conn>, id: nat)
    ensures var s := Run(EMPTY, steps);
      && (id in s.pool ==> Session(s, held, id) == Somebody(s.pool[id]))
      && forall c :: Session(s, held, id) == Somebody(c) ==> Online(s, c) && Id(c) == id
  {
    PoolOnlineRun(EMPTY, steps);
    var s := Run(EMPTY, steps);
    if id in s.pool {
      OnlineIsOwned(s, s.pool[id]);
    }
  }

  /** On a running service a message finds exactly the online connection with its id; weak pointers never dangle. */
  lemma SendFindsOnline(steps: seq<Step>, held: set<Conn>, id: nat, c: Conn)
    requires Run(EMPTY, steps).created <= ID_LIMIT
    ensures var s := Run(EMPTY, steps);
      Session(s, held, id) == Somebody(c) <==> Online(s, c) && Id(c) == id
  {
    IndexAgreement(steps);
    RunKeepsInv(EMPTY, steps);
    var s := Run(EMPTY, steps);
    forall d: Conn | Online(s, d) ensures d in Living(s, held) {
      OnlineIsOwned(s, d);
    }
    FoundIsOnline(s, Living(s, held), id);
  }

  // ---------------------------------------------------------------- what user code sees

  predicate ConnectsAt(events: seq<Event>, c: Conn, k: nat)
    requires k < |events|
  {
    events[k] == Connected(c) && forall j :: k < j < |events| ==> events[j] != Closed(c)
  }

  /** The last of these events about `c` that connects or closes it connects it. */
  predicate LastConnects(events: seq<Event>, c: Conn)
  {
    exists k :: 0 <= k < |events| && ConnectsAt(events, c, k)
  }

  lemma LastConnectsSnoc(events: seq<Event>, e: Event, c: Conn)
    ensures LastConnects(events + [e], c) <==> e == Connected(c) || (e != Closed(c) && LastConnects(events, c))
  {
    var all := events + [e];
    if LastConnects(all, c) && e != Connected(c) {
      var k :| 0 <= k < |all| && ConnectsAt(all, c, k);
      assert all[|events|] == e && forall j :: k <= j < |events| ==> events[j] == all[j];
      assert ConnectsAt(events, c, k);
    }
    if e == Connected(c) {
      assert ConnectsAt(all, c, |events|);
    } else if e != Closed(c) && LastConnects(events, c) {
      var k :| 0 <= k < |events| && ConnectsAt(events, c, k);
      assert forall j :: k <= j < |all| ==> all[j] == if j < |events| then events[j] else e;
      assert ConnectsAt(all, c, k);
    }
  }

  ghost predicate ByHistory(s: Service)
  {
    forall n :: n in s.nets ==> forall c :: c in s.nets[n].online <==> LastConnects(s.nets[n].executed, c)
  }

  lemma HistoryStep(s: Service, step: Step)
    requires Enabled(s, step) && ByHistory(s)
    ensures ByHistory(Do(s, step))
  {
    if step.RunNext? {
      var t := s.nets[step.name];
      forall c ensures c in HeadRun(t).online <==> LastConnects(HeadRun(t).executed, c) {
        LastConnectsSnoc(t.executed, t.batch[0], c);
      }
    }
  }

  lemma {:induction false} HistoryRun(s: Service, steps: seq<Step>)
    requires ByHistory(s)
    ensures ByHistory(Run(s, steps))
    decreases |steps|
  {
    if steps != [] {
      if Enabled(s, steps[0]) {
        HistoryStep(s, steps[0]);
      }
      HistoryRun(if Enabled(s, steps[0]) then Do(s, steps[0]) else s, steps[1..]);
    }
  }

  /**
   Who is online, in terms of events alone, over every run: a connection is in a net's set if and only if the net has
   executed a connect of it and no close of it since.
   */
  lemma OnlineByHistory(steps: seq<Step>, n: Name, c: Conn)
    ensures var s := Run(EMPTY, steps);
      n in s.nets ==> (c in s.nets[n].online <==> LastConnects(s.nets[n].executed, c))
  {
    HistoryRun(EMPTY, steps);
  }

  /**
   What user code sees when an event calls it, over every run: at a connect the connection is already online; at a
   close it is what it was before, so online if and only if it was connected and not closed since; at any other event
   nothing has changed.
   */
  lemma CallbackSees(steps: seq<Step>, n: Name)
    requires Enabled(Run(EMPTY, steps), RunNext(n))
    ensures var s := Run(EMPTY, steps);
      var (a, e) := (AtCallback(s, n), s.nets[n].batch[0]);
      && (e.Connected? ==> Online(a, e.c) && forall c :: c != e.c ==> (Online(a, c) <==> Online(s, c)))
      && (e.Closed? ==> (Online(a, e.c) <==> LastConnects(s.nets[n].executed, e.c)))
      && (!e.Connected? ==> a == s)
  {
    var s := Run(EMPTY, steps);
    var e := s.nets[n].batch[0];
    RunKeepsInv(EMPTY, steps);
    forall c {
      OnlineAfterRun(s, n, c);
    }
    if e.Closed? {
      assert NetOwned(s, n) && e in s.nets[n].batch;
      OnlineNowhereElse(s, n, e.c);
      OnlineByHistory(steps, n, e.c);
    }
  }

  /**
   While ids have not wrapped, looking a session up from a callback finds exactly the connection that is online under
   it then: the one just connected, and the one about to be closed if it was connected and not closed since.
   */
  lemma CallbackFinds(steps: seq<Step>, n: Name, held: set<Conn>)
    requires Enabled(Run(EMPTY, steps), RunNext(n)) && Run(EMPTY, steps).created <= ID_LIMIT
    ensures var s := Run(EMPTY, steps);
      var (a, e) := (AtCallback(s, n), s.nets[n].batch[0]);
      && (e.Connected? ==> Session(a, held, Id(e.c)) == Somebody(e.c))
      && (e.Closed? ==> (Session(a, held, Id(e.c)) == Somebody(e.c) <==> LastConnects(s.nets[n].executed, e.c)))
      && (forall id, c :: Session(a, held, id) == Somebody(c) <==> Online(a, c) && Id(c) == id)
  {
    RunKeepsInv(EMPTY, steps);
    CallbackSees(steps, n);
    CallbackLookup(Run(EMPTY, steps), n, held);
  }

  lemma CallbackLookup(s: Service, n: Name, held: set<Conn>)
    requires Inv(s) && Enabled(s, RunNext(n)) && s.created <= ID_LIMIT
    ensures var a := AtCallback(s, n);
      forall id, c :: Session(a, held, id) == Somebody(c) <==> Online(a, c) && Id(c) == id
  {
    var a := AtCallback(s, n);
    StepKeepsInv(s, RunNext(n));
    assert Inv(a) && a.created == s.created;
    forall d: Conn | Online(a, d) ensures d in Living(a, held) {
      OnlineIsOwned(a, d);
    }
    forall id ensures forall c :: Session(a, held, id) == Somebody(c) <==> Online(a, c) && Id(c) == id {
      FoundIsOnline(a, Living(a, held), id);
    }
  }

  /** A callback, and the indexes user code can see from it. */
  datatype Call = Call(e: Event, online: set<Conn>, pool: map<nat, Conn>)

  /** The callbacks of a batch that is run to its end. */
  function Calls(online: set<Conn>, pool: map<nat, Conn>, batch: seq<Event>): (calls: seq<Call>)
    ensures |calls| == |batch| && forall k :: 0 <= k < |batch| ==> calls[k].e == batch[k]
    decreases |batch|
  {
    if batch == [] then []
    else
      var online', pool' := OnlineAfter(online, batch[0]), PoolAfter(pool, batch[0]);
      [if batch[0].Connected? then Call(batch[0], online', pool') else Call(batch[0], online, pool)]
        + Calls(online', pool', batch[1..])
  }

  /** The callback of the next event, as the machine has it. */
  lemma CallAtCallback(s: Service, n: Name)
    requires Enabled(s, RunNext(n))
    ensures var (a, t) := (AtCallback(s, n), s.nets[n]);
      Calls(t.online, s.pool, t.batch)[0] == Call(t.batch[0], a.nets[n].online, a.pool)
  {
  }

  /** Later callbacks of the batch are those of the net once the next event has been run. */
  lemma CallsAfterOne(s: Service, n: Name)
    requires Enabled(s, RunNext(n))
    ensures var (r, t) := (Do(s, RunNext(n)), s.nets[n]);
      Calls(t.online, s.pool, t.batch)[1..] == Calls(r.nets[n].online, r.pool, r.nets[n].batch)
  {
  }

  // ---------------------------------------------------------------- whole polls

  /** The indexes after a whole batch. */
  function OnlineAfterAll(online: set<Conn>, batch: seq<Event>): set<Conn>
    decreases |batch|
  {
    if batch == [] then online else OnlineAfterAll(OnlineAfter(online, batch[0]), batch[1..])
  }

  function PoolAfterAll(pool: map<nat, Conn>, batch: seq<Event>): map<nat, Conn>
    decreases |batch|
  {
    if batch == [] then pool else PoolAfterAll(PoolAfter(pool, batch[0]), batch[1..])
  }

  /** A net after a whole poll; `arrivals` came in meanwhile. */
  function PolledNet(t: Net, arrivals: seq<Event>): Net
  {
    t.(call := arrivals, batch := [], executed := t.executed + t.call, pushed := t.pushed + arrivals,
       online := OnlineAfterAll(t.online, t.call))
  }

  /** A poll between batches keeps the order. */
  lemma PolledInOrder(t: Net, arrivals: seq<Event>)
    requires t.batch == [] && InOrder(t)
    ensures InOrder(PolledNet(t, arrivals))
  {
    assert t.executed + [] == t.executed && (t.executed + t.call) + [] == t.executed + t.call;
  }

  function Polled(s: Service, n: Name, arrivals: seq<Event>): Service
    requires n in s.nets
  {
    s.(nets := s.nets[n := PolledNet(s.nets[n], arrivals)], pool := PoolAfterAll(s.pool, s.nets[n].call))
  }

  /** One net polled after the other. */
  function PolledAll(s: Service, order: seq<Name>, arrivals: map<Name, seq<Event>>): (r: Service)
    requires forall n :: n in order ==> n in s.nets && n in arrivals
    ensures r.nets.Keys == s.nets.Keys && r.owner == s.owner && r.created == s.created
  {
    if order == [] then s
    else
      var k := |order| - 1;
      assert order[k] in order;
      Polled(PolledAll(s, order[..k], arrivals), order[k], arrivals[order[k]])
  }

  // ---------------------------------------------------------------- polls in steps, and when ids wrap

  lemma {:induction false} RunAppend(s: Service, a: seq<Step>, b: seq<Step>)
    ensures Run(s, a + b) == Run(Run(s, a), b)
    decreases |a|
  {
    if a == [] {
      assert a + b == b;
    } else {
      assert (a + b)[1..] == a[1..] + b && (a + b)[0] == a[0];
      RunAppend(if Enabled(s, a[0]) then Do(s, a[0]) else s, a[1..], b);
    }
  }

  function RunNexts(n: Name, k: nat): seq<Step>
  {
    if k == 0 then [] else [RunNext(n)] + RunNexts(n, k - 1)
  }

  /** Running a batch to its end executes it in order and takes both indexes through all its events. */
  lemma {:induction false} BatchRun(s: Service, n: Name)
    requires n in s.nets
    ensures var t := s.nets[n];
      Run(s, RunNexts(n, |t.batch|)) ==
        s.(pool := PoolAfterAll(s.pool, t.batch),
           nets := s.nets[n := t.(batch := [], executed := t.executed + t.batch,
                                  online := OnlineAfterAll(t.online, t.batch))])
    decreases |s.nets[n].batch|
  {
    var t := s.nets[n];
    if t.batch == [] {
      assert t.executed + [] == t.executed && s.nets[n := t] == s.nets;
    } else {
      var next := Do(s, RunNext(n));
      assert RunNexts(n, |t.batch|)[1..] == RunNexts(n, |t.batch| - 1);
      BatchRun(next, n);
      assert (t.executed + [t.batch[0]]) + t.batch[1..] == t.executed + t.batch;
    }
  }

  function Pushes(n: Name, events: seq<Event>): seq<Step>
  {
    if events == [] then [] else [Push(n, events[0])] + Pushes(n, events[1..])
  }

  /** The state when these events have been pushed. */
  function PushedAll(s: Service, n: Name, events: seq<Event>): Service
    requires n in s.nets
  {
    var t := s.nets[n];
    s.(nets := s.nets[n := t.(call := t.call + events, pushed := t.pushed + events)])
  }

  lemma PushedInParts(s: Service, n: Name, a: seq<Event>, b: seq<Event>)
    requires n in s.nets
    ensures PushedAll(PushedAll(s, n, a), n, b) == PushedAll(s, n, a + b)
    ensures PushedAll(s, n, []) == s
  {
    var t := s.nets[n];
    assert (t.call + a) + b == t.call + (a + b) && (t.pushed + a) + b == t.pushed + (a + b);
    assert t.call + [] == t.call && t.pushed + [] == t.pushed && s.nets[n := t] == s.nets;
  }

  lemma {:induction false} PushMany(s: Service, n: Name, events: seq<Event>)
    requires n in s.nets && forall e :: e in events ==> Owned(s, n, e)
    ensures Run(s, Pushes(n, events)) == PushedAll(s, n, events)
    decreases |events|
  {
    if events == [] {
      PushedInParts(s, n, [], []);
    } else {
      var e, later := events[0], events[1..];
      assert events == [e] + later && e in events;
      var next := PushedAll(s, n, [e]);
      assert next == Do(s, Push(n, e));
      forall f | f in later ensures Owned(next, n, f) {
        assert Owned(s, n, f);
      }
      PushMany(next, n, later);
      PushedInParts(s, n, [e], later);
      assert Pushes(n, events)[1..] == Pushes(n, later);
    }
  }

  function PollSteps(n: Name, k: nat): seq<Step> { [Swap(n)] + RunNexts(n, k) }

  /** A poll during which nothing arrives, in steps of the machine. */
  lemma QuietPoll(s: Service, n: Name)
    requires n in s.nets && s.nets[n].batch == []
    ensures Run(s, PollSteps(n, |s.nets[n].call|)) == Polled(s, n, [])
  {
    var swapped := Do(s, Swap(n));
    assert s.nets[n].call + [] == s.nets[n].call;
    RunAppend(s, [Swap(n)], RunNexts(n, |s.nets[n].call|));
    assert Run(s, [Swap(n)]) == swapped;
    BatchRun(swapped, n);
    assert s.nets[n].pushed + [] == s.nets[n].pushed;
  }

  /** A whole poll in steps of the machine: what `TcpObj.Poll` promises of its object keeps the invariant. */
  lemma PollInSteps(s: Service, n: Name, arrivals: seq<Event>)
    requires n in s.nets && s.nets[n].batch == [] && forall e :: e in arrivals ==> Owned(s, n, e)
    ensures Run(s, PollSteps(n, |s.nets[n].call|) + Pushes(n, arrivals)) == Polled(s, n, arrivals)
    ensures Inv(s) ==> Inv(Polled(s, n, arrivals))
  {
    var steps := PollSteps(n, |s.nets[n].call|);
    QuietPoll(s, n);
    RunAppend(s, steps, Pushes(n, arrivals));
    ArriveAfter(s, n, arrivals);
    if Inv(s) {
      RunKeepsInv(s, steps + Pushes(n, arrivals));
    }
  }

  lemma ArriveAfter(s: Service, n: Name, arrivals: seq<Event>)
    requires n in s.nets && forall e :: e in arrivals ==> Owned(s, n, e)
    ensures Run(Polled(s, n, []), Pushes(n, arrivals)) == Polled(s, n, arrivals)
  {
    var r := Polled(s, n, []);
    forall e | e in arrivals ensures Owned(r, n, e) {
      assert Owned(s, n, e);
    }
    PushMany(r, n, arrivals);
    assert [] + arrivals == arrivals;
    assert s.nets[n].pushed + [] == s.nets[n].pushed;
  }

  predicate NoneTwice(order: seq<Name>) { forall i, j :: 0 <= i < j < |order| ==> order[i] != order[j] }

  /** Polling nets in turn polls each of them as if alone. */
  lemma {:induction false} PolledOnce(s: Service, order: seq<Name>, arrivals: map<Name, seq<Event>>, n: Name)
    requires NoneTwice(order) && n in s.nets && forall m :: m in order ==> m in s.nets && m in arrivals
    ensures var t := s.nets[n];
      PolledAll(s, order, arrivals).nets[n] == if n in order then PolledNet(t, arrivals[n]) else t
    decreases |order|
  {
    if order != [] {
      var k := |order| - 1;
      PolledOnce(s, order[..k], arrivals, n);
      assert order == order[..k] + [order[k]] && order[k] !in order[..k];
    }
  }

  /** Polling nets in turn keeps the invariant, index agreement included. */
  lemma {:induction false} PollsKeepInv(s: Service, order: seq<Name>, arrivals: map<Name, seq<Event>>)
    requires Inv(s) && NoneTwice(order) && forall n :: n in order ==> n in s.nets && n in arrivals
    requires forall n :: n in order ==> s.nets[n].batch == []
    requires forall n, e :: n in order && e in arrivals[n] ==> Owned(s, n, e)
    ensures Inv(PolledAll(s, order, arrivals))
    decreases |order|
  {
    if order != [] {
      var k := |order| - 1;
      var n := order[k];
      assert n in order && n !in order[..k];
      PollsKeepInv(s, order[..k], arrivals);
      PolledOnce(s, order[..k], arrivals, n);
      PollAfterPolls(s, PolledAll(s, order[..k], arrivals), n, arrivals[n]);
    }
  }

  lemma PollAfterPolls(s: Service, r: Service, n: Name, arrivals: seq<Event>)
    requires Inv(r) && n in r.nets && r.nets[n].batch == [] && r.owner == s.owner
    requires forall e :: e in arrivals ==> Owned(s, n, e)
    ensures Inv(Polled(r, n, arrivals))
  {
    forall e | e in arrivals ensures Owned(r, n, e) {
      assert Owned(s, n, e);
    }
    PollInSteps(r, n, arrivals);
  }

  function Creates(n: Name, k: nat): (steps: seq<Step>)
    ensures |steps| == k
  {
    if k == 0 then [] else [Create(n)] + Creates(n, k - 1)
  }

  lemma {:induction false} CreateMany(s: Service, n: Name, k: nat)
    requires n in s.nets
    ensures var r := Run(s, Creates(n, k));
      && r.nets == s.nets && r.pool == s.pool && r.created == s.created + k
      && (forall c :: s.created < c <= s.created + k ==> c in r.owner && r.owner[c] == n)
      && (forall c :: c in s.owner && c <= s.created ==> c in r.owner && r.owner[c] == s.owner[c])
    decreases k
  {
    if k != 0 {
      var t := Do(s, Create(n));
      assert Creates(n, k)[0] == Create(n) && Creates(n, k)[1..] == Creates(n, k - 1);
      CreateMany(t, n, k - 1);
    }
  }

  /** A run in which the id counter wraps: of `k` connections, 1 and 2^64 + 1 share an id and go online. */
  function WrapRun(n: Name, k: nat): seq<Step>
  {
    ([AddNet(n)] + Creates(n, k)) + GoOnline(n, 1, ID_LIMIT + 1)
  }

  function GoOnline(n: Name, c: Conn, d: Conn): seq<Step>
  {
    [Push(n, Connected(c)), Push(n, Connected(d)), Swap(n), RunNext(n), RunNext(n)]
  }

  /** With more connections than there are ids, the indexes can disagree. */
  lemma WrapBreaksAgreement(n: Name, k: nat)
    requires ID_LIMIT < k
    ensures var s := Run(EMPTY, WrapRun(n, k)); s.created == k && !Agreement(s)
  {
    var a := [AddNet(n)] + Creates(n, k);
    RunAppend(EMPTY, a, GoOnline(n, 1, ID_LIMIT + 1));
    RunAppend(EMPTY, [AddNet(n)], Creates(n, k));
    var s0 := Do(EMPTY, AddNet(n));
    assert Run(EMPTY, [AddNet(n)]) == s0;
    CreateMany(s0, n, k);
    WrapTail(Run(EMPTY, a), n);
  }

  lemma WrapTail(s: Service, n: Name)
    requires s.nets == map[n := IDLE] && s.pool == map[]
    requires 1 in s.owner && s.owner[1] == n && ID_LIMIT + 1 in s.owner && s.owner[ID_LIMIT + 1] == n
    ensures var r := Run(s, GoOnline(n, 1, ID_LIMIT + 1)); r.created == s.created && !Agreement(r)
  {
    var e1, e2 := Connected(1), Connected(ID_LIMIT + 1);
    var s1 := Do(s, Push(n, e1));
    var s2 := Do(s1, Push(n, e2));
    var s3 := Do(s2, Swap(n));
    assert s3.nets[n].batch == [e1, e2];
    var s4 := Do(s3, RunNext(n));
    assert s4.nets[n].batch == [e2];
    var s5 := Do(s4, RunNext(n));
    assert Run(s4, [RunNext(n)]) == s5;
    assert Run(s3, [RunNext(n), RunNext(n)]) == s5;
    assert Run(s2, [Swap(n), RunNext(n), RunNext(n)]) == s5;
    assert Run(s1, [Push(n, e2), Swap(n), RunNext(n), RunNext(n)]) == s5;
    assert 1 in s5.nets[n].online;
    assert Online(s5, 1) && s5.pool[Id(1)] == ID_LIMIT + 1;
  }

  /** The exact bound: all runs that have made `k` connections agree if and only if there are `k` ids. */
  lemma AgreementBound(k: nat)
    ensures (forall steps :: Run(EMPTY, steps).created == k ==> Agreement(Run(EMPTY, steps))) <==> k <= ID_LIMIT
  {
    if k <= ID_LIMIT {
      forall steps | Run(EMPTY, steps).created == k
        ensures Agreement(Run(EMPTY, steps))
      {
        IndexAgreement(steps);
      }
    } else {
      WrapBreaksAgreement("", k);
    }
  }
}
