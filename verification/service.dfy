/** `IoObjectPool`, `TcpObj` and `NetService`: the indexes and the queue, updated in place. */
module Services {
  import opened Blocks
  import opened Bytes
  import opened SessionSpec

  class IoObjectPool {
    var curSessionId: nat
    var onlines: map<nat, Conn>
    ghost var created: nat
    /** Which net made which connection. */
    ghost var owner: map<Conn, Name>

    ghost predicate Valid()
      reads this
    {
      curSessionId == Id(created)
    }

    constructor ()
      ensures Valid() && created == 0 && onlines == map[] && owner == map[]
    {
      curSessionId, onlines, created, owner := 0, map[], 0, map[];
    }

    /** The id of a new connection: the counter is 64 bits wide. */
    method NextSession() returns (id: nat)
      requires Valid()
      modifies this`curSessionId, this`created
      ensures Valid() && created == old(created) + 1 && id == Id(created)
    {
      curSessionId := (curSessionId + 1) % ID_LIMIT;
      created := created + 1;
      id := curSessionId;
    }

    method AddSession(c: Conn)
      modifies this`onlines
      ensures onlines == old(onlines)[Id(c) := c]
    {
      onlines := onlines[Id(c) := c];
    }

    method DelSession(c: Conn)
      modifies this`onlines
      ensures onlines == old(onlines) - {Id(c)}
    {
      if Id(c) in onlines {
        onlines := onlines - {Id(c)};
      }
    }

    /** The map holds weak pointers: one whose connection is gone gives null. */
    method Session(id: nat, alive: set<Conn>) returns (r: Found)
      ensures r == Lookup(onlines, alive, id)
      ensures forall c :: r == Somebody(c) <==> id in onlines && onlines[id] == c && c in alive
    {
      if id in onlines {
        var c := onlines[id];
        if c in alive {
          return Somebody(c);
        }
      }
      return Nobody;
    }
  }

  class TcpObj {
    const pool: IoObjectPool
    ghost const name: Name
    var call: seq<Event>
    var onlines: set<Conn>
    ghost var batch: seq<Event>
    ghost var executed: seq<Event>
    ghost var pushed: seq<Event>
    /** The callbacks made so far. */
    ghost var called: seq<Call>

    ghost function View(): Net
      reads this
    {
      Net(call, batch, executed, pushed, onlines)
    }

    constructor (pool: IoObjectPool, ghost name: Name)
      ensures this.pool == pool && this.name == name && View() == IDLE && called == []
    {
      this.pool, this.name := pool, name;
      call, onlines := [], {};
      batch, executed, pushed, called := [], [], [], [];
    }

    method CreateConnection() returns (id: nat)
      requires pool.Valid()
      modifies pool`curSessionId, pool`created, pool`owner
      ensures pool.Valid() && pool.created == old(pool.created) + 1 && id == Id(pool.created)
      ensures pool.owner == old(pool.owner)[pool.created := name]
    {
      id := pool.NextSession();
      pool.owner := pool.owner[pool.created := name];
    }

    /** Under the lock, from any thread. */
    method Push(e: Event)
      modifies this`call, this`pushed
      ensures View() == Pushed(old(View()), e)
    {
      call, pushed := call + [e], pushed + [e];
    }

    /** Under the lock, in the poller. */
    method TakeBatch() returns (recv: seq<Event>)
      modifies this`call, this`batch
      ensures View() == Swapped(old(View())) && recv == old(call)
    {
      recv := call;
      call := [];
      batch := recv + batch;
    }

    /** User code is called for an event; it sees both indexes as they are now. */
    ghost method CallUser(e: Event)
      modifies this`called
      ensures called == old(called) + [Call(e, onlines, pool.onlines)]
    {
      called := called + [Call(e, onlines, pool.onlines)];
    }

    /**
     The closure of one event. At a connect user code is called when both indexes have the connection, at a close
     when both still have what they had.
     */
    method RunEvent(e: Event)
      requires batch != [] && e == batch[0]
      modifies this`batch, this`executed, this`onlines, this`called, pool`onlines
      ensures View() == HeadRun(old(View()))
      ensures pool.onlines == PoolAfter(old(pool.onlines), e)
      ensures e.Connected? ==>
        called == old(called) + [Call(e, old(onlines) + {e.c}, old(pool.onlines)[Id(e.c) := e.c])]
      ensures !e.Connected? ==> called == old(called) + [Call(e, old(onlines), old(pool.onlines))]
    {
      match e {
        case Connected(c) =>
          pool.AddSession(c);
          onlines := onlines + {c};
          CallUser(e);
        case Closed(c) =>
          CallUser(e);
          pool.DelSession(c);
          onlines := onlines - {c};
        case Other(_) =>
          CallUser(e);
      }
      batch, executed := batch[1..], executed + [e];
    }

    /**
     One poll, while `arrivals[k]` is pushed as its k-th event runs. The whole batch is run in order, and what
     arrives meanwhile is all still queued, in order, for a later poll.
     */
    method Poll(arrivals: seq<seq<Event>>)
      requires batch == [] && |arrivals| == |call|
      modifies this, pool`onlines
      ensures View() == PolledNet(old(View()), Flat(arrivals))
      ensures pool.onlines == PoolAfterAll(old(pool.onlines), old(call))
      ensures called == old(called) + Calls(old(onlines), old(pool.onlines), old(call))
    {
      var recv := TakeBatch();
      assert recv[0..] == recv == recv + [];
      assert old(executed) + recv[..0] == executed && old(pushed) + Flat([]) == pushed;
      for k := 0 to |recv|
        invariant batch == recv[k..] && executed == old(executed) + recv[..k]
        invariant call == Flat(arrivals[..k]) && pushed == old(pushed) + Flat(arrivals[..k])
        invariant OnlineAfterAll(onlines, recv[k..]) == OnlineAfterAll(old(onlines), recv)
        invariant PoolAfterAll(pool.onlines, recv[k..]) == PoolAfterAll(old(pool.onlines), recv)
        invariant called + Calls(onlines, pool.onlines, recv[k..])
          == old(called) + Calls(old(onlines), old(pool.onlines), recv)
      {
        TakeNext(recv, k, old(executed));
        FlatNext(arrivals, k, old(pushed));
        OneMoreCall(called, onlines, pool.onlines, recv[k..]);
        RunEvent(recv[k]);
        PushAll(arrivals[k]);
      }
      assert arrivals[..|recv|] == arrivals && recv[..|recv|] == recv && recv[|recv|..] == [];
      assert called + [] == called;
    }

    method PushAll(events: seq<Event>)
      modifies this`call, this`pushed
      ensures call == old(call) + events && pushed == old(pushed) + events
    {
      for k := 0 to |events|
        invariant call == old(call) + events[..k] && pushed == old(pushed) + events[..k]
      {
        assert events[..k + 1] == events[..k] + [events[k]];
        Push(events[k]);
      }
      assert events[..|events|] == events;
    }
  }

  function Flat(xs: seq<seq<Event>>): seq<Event>
  {
    if xs == [] then [] else xs[0] + Flat(xs[1..])
  }

  lemma {:induction false} FlatSnoc(xs: seq<seq<Event>>, x: seq<Event>)
    ensures Flat(xs + [x]) == Flat(xs) + x
  {
    if xs == [] {
      assert [] + [x] == [x] && [x][1..] == [] && x + [] == x;
    } else {
      assert (xs + [x])[1..] == xs[1..] + [x];
      FlatSnoc(xs[1..], x);
      assert (xs[0] + Flat(xs[1..])) + x == xs[0] + (Flat(xs[1..]) + x);
    }
  }

  lemma TakeNext(recv: seq<Event>, k: nat, before: seq<Event>)
    requires k < |recv|
    ensures recv[k..] != [] && recv[k..][0] == recv[k] && recv[k..][1..] == recv[k + 1..]
    ensures (before + recv[..k]) + [recv[k]] == before + recv[..k + 1]
  {
  }

  lemma OneMoreCall(called: seq<Call>, online: set<Conn>, pool: map<nat, Conn>, batch: seq<Event>)
    requires batch != []
    ensures var e := batch[0];
      var c := if e.Connected? then Call(e, online + {e.c}, pool[Id(e.c) := e.c]) else Call(e, online, pool);
      called + Calls(online, pool, batch)
        == (called + [c]) + Calls(OnlineAfter(online, e), PoolAfter(pool, e), batch[1..])
  {
    var e := batch[0];
    var later := Calls(OnlineAfter(online, e), PoolAfter(pool, e), batch[1..]);
    var c := if e.Connected? then Call(e, online + {e.c}, pool[Id(e.c) := e.c]) else Call(e, online, pool);
    assert Calls(online, pool, batch) == [c] + later;
    assert called + ([c] + later) == (called + [c]) + later;
  }

  lemma FlatNext(xs: seq<seq<Event>>, k: nat, before: seq<Event>)
    requires k < |xs|
    ensures Flat(xs[..k]) + xs[k] == Flat(xs[..k + 1])
    ensures (before + Flat(xs[..k])) + xs[k] == before + Flat(xs[..k + 1])
  {
    assert xs[..k + 1] == xs[..k] + [xs[k]];
    FlatSnoc(xs[..k], xs[k]);
  }

  datatype RunState = Initial | Running | Stopped

  /** What came in, net by net. */
  function FlatAll(arrivals: map<Name, seq<seq<Event>>>): map<Name, seq<Event>>
  {
    map n | n in arrivals :: Flat(arrivals[n])
  }

  class NetService {
    const pool: IoObjectPool
    var nets: map<Name, TcpObj>
    var state: RunState

    /** The nets are different objects over the one pool. */
    ghost predicate Valid()
      reads this, pool, set n | n in nets :: nets[n]
    {
      pool.Valid() && forall n :: n in nets ==> nets[n].pool == pool && nets[n].name == n
    }

    /** No poll is under way. */
    ghost predicate Idle()
      reads this, pool, set n | n in nets :: nets[n]
    {
      Valid() && forall n :: n in nets ==> nets[n].batch == []
    }

    /** The state of the machine these objects are in. */
    ghost function View(): (s: Service)
      reads this, pool, set n | n in nets :: nets[n]
      ensures s.nets.Keys == nets.Keys
    {
      Service(map n | n in nets :: nets[n].View(), pool.onlines, pool.created, pool.owner)
    }

    constructor ()
      ensures fresh(pool) && Idle() && View() == EMPTY && state == Initial
    {
      pool := new IoObjectPool();
      nets := map[];
      state := Initial;
    }

    /** False and no change when the name is taken. */
    method Add(name: Name) returns (ok: bool)
      requires Valid()
      modifies this`nets
      ensures Valid() && (old(Idle()) ==> Idle())
      ensures ok <==> name !in old(nets)
      ensures !ok ==> nets == old(nets)
      ensures ok ==> name in nets && fresh(nets[name]) && nets == old(nets)[name := nets[name]]
      ensures ok ==> View() == Do(old(View()), AddNet(name))
    {
      if name in nets {
        return false;
      }
      var net := new TcpObj(pool, name);
      nets := nets[name := net];
      ok := true;
    }

    method Start()
      modifies this`state
      ensures state.Running?
    {
      state := Running;
    }

    method SetStop()
      modifies this`state
      ensures state.Stopped?
    {
      state := Stopped;
    }

    /**
     Polls every net, in some order; `arrivals[n]` is what is pushed to `n` while its own batch runs. Each net
     has run its whole queue, and the indexes still agree.
     */
    method Poll(arrivals: map<Name, seq<seq<Event>>>) returns (ghost order: seq<Name>)
      requires Idle()
      requires forall n :: n in nets ==> n in arrivals && |arrivals[n]| == |nets[n].call|
      modifies set n | n in nets :: nets[n]
      modifies pool`onlines
      ensures Idle()
      ensures OnceEach(order, nets.Keys)
      ensures View() == PolledAll(old(View()), order, FlatAll(arrivals))
      ensures forall n :: n in nets ==> View().nets[n] == PolledNet(old(View()).nets[n], Flat(arrivals[n]))
      ensures forall n :: n in nets && old(InOrder(nets[n].View())) ==> InOrder(nets[n].View())
      ensures old(Inv(View())) && AllOwned(old(View()), FlatAll(arrivals)) ==> Inv(View())
    {
      ghost var start := View();
      order := PollNets(arrivals);
      PolledEach(start, order, FlatAll(arrivals));
      forall n | n in nets && InOrder(start.nets[n]) ensures InOrder(View().nets[n]) {
        PolledInOrder(start.nets[n], Flat(arrivals[n]));
      }
      if Inv(start) && AllOwned(start, FlatAll(arrivals)) {
        PollsKeepInv(start, order, FlatAll(arrivals));
      }
    }

    method PollNets(arrivals: map<Name, seq<seq<Event>>>) returns (ghost order: seq<Name>)
      requires Idle()
      requires forall n :: n in nets ==> n in arrivals && |arrivals[n]| == |nets[n].call|
      modifies set n | n in nets :: nets[n]
      modifies pool`onlines
      ensures Idle()
      ensures OnceEach(order, nets.Keys)
      ensures View() == PolledAll(old(View()), order, FlatAll(arrivals))
    {
      var rest := nets.Keys;
      order := [];
      ghost var start := View();
      while rest != {}
        invariant rest <= nets.Keys && Idle()
        invariant OnceEach(order, nets.Keys - rest)
        invariant View() == PolledAll(start, order, FlatAll(arrivals))
        decreases rest
      {
        var name :| name in rest;
        PollNext(name, arrivals, start, order);
        OneMoreInOrder(order, nets.Keys, rest, name);
        order := order + [name];
        rest := rest - {name};
      }
    }

    /** The next net's turn, those of `order` having been polled since `start`. */
    method PollNext(name: Name, arrivals: map<Name, seq<seq<Event>>>, ghost start: Service, ghost order: seq<Name>)
      requires Idle() && start.nets.Keys == nets.Keys && name in nets && name !in order
      requires NoneTwice(order) && forall n :: n in order ==> n in nets
      requires forall n :: n in nets ==> n in arrivals && |arrivals[n]| == |start.nets[n].call|
      requires View() == PolledAll(start, order, FlatAll(arrivals))
      modifies nets[name], pool`onlines
      ensures Idle() && View() == PolledAll(start, order + [name], FlatAll(arrivals))
    {
      PolledOnce(start, order, FlatAll(arrivals), name);
      OneMorePolled(start, order, FlatAll(arrivals), name);
      assert nets[name].View() == View().nets[name];
      PollNet(name, arrivals[name]);
    }

    /** One net's poll, as a step of the whole service. */
    method PollNet(name: Name, arrivals: seq<seq<Event>>)
      requires Idle() && name in nets && |arrivals| == |nets[name].call|
      modifies nets[name], pool`onlines
      ensures Idle() && View() == Polled(old(View()), name, Flat(arrivals))
    {
      ghost var before := View();
      nets[name].Poll(arrivals);
      OneNetPolled(before, View(), name, Flat(arrivals));
    }

    /** To the connection of the session, if the pool finds one; `Nobody` is the source's false. */
    method Send(session: nat, alive: set<Conn>) returns (r: Found)
      requires Valid()
      ensures r == if state.Running? then Lookup(pool.onlines, alive, session) else Nobody
      ensures Inv(View()) && pool.created <= ID_LIMIT && (forall c: Conn :: Online(View(), c) ==> c in alive) ==>
        forall c :: r == Somebody(c) <==> state.Running? && Online(View(), c) && Id(c) == session
    {
      if state != Running {
        return Nobody;
      }
      r := pool.Session(session, alive);
      if Inv(View()) && pool.created <= ID_LIMIT && forall c: Conn :: Online(View(), c) ==> c in alive {
        FoundIsOnline(View(), alive, session);
      }
    }

    /** A clone of its own for every online connection of the net, addressed to its session. */
    method SendAll(name: Name, msg: NetBlock) returns (ok: bool, sent: map<Conn, NetBlock>, ghost used: set<object>)
      requires msg.Valid() && msg.data != null
      ensures ok <==> state.Running? && name in nets
      ensures sent.Keys == if ok then nets[name].onlines else {}
      ensures fresh(used) && Copies(sent, msg.data.View().content, used) && Apart(sent, used)
    {
      sent, used := map[], {};
      if state != Running || name !in nets {
        return false, sent, used;
      }
      var rest := nets[name].onlines;
      while rest != {}
        invariant rest <= nets[name].onlines && sent.Keys == nets[name].onlines - rest
        invariant fresh(used) && Copies(sent, msg.data.View().content, used) && Apart(sent, used)
        decreases rest
      {
        var c :| c in rest;
        sent, used := CloneFor(c, msg, sent, used);
        rest := rest - {c};
      }
      ok := true;
    }

    method CloneTo(session: nat, msg: NetBlock) returns (b: NetBlock)
      requires msg.Valid() && msg.data != null
      ensures fresh(b.Repr()) && b.Valid() && b.data != null
      ensures b.session == session && b.data.View().content == msg.data.View().content
    {
      b := msg.Clone(session);
    }

    method CloneFor(c: Conn, msg: NetBlock, sent: map<Conn, NetBlock>, ghost used: set<object>)
      returns (more: map<Conn, NetBlock>, ghost used': set<object>)
      requires msg.Valid() && msg.data != null && c !in sent
      requires Copies(sent, msg.data.View().content, used) && Apart(sent, used)
      ensures more.Keys == sent.Keys + {c} && fresh(used' - used)
      ensures Copies(more, msg.data.View().content, used') && Apart(more, used')
    {
      var copy := CloneTo(Id(c), msg);
      OneMoreClone(sent, msg.data.View().content, used, c, copy);
      more := sent[c := copy];
      used' := used + copy.Repr();
    }
  }

  /** Blocks over the objects of `used`, each for the session of its connection and with these bytes. */
  ghost predicate Copies(sent: map<Conn, NetBlock>, content: bytes, used: set<object>)
    reads used
  {
    forall c :: c in sent ==>
      var b := sent[c];
      && b in used && b.data != null && b.data in used && b.data.buffer in used
      && b.Valid() && b.session == Id(c) && b.data.View().content == content
  }

  /** Different connections have different blocks, buffers and arrays. */
  ghost predicate Apart(sent: map<Conn, NetBlock>, used: set<object>)
    requires forall c :: c in sent ==> sent[c] in used && sent[c].data != null && sent[c].data in used
    reads used
  {
    forall c, d :: c in sent && d in sent && c != d ==>
      sent[c] != sent[d] && sent[c].data != sent[d].data && sent[c].data.buffer != sent[d].data.buffer
  }

  lemma OneMoreCopy(sent: map<Conn, NetBlock>, content: bytes, used: set<object>, c: Conn, b: NetBlock)
    requires Copies(sent, content, used) && b.Valid() && b.data != null
    requires b.session == Id(c) && b.data.View().content == content
    ensures Copies(sent[c := b], content, used + b.Repr())
  {
  }

  lemma OneMoreApart(sent: map<Conn, NetBlock>, content: bytes, used: set<object>, c: Conn, b: NetBlock)
    requires Copies(sent, content, used) && Apart(sent, used)
    requires b.data != null && b.Repr() !! used
    ensures Apart(sent[c := b], used + b.Repr())
  {
  }

  lemma OneMoreClone(sent: map<Conn, NetBlock>, content: bytes, used: set<object>, c: Conn, b: NetBlock)
    requires Copies(sent, content, used) && Apart(sent, used)
    requires b.Valid() && b.data != null && b.Repr() !! used
    requires b.session == Id(c) && b.data.View().content == content
    ensures Copies(sent[c := b], content, used + b.Repr()) && Apart(sent[c := b], used + b.Repr())
  {
    OneMoreCopy(sent, content, used, c, b);
    OneMoreApart(sent, content, used, c, b);
  }

  /** A list of these names, each of them once. */
  ghost predicate OnceEach(order: seq<Name>, names: set<Name>)
  {
    NoneTwice(order) && forall n :: n in order <==> n in names
  }

  lemma OneMoreInOrder(order: seq<Name>, all: set<Name>, rest: set<Name>, n: Name)
    requires OnceEach(order, all - rest) && n in rest && rest <= all
    ensures OnceEach(order + [n], all - (rest - {n}))
  {
  }

  /** What came in was pushed by the nets that own it. */
  ghost predicate AllOwned(s: Service, arrivals: map<Name, seq<Event>>)
  {
    forall n, e :: n in arrivals && e in arrivals[n] ==> Owned(s, n, e)
  }

  lemma OneNetPolled(s: Service, r: Service, n: Name, arrivals: seq<Event>)
    requires n in s.nets && r.nets.Keys == s.nets.Keys && r.created == s.created && r.owner == s.owner
    requires r.pool == PoolAfterAll(s.pool, s.nets[n].call) && r.nets[n] == PolledNet(s.nets[n], arrivals)
    requires forall m :: m in s.nets && m != n ==> r.nets[m] == s.nets[m]
    ensures r == Polled(s, n, arrivals)
  {
  }

  lemma OneMorePolled(s: Service, order: seq<Name>, arrivals: map<Name, seq<Event>>, n: Name)
    requires n in s.nets && n in arrivals && forall m :: m in order ==> m in s.nets && m in arrivals
    ensures PolledAll(s, order + [n], arrivals) == Polled(PolledAll(s, order, arrivals), n, arrivals[n])
  {
    assert (order + [n])[..|order|] == order;
  }

  lemma PolledEach(s: Service, order: seq<Name>, arrivals: map<Name, seq<Event>>)
    requires NoneTwice(order) && forall m :: m in order ==> m in s.nets && m in arrivals
    ensures forall n :: n in order ==> PolledAll(s, order, arrivals).nets[n] == PolledNet(s.nets[n], arrivals[n])
  {
    forall n | n in order
      ensures PolledAll(s, order, arrivals).nets[n] == PolledNet(s.nets[n], arrivals[n])
    {
      PolledOnce(s, order, arrivals, n);
    }
  }
}
