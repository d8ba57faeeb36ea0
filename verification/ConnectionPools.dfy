/** The connection pool's methods, each one an operation of the pool's state machine. The thread
    that runs a method is a parameter. */
module ConnectionPools {
  import opened PoolState
  import PoolCalls

  lemma FirstNamedIs(ids: seq<Id>, names: seq<Name>, name: Name, i: nat)
    requires forall k :: 0 <= k < |ids| ==> ids[k] < |names|
    requires i <= |ids| && (i < |ids| ==> names[ids[i]] == name) && forall k :: 0 <= k < i ==> names[ids[k]] != name
    ensures FirstNamed(ids, names, name) == i
  {
    var j := FirstNamed(ids, names, name);
    assert !(j < i) && !(i < j);
  }

  lemma FirstIsIs(ids: seq<Id>, id: Id, i: nat)
    requires i <= |ids| && (i < |ids| ==> ids[i] == id) && forall k :: 0 <= k < i ==> ids[k] != id
    ensures FirstIs(ids, id) == i
  {
    var j := FirstIs(ids, id);
    assert !(j < i) && !(i < j);
  }

  class ConnectionPool {
    var idle: map<Name, seq<Id>>
    var held: map<Thread, seq<Id>>
    var names: seq<Name>
    var listening: set<Id>
    var lost: set<Id>
    ghost var where: seq<Place>

    ghost function Abs(): Pool reads this { Pool(idle, held, names, listening, lost, where) }

    constructor ()
      ensures Abs() == EMPTY && Inv(Abs())
    {
      idle, held, names, listening, lost, where := map[], map[], [], {}, {}, [];
      new;
      EmptyIsFine();
    }

    /** Pops idle clients, running the event loop of each once, until one is not lost. */
    method TakeIdle(name: Name, check: Id -> Check) returns (found: Found)
      requires Inv(Abs())
      modifies this
      ensures (Abs(), found) == Search(old(Abs()), name, check)
    {
      hide Inv;
      ghost var start := Abs();
      while name in idle && |idle[name]| > 0
        invariant Inv(Abs()) && Search(Abs(), name, check) == Search(start, name, check)
        decreases |Stack(Abs(), name)|
      {
        TakeKeeps(Abs(), name);
        var id := Pop(name);
        MarkKeeps(Abs(), id);
        var r := check(id);
        if r.Throws? { return Failed; }
        if r.Loses? { lost := lost + {id}; }
        if id !in lost { return Got(id); }
      }
      found := Nothing;
    }

    method Pop(name: Name) returns (id: Id)
      requires |where| == |names| && name in idle && idle[name] != [] && idle[name][|idle[name]| - 1] < |names|
      modifies this`idle, this`where
      ensures id == old(idle[name][|idle[name]| - 1]) && Abs() == Take(old(Abs()), name)
    {
      var stack := idle[name];
      id := stack[|stack| - 1];
      idle := idle[name := stack[..|stack| - 1]];
      where := where[id := Gone];
    }

    /** Records a client as borrowed, with the caller's listener or none. */
    method Lend(t: Thread, id: Id, listens: bool)
      requires |where| == |names| && id < |names| && t in held
      modifies this
      ensures Abs() == Grant(old(Abs()), t, id, listens)
    {
      listening := if listens then listening + {id} else listening - {id};
      held := held[t := held[t] + [id]];
      where := where[id := Held(t)];
    }

    method FindNamed(clients: seq<Id>, name: Name) returns (i: nat)
      requires forall k :: 0 <= k < |clients| ==> clients[k] < |names|
      ensures i == FirstNamed(clients, names, name)
    {
      i := 0;
      while i < |clients| && names[clients[i]] != name
        invariant i <= |clients| && forall k :: 0 <= k < i ==> names[clients[k]] != name
      {
        i := i + 1;
      }
      FirstNamedIs(clients, names, name, i);
    }

    method AcquireClient(t: Thread, name: Name, listens: bool, check: Id -> Check, connects: bool)
      returns (answer: Answer)
      requires Inv(Abs())
      modifies this
      ensures Inv(Abs()) && (Abs(), answer) == DoAcquire(old(Abs()), t, name, listens, check, connects)
      ensures answer.Client? <==>
              || PoolCalls.HoldsOne(old(Abs()), t, name)
              || (exists k :: 0 <= k < |Stack(old(Abs()), name)| && PoolCalls.FoundAt(old(Abs()), name, check, k))
              || (PoolCalls.SkippedDownTo(old(Abs()), name, check, -1) && connects)
    {
      hide Inv, Fetch, FirstNamed, PoolCalls.HoldsOne, PoolCalls.FoundAt, PoolCalls.SkippedDownTo;
      ghost var p := Abs();
      PoolCalls.AcquireOutcome(p, t, name, listens, check, connects);
      RegisterKeeps(p, t);
      if t !in held { held := held[t := []]; }
      assert held == p.held[t := Borrowed(p, t)];
      assert Abs() == Register(p, t);
      var clients := held[t];
      var i := FindNamed(clients, name);
      if i < |clients| { return Client(clients[i]); }
      answer := FetchClient(t, name, listens, check, connects);
    }

    method FetchClient(t: Thread, name: Name, listens: bool, check: Id -> Check, connects: bool)
      returns (answer: Answer)
      requires Inv(Abs()) && t in held && HeldOk(Abs(), t) && !HasNamed(Abs(), t, name)
      modifies this
      ensures Inv(Abs()) && (Abs(), answer) == Fetch(old(Abs()), t, name, listens, check, connects)
    {
      hide Search, HeldOk, IdleOk, Placed, HasNamed, Grant, Create;
      ghost var p := Abs();
      var found := TakeIdle(name, check);
      ghost var r := Fetch(p, t, name, listens, check, connects);
      if found.Got? {
        Lend(t, found.id, listens);
        assert Abs() == r.0;
        return Client(found.id);
      } else if found.Failed? || !connects {
        return NoClient;
      }
      var id := Connect(t, name, listens);
      assert Abs() == r.0;
      return Client(id);
    }

    /** A new client, borrowed at once. */
    method Connect(t: Thread, name: Name, listens: bool) returns (id: Id)
      requires |where| == |names| && t in held
      modifies this
      ensures id == |old(names)| && Abs() == Grant(Create(old(Abs()), name), t, id, listens)
    {
      id := |names|;
      names := names + [name];
      where := where + [Gone];
      Lend(t, id, listens);
    }

    /** Pushes a client back on its stack, without a listener. */
    method Push(id: Id)
      requires id < |names| == |where|
      modifies this`listening, this`idle, this`where
      ensures listening == old(listening) - {id} && where == old(where)[id := Idle]
      ensures idle == old(idle)[names[id] := Stack(old(Abs()), names[id]) + [id]]
    {
      listening := listening - {id};
      idle := idle[names[id] := (if names[id] in idle then idle[names[id]] else []) + [id]];
      where := where[id := Idle];
    }

    method ReturnClient(t: Thread, id: Id) returns (ok: bool)
      requires Inv(Abs())
      modifies this
      ensures Inv(Abs()) && (Abs(), ok) == DoReturn(old(Abs()), t, id)
    {
      ghost var p := Abs();
      if t !in held {
        FirstIsIs([], id, 0);
        return false;
      }
      var clients := held[t];
      var i := 0;
      while i < |clients| && clients[i] != id
        invariant i <= |clients| && forall k :: 0 <= k < i ==> clients[k] != id
      {
        i := i + 1;
      }
      FirstIsIs(clients, id, i);
      if i == |clients| { return false; }
      GiveBackKeeps(p, t, i);
      hide Inv;
      Push(id);
      held := held[t := clients[..i] + clients[i + 1..]];
      return true;
    }

    method CleanupOnScriptEnd(t: Thread)
      requires Inv(Abs())
      modifies this
      ensures Inv(Abs()) && Abs() == Step(old(Abs()), ScriptEnd(t))
    {
      if t in held { ReturnHeld(t); }
    }

    /** Every client of the thread in turn; the list goes at the end. */
    method ReturnHeld(t: Thread)
      requires Inv(Abs()) && t in held
      modifies this
      ensures Inv(Abs()) && Abs() == ReturnAll(old(Abs()), t)
    {
      hide Inv, ReturnAll;
      var clients := held[t];
      ghost var p := Abs();
      assert clients[0..] == clients;
      assert p.held == held[t := clients[0..]];
      for i := 0 to |clients|
        invariant Inv(p) && held == old(held) && p.held == held[t := clients[i..]]
        invariant ReturnAll(p, t) == ReturnAll(old(Abs()), t)
        invariant Abs() == p.(held := held)
      {
        ReturnAllStep(p, t);
        assert clients[i..][1..] == clients[i + 1..];
        Push(clients[i]);
        p := GiveBack(p, t, 0);
        assert p.held == held[t := clients[i + 1..]];
      }
      ReturnNone(p, t);
      assert p.held - {t} == held - {t};
      held := held - {t};
    }
  }
}
