/** The connection pool as a state machine. Every operation runs under the pool's lock, so a run
    of any number of threads is a sequence of whole operations. */
module PoolState {
  type Id = nat
  type Thread = nat
  type Name = string

  datatype Place = Idle | Held(t: Thread) | Gone

  /** `names[id]` is the identifier a client was created for. `where` records the place of each
      client; no operation looks at it. */
  datatype Pool = Pool(
    idle: map<Name, seq<Id>>, held: map<Thread, seq<Id>>, names: seq<Name>,
    listening: set<Id>, lost: set<Id>, where: seq<Place>)

  const EMPTY := Pool(map[], map[], [], {}, {}, [])

  function Stack(p: Pool, name: Name): seq<Id> { if name in p.idle then p.idle[name] else [] }
  function Borrowed(p: Pool, t: Thread): seq<Id> { if t in p.held then p.held[t] else [] }

  // ---------- the invariant ----------

  ghost predicate IdleOk(p: Pool, name: Name)
    requires |p.where| == |p.names|
  {
    var s := Stack(p, name);
    && (forall i :: 0 <= i < |s| ==>
          s[i] < |p.names| && p.names[s[i]] == name && p.where[s[i]] == Idle && s[i] !in p.listening)
    && (forall i, j :: 0 <= i < j < |s| ==> s[i] != s[j])
  }

  ghost predicate HeldOk(p: Pool, t: Thread)
    requires |p.where| == |p.names|
  {
    var s := Borrowed(p, t);
    && (forall i :: 0 <= i < |s| ==> s[i] < |p.names| && p.where[s[i]] == Held(t))
    && (forall i, j :: 0 <= i < j < |s| ==> p.names[s[i]] != p.names[s[j]])
  }

  ghost predicate Placed(p: Pool, id: Id)
    requires |p.where| == |p.names| && id < |p.names|
  {
    match p.where[id]
    case Idle => id in Stack(p, p.names[id])
    case Held(t) => id in Borrowed(p, t)
    case Gone => true
  }

  ghost predicate Inv(p: Pool) {
    && |p.where| == |p.names|
    && (forall name :: IdleOk(p, name))
    && (forall t :: HeldOk(p, t))
    && (forall id: Id :: id < |p.names| ==> Placed(p, id))
  }

  // ---------- moves ----------

  /** Takes the top of a stack. */
  function Take(p: Pool, name: Name): Pool
    requires |p.where| == |p.names| && Stack(p, name) != [] && Stack(p, name)[|Stack(p, name)| - 1] < |p.names|
  {
    var s := Stack(p, name);
    p.(idle := p.idle[name := s[..|s| - 1]], where := p.where[s[|s| - 1] := Gone])
  }

  /** Hands a client that is nowhere to a thread. */
  function Grant(p: Pool, t: Thread, id: Id, listens: bool): Pool
    requires |p.where| == |p.names| && id < |p.names|
  {
    p.(held := p.held[t := Borrowed(p, t) + [id]], where := p.where[id := Held(t)],
       listening := if listens then p.listening + {id} else p.listening - {id})
  }

  function Create(p: Pool, name: Name): Pool { p.(names := p.names + [name], where := p.where + [Gone]) }

  /** Puts the `i`th client of a thread back on its stack. */
  function GiveBack(p: Pool, t: Thread, i: nat): Pool
    requires |p.where| == |p.names| && i < |Borrowed(p, t)| && Borrowed(p, t)[i] < |p.names|
  {
    var s := Borrowed(p, t);
    var id := s[i];
    p.(held := p.held[t := s[..i] + s[i + 1..]], idle := p.idle[p.names[id] := Stack(p, p.names[id]) + [id]],
       listening := p.listening - {id}, where := p.where[id := Idle])
  }

  lemma TakeKeeps(p: Pool, name: Name)
    requires Inv(p) && Stack(p, name) != []
    ensures var id := Stack(p, name)[|Stack(p, name)| - 1];
      id < |p.names| == |p.where| && p.names[id] == name && id !in p.listening && p.where[id] == Idle &&
      Inv(Take(p, name))
  {
    var s := Stack(p, name);
    var n := |s| - 1;
    var id := s[n];
    assert IdleOk(p, name);
    var q := Take(p, name);
    forall other ensures IdleOk(q, other) {
      assert IdleOk(p, other);
      assert Stack(q, other) == if other == name then s[..n] else Stack(p, other);
    }
    forall t ensures HeldOk(q, t) { assert HeldOk(p, t) && Borrowed(q, t) == Borrowed(p, t); }
    forall x: Id | x < |q.names| ensures Placed(q, x) { TakePlaces(p, name, x); }
  }

  lemma TakePlaces(p: Pool, name: Name, x: Id)
    requires Inv(p) && Stack(p, name) != [] && Stack(p, name)[|Stack(p, name)| - 1] < |p.names| && x < |p.names|
    ensures Placed(Take(p, name), x)
  {
    var s, q := Stack(p, name), Take(p, name);
    assert Placed(p, x);
    if x != s[|s| - 1] && q.where[x] == Idle && q.names[x] == name { TopGone(s, x); }
  }

  lemma TopGone(s: seq<Id>, x: Id)
    requires s != [] && x in s && x != s[|s| - 1]
    ensures x in s[..|s| - 1]
  {
    var i :| 0 <= i < |s| && s[i] == x;
    assert s[..|s| - 1][i] == x;
  }

  ghost predicate HasNamed(p: Pool, t: Thread, name: Name)
    requires |p.where| == |p.names| && HeldOk(p, t)
  {
    exists i :: 0 <= i < |Borrowed(p, t)| && p.names[Borrowed(p, t)[i]] == name
  }

  lemma GrantKeeps(p: Pool, t: Thread, id: Id, listens: bool)
    requires Inv(p) && id < |p.names| && p.where[id] == Gone && HeldOk(p, t) && !HasNamed(p, t, p.names[id])
    ensures Inv(Grant(p, t, id, listens))
  {
    var q := Grant(p, t, id, listens);
    forall name ensures IdleOk(q, name) { assert IdleOk(p, name) && Stack(q, name) == Stack(p, name); }
    forall u ensures HeldOk(q, u) {
      assert HeldOk(p, u);
      assert Borrowed(q, u) == if u == t then Borrowed(p, t) + [id] else Borrowed(p, u);
    }
    forall x: Id | x < |q.names| ensures Placed(q, x) {
      assert Placed(p, x);
      if x == id { assert Borrowed(q, t)[|Borrowed(p, t)|] == id; }
    }
  }

  lemma CreateKeeps(p: Pool, name: Name)
    requires Inv(p)
    ensures Inv(Create(p, name))
  {
    var q := Create(p, name);
    forall other ensures IdleOk(q, other) { assert IdleOk(p, other) && Stack(q, other) == Stack(p, other); }
    forall t ensures HeldOk(q, t) { assert HeldOk(p, t) && Borrowed(q, t) == Borrowed(p, t); }
    forall x: Id | x < |q.names| ensures Placed(q, x) {
      if x < |p.names| { assert Placed(p, x) && Stack(q, q.names[x]) == Stack(p, p.names[x]); }
    }
  }

  lemma GiveBackKeeps(p: Pool, t: Thread, i: nat)
    requires Inv(p) && i < |Borrowed(p, t)|
    ensures Borrowed(p, t)[i] < |p.names| && Inv(GiveBack(p, t, i))
  {
    var s := Borrowed(p, t);
    assert HeldOk(p, t);
    var id := s[i];
    var q := GiveBack(p, t, i);
    forall name ensures IdleOk(q, name) {
      assert IdleOk(p, name);
      assert Stack(q, name) == if name == p.names[id] then Stack(p, name) + [id] else Stack(p, name);
    }
    forall u ensures HeldOk(q, u) {
      assert HeldOk(p, u);
      assert Borrowed(q, u) == if u == t then s[..i] + s[i + 1..] else Borrowed(p, u);
    }
    forall x: Id | x < |q.names| ensures Placed(q, x) {
      assert Placed(p, x);
      if x == id {
        assert Stack(q, p.names[id])[|Stack(p, p.names[id])|] == id;
      } else if p.where[x] == Held(t) {
        OthersStay(s, i, x);
      } else if p.where[x] == Idle && p.names[x] == p.names[id] {
        assert Stack(q, p.names[x]) == Stack(p, p.names[x]) + [id];
      }
    }
  }

  lemma OthersStay(s: seq<Id>, i: nat, x: Id)
    requires i < |s| && x in s && x != s[i]
    ensures x in s[..i] + s[i + 1..]
  {
    var k :| 0 <= k < |s| && s[k] == x;
    if k < i { assert (s[..i] + s[i + 1..])[k] == x; } else { assert (s[..i] + s[i + 1..])[k - 1] == x; }
  }

  // ---------- operations ----------

  /** What running the event loop of an idle client once comes to. */
  datatype Check = Fine | Loses | Throws

  datatype Found = Got(id: Id) | Nothing | Failed

  /** Pops clients until one is not lost. Lost ones are dropped. */
  function Search(p: Pool, name: Name, check: Id -> Check): (r: (Pool, Found))
    requires Inv(p)
    ensures Inv(r.0) && r.0.names == p.names && r.0.held == p.held && r.0.listening == p.listening
    ensures r.1.Got? ==>
              r.1.id < |p.names| && p.names[r.1.id] == name && r.0.where[r.1.id] == Gone && p.where[r.1.id] == Idle
    ensures r.1.Got? ==> r.1.id !in r.0.lost && r.1.id !in r.0.listening
    ensures r.1.Nothing? ==> Stack(r.0, name) == []
    decreases |Stack(p, name)|
  {
    var s := Stack(p, name);
    if s == [] then (p, Nothing)
    else
      TakeKeeps(p, name);
      var id := s[|s| - 1];
      var q := Take(p, name);
      assert Stack(q, name) == s[..|s| - 1];
      if check(id).Throws? then (q, Failed)
      else
        var r := if check(id).Loses? then Mark(q, id) else q;
        MarkKeeps(q, id);
        if id in r.lost then
          assert Stack(r, name) == s[..|s| - 1];
          Search(r, name, check)
        else (r, Got(id))
  }

  function Mark(p: Pool, id: Id): Pool { p.(lost := p.lost + {id}) }

  lemma MarkKeeps(p: Pool, id: Id)
    requires Inv(p)
    ensures Inv(Mark(p, id))
  {
    var q := Mark(p, id);
    forall name ensures IdleOk(q, name) { assert IdleOk(p, name) && Stack(q, name) == Stack(p, name); }
    forall t ensures HeldOk(q, t) { assert HeldOk(p, t) && Borrowed(q, t) == Borrowed(p, t); }
    forall x: Id | x < |q.names| ensures Placed(q, x) { assert Placed(p, x); }
  }

  /** The first client of a thread for which `names` gives the identifier. */
  function FirstNamed(ids: seq<Id>, names: seq<Name>, name: Name): (i: nat)
    requires forall k :: 0 <= k < |ids| ==> ids[k] < |names|
    ensures i <= |ids| && (i < |ids| ==> names[ids[i]] == name) && forall k :: 0 <= k < i ==> names[ids[k]] != name
  {
    if ids == [] then 0
    else if names[ids[0]] == name then 0
    else
      var i := FirstNamed(ids[1..], names, name);
      assert forall k :: 0 < k < 1 + i ==> ids[k] == ids[1..][k - 1];
      1 + i
  }

  datatype Op =
    | Acquire(t: Thread, name: Name, listens: bool, check: Id -> Check, connects: bool)
    | Return(t: Thread, id: Id)
    | ScriptEnd(t: Thread)
    | Lose(id: Id)

  /** The client given out, if any. */
  datatype Answer = Client(id: Id) | NoClient

  function Register(p: Pool, t: Thread): (q: Pool) { p.(held := p.held[t := Borrowed(p, t)]) }

  lemma RegisterKeeps(p: Pool, t: Thread)
    requires Inv(p)
    ensures Inv(Register(p, t)) && HeldOk(Register(p, t), t) && Borrowed(Register(p, t), t) == Borrowed(p, t)
  {
    var q := Register(p, t);
    forall name ensures IdleOk(q, name) { assert IdleOk(p, name) && Stack(q, name) == Stack(p, name); }
    forall u ensures HeldOk(q, u) { assert HeldOk(p, u) && Borrowed(q, u) == Borrowed(p, u); }
    forall x: Id | x < |q.names| ensures Placed(q, x) { assert Placed(p, x); }
  }

  /** An idle client that is still connected, otherwise a new one. */
  function Fetch(p: Pool, t: Thread, name: Name, listens: bool, check: Id -> Check, connects: bool): (r: (Pool, Answer))
    requires Inv(p) && HeldOk(p, t) && !HasNamed(p, t, name)
    ensures Inv(r.0)
  {
    var (s, found) := Search(p, name, check);
    assert HeldOk(s, t) && Borrowed(s, t) == Borrowed(p, t);
    assert !HasNamed(s, t, name);
    match found
    case Failed => (s, NoClient)
    case Got(id) =>
      GrantKeeps(s, t, id, listens);
      (Grant(s, t, id, listens), Client(id))
    case Nothing =>
      if !connects then (s, NoClient)
      else
        CreateKeeps(s, name);
        var c := Create(s, name);
        assert HeldOk(c, t) && Borrowed(c, t) == Borrowed(s, t);
        assert !HasNamed(c, t, name);
        GrantKeeps(c, t, |s.names|, listens);
        (Grant(c, t, |s.names|, listens), Client(|s.names|))
  }

  /** A thread that already has a client for the identifier gets it again. */
  function DoAcquire(p: Pool, t: Thread, name: Name, listens: bool, check: Id -> Check, connects: bool)
    : (r: (Pool, Answer))
    requires Inv(p)
    ensures Inv(r.0)
  {
    RegisterKeeps(p, t);
    var q := Register(p, t);
    assert HeldOk(q, t);
    var i := FirstNamed(Borrowed(q, t), q.names, name);
    if i < |Borrowed(q, t)| then (q, Client(Borrowed(q, t)[i])) else Fetch(q, t, name, listens, check, connects)
  }

  function FirstIs(ids: seq<Id>, id: Id): (i: nat)
    ensures i <= |ids| && (i < |ids| ==> ids[i] == id) && forall k :: 0 <= k < i ==> ids[k] != id
  {
    if ids == [] then 0
    else if ids[0] == id then 0
    else
      var i := FirstIs(ids[1..], id);
      assert forall k :: 0 < k < 1 + i ==> ids[k] == ids[1..][k - 1];
      1 + i
  }

  /** Only a thread that holds a client can return it. */
  function DoReturn(p: Pool, t: Thread, id: Id): (r: (Pool, bool))
    requires Inv(p)
    ensures Inv(r.0)
  {
    var i := FirstIs(Borrowed(p, t), id);
    if i == |Borrowed(p, t)| then (p, false)
    else
      GiveBackKeeps(p, t, i);
      (GiveBack(p, t, i), true)
  }

  /** Gives back all clients of a thread, the oldest first. */
  function ReturnAll(p: Pool, t: Thread): (q: Pool)
    requires Inv(p)
    ensures Inv(q) && t !in q.held && q.names == p.names
    decreases |Borrowed(p, t)|
  {
    if Borrowed(p, t) == [] then
      ForgetKeeps(p, t);
      p.(held := p.held - {t})
    else
      GiveBackKeeps(p, t, 0);
      assert Borrowed(GiveBack(p, t, 0), t) == Borrowed(p, t)[1..];
      ReturnAll(GiveBack(p, t, 0), t)
  }

  lemma ReturnAllStep(p: Pool, t: Thread)
    requires Inv(p) && Borrowed(p, t) != []
    ensures Borrowed(p, t)[0] < |p.names| == |p.where|
    ensures Inv(GiveBack(p, t, 0)) && ReturnAll(GiveBack(p, t, 0), t) == ReturnAll(p, t)
    ensures GiveBack(p, t, 0).held == p.held[t := Borrowed(p, t)[1..]]
  {
    GiveBackKeeps(p, t, 0);
    assert Borrowed(p, t)[..0] + Borrowed(p, t)[1..] == Borrowed(p, t)[1..];
  }

  lemma ReturnNone(p: Pool, t: Thread)
    requires Inv(p) && Borrowed(p, t) == []
    ensures ReturnAll(p, t) == p.(held := p.held - {t}) && Inv(p.(held := p.held - {t}))
  {
    ForgetKeeps(p, t);
  }

  lemma ForgetKeeps(p: Pool, t: Thread)
    requires Inv(p) && Borrowed(p, t) == []
    ensures Inv(p.(held := p.held - {t}))
  {
    var q := p.(held := p.held - {t});
    forall name ensures IdleOk(q, name) { assert IdleOk(p, name) && Stack(q, name) == Stack(p, name); }
    forall u ensures HeldOk(q, u) { assert HeldOk(p, u) && Borrowed(q, u) == Borrowed(p, u); }
    forall x: Id | x < |q.names| ensures Placed(q, x) {
      assert Placed(p, x);
      if p.where[x].Held? { assert Borrowed(q, p.where[x].t) == Borrowed(p, p.where[x].t); }
    }
  }

  function Step(p: Pool, op: Op): (q: Pool)
    requires Inv(p)
    ensures Inv(q)
  {
    match op
    case Acquire(t, name, listens, check, connects) => DoAcquire(p, t, name, listens, check, connects).0
    case Return(t, id) => DoReturn(p, t, id).0
    case ScriptEnd(t) => if t in p.held then ReturnAll(p, t) else p
    case Lose(id) =>
      MarkKeeps(p, id);
      Mark(p, id)
  }

  lemma EmptyIsFine()
    ensures Inv(EMPTY)
  {
  }

  /** Any interleaving of the threads' operations. */
  function Run(p: Pool, ops: seq<Op>): (q: Pool)
    requires Inv(p)
    ensures Inv(q)
  {
    if ops == [] then p else Step(Run(p, ops[..|ops| - 1]), ops[|ops| - 1])
  }

  /** The pool after a run from the start. */
  function Reached(ops: seq<Op>): (p: Pool)
    ensures Inv(p)
  {
    EmptyIsFine();
    Run(EMPTY, ops)
  }

  // ---------- what holds after every run ----------

  ghost predicate IsIdle(p: Pool, id: Id) { exists name :: id in Stack(p, name) }
  ghost predicate IsHeldBy(p: Pool, t: Thread, id: Id) { id in Borrowed(p, t) }

  /** Every client ever created is idle under its own identifier only, or held by one thread only,
      or discarded, and never two of these. */
  lemma InOnePlace(ops: seq<Op>, id: Id)
    requires id < |Reached(ops).names|
    ensures var p := Reached(ops);
      && (forall name :: id in Stack(p, name) ==> name == p.names[id])
      && (forall t, u :: IsHeldBy(p, t, id) && IsHeldBy(p, u, id) ==> t == u)
      && (IsIdle(p, id) ==> forall t :: !IsHeldBy(p, t, id))
      && (p.where[id] == Gone <==> !IsIdle(p, id) && forall t :: !IsHeldBy(p, t, id))
  {
    var p := Reached(ops);
    forall name | id in Stack(p, name) ensures name == p.names[id] && p.where[id] == Idle {
      assert IdleOk(p, name);
      var i :| 0 <= i < |Stack(p, name)| && Stack(p, name)[i] == id;
    }
    forall t | IsHeldBy(p, t, id) ensures p.where[id] == Held(t) {
      assert HeldOk(p, t);
      var i :| 0 <= i < |Borrowed(p, t)| && Borrowed(p, t)[i] == id;
    }
    assert Placed(p, id);
    if p.where[id] == Idle { assert id in Stack(p, p.names[id]); }
    if p.where[id].Held? { assert IsHeldBy(p, p.where[id].t, id); }
  }

  /** No thread holds two clients for one identifier, no client is listed twice, and idle clients
      have no listener. */
  lemma ListsAreProper(ops: seq<Op>, t: Thread, name: Name)
    ensures var p := Reached(ops);
      && (forall i :: 0 <= i < |Borrowed(p, t)| ==> Borrowed(p, t)[i] < |p.names|)
      && (forall i, j :: 0 <= i < j < |Borrowed(p, t)| ==> p.names[Borrowed(p, t)[i]] != p.names[Borrowed(p, t)[j]])
      && (forall i, j :: 0 <= i < j < |Stack(p, name)| ==> Stack(p, name)[i] != Stack(p, name)[j])
      && (forall i :: 0 <= i < |Stack(p, name)| ==> Stack(p, name)[i] !in p.listening)
  {
    var p := Reached(ops);
    assert HeldOk(p, t) && IdleOk(p, name);
  }

  /** A client that is given out has the wanted identifier and is then held by the thread. If it
      was idle before, it is not lost; if it was not there before, it is new; otherwise the thread
      had it already. */
  lemma AcquireGives(p: Pool, t: Thread, name: Name, listens: bool, check: Id -> Check, connects: bool)
    requires Inv(p)
    ensures var (q, answer) := DoAcquire(p, t, name, listens, check, connects);
      answer.Client? ==>
        && answer.id < |q.names| && q.names[answer.id] == name && IsHeldBy(q, t, answer.id)
        && (answer.id < |p.names| && p.where[answer.id] == Idle ==> answer.id !in q.lost)
        && (answer.id < |p.names| && p.where[answer.id] != Idle ==> q == Register(p, t) && IsHeldBy(p, t, answer.id))
        && (answer.id >= |p.names| ==> Stack(q, name) == [])
  {
    var r := Register(p, t);
    RegisterKeeps(p, t);
    assert HeldOk(r, t);
    var i := FirstNamed(Borrowed(r, t), r.names, name);
    var (q, answer) := DoAcquire(p, t, name, listens, check, connects);
    if i < |Borrowed(r, t)| {
      assert Borrowed(r, t)[i] in Borrowed(p, t);
    } else if answer.Client? {
      assert Borrowed(q, t)[|Borrowed(q, t)| - 1] == answer.id;
    }
  }

  /** Only clients that are lost, or whose check failed, are discarded by a search, and none that
      is idle under another identifier is touched. */
  lemma {:induction false} SearchDiscards(p: Pool, name: Name, check: Id -> Check, id: Id)
    requires Inv(p) && id < |p.names|
    ensures var (q, found) := Search(p, name, check);
      && (q.where[id] != p.where[id] ==> q.where[id] == Gone && p.where[id] == Idle && p.names[id] == name)
      && (q.where[id] != p.where[id] && found != Got(id) ==> id in q.lost || found == Failed)
    decreases |Stack(p, name)|
  {
    var s := Stack(p, name);
    if s != [] {
      TakeKeeps(p, name);
      var top := s[|s| - 1];
      var q := Take(p, name);
      assert Stack(q, name) == s[..|s| - 1];
      if !check(top).Throws? {
        var r := if check(top).Loses? then Mark(q, top) else q;
        MarkKeeps(q, top);
        if top in r.lost {
          assert Stack(r, name) == s[..|s| - 1];
          SearchDiscards(r, name, check, id);
          LostStays(r, name, check);
        }
      }
    }
  }

  lemma {:induction false} LostStays(p: Pool, name: Name, check: Id -> Check)
    requires Inv(p)
    ensures p.lost <= Search(p, name, check).0.lost
    decreases |Stack(p, name)|
  {
    var s := Stack(p, name);
    if s != [] {
      TakeKeeps(p, name);
      var top := s[|s| - 1];
      var q := Take(p, name);
      assert Stack(q, name) == s[..|s| - 1];
      if !check(top).Throws? {
        var r := if check(top).Loses? then Mark(q, top) else q;
        MarkKeeps(q, top);
        if top in r.lost {
          assert Stack(r, name) == s[..|s| - 1];
          LostStays(r, name, check);
        }
      }
    }
  }

  /** The end of a script leaves none of the thread's clients held: each is idle again under its
      own identifier, and no other client moved. */
  lemma {:induction false} ScriptEndReturnsAll(p: Pool, t: Thread, id: Id)
    requires Inv(p) && id < |p.names|
    ensures ReturnAll(p, t).where[id] == if p.where[id] == Held(t) then Idle else p.where[id]
    decreases |Borrowed(p, t)|
  {
    assert Placed(p, id);
    if Borrowed(p, t) != [] {
      GiveBackKeeps(p, t, 0);
      assert HeldOk(p, t);
      assert Borrowed(GiveBack(p, t, 0), t) == Borrowed(p, t)[1..];
      ScriptEndReturnsAll(GiveBack(p, t, 0), t, id);
    }
  }

  /** Returning what was acquired makes it idle without a listener, and a second return fails. */
  lemma ReturnWorksOnce(p: Pool, t: Thread, id: Id)
    requires Inv(p)
    ensures DoReturn(p, t, id).1 <==> IsHeldBy(p, t, id)
    ensures IsHeldBy(p, t, id) ==>
      var q := DoReturn(p, t, id).0;
      id < |q.names| && q.where[id] == Idle && id !in q.listening && !DoReturn(q, t, id).1
  {
    if IsHeldBy(p, t, id) {
      assert HeldOk(p, t);
      var i :| 0 <= i < |Borrowed(p, t)| && Borrowed(p, t)[i] == id;
      assert id < |p.names|;
      var q := DoReturn(p, t, id).0;
      assert HeldOk(q, t);
    }
  }
}
