/** What an acquire comes to, in terms of the pool before it: when a client is given out, which
    one, and what is left of the stack. */
module PoolCalls {
  import opened PoolState

  /** Popped and not given out: it is lost, or turns out to be. */
  predicate Skipped(p: Pool, check: Id -> Check, id: Id) { !check(id).Throws? && (check(id).Loses? || id in p.lost) }

  /** Popped and given out. */
  predicate Stands(p: Pool, check: Id -> Check, id: Id) { check(id).Fine? && id !in p.lost }

  /** Everything above place `k` of the stack is skipped. */
  predicate SkippedDownTo(p: Pool, name: Name, check: Id -> Check, k: int) {
    forall j :: 0 <= j < |Stack(p, name)| && k < j ==> Skipped(p, check, Stack(p, name)[j])
  }

  predicate Holds(p: Pool, t: Thread, name: Name, id: Id) {
    id in Borrowed(p, t) && id < |p.names| && p.names[id] == name
  }

  predicate HoldsOne(p: Pool, t: Thread, name: Name) { exists id :: id in Borrowed(p, t) && Holds(p, t, name, id) }

  /** Place `k` of the stack holds the client that is given out. */
  predicate FoundAt(p: Pool, name: Name, check: Id -> Check, k: nat) {
    k < |Stack(p, name)| && Stands(p, check, Stack(p, name)[k]) && SkippedDownTo(p, name, check, k)
  }

  /** An acquire gives a client exactly if the thread has one, or one that stands comes up before
      any whose check throws, or none throws, all are skipped, and a connection can be made. */
  lemma AcquireOutcome(p: Pool, t: Thread, name: Name, listens: bool, check: Id -> Check, connects: bool)
    requires Inv(p)
    ensures DoAcquire(p, t, name, listens, check, connects).1.Client? <==>
            || HoldsOne(p, t, name)
            || (exists k :: 0 <= k < |Stack(p, name)| && FoundAt(p, name, check, k))
            || (SkippedDownTo(p, name, check, -1) && connects)
  {
    if HoldsOne(p, t, name) {
      var id :| id in Borrowed(p, t) && Holds(p, t, name, id);
      AcquireAgain(p, t, name, listens, check, connects, id);
    } else {
      var k := FirstKept(p, name, check);
      if k == -1 {
        AllSkipped(p, name, check);
        if connects { AcquireNew(p, t, name, listens, check); } else { AcquireNone(p, t, name, listens, check); }
      } else if Stands(p, check, Stack(p, name)[k]) {
        assert FoundAt(p, name, check, k);
        AcquireIdle(p, t, name, listens, check, connects, k);
      } else {
        NothingFound(p, name, check, k);
        AcquireFails(p, t, name, listens, check, connects, k);
      }
    }
  }

  lemma FirstKept(p: Pool, name: Name, check: Id -> Check) returns (k: int)
    ensures -1 <= k < |Stack(p, name)| && SkippedDownTo(p, name, check, k)
    ensures k >= 0 ==> !Skipped(p, check, Stack(p, name)[k])
  {
    k := |Stack(p, name)| - 1;
    while k >= 0 && Skipped(p, check, Stack(p, name)[k])
      invariant -1 <= k < |Stack(p, name)| && SkippedDownTo(p, name, check, k)
    {
      k := k - 1;
    }
  }

  lemma AllSkipped(p: Pool, name: Name, check: Id -> Check)
    requires SkippedDownTo(p, name, check, -1)
    ensures !exists k :: 0 <= k < |Stack(p, name)| && FoundAt(p, name, check, k)
  {
  }

  lemma NothingFound(p: Pool, name: Name, check: Id -> Check, k: nat)
    requires k < |Stack(p, name)| && check(Stack(p, name)[k]).Throws?
    requires SkippedDownTo(p, name, check, k)
    ensures !SkippedDownTo(p, name, check, -1)
    ensures !exists j :: 0 <= j < |Stack(p, name)| && FoundAt(p, name, check, j)
  {
    assert !Skipped(p, check, Stack(p, name)[k]);
    forall j | 0 <= j < |Stack(p, name)| ensures !FoundAt(p, name, check, j) {
      if j < k { assert !SkippedDownTo(p, name, check, j); }
    }
  }

  /** A thread that has a client of the name gets it again, and nothing moves. */
  lemma AcquireAgain(p: Pool, t: Thread, name: Name, listens: bool, check: Id -> Check, connects: bool, id: Id)
    requires Inv(p) && Holds(p, t, name, id)
    ensures var (q, answer) := DoAcquire(p, t, name, listens, check, connects);
      answer == Client(id) && q == p.(held := p.held[t := Borrowed(p, t)])
  {
    RegisterKeeps(p, t);
    var q := Register(p, t);
    assert HeldOk(q, t);
    var i := FirstNamed(Borrowed(q, t), q.names, name);
    var k :| 0 <= k < |Borrowed(p, t)| && Borrowed(p, t)[k] == id;
    assert i == k;
  }

  /** The topmost client that stands is given out with the listener; what was above it is gone. */
  lemma AcquireIdle(p: Pool, t: Thread, name: Name, listens: bool, check: Id -> Check, connects: bool, k: nat)
    requires Inv(p) && !HoldsOne(p, t, name) && FoundAt(p, name, check, k)
    ensures var (q, answer) := DoAcquire(p, t, name, listens, check, connects);
      var id := Stack(p, name)[k];
      && answer == Client(id) && q.names == p.names && Stack(q, name) == Stack(p, name)[..k]
      && Borrowed(q, t) == Borrowed(p, t) + [id] && (id in q.listening <==> listens)
  {
    NotNamed(p, t, name);
    SearchFinds(Register(p, t), name, check, k);
  }

  /** Without one, a new client is connected, with the listener; the stack is used up. */
  lemma AcquireNew(p: Pool, t: Thread, name: Name, listens: bool, check: Id -> Check)
    requires Inv(p) && !HoldsOne(p, t, name) && SkippedDownTo(p, name, check, -1)
    ensures var (q, answer) := DoAcquire(p, t, name, listens, check, true);
      && answer == Client(|p.names|) && q.names == p.names + [name] && Stack(q, name) == []
      && Borrowed(q, t) == Borrowed(p, t) + [|p.names|] && (|p.names| in q.listening <==> listens)
  {
    NotNamed(p, t, name);
    SameSkips(p, Register(p, t), name, check, -1);
    SearchEmpties(Register(p, t), name, check);
  }

  /** An exception of a check, or of the connection, gives no client; the thread's list stays. */
  lemma AcquireFails(p: Pool, t: Thread, name: Name, listens: bool, check: Id -> Check, connects: bool, k: nat)
    requires Inv(p) && !HoldsOne(p, t, name) && k < |Stack(p, name)| && check(Stack(p, name)[k]).Throws?
    requires SkippedDownTo(p, name, check, k)
    ensures var (q, answer) := DoAcquire(p, t, name, listens, check, connects);
      && answer == NoClient && q.names == p.names && Stack(q, name) == Stack(p, name)[..k]
      && Borrowed(q, t) == Borrowed(p, t)
  {
    NotNamed(p, t, name);
    SearchFails(Register(p, t), name, check, k);
  }

  lemma AcquireNone(p: Pool, t: Thread, name: Name, listens: bool, check: Id -> Check)
    requires Inv(p) && !HoldsOne(p, t, name) && SkippedDownTo(p, name, check, -1)
    ensures var (q, answer) := DoAcquire(p, t, name, listens, check, false);
      answer == NoClient && q.names == p.names && Stack(q, name) == [] && Borrowed(q, t) == Borrowed(p, t)
  {
    NotNamed(p, t, name);
    SameSkips(p, Register(p, t), name, check, -1);
    SearchEmpties(Register(p, t), name, check);
  }

  lemma NotNamed(p: Pool, t: Thread, name: Name)
    requires Inv(p) && !HoldsOne(p, t, name)
    ensures var q := Register(p, t);
      Inv(q) && HeldOk(q, t) && FirstNamed(Borrowed(q, t), q.names, name) == |Borrowed(q, t)|
  {
    RegisterKeeps(p, t);
    var q := Register(p, t);
    assert HeldOk(p, t);
    var i := FirstNamed(Borrowed(q, t), q.names, name);
    if i < |Borrowed(q, t)| { assert Holds(p, t, name, Borrowed(p, t)[i]); }
  }

  lemma SameSkips(p: Pool, q: Pool, name: Name, check: Id -> Check, k: int)
    requires Stack(p, name) == Stack(q, name) && p.lost == q.lost && SkippedDownTo(p, name, check, k)
    ensures SkippedDownTo(q, name, check, k)
  {
    forall j | 0 <= j < |Stack(q, name)| && k < j ensures Skipped(q, check, Stack(q, name)[j]) {
      assert Skipped(p, check, Stack(p, name)[j]);
    }
  }

  /** Whatever comes of it, the other stacks, the other threads' lists, the listeners of the other
      clients, and what is known of clients outside the stack stay as they are. */
  lemma AcquireElsewhere(p: Pool, t: Thread, name: Name, listens: bool, check: Id -> Check, connects: bool)
    requires Inv(p)
    ensures var (q, answer) := DoAcquire(p, t, name, listens, check, connects);
      && (forall other :: other != name ==> Stack(q, other) == Stack(p, other))
      && (forall u :: u != t ==> Borrowed(q, u) == Borrowed(p, u))
      && (forall id :: answer != Client(id) ==> (id in q.listening <==> id in p.listening))
      && (forall id :: id !in Stack(p, name) ==> (id in q.lost <==> id in p.lost))
  {
    if HoldsOne(p, t, name) {
      var id :| id in Borrowed(p, t) && Holds(p, t, name, id);
      AcquireAgain(p, t, name, listens, check, connects, id);
    } else {
      NotNamed(p, t, name);
      FetchElsewhere(Register(p, t), t, name, listens, check, connects);
    }
  }

  lemma FetchElsewhere(p: Pool, t: Thread, name: Name, listens: bool, check: Id -> Check, connects: bool)
    requires Inv(p) && HeldOk(p, t) && !HasNamed(p, t, name)
    ensures var (q, answer) := Fetch(p, t, name, listens, check, connects);
      && (forall other :: other != name ==> Stack(q, other) == Stack(p, other))
      && (forall u :: u != t ==> Borrowed(q, u) == Borrowed(p, u))
      && (forall id :: answer != Client(id) ==> (id in q.listening <==> id in p.listening))
      && (forall id :: id !in Stack(p, name) ==> (id in q.lost <==> id in p.lost))
  {
    hide Inv, HeldOk, HasNamed, Search;
    SearchElsewhere(p, name, check);
  }

  /** What is returned last is given out first: the next acquire of the name, by the same thread
      or by one that has no client of it, gets the client back. */
  lemma ReturnThenAcquire(p: Pool, t: Thread, u: Thread, id: Id, listens: bool, check: Id -> Check, connects: bool)
    requires Inv(p) && id < |p.names| && Holds(p, t, p.names[id], id) && Stands(p, check, id)
    requires u == t || !HoldsOne(p, u, p.names[id])
    ensures var (q, ok) := DoReturn(p, t, id);
      ok && DoAcquire(q, u, p.names[id], listens, check, connects).1 == Client(id)
  {
    var name, q := p.names[id], DoReturn(p, t, id).0;
    ReturnWorksOnce(p, t, id);
    var s := Borrowed(p, t);
    var i := FirstIs(s, id);
    assert HeldOk(p, t) && HeldOk(q, u) && Stack(q, name) == Stack(p, name) + [id];
    NoneLeft(p, t, u, i);
    assert FoundAt(q, name, check, |Stack(p, name)|);
    AcquireIdle(q, u, name, listens, check, connects, |Stack(p, name)|);
  }

  lemma NoneLeft(p: Pool, t: Thread, u: Thread, i: nat)
    requires Inv(p) && i < |Borrowed(p, t)| && Borrowed(p, t)[i] < |p.names|
    requires u == t || !HoldsOne(p, u, p.names[Borrowed(p, t)[i]])
    ensures !HoldsOne(GiveBack(p, t, i), u, p.names[Borrowed(p, t)[i]])
  {
    var s, q := Borrowed(p, t), GiveBack(p, t, i);
    var name := p.names[s[i]];
    assert HeldOk(p, t);
    forall x | x in Borrowed(q, u) ensures !Holds(q, u, name, x) {
      if u == t {
        var k :| 0 <= k < |Borrowed(q, t)| && Borrowed(q, t)[k] == x;
        assert x == if k < i then s[k] else s[k + 1];
      } else if Holds(p, u, name, x) {
        assert HoldsOne(p, u, name);
      }
    }
  }

  // ---------- the search ----------

  /** The pool when the top of the stack has been skipped. */
  function Popped(p: Pool, name: Name, check: Id -> Check): Pool
    requires |p.where| == |p.names| && Stack(p, name) != [] && Stack(p, name)[|Stack(p, name)| - 1] < |p.names|
  {
    var id := Stack(p, name)[|Stack(p, name)| - 1];
    if check(id).Loses? then Mark(Take(p, name), id) else Take(p, name)
  }

  lemma PoppedStack(p: Pool, name: Name, check: Id -> Check)
    requires Inv(p) && Stack(p, name) != []
    ensures var s := Stack(p, name); s[|s| - 1] < |p.names| == |p.where|
    ensures var s := Stack(p, name); var q, top := Popped(p, name, check), s[|s| - 1];
      && Inv(q) && Stack(q, name) == s[..|s| - 1] && q.names == p.names && q.held == p.held
      && Stack(Take(p, name), name) == s[..|s| - 1]
      && (forall id :: id != top ==> (id in q.lost <==> id in p.lost))
  {
    hide Inv;
    TakeKeeps(p, name);
    var s := Stack(p, name);
    MarkKeeps(Take(p, name), s[|s| - 1]);
  }

  lemma TopIsOnce(p: Pool, name: Name)
    requires Inv(p) && Stack(p, name) != []
    ensures var s := Stack(p, name); forall j :: 0 <= j < |s| - 1 ==> s[j] != s[|s| - 1]
  {
    assert IdleOk(p, name);
  }

  lemma PoppedIs(p: Pool, name: Name, check: Id -> Check)
    requires Inv(p) && Stack(p, name) != []
    ensures var s := Stack(p, name); s[|s| - 1] < |p.names| == |p.where|
    ensures var s := Stack(p, name); var q, top := Popped(p, name, check), s[|s| - 1];
      && Inv(q) && Stack(q, name) == s[..|s| - 1] && q.names == p.names && q.held == p.held
      && (forall j :: 0 <= j < |s| - 1 ==> s[j] != top)
      && (forall id :: id != top ==> (id in q.lost <==> id in p.lost))
      && (Skipped(p, check, top) ==> Search(p, name, check) == Search(q, name, check))
      && (Stands(p, check, top) ==> Search(p, name, check) == (q, Got(top)))
      && (check(top).Throws? ==> Search(p, name, check) == (Take(p, name), Failed))
      && Stack(Take(p, name), name) == s[..|s| - 1]
  {
    hide Inv, Take;
    PoppedStack(p, name, check);
    TopIsOnce(p, name);
    TakenLost(p, name);
  }

  lemma TakenLost(p: Pool, name: Name)
    requires |p.where| == |p.names| && Stack(p, name) != [] && Stack(p, name)[|Stack(p, name)| - 1] < |p.names|
    ensures Take(p, name).lost == p.lost
  {
  }

  lemma {:induction false} SearchElsewhere(p: Pool, name: Name, check: Id -> Check)
    requires Inv(p)
    ensures var q := Search(p, name, check).0;
      && (forall other :: other != name ==> Stack(q, other) == Stack(p, other))
      && (forall id :: id !in Stack(p, name) ==> (id in q.lost <==> id in p.lost))
    decreases |Stack(p, name)|
  {
    hide Inv, Popped, Mark, Take;
    if Stack(p, name) != [] {
      hide Search;
      PoppedIs(p, name, check);
      PoppedElsewhere(p, name, check);
      var q, top := Popped(p, name, check), Stack(p, name)[|Stack(p, name)| - 1];
      assert Stack(p, name) == Stack(q, name) + [top];
      if Skipped(p, check, top) { SearchElsewhere(q, name, check); }
    }
  }

  lemma PoppedElsewhere(p: Pool, name: Name, check: Id -> Check)
    requires |p.where| == |p.names| && Stack(p, name) != [] && Stack(p, name)[|Stack(p, name)| - 1] < |p.names|
    ensures forall other :: other != name ==> Stack(Popped(p, name, check), other) == Stack(p, other)
    ensures forall other :: other != name ==> Stack(Take(p, name), other) == Stack(p, other)
    ensures Take(p, name).lost == p.lost
  {
  }

  lemma {:induction false} SearchFinds(p: Pool, name: Name, check: Id -> Check, k: nat)
    requires Inv(p) && FoundAt(p, name, check, k)
    ensures var (q, found) := Search(p, name, check);
      found == Got(Stack(p, name)[k]) && Stack(q, name) == Stack(p, name)[..k]
    decreases |Stack(p, name)|
  {
    hide Inv, Search, Popped, Mark, Take;
    var s := Stack(p, name);
    PoppedIs(p, name, check);
    if k < |s| - 1 {
      PoppedSkips(p, name, check, k);
      SearchFinds(Popped(p, name, check), name, check, k);
    }
  }

  lemma {:induction false} SearchFails(p: Pool, name: Name, check: Id -> Check, k: nat)
    requires Inv(p) && k < |Stack(p, name)| && check(Stack(p, name)[k]).Throws? && SkippedDownTo(p, name, check, k)
    ensures var (q, found) := Search(p, name, check);
      found == Failed && Stack(q, name) == Stack(p, name)[..k]
    decreases |Stack(p, name)|
  {
    hide Inv, Search, Popped, Mark, Take;
    var s := Stack(p, name);
    PoppedIs(p, name, check);
    if k < |s| - 1 {
      PoppedSkips(p, name, check, k);
      SearchFails(Popped(p, name, check), name, check, k);
    }
  }

  lemma {:induction false} SearchEmpties(p: Pool, name: Name, check: Id -> Check)
    requires Inv(p) && SkippedDownTo(p, name, check, -1)
    ensures Search(p, name, check).1 == Nothing && Stack(Search(p, name, check).0, name) == []
    decreases |Stack(p, name)|
  {
    hide Inv, Popped, Mark, Take;
    if Stack(p, name) != [] {
      PoppedIs(p, name, check);
      PoppedSkips(p, name, check, -1);
      SearchEmpties(Popped(p, name, check), name, check);
    }
  }

  /** Skipping the top does not change what the clients below it are. */
  lemma PoppedSkips(p: Pool, name: Name, check: Id -> Check, k: int)
    requires Inv(p) && -1 <= k < |Stack(p, name)| - 1 && SkippedDownTo(p, name, check, k)
    ensures var s := Stack(p, name); Skipped(p, check, s[|s| - 1])
    ensures var top := Stack(p, name)[|Stack(p, name)| - 1]; top < |p.names| == |p.where|
    ensures SkippedDownTo(Popped(p, name, check), name, check, k)
    ensures k >= 0 && FoundAt(p, name, check, k) ==> FoundAt(Popped(p, name, check), name, check, k)
  {
    PoppedIs(p, name, check);
    hide Inv, Popped, Search;
    var s, q := Stack(p, name), Popped(p, name, check);
    forall j | 0 <= j < |s| - 1 ensures s[j] in q.lost <==> s[j] in p.lost { assert s[j] != s[|s| - 1]; }
  }
}
