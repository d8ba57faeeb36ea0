/** The client object. Each method changes the fields in place and is proved to carry out one
    step of the state machine in `ClientState`; the invariant follows from the step lemmas. */
module Client {
  import opened Words
  import opened WireFormat
  import opened Deframer
  import opened ClientState
  import ClientCalls

  class ClientImpl {
    const maxOutstandingRequests: int
    const reader: Reader
    var bevs: seq<Cxn>
    var contexts: map<Cxn, Context>
    var callbacks: map<Cxn, map<RequestId, Callback>>
    var backpressuredBevs: set<Cxn>
    var hostIdToEvent: map<int, Cxn>
    var nextRequestId: RequestId
    var nextConnectionIndex: nat
    var outstandingRequests: int
    var instance: Option<Instance>
    var blocked: Option<RequestId>
    ghost var seen: set<Cxn>
    ghost var joined: map<Cxn, Instance>
    ghost var sent: map<RequestId, Cxn>
    ghost var fired: multiset<RequestId>
    ghost var lost: nat

    ghost function Abs(): State
      reads this
    {
      State(bevs, contexts, callbacks, backpressuredBevs, hostIdToEvent, nextRequestId, nextConnectionIndex,
            outstandingRequests, instance, blocked, seen, joined, sent, fired, lost)
    }

    ghost predicate Valid() reads this { Inv(Abs()) }

    constructor (max: int, accepts: Reader)
      ensures Valid() && Abs() == START && maxOutstandingRequests == max && reader == accepts
    {
      maxOutstandingRequests, reader := max, accepts;
      bevs, contexts, callbacks, backpressuredBevs, hostIdToEvent := [], map[], map[], {}, map[];
      nextRequestId, nextConnectionIndex, outstandingRequests, instance, blocked := FIRST_REQUEST, 0, 0, None, None;
      seen, joined, sent, fired, lost := {}, map[], map[], multiset{}, 0;
      new;
      assert Abs() == Run(ClientState.Client(max, accepts), []);
    }

    /** The login of connection `c` succeeded; false when it belongs to another cluster. */
    method FinalizeAuthentication(c: Cxn, host: int, inst: Instance) returns (ok: bool)
      requires Valid() && c !in seen
      modifies this
      ensures Abs() == Authenticate(old(Abs()), c, host, inst) && Valid()
      ensures ok <==> old(instance) == None || old(instance) == Some(inst)
    {
      AuthenticateKeeps(Abs(), c, host, inst);
      hide Inv, Join;
      ok := instance == None || instance.value == inst;
      if ok { Register(c, host, inst); } else { seen := seen + {c}; }
    }

    method Register(c: Cxn, host: int, inst: Instance)
      modifies this
      ensures Abs() == Join(old(Abs()), c, host, inst)
    {
      hide JoinCluster, JoinTable;
      RegisterCluster(c, host, inst);
      RegisterTable(c);
    }

    method RegisterCluster(c: Cxn, host: int, inst: Instance)
      modifies this`instance, this`hostIdToEvent, this`seen, this`joined
      ensures Abs() == JoinCluster(old(Abs()), c, host, inst)
    {
      instance := Some(inst);
      hostIdToEvent := hostIdToEvent[host := c];
      seen := seen + {c};
      joined := joined[c := inst];
    }

    method RegisterTable(c: Cxn)
      modifies this`bevs, this`contexts, this`callbacks
      ensures Abs() == JoinTable(old(Abs()), c)
    {
      bevs := bevs + [c];
      contexts := contexts[c := FRESH];
      callbacks := callbacks[c := map[NOTIFICATION := TopologyNotification]];
    }

    /** Writes a request to `c` and records its callback. */
    method Send(clientData: RequestId, c: Cxn)
      requires c in callbacks
      modifies this`outstandingRequests, this`callbacks, this`sent
      ensures Abs() == Enqueue(old(Abs()), clientData, c)
    {
      outstandingRequests := outstandingRequests + 1;
      callbacks := callbacks[c := callbacks[c][clientData := UserCallback(clientData)]];
      sent := sent[clientData := c];
    }

    /** Goes once round the connections, starting after the last one used. */
    method NextUnpressured() returns (bev: Option<Cxn>)
      requires bevs != []
      modifies this`nextConnectionIndex
      ensures (bev, nextConnectionIndex) == Scan(bevs, backpressuredBevs, old(nextConnectionIndex), |bevs|)
      ensures bev.Some? <==> exists c :: c in bevs && c !in backpressuredBevs
    {
      ScanFinds(bevs, backpressuredBevs, nextConnectionIndex);
      bev := None;
      var ii := 0;
      while ii < |bevs|
        invariant 0 <= ii <= |bevs| && bev == None
        invariant Scan(bevs, backpressuredBevs, nextConnectionIndex, |bevs| - ii)
               == Scan(bevs, backpressuredBevs, old(nextConnectionIndex), |bevs|)
      {
        nextConnectionIndex := nextConnectionIndex + 1;
        bev := Some(At(bevs, nextConnectionIndex));
        if bev.value in backpressuredBevs { bev := None; } else { return; }
        ii := ii + 1;
      }
    }

    method Invoke(legacy: bool, call: Call) returns (outcome: Outcome)
      requires Valid() && MayCall(Abs())
      modifies this
      ensures Usable(old(Abs()))
      ensures (Abs(), outcome) == InvokeAsync(old(Abs()), maxOutstandingRequests, legacy, call) && Valid()
      ensures outcome.Sent? <==>
              && old(bevs) != [] && old(outstandingRequests) < maxOutstandingRequests && !legacy
              && (call.queueAnyway || exists c :: c in old(bevs) && c !in old(backpressuredBevs))
      ensures outcome.Sent? ==> ClientCalls.Goes(old(Abs()), Abs(), true, old(nextRequestId), outcome.cxn, call)
    {
      hide Inv, Attempt, Usable, ClientCalls.Goes;
      InvokeAsyncKeeps(Abs(), maxOutstandingRequests, legacy, call);
      ClientCalls.AsyncOutcome(Abs(), maxOutstandingRequests, legacy, call);
      ClientCalls.AsyncSends(Abs(), maxOutstandingRequests, legacy, call);
      if bevs == [] { return NoConnections; }
      if outstandingRequests >= maxOutstandingRequests { return TooBusy; }
      if legacy { return ElasticModeMismatch; }
      var clientData := nextRequestId;
      nextRequestId := nextRequestId + 1;
      NextNumber(old(Abs()));
      assert Abs() == old(Abs()).(nextRequestId := clientData + 1);
      outcome := TryToSend(clientData, call);
    }

    /** Goes on with a call that was blocked, after the event loop ran. */
    method InvokeAgain(call: Call) returns (outcome: Outcome)
      requires Valid()
      modifies this
      ensures Usable(old(Abs())) && (Abs(), outcome) == Resume(old(Abs()), maxOutstandingRequests, call) && Valid()
    {
      hide Inv, Attempt, Usable;
      ResumeKeeps(Abs(), maxOutstandingRequests, call);
      if blocked == None || bevs == [] { return Blocked; }
      outcome := TryToSend(blocked.value, call);
    }

    /** One round of the loop that looks for a connection. */
    method TryToSend(clientData: RequestId, call: Call) returns (outcome: Outcome)
      requires bevs != [] && Usable(Abs())
      modifies this
      ensures (Abs(), outcome) == Attempt(old(Abs()), maxOutstandingRequests, clientData, call)
    {
      hide Scan, At, Enqueue, Press;
      var bev: Option<Cxn> := None;
      if outstandingRequests <= maxOutstandingRequests { bev := NextUnpressured(); }
      if bev == None {
        if !call.queueAnyway {
          blocked := Some(clientData);
          return Blocked;
        }
        nextConnectionIndex := nextConnectionIndex + 1;
        bev := Some(At(bevs, nextConnectionIndex));
        AtMember(bevs, nextConnectionIndex);
      }
      blocked := None;
      outcome := Route(clientData, bev.value, call);
    }

    /** Prefers the connection of the key's host while it is live. */
    method Route(clientData: RequestId, chosen: Cxn, call: Call) returns (outcome: Outcome)
      requires chosen in callbacks
      modifies this`outstandingRequests, this`callbacks, this`sent, this`backpressuredBevs
      ensures var c := Routed(old(Abs()), call.home, chosen);
        Abs() == Press(Enqueue(old(Abs()), clientData, c), c, call.full) && outcome == Sent(c)
    {
      hide Enqueue;
      var bev := chosen;
      if call.home.Some? && call.home.value in hostIdToEvent && hostIdToEvent[call.home.value] in callbacks {
        bev := hostIdToEvent[call.home.value];
      }
      Send(clientData, bev);
      if call.full { backpressuredBevs := backpressuredBevs + {bev}; }
      return Sent(bev);
    }

    method InvokeAndWait() returns (outcome: Outcome)
      requires Valid() && MayCall(Abs())
      modifies this
      ensures Usable(old(Abs())) && (Abs(), outcome) == InvokeSync(old(Abs())) && Valid()
    {
      InvokeSyncKeeps(Abs());
      hide Inv, InvokeSync;
      outcome := SendInTurn();
    }

    method SendInTurn() returns (outcome: Outcome)
      requires Usable(Abs())
      modifies this
      ensures (Abs(), outcome) == InvokeSync(old(Abs()))
    {
      hide Enqueue, At;
      if bevs == [] { return NoConnections; }
      AtMember(bevs, nextConnectionIndex);
      var bev, clientData := TakeTurn();
      Send(clientData, bev);
      return Sent(bev);
    }

    /** The next connection in turn and the next request number. */
    method TakeTurn() returns (bev: Cxn, clientData: RequestId)
      requires bevs != []
      modifies this`nextRequestId, this`nextConnectionIndex
      ensures bev == At(bevs, old(nextConnectionIndex)) && clientData == old(nextRequestId)
      ensures Abs() == old(Abs()).(nextConnectionIndex := old(nextConnectionIndex) + 1, nextRequestId := clientData + 1)
    {
      bev, clientData := At(bevs, nextConnectionIndex), nextRequestId;
      nextRequestId := nextRequestId + 1;
      nextConnectionIndex := nextConnectionIndex + 1;
    }

    /** Looks up and runs the callback of one response. */
    method Dispatch(bev: Cxn, message: seq<Byte>)
      requires bev in callbacks && |message| >= SHORTEST
      modifies this`callbacks, this`outstandingRequests, this`fired
      ensures Abs() == Respond(old(Abs()), bev, ClientData(message))
    {
      hide ClientData;
      var id := ClientData(message);
      if id in callbacks[bev] && id != NOTIFICATION {
        fired := fired + Answered(callbacks[bev][id]);
        callbacks := callbacks[bev := callbacks[bev] - {id}];
        outstandingRequests := outstandingRequests - 1;
      }
    }

    /** Bytes have been appended to the input of `bev`; true when an exception ended the reading. */
    method RegularReadCallback(bev: Cxn, bytes: seq<Byte>) returns (broken: bool)
      requires Valid() && bev in callbacks
      modifies this`contexts, this`callbacks, this`outstandingRequests, this`fired
      ensures bev in old(contexts) && (Abs(), broken) == Receive(old(Abs()), reader, bev, bytes) && Valid()
    {
      ReceiveKeeps(Abs(), reader, bev, bytes);
      hide Inv;
      broken := ReadLoop(bev, bytes);
    }

    method ReadLoop(bev: Cxn, bytes: seq<Byte>) returns (broken: bool)
      requires bev in callbacks && bev in contexts
      modifies this`contexts, this`callbacks, this`outstandingRequests, this`fired
      ensures (Abs(), broken) == Receive(old(Abs()), reader, bev, bytes)
    {
      hide DecodeInt, RespondAll, Respond, Accepts;
      ghost var goal := Receive(old(Abs()), reader, bev, bytes);
      var context := More(contexts[bev], bytes);
      broken := false;
      if context.lengthOrMessage && |context.input| < 4 {
        contexts := contexts[bev := context];
        RespondNone(Abs(), bev);
        return;
      }
      StartsAsPlanned(reader, Abs(), bev, context, goal);
      while true
        invariant !broken && bev in callbacks && bev in contexts && Remains(reader, Abs(), bev, context, goal)
        decreases |context.input|, if context.lengthOrMessage then 0 else 1
      {
        if context.lengthOrMessage && |context.input| >= 4 {
          context := Context(DecodeInt(context.input[..4]), false, context.input[4..]);
        } else if |context.input| < context.nextLength {
          break;
        } else if context.nextLength < 0 {
          broken := true;
          break;
        } else {
          var message := context.input[..context.nextLength];
          ghost var before := context;
          context := Context(context.nextLength, true, context.input[context.nextLength..]);
          if !Accepts(reader, message) {
            broken := true;
            break;
          }
          OneMessageLess(reader, Abs(), bev, before, context, message, goal);
          Dispatch(bev, message);
        }
      }
      contexts := contexts[bev := context];
      RespondNone(Abs(), bev);
    }

    /** The connection failed: what was read is answered, then everything still waiting; unless an
        exception ends the reading. */
    method RegularEventCallback(bev: Cxn) returns (broken: bool)
      requires Valid() && bev in callbacks
      modifies this
      ensures bev in old(contexts) && (Abs(), broken) == Lose(old(Abs()), reader, bev) && Valid()
    {
      LoseKeeps(Abs(), reader, bev);
      broken := RegularReadCallback(bev, []);
      if !broken { DropConnection(bev); }
    }

    method DropConnection(bev: Cxn)
      requires Valid() && bev in callbacks
      modifies this
      ensures Abs() == Drop(old(Abs()), bev)
    {
      assert Entries(Abs(), bev);
      hide FailAll, ForgetTable, ForgetBev, Inv;
      FailCallbacks(bev);
      EraseConnection(bev);
      EraseBev(bev);
    }

    method EraseConnection(bev: Cxn)
      modifies this`callbacks, this`backpressuredBevs, this`contexts
      ensures Abs() == ForgetTable(old(Abs()), bev)
    {
      callbacks := callbacks - {bev};
      backpressuredBevs := backpressuredBevs - {bev};
      contexts := contexts - {bev};
    }

    method EraseBev(bev: Cxn)
      modifies this`bevs, this`instance
      ensures Abs() == ForgetBev(old(Abs()), bev)
    {
      bevs := Erased(bev);
      if bevs == [] { instance := None; }
    }

    method FailCallbacks(bev: Cxn)
      requires bev in callbacks && Entries(Abs(), bev)
      modifies this`outstandingRequests, this`fired, this`lost
      ensures Abs() == FailAll(old(Abs()), bev)
    {
      assert OwnTable(callbacks[bev]);
      hide Entries, Fires;
      RunCallbacks(callbacks[bev]);
      lost := lost + 1;
    }

    /** Runs every callback of a table; the notification's is run and counted like the rest. */
    method RunCallbacks(table: map<RequestId, Callback>)
      requires OwnTable(table)
      modifies this`outstandingRequests, this`fired
      ensures outstandingRequests == old(outstandingRequests) - |table|
      ensures fired == old(fired) + multiset(Fires(table))
    {
      hide Fires;
      var left := table.Keys;
      ghost var done: set<RequestId> := {};
      while |left| > 0
        invariant done + left == table.Keys && done !! left
        invariant outstandingRequests == old(outstandingRequests) - |done|
        invariant fired == old(fired) + multiset(done - {NOTIFICATION})
        decreases left
      {
        HasMember(left);
        var id: RequestId :| id in left;
        RunCallback(table, id);
        OneMore(done, id);
        done, left := done + {id}, left - {id};
      }
      assert done == table.Keys;
      assert |table| == |table.Keys|;
      FiresOwn(table);
    }

    method RunCallback(table: map<RequestId, Callback>, id: RequestId)
      requires OwnTable(table) && id in table
      modifies this`outstandingRequests, this`fired
      ensures outstandingRequests == old(outstandingRequests) - 1
      ensures fired == old(fired) + if id == NOTIFICATION then multiset{} else multiset{id}
    {
      fired := fired + Answered(table[id]);
      outstandingRequests := outstandingRequests - 1;
    }

    /** The vector without the first occurrence of `bev`. */
    method Erased(bev: Cxn) returns (left: seq<Cxn>)
      ensures left == Without(bevs, bev)
    {
      var i := 0;
      while i < |bevs|
        invariant 0 <= i <= |bevs|
        invariant Without(bevs, bev) == bevs[..i] + Without(bevs[i..], bev)
      {
        assert bevs[i..][1..] == bevs[i + 1..];
        if bevs[i] == bev { return bevs[..i] + bevs[i + 1..]; }
        assert bevs[..i] + ([bevs[i]] + Without(bevs[i + 1..], bev)) == bevs[..i + 1] + Without(bevs[i + 1..], bev);
        i := i + 1;
      }
      left := bevs;
    }

    method RegularWriteCallback(bev: Cxn)
      requires Valid()
      modifies this`backpressuredBevs
      ensures Abs() == Step(old(Abs()), ClientState.Client(maxOutstandingRequests, reader), Written(bev)) && Valid()
    {
      StepKeeps(Abs(), ClientState.Client(maxOutstandingRequests, reader), Written(bev));
      backpressuredBevs := backpressuredBevs - {bev};
    }
  }

  lemma NextNumber(s: State)
    requires Usable(s)
    ensures Usable(s.(nextRequestId := s.nextRequestId + 1))
  {
  }

  lemma OneMore(done: set<RequestId>, id: RequestId)
    requires id !in done
    ensures |done + {id}| == |done| + 1
    ensures multiset(done + {id} - {NOTIFICATION})
         == multiset(done - {NOTIFICATION}) + if id == NOTIFICATION then multiset{} else multiset{id}
  {
    if id != NOTIFICATION {
      assert done + {id} - {NOTIFICATION} == (done - {NOTIFICATION}) + {id};
    } else {
      assert done + {id} - {NOTIFICATION} == done - {NOTIFICATION};
    }
  }

  lemma HasMember(s: set<RequestId>)
    requires |s| > 0
    ensures exists id: RequestId :: id in s
  {
    assert (forall id :: id !in s) ==> s == {};
  }

  lemma AtMember(bevs: seq<Cxn>, index: nat)
    requires |bevs| > 0
    ensures At(bevs, index) in bevs
  {
  }

  /** Each entry but the notification is the callback of its own request. */
  ghost predicate OwnTable(table: map<RequestId, Callback>) {
    forall id :: id in table ==> table[id] == if id == NOTIFICATION then TopologyNotification else UserCallback(id)
  }

  lemma FiresOwn(table: map<RequestId, Callback>)
    requires OwnTable(table)
    ensures Fires(table) == table.Keys - {NOTIFICATION}
  {
    forall id | id in table.Keys - {NOTIFICATION} ensures id in Fires(table) {
      assert table[id].UserCallback? && table[id].request == id;
    }
  }

  ghost function WithContext(s: State, c: Cxn, x: Context): State { s.(contexts := s.contexts[c := x]) }

  /** What the loop has still to do from `x` on leads to the goal. */
  ghost predicate Remains(r: Reader, s: State, c: Cxn, x: Context, goal: (State, bool)) {
    var reading := Loop(r, x);
    && c in s.callbacks && Long(reading.messages)
    && goal == (RespondAll(WithContext(s, c, reading.context), c, reading.messages), reading.broken)
  }

  lemma StartsAsPlanned(r: Reader, s: State, c: Cxn, x: Context, goal: (State, bool))
    requires c in s.callbacks && goal.0.callbacks.Keys == s.callbacks.Keys
    requires Long(Loop(r, x).messages) ==>
      goal == (RespondAll(WithContext(s, c, Loop(r, x).context), c, Loop(r, x).messages), Loop(r, x).broken)
    ensures Remains(r, s, c, x, goal)
  {
    LoopHandsAccepted(r, x);
  }

  lemma RespondNone(s: State, c: Cxn)
    requires c in s.callbacks
    ensures RespondAll(s, c, []) == s
  {
  }

  /** Answering commutes with changing the context, one message at a time. */
  lemma OneMessageLess(r: Reader, s: State, c: Cxn, x: Context, y: Context, message: seq<Byte>, goal: (State, bool))
    requires Remains(r, s, c, x, goal) && !(x.lengthOrMessage && |x.input| >= 4) && 0 <= x.nextLength <= |x.input|
    requires message == x.input[..x.nextLength] && y == Context(x.nextLength, true, x.input[x.nextLength..])
    requires Accepts(r, message)
    ensures |message| >= SHORTEST && Remains(r, Respond(s, c, ClientData(message)), c, y, goal)
  {
    hide ClientData;
    var rest := Loop(r, y);
    assert ([message] + rest.messages)[1..] == rest.messages && ([message] + rest.messages)[0] == message;
    LoopHandsAccepted(r, y);
  }
}
