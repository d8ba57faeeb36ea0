/** The client's connections and pending requests as a state machine. A state holds what
    `ClientImpl` keeps, and beside it a record of what happened: where each request was sent,
    which callbacks fired, how many connections were lost. */
module ClientState {
  import opened Words
  import opened WireFormat
  import opened Deframer

  /** A connection; handles are never used again after a loss. */
  type Cxn = nat
  type RequestId = int

  const FIRST_REQUEST: RequestId := -0x8000_0000_0000_0000
  const NOTIFICATION: RequestId := 0x7fff_ffff_ffff_fffe

  datatype Callback = UserCallback(request: RequestId) | TopologyNotification

  /** What a server says about its cluster when it accepts a login. */
  datatype Instance = Instance(clusterStartTime: int, leaderAddress: int)

  datatype State = State(
    bevs: seq<Cxn>,
    contexts: map<Cxn, Context>,
    callbacks: map<Cxn, map<RequestId, Callback>>,
    backpressured: set<Cxn>,
    hosts: map<int, Cxn>,
    nextRequestId: RequestId,
    nextConnectionIndex: nat,
    outstanding: int,
    instance: Option<Instance>,
    // the request of a call that waits for pressure to be lifted
    blocked: Option<RequestId>,
    // the record
    seen: set<Cxn>,
    joined: map<Cxn, Instance>,
    sent: map<RequestId, Cxn>,
    fired: multiset<RequestId>,
    lost: nat)

  const START := State([], map[], map[], {}, map[], FIRST_REQUEST, 0, 0, None, None, {}, map[], map[], multiset{}, 0)

  // ---------- invariant ----------

  predicate Live(s: State, c: Cxn) { c in s.callbacks }

  predicate Pending(s: State, id: RequestId) { id in s.sent && id !in s.fired }

  predicate NoDuplicates(bevs: seq<Cxn>) {
    forall i, j :: 0 <= i < j < |bevs| ==> bevs[i] != bevs[j]
  }

  /** The connection vector has no duplicates and is the domain of both tables. */
  ghost predicate Tables(s: State) {
    && NoDuplicates(s.bevs)
    && (forall c :: c in s.bevs <==> c in s.callbacks)
    && s.contexts.Keys == s.callbacks.Keys
    && s.backpressured <= s.callbacks.Keys <= s.seen
  }

  /** All live connections belong to one cluster instance. */
  ghost predicate OneCluster(s: State) {
    && (s.bevs == [] <==> s.instance == None)
    && (forall c :: Live(s, c) ==> c in s.joined && s.instance == Some(s.joined[c]))
  }

  /** A callback table holds the notification entry and exactly the requests that were sent on
      its connection and have not been answered. */
  ghost predicate Entries(s: State, c: Cxn)
    requires c in s.callbacks
  {
    && NOTIFICATION in s.callbacks[c] && s.callbacks[c][NOTIFICATION] == TopologyNotification
    && (forall id :: id != NOTIFICATION ==> (id in s.callbacks[c] <==> Pending(s, id) && s.sent[id] == c))
    && (forall id :: id in s.callbacks[c] && id != NOTIFICATION ==> s.callbacks[c][id] == UserCallback(id))
  }

  ghost predicate AllEntries(s: State) { forall c :: c in s.callbacks ==> Entries(s, c) }

  ghost predicate Requests(s: State) {
    && FIRST_REQUEST <= s.nextRequestId
    && (forall id :: id in s.sent ==> FIRST_REQUEST <= id < s.nextRequestId && id != NOTIFICATION)
    && (forall id :: id in s.fired ==> id in s.sent && s.fired[id] == 1)
    && (forall id :: Pending(s, id) ==> Live(s, s.sent[id]))
    && (s.blocked.Some? ==> Unsent(s, s.blocked.value))
  }

  /** A number that was given out and not used yet. */
  predicate Unsent(s: State, id: RequestId) {
    FIRST_REQUEST <= id < s.nextRequestId && id != NOTIFICATION && id !in s.sent
  }

  function PendingSet(s: State): set<RequestId> { set id | id in s.sent && id !in s.fired }

  /** Every loss also takes the uncounted notification entry off the counter. */
  predicate Counted(s: State) { s.outstanding + s.lost == |PendingSet(s)| }

  ghost predicate Inv(s: State) {
    && Tables(s)
    && OneCluster(s)
    && AllEntries(s)
    && Requests(s)
    && Counted(s)
  }

  // ---------- steps ----------

  /** A login that succeeded. A server of another cluster is turned away. */
  function Authenticate(s: State, c: Cxn, host: int, inst: Instance): State {
    if s.instance.Some? && s.instance.value != inst then s.(seen := s.seen + {c}) else Join(s, c, host, inst)
  }

  function Join(s: State, c: Cxn, host: int, inst: Instance): State {
    JoinTable(JoinCluster(s, c, host, inst), c)
  }

  function JoinCluster(s: State, c: Cxn, host: int, inst: Instance): State {
    s.(instance := Some(inst), hosts := s.hosts[host := c], seen := s.seen + {c}, joined := s.joined[c := inst])
  }

  function JoinTable(s: State, c: Cxn): State {
    s.(bevs := s.bevs + [c],
       contexts := s.contexts[c := FRESH],
       callbacks := s.callbacks[c := map[NOTIFICATION := TopologyNotification]])
  }

  /** The connection at a running index. */
  function At(bevs: seq<Cxn>, index: nat): Cxn
    requires |bevs| > 0
  {
    bevs[index % |bevs|]
  }

  /** The next unpressured connection within `tries` of `index`, and the index reached. */
  function Scan(bevs: seq<Cxn>, pressured: set<Cxn>, index: nat, tries: nat): (r: (Option<Cxn>, nat))
    requires |bevs| > 0
    ensures r.0.Some? ==> r.0.value in bevs && r.0.value !in pressured
    decreases tries
  {
    if tries == 0 then (None, index)
    else
      var c := At(bevs, index + 1);
      if c !in pressured then (Some(c), index + 1) else Scan(bevs, pressured, index + 1, tries - 1)
  }

  /** A request is recorded under the connection it is written to. */
  function Enqueue(s: State, id: RequestId, c: Cxn): State
    requires c in s.callbacks
  {
    s.(outstanding := s.outstanding + 1,
       callbacks := s.callbacks[c := s.callbacks[c][id := UserCallback(id)]],
       sent := s.sent[id := c])
  }

  datatype Outcome = NoConnections | TooBusy | ElasticModeMismatch | Blocked | Sent(cxn: Cxn)

  /** What a call depends on: `home` is what routing by key says, if it is used; `queueAnyway` the
      listener's answer to backpressure; `full` that the output buffer is over its limit afterwards. */
  datatype Call = Call(home: Option<int>, queueAnyway: bool, full: bool)

  /** The connection the request is homed to, when its host is known and still connected. */
  function Routed(s: State, host: Option<int>, otherwise: Cxn): Cxn {
    if host.Some? && host.value in s.hosts && s.hosts[host.value] in s.callbacks then s.hosts[host.value] else otherwise
  }

  function Press(s: State, c: Cxn, full: bool): State {
    if full then s.(backpressured := s.backpressured + {c}) else s
  }

  predicate Usable(s: State) { forall c :: c in s.bevs ==> c in s.callbacks }

  /** One round of choosing a connection for request `id`: under pressure the call blocks, or goes
      to the next connection anyway. With too many requests pending no connection is even tried. */
  function Attempt(s: State, max: int, id: RequestId, call: Call): (State, Outcome)
    requires s.bevs != [] && Usable(s)
  {
    var (free, index) :=
      if s.outstanding <= max then Scan(s.bevs, s.backpressured, s.nextConnectionIndex, |s.bevs|)
      else (None, s.nextConnectionIndex);
    if free == None && !call.queueAnyway then (s.(nextConnectionIndex := index, blocked := Some(id)), Blocked)
    else
      var index' := if free == None then index + 1 else index;
      var c := Routed(s, call.home, if free == None then At(s.bevs, index') else free.value);
      (Press(Enqueue(s.(nextConnectionIndex := index', blocked := None), id, c), c, call.full), Sent(c))
  }

  /** `legacy` says that the ring is not elastic. */
  function InvokeAsync(s: State, max: int, legacy: bool, call: Call): (State, Outcome)
    requires Usable(s)
  {
    if s.bevs == [] then (s, NoConnections)
    else if s.outstanding >= max then (s, TooBusy)
    else if legacy then (s, ElasticModeMismatch)
    else Attempt(s.(nextRequestId := s.nextRequestId + 1), max, s.nextRequestId, call)
  }

  /** A blocked call tries again after the event loop ran, under the number it already has. */
  function Resume(s: State, max: int, call: Call): (State, Outcome)
    requires Usable(s)
  {
    if s.blocked == None || s.bevs == [] then (s, Blocked) else Attempt(s, max, s.blocked.value, call)
  }

  function InvokeSync(s: State): (State, Outcome)
    requires Usable(s)
  {
    if s.bevs == [] then (s, NoConnections)
    else
      var c, id := At(s.bevs, s.nextConnectionIndex), s.nextRequestId;
      var t := s.(nextConnectionIndex := s.nextConnectionIndex + 1, nextRequestId := id + 1);
      (Enqueue(t, id, c), Sent(c))
  }

  predicate Long(messages: seq<seq<Byte>>) { forall i :: 0 <= i < |messages| ==> |messages[i]| >= SHORTEST }

  /** The client data of a response follows its version byte. */
  function ClientData(message: seq<Byte>): RequestId
    requires |message| >= SHORTEST
  {
    DecodeInt(message[1..9])
  }

  /** The requests whose callbacks are in a table. */
  function Fires(table: map<RequestId, Callback>): set<RequestId> {
    set id | id in table && table[id].UserCallback? :: table[id].request
  }

  /** A response with client data `id` arrives on `c`. */
  function Respond(s: State, c: Cxn, id: RequestId): State
    requires c in s.callbacks
  {
    if id in s.callbacks[c] && id != NOTIFICATION then
      s.(callbacks := s.callbacks[c := s.callbacks[c] - {id}],
         outstanding := s.outstanding - 1,
         fired := s.fired + Answered(s.callbacks[c][id]))
    else s
  }

  function Answered(callback: Callback): multiset<RequestId> {
    if callback.UserCallback? then multiset{callback.request} else multiset{}
  }

  function RespondAll(s: State, c: Cxn, messages: seq<seq<Byte>>): (t: State)
    requires c in s.callbacks && Long(messages)
    ensures t.callbacks.Keys == s.callbacks.Keys
    decreases |messages|
  {
    if messages == [] then s
    else
      assert forall i :: 0 <= i < |messages| - 1 ==> messages[1..][i] == messages[i + 1];
      RespondAll(Respond(s, c, ClientData(messages[0])), c, messages[1..])
  }

  /** Bytes arrive on `c`: messages are cut out and answered one by one, until an exception. */
  function Receive(s: State, r: Reader, c: Cxn, bytes: seq<Byte>): (t: (State, bool))
    requires c in s.callbacks && c in s.contexts
    ensures t.0.callbacks.Keys == s.callbacks.Keys
  {
    var reading := Arrive(r, s.contexts[c], bytes);
    ArrivedAreLong(r, s.contexts[c], bytes);
    (RespondAll(s.(contexts := s.contexts[c := reading.context]), c, reading.messages), reading.broken)
  }

  lemma ArrivedAreLong(r: Reader, c: Context, bytes: seq<Byte>)
    ensures Long(Arrive(r, c, bytes).messages)
  {
    LoopHandsAccepted(r, More(c, bytes));
  }

  function Without(bevs: seq<Cxn>, c: Cxn): seq<Cxn> {
    if bevs == [] then [] else if bevs[0] == c then bevs[1..] else [bevs[0]] + Without(bevs[1..], c)
  }

  /** Every callback of the table fires, and the counter drops by one for each, the notification
      entry included. */
  function FailAll(s: State, c: Cxn): State
    requires c in s.callbacks
  {
    s.(outstanding := s.outstanding - |s.callbacks[c]|,
       fired := s.fired + multiset(Fires(s.callbacks[c])),
       lost := s.lost + 1)
  }

  function Forget(s: State, c: Cxn): State { ForgetBev(ForgetTable(s, c), c) }

  function ForgetTable(s: State, c: Cxn): State {
    s.(callbacks := s.callbacks - {c}, backpressured := s.backpressured - {c}, contexts := s.contexts - {c})
  }

  /** With the last connection the cluster instance is forgotten too. */
  function ForgetBev(s: State, c: Cxn): State {
    var left := Without(s.bevs, c);
    s.(bevs := left, instance := if left == [] then None else s.instance)
  }

  /** Connection `c` is gone. */
  function Drop(s: State, c: Cxn): State
    requires c in s.callbacks
  {
    Forget(FailAll(s, c), c)
  }

  /** What is already in the read buffer is answered before the connection is dropped. If that
      ends in an exception, the connection stays as it is. */
  function Lose(s: State, r: Reader, c: Cxn): (State, bool)
    requires c in s.callbacks && c in s.contexts
  {
    var (t, broken) := Receive(s, r, c, []);
    if broken then (t, true) else (Drop(t, c), false)
  }

  // ---------- runs ----------

  datatype Event =
    | LoggedIn(cxn: Cxn, host: int, inst: Instance)
    | Async(legacy: bool, call: Call)
    | Again(call: Call)
    | Sync
    | Arrived(cxn: Cxn, bytes: seq<Byte>)
    | Lost(cxn: Cxn)
    | Written(cxn: Cxn)

  /** The limit on outstanding requests, and what the response constructor accepts. */
  datatype Client = Client(max: int, reader: Reader)

  predicate MayCall(s: State) { s.blocked == None && s.nextRequestId < NOTIFICATION }

  /** Events that cannot happen change nothing: arrivals need a live connection, logins a new one,
      calls that none is blocked and that request numbers have not reached the notification. */
  ghost function Step(s: State, client: Client, e: Event): State
    requires Inv(s)
  {
    match e
    case LoggedIn(c, host, inst) => if c in s.seen then s else Authenticate(s, c, host, inst)
    case Async(legacy, call) => if MayCall(s) then InvokeAsync(s, client.max, legacy, call).0 else s
    case Again(call) => Resume(s, client.max, call).0
    case Sync => if MayCall(s) then InvokeSync(s).0 else s
    case Arrived(c, bytes) => if Live(s, c) then Receive(s, client.reader, c, bytes).0 else s
    case Lost(c) => if Live(s, c) then Lose(s, client.reader, c).0 else s
    case Written(c) => s.(backpressured := s.backpressured - {c})
  }

  // ---------- every step keeps the invariant ----------

  /** Request `id` waits for an answer on `c`. */
  predicate WaitsOn(s: State, id: RequestId, c: Cxn) { Pending(s, id) && s.sent[id] == c }

  /** A table that did not change is still right if no request on it began or stopped waiting. */
  lemma EntriesFrame(s: State, t: State, c: Cxn)
    requires c in s.callbacks && c in t.callbacks && s.callbacks[c] == t.callbacks[c] && Entries(s, c)
    requires forall id :: WaitsOn(t, id, c) <==> WaitsOn(s, id, c)
    ensures Entries(t, c)
  {
    forall id | id != NOTIFICATION ensures id in t.callbacks[c] <==> Pending(t, id) && t.sent[id] == c {
      assert WaitsOn(t, id, c) <==> WaitsOn(s, id, c);
    }
  }

  /** The tables do not depend on requests. */
  lemma TablesFrame(s: State, t: State)
    requires Tables(s) && OneCluster(s) && t.bevs == s.bevs && t.instance == s.instance && t.joined == s.joined
    requires t.contexts.Keys == s.contexts.Keys && t.callbacks.Keys == s.callbacks.Keys
    requires t.backpressured <= s.callbacks.Keys && s.seen <= t.seen
    ensures Tables(t) && OneCluster(t)
  {
    forall c | Live(t, c) ensures c in t.joined && t.instance == Some(t.joined[c]) { assert Live(s, c); }
    assert forall c :: c in s.callbacks <==> c in s.callbacks.Keys;
    assert forall c :: c in t.callbacks <==> c in t.callbacks.Keys;
  }

  /** Nothing about requests changes. */
  ghost predicate SameRequests(s: State, t: State) {
    && t.callbacks == s.callbacks && t.sent == s.sent && t.fired == s.fired && t.lost == s.lost
    && t.outstanding == s.outstanding && t.nextRequestId == s.nextRequestId && t.blocked == s.blocked
  }

  lemma RequestsFrame(s: State, t: State)
    requires AllEntries(s) && Requests(s) && Counted(s) && SameRequests(s, t)
    ensures AllEntries(t) && Requests(t) && Counted(t)
  {
    assert PendingSet(t) == PendingSet(s);
    forall d | d in t.callbacks ensures Entries(t, d) { EntriesFrame(s, t, d); }
    forall id | Pending(t, id) ensures Live(t, t.sent[id]) { assert Pending(s, id); }
  }

  /** Contexts, the host map, the index and pressure may change freely. */
  lemma OtherFieldsKeep(s: State, t: State)
    requires Inv(s) && SameRequests(s, t)
    requires t.bevs == s.bevs && t.contexts.Keys == s.contexts.Keys && t.backpressured <= s.callbacks.Keys
    requires t.seen == s.seen && t.instance == s.instance && t.joined == s.joined
    ensures Inv(t)
  {
    TablesFrame(s, t);
    RequestsFrame(s, t);
    hide Tables, OneCluster, AllEntries, Requests, Counted;
  }

  lemma AuthenticateKeeps(s: State, c: Cxn, host: int, inst: Instance)
    requires Inv(s) && c !in s.seen
    ensures Inv(Authenticate(s, c, host, inst))
  {
    hide OneCluster, AllEntries, Requests, Counted;
    if s.instance.Some? && s.instance.value != inst {
      var t := s.(seen := s.seen + {c});
      TablesFrame(s, t);
      RequestsFrame(s, t);
    } else {
      JoinKeeps(s, c, host, inst);
    }
  }

  lemma JoinKeeps(s: State, c: Cxn, host: int, inst: Instance)
    requires Inv(s) && c !in s.seen && (s.instance.Some? ==> s.instance.value == inst)
    ensures Inv(Join(s, c, host, inst))
  {
    assert c !in s.callbacks;
    JoinTables(s, c, host, inst);
    JoinEntries(s, c, host, inst);
    JoinRequests(s, c, host, inst);
    hide Tables, OneCluster, AllEntries, Requests, Counted, Join;
  }

  lemma JoinTables(s: State, c: Cxn, host: int, inst: Instance)
    requires Tables(s) && OneCluster(s) && c !in s.seen && (s.instance.Some? ==> s.instance.value == inst)
    ensures Tables(Join(s, c, host, inst)) && OneCluster(Join(s, c, host, inst))
  {
    assert c !in s.callbacks && c !in s.bevs;
  }

  lemma JoinEntries(s: State, c: Cxn, host: int, inst: Instance)
    requires AllEntries(s) && Requests(s) && c !in s.callbacks
    ensures AllEntries(Join(s, c, host, inst))
  {
    var t := Join(s, c, host, inst);
    forall d | d in t.callbacks ensures Entries(t, d) {
      if d != c { EntriesFrame(s, t, d); }
    }
  }

  lemma JoinRequests(s: State, c: Cxn, host: int, inst: Instance)
    requires Requests(s) && Counted(s)
    ensures Requests(Join(s, c, host, inst)) && Counted(Join(s, c, host, inst))
  {
    var t := Join(s, c, host, inst);
    assert PendingSet(t) == PendingSet(s);
    forall id | Pending(t, id) ensures Live(t, t.sent[id]) { assert Pending(s, id); }
  }

  /** Sending a request under a number that was given out and not used. */
  lemma EnqueueKeeps(s: State, id: RequestId, c: Cxn)
    requires Inv(s) && Live(s, c) && Unsent(s, id) && s.blocked == None
    ensures Inv(Enqueue(s, id, c))
  {
    assert id !in s.fired;
    EnqueueEntries(s, id, c);
    EnqueueRequests(s, id, c);
    EnqueueCounted(s, id, c);
    TablesFrame(s, Enqueue(s, id, c));
    hide Tables, OneCluster, AllEntries, Requests, Counted, Enqueue;
  }

  lemma EnqueueEntries(s: State, id: RequestId, c: Cxn)
    requires AllEntries(s) && Live(s, c) && id != NOTIFICATION && id !in s.sent && id !in s.fired
    ensures AllEntries(Enqueue(s, id, c))
  {
    var t := Enqueue(s, id, c);
    forall d | d in t.callbacks ensures Entries(t, d) {
      if d != c { EntriesFrame(s, t, d); }
    }
  }

  lemma EnqueueRequests(s: State, id: RequestId, c: Cxn)
    requires Requests(s) && Live(s, c) && Unsent(s, id) && s.blocked == None
    ensures Requests(Enqueue(s, id, c))
  {
    var t := Enqueue(s, id, c);
    forall x | Pending(t, x) ensures Live(t, t.sent[x]) {
      if x != id { assert Pending(s, x); }
    }
  }

  lemma EnqueueCounted(s: State, id: RequestId, c: Cxn)
    requires Counted(s) && Live(s, c) && id !in s.sent && id !in s.fired
    ensures Counted(Enqueue(s, id, c))
  {
    assert PendingSet(Enqueue(s, id, c)) == PendingSet(s) + {id};
  }

  lemma RespondKeeps(s: State, c: Cxn, id: RequestId)
    requires Inv(s) && Live(s, c)
    ensures Inv(Respond(s, c, id))
  {
    RespondEntries(s, c, id);
    if id in s.callbacks[c] && id != NOTIFICATION {
      RespondRequests(s, c, id);
      TablesFrame(s, Respond(s, c, id));
    }
    hide Tables, OneCluster, AllEntries, Requests, Counted, Respond;
  }

  lemma RespondEntries(s: State, c: Cxn, id: RequestId)
    requires AllEntries(s) && Requests(s) && Live(s, c)
    ensures AllEntries(Respond(s, c, id))
    ensures id in s.callbacks[c] && id != NOTIFICATION ==>
            WaitsOn(s, id, c) && Respond(s, c, id).fired == s.fired + multiset{id}
  {
    var t := Respond(s, c, id);
    if id in s.callbacks[c] && id != NOTIFICATION {
      assert Entries(s, c);
      assert t.fired == s.fired + multiset{id};
      forall d | d in t.callbacks ensures Entries(t, d) {
        if d != c { EntriesFrame(s, t, d); }
      }
    }
  }

  lemma RespondRequests(s: State, c: Cxn, id: RequestId)
    requires Requests(s) && Counted(s) && Live(s, c) && id in s.callbacks[c] && id != NOTIFICATION
    requires WaitsOn(s, id, c) && Respond(s, c, id).fired == s.fired + multiset{id}
    ensures Requests(Respond(s, c, id)) && Counted(Respond(s, c, id))
  {
    var t := Respond(s, c, id);
    assert PendingSet(t) == PendingSet(s) - {id};
    assert id in PendingSet(s);
    forall x | Pending(t, x) ensures Live(t, t.sent[x]) { assert Pending(s, x); }
  }

  lemma {:induction false} RespondAllKeeps(s: State, c: Cxn, messages: seq<seq<Byte>>)
    requires Inv(s) && Live(s, c) && Long(messages)
    ensures Inv(RespondAll(s, c, messages))
    decreases |messages|
  {
    hide Inv, ClientData;
    if messages != [] {
      RespondKeeps(s, c, ClientData(messages[0]));
      RespondAllKeeps(Respond(s, c, ClientData(messages[0])), c, messages[1..]);
    }
  }

  lemma ReceiveKeeps(s: State, r: Reader, c: Cxn, bytes: seq<Byte>)
    requires Inv(s) && Live(s, c)
    ensures c in s.contexts && Inv(Receive(s, r, c, bytes).0)
  {
    assert c in s.contexts.Keys;
    hide AllEntries, OneCluster, Requests, Counted;
    var reading := Arrive(r, s.contexts[c], bytes);
    var t := s.(contexts := s.contexts[c := reading.context]);
    OtherFieldsKeep(s, t);
    ArrivedAreLong(r, s.contexts[c], bytes);
    RespondAllKeeps(t, c, reading.messages);
  }

  lemma {:induction false} WithoutRemoves(bevs: seq<Cxn>, c: Cxn)
    requires NoDuplicates(bevs)
    ensures NoDuplicates(Without(bevs, c))
    ensures forall d :: d in Without(bevs, c) <==> d in bevs && d != c
  {
    if bevs != [] {
      var rest := bevs[1..];
      assert bevs == [bevs[0]] + rest;
      WithoutRemoves(rest, c);
      if bevs[0] == c {
        assert forall i :: 0 <= i < |rest| ==> rest[i] == bevs[i + 1] != c;
      } else {
        assert bevs[0] !in rest by { assert forall i :: 0 <= i < |rest| ==> rest[i] == bevs[i + 1]; }
        assert Without(bevs, c) == [bevs[0]] + Without(rest, c);
      }
    }
  }

  lemma DropKeeps(s: State, c: Cxn)
    requires Inv(s) && Live(s, c)
    ensures Inv(Drop(s, c))
  {
    hide AllEntries, Tables, OneCluster, Requests;
    DropTables(s, c);
    DropRequests(s, c);
    DropCounted(s, c);
  }

  lemma DropTables(s: State, c: Cxn)
    requires Tables(s) && OneCluster(s) && Live(s, c)
    ensures Tables(Drop(s, c)) && OneCluster(Drop(s, c))
  {
    WithoutRemoves(s.bevs, c);
  }

  /** The requests in a table are those that wait on its connection. */
  lemma TableRequests(s: State, c: Cxn)
    requires Inv(s) && Live(s, c)
    ensures forall id :: id in s.callbacks[c].Keys - {NOTIFICATION} <==> WaitsOn(s, id, c)
  {
    assert Entries(s, c);
  }

  lemma OwnCallbacks(s: State, c: Cxn)
    requires AllEntries(s) && Live(s, c)
    ensures Fires(s.callbacks[c]) == s.callbacks[c].Keys - {NOTIFICATION}
  {
    assert Entries(s, c);
    var table := s.callbacks[c];
    forall id | id in table.Keys - {NOTIFICATION} ensures id in Fires(table) {
      assert table[id].UserCallback? && table[id].request == id;
    }
  }

  lemma DropRequests(s: State, c: Cxn)
    requires Inv(s) && Live(s, c)
    ensures Requests(Drop(s, c)) && AllEntries(Drop(s, c))
  {
    TableRequests(s, c);
    OwnCallbacks(s, c);
    var t := Drop(s, c);
    assert forall id :: WaitsOn(s, id, c) <==> Pending(s, id) && !Pending(t, id);
    DropEntries(s, t, c);
    DropRecord(s, t, c);
  }

  lemma DropEntries(s: State, t: State, c: Cxn)
    requires AllEntries(s) && t.callbacks == s.callbacks - {c} && t.sent == s.sent
    requires forall id :: WaitsOn(s, id, c) <==> Pending(s, id) && !Pending(t, id)
    requires forall id :: Pending(t, id) ==> Pending(s, id)
    ensures AllEntries(t)
  {
    forall d | d in t.callbacks ensures Entries(t, d) {
      forall id ensures WaitsOn(t, id, d) <==> WaitsOn(s, id, d) {}
      EntriesFrame(s, t, d);
    }
  }

  lemma DropRecord(s: State, t: State, c: Cxn)
    requires Requests(s) && Live(s, c) && t == Drop(s, c)
    requires forall id :: WaitsOn(s, id, c) <==> Pending(s, id) && !Pending(t, id)
    requires forall id :: id in Fires(s.callbacks[c]) <==> WaitsOn(s, id, c)
    ensures Requests(t)
  {
    hide Without;
    forall id | Pending(t, id) ensures Live(t, t.sent[id]) { assert Pending(s, id) && !WaitsOn(s, id, c); }
    forall id | id in t.fired ensures id in t.sent && t.fired[id] == 1 {
      if id in Fires(s.callbacks[c]) { assert WaitsOn(s, id, c); } else { assert id in s.fired; }
    }
  }

  lemma DropCounted(s: State, c: Cxn)
    requires Inv(s) && Live(s, c)
    ensures Counted(Drop(s, c))
  {
    var ids := s.callbacks[c].Keys - {NOTIFICATION};
    HasNotification(s, c);
    TableSize(s.callbacks[c]);
    DropPending(s, c);
    SizeWithout(PendingSet(s), ids);
    hide Tables, OneCluster, AllEntries, Requests, PendingSet, Without, Fires;
  }

  lemma DropPending(s: State, c: Cxn)
    requires Inv(s) && Live(s, c)
    ensures var ids := s.callbacks[c].Keys - {NOTIFICATION};
            ids <= PendingSet(s) && PendingSet(Drop(s, c)) == PendingSet(s) - ids
  {
    var ids := s.callbacks[c].Keys - {NOTIFICATION};
    TableRequests(s, c);
    OwnCallbacks(s, c);
    hide Inv, Without, Fires;
    forall id | id in ids ensures id in PendingSet(s) { assert WaitsOn(s, id, c); }
    assert Drop(s, c).fired == s.fired + multiset(ids) && Drop(s, c).sent == s.sent;
  }

  lemma TableSize(table: map<RequestId, Callback>)
    requires NOTIFICATION in table
    ensures |table| == |table.Keys - {NOTIFICATION}| + 1
  {
    assert table.Keys == (table.Keys - {NOTIFICATION}) + {NOTIFICATION};
    assert |table| == |table.Keys|;
  }

  lemma SizeWithout(all: set<RequestId>, part: set<RequestId>)
    requires part <= all
    ensures |all - part| == |all| - |part|
  {
    assert all == (all - part) + part;
  }

  /** Handing out the next number. */
  lemma NumberKeeps(s: State, index: nat)
    requires Inv(s) && MayCall(s)
    ensures Inv(s.(nextRequestId := s.nextRequestId + 1, nextConnectionIndex := index))
    ensures Unsent(s.(nextRequestId := s.nextRequestId + 1, nextConnectionIndex := index), s.nextRequestId)
  {
    var t := s.(nextRequestId := s.nextRequestId + 1, nextConnectionIndex := index);
    TablesFrame(s, t);
    assert PendingSet(t) == PendingSet(s);
    forall d | d in t.callbacks ensures Entries(t, d) { EntriesFrame(s, t, d); }
    forall id | Pending(t, id) ensures Live(t, t.sent[id]) { assert Pending(s, id); }
  }

  lemma BlockKeeps(s: State, index: nat, blocked: Option<RequestId>)
    requires Inv(s) && (blocked.Some? ==> Unsent(s, blocked.value))
    ensures Inv(s.(nextConnectionIndex := index, blocked := blocked))
  {
    var t := s.(nextConnectionIndex := index, blocked := blocked);
    TablesFrame(s, t);
    assert PendingSet(t) == PendingSet(s);
    forall d | d in t.callbacks ensures Entries(t, d) { EntriesFrame(s, t, d); }
    forall id | Pending(t, id) ensures Live(t, t.sent[id]) { assert Pending(s, id); }
  }

  lemma AttemptKeeps(s: State, max: int, id: RequestId, call: Call)
    requires Inv(s) && s.bevs != [] && Unsent(s, id)
    ensures Usable(s) && Inv(Attempt(s, max, id, call).0)
  {
    hide AllEntries, OneCluster, Requests, Counted, Scan;
    var (t, outcome) := Attempt(s, max, id, call);
    if outcome.Sent? {
      var u := s.(nextConnectionIndex := t.nextConnectionIndex, blocked := None);
      BlockKeeps(s, t.nextConnectionIndex, None);
      assert Unsent(u, id) && outcome.cxn in s.callbacks.Keys;
      EnqueueKeeps(u, id, outcome.cxn);
      var v := Enqueue(u, id, outcome.cxn);
      OtherFieldsKeep(v, Press(v, outcome.cxn, call.full));
    } else {
      BlockKeeps(s, t.nextConnectionIndex, Some(id));
    }
  }

  lemma InvokeAsyncKeeps(s: State, max: int, legacy: bool, call: Call)
    requires Inv(s) && MayCall(s)
    ensures Usable(s) && Inv(InvokeAsync(s, max, legacy, call).0)
  {
    hide AllEntries, OneCluster, Requests, Counted, Attempt;
    NumberKeeps(s, s.nextConnectionIndex);
    var t := s.(nextRequestId := s.nextRequestId + 1);
    assert t == s.(nextRequestId := s.nextRequestId + 1, nextConnectionIndex := s.nextConnectionIndex);
    if s.bevs != [] { AttemptKeeps(t, max, s.nextRequestId, call); }
  }

  lemma ResumeKeeps(s: State, max: int, call: Call)
    requires Inv(s)
    ensures Usable(s) && Inv(Resume(s, max, call).0)
  {
    assert Usable(s) && (s.blocked.Some? ==> Unsent(s, s.blocked.value));
    hide Inv, Attempt;
    if s.blocked.Some? && s.bevs != [] { AttemptKeeps(s, max, s.blocked.value, call); }
  }

  lemma InvokeSyncKeeps(s: State)
    requires Inv(s) && MayCall(s)
    ensures Usable(s) && Inv(InvokeSync(s).0)
  {
    hide AllEntries, OneCluster, Requests, Counted;
    if s.bevs != [] {
      NumberKeeps(s, s.nextConnectionIndex + 1);
      var t := s.(nextRequestId := s.nextRequestId + 1, nextConnectionIndex := s.nextConnectionIndex + 1);
      assert At(s.bevs, s.nextConnectionIndex) in s.bevs;
      EnqueueKeeps(t, s.nextRequestId, At(s.bevs, s.nextConnectionIndex));
    }
  }

  lemma LoseKeeps(s: State, r: Reader, c: Cxn)
    requires Inv(s) && Live(s, c)
    ensures c in s.contexts && Inv(Lose(s, r, c).0)
  {
    ReceiveKeeps(s, r, c, []);
    hide Inv, Receive, Drop;
    var (t, broken) := Receive(s, r, c, []);
    if !broken { DropKeeps(t, c); }
  }

  lemma StepKeeps(s: State, client: Client, e: Event)
    requires Inv(s)
    ensures Inv(Step(s, client, e))
  {
    hide AllEntries, OneCluster, Requests, Counted, Authenticate, InvokeAsync, InvokeSync, Receive, Lose;
    match e
    case LoggedIn(c, host, inst) => if c !in s.seen { AuthenticateKeeps(s, c, host, inst); }
    case Async(legacy, call) => if MayCall(s) { InvokeAsyncKeeps(s, client.max, legacy, call); }
    case Again(call) => ResumeKeeps(s, client.max, call);
    case Sync => if MayCall(s) { InvokeSyncKeeps(s); }
    case Arrived(c, bytes) => if Live(s, c) { ReceiveKeeps(s, client.reader, c, bytes); }
    case Lost(c) => if Live(s, c) { LoseKeeps(s, client.reader, c); }
    case Written(c) => OtherFieldsKeep(s, s.(backpressured := s.backpressured - {c}));
  }

  /** The state after any sequence of events. */
  ghost function Run(client: Client, es: seq<Event>): (s: State)
    ensures Inv(s)
  {
    if es == [] then assert PendingSet(START) == {}; START
    else
      var before := Run(client, es[..|es| - 1]);
      StepKeeps(before, client, es[|es| - 1]);
      Step(before, client, es[|es| - 1])
  }

  // ---------- what this means for connections ----------

  /** In every reachable state the vector lists each live connection once, the context and
      callback maps have exactly these keys, only they can be under pressure, and any two of them
      joined the same cluster instance. */
  lemma TablesAgree(client: Client, es: seq<Event>, c: Cxn, d: Cxn)
    ensures var s := Run(client, es);
            && (forall i, j :: 0 <= i < j < |s.bevs| ==> s.bevs[i] != s.bevs[j])
            && (c in s.bevs <==> c in s.contexts) && (c in s.bevs <==> c in s.callbacks)
            && (c in s.backpressured ==> c in s.bevs)
            && (c in s.bevs && d in s.bevs ==> c in s.joined && d in s.joined && s.joined[c] == s.joined[d])
  {
    var s := Run(client, es);
    assert c in s.contexts <==> c in s.contexts.Keys;
    assert Live(s, c) <==> c in s.bevs;
    assert Live(s, d) <==> d in s.bevs;
  }

  // ---------- what this means for requests ----------

  /** In every reachable state each request ever sent is in exactly one of two places: waiting
      in the table of the live connection it was sent on, or answered once. */
  lemma EveryRequestInOnePlace(client: Client, es: seq<Event>, id: RequestId)
    requires id in Run(client, es).sent
    ensures var s := Run(client, es);
            var waiting := exists c :: c in s.callbacks && id in s.callbacks[c];
            && (waiting <==> s.fired[id] == 0)
            && (!waiting <==> s.fired[id] == 1)
            && (forall c :: c in s.callbacks && id in s.callbacks[c] ==> c == s.sent[id] && c in s.bevs)
  {
    var s := Run(client, es);
    forall c | c in s.callbacks && id in s.callbacks[c] ensures c == s.sent[id] && s.fired[id] == 0 {
      assert Entries(s, c);
    }
    if s.fired[id] == 0 {
      assert Pending(s, id) && Entries(s, s.sent[id]);
    }
  }

  /** A response answers at most the request it names, and only if that was sent on the very
      connection the response came from. */
  lemma ResponseAnswersOwnRequest(s: State, c: Cxn, id: RequestId)
    requires Inv(s) && Live(s, c)
    ensures Respond(s, c, id).fired == s.fired + if WaitsOn(s, id, c) then multiset{id} else multiset{}
  {
    assert Entries(s, c);
    RespondEntries(s, c, id);
  }

  /** Losing a connection answers every request waiting on it and no other. */
  lemma LossAnswersAll(s: State, c: Cxn, id: RequestId)
    requires Inv(s) && Live(s, c)
    ensures Drop(s, c).fired[id] == s.fired[id] + if WaitsOn(s, id, c) then 1 else 0
  {
    TableRequests(s, c);
    OwnCallbacks(s, c);
    assert id in s.callbacks[c].Keys - {NOTIFICATION} <==> WaitsOn(s, id, c);
  }

  /** Where a request was sent, and that it was answered, is never taken back. */
  lemma {:induction false} RespondAllExtends(s: State, c: Cxn, messages: seq<seq<Byte>>)
    requires c in s.callbacks && Long(messages)
    ensures var t := RespondAll(s, c, messages);
            s.fired <= t.fired && t.sent == s.sent && t.lost == s.lost && t.blocked == s.blocked
    ensures RespondAll(s, c, messages).outstanding <= s.outstanding
    decreases |messages|
  {
    hide ClientData, Answered;
    if messages != [] {
      RespondAllExtends(Respond(s, c, ClientData(messages[0])), c, messages[1..]);
    }
  }

  lemma ReceiveExtends(s: State, r: Reader, c: Cxn, bytes: seq<Byte>)
    requires c in s.callbacks && c in s.contexts
    ensures var t := Receive(s, r, c, bytes).0;
            s.fired <= t.fired && t.sent == s.sent && t.blocked == s.blocked && t.outstanding <= s.outstanding
  {
    hide RespondAll;
    var reading := Arrive(r, s.contexts[c], bytes);
    ArrivedAreLong(r, s.contexts[c], bytes);
    RespondAllExtends(s.(contexts := s.contexts[c := reading.context]), c, reading.messages);
  }

  /** A request goes to a live connection under its number, whatever the host table says; or the
      call keeps the number while it is blocked. */
  lemma AttemptIsLive(s: State, max: int, id: RequestId, call: Call)
    requires Tables(s) && s.bevs != []
    ensures Usable(s)
    ensures var (t, outcome) := Attempt(s, max, id, call);
            && t.fired == s.fired
            && (outcome == Blocked || (outcome.Sent? && outcome.cxn in s.bevs))
            && (outcome.Sent? ==> t.sent == s.sent[id := outcome.cxn] && t.blocked == None)
            && (outcome == Blocked ==> t.sent == s.sent && t.blocked == Some(id))
            && (outcome == Blocked && s.outstanding <= max ==> forall c :: c in s.bevs ==> c in s.backpressured)
  {
    ScanFinds(s.bevs, s.backpressured, s.nextConnectionIndex);
    hide Scan;
  }

  lemma SentIsLive(s: State, max: int, legacy: bool, call: Call)
    requires Inv(s)
    ensures Usable(s)
    ensures var (t, outcome) := InvokeAsync(s, max, legacy, call);
            && t.fired == s.fired
            && (outcome.Sent? ==> outcome.cxn in s.bevs && t.sent == s.sent[s.nextRequestId := outcome.cxn])
            && (!outcome.Sent? ==> t.sent == s.sent)
            && (outcome == Blocked ==> t.blocked == Some(s.nextRequestId))
  {
    hide OneCluster, AllEntries, Requests, Counted, Attempt;
    if s.bevs != [] { AttemptIsLive(s.(nextRequestId := s.nextRequestId + 1), max, s.nextRequestId, call); }
  }

  /** A blocked call that gets through is sent to a live connection under the number it had. */
  lemma ResumedIsLive(s: State, max: int, call: Call)
    requires Inv(s)
    ensures Usable(s)
    ensures var (t, outcome) := Resume(s, max, call);
            && t.fired == s.fired
            && (outcome.Sent? ==>
                  s.blocked.Some? && outcome.cxn in s.bevs && t.sent == s.sent[s.blocked.value := outcome.cxn])
            && (!outcome.Sent? ==> t.sent == s.sent && t.blocked == s.blocked)
            && (s.blocked.Some? && s.outstanding <= max && (exists c :: c in s.bevs && c !in s.backpressured) ==>
                  outcome.Sent?)
  {
    hide OneCluster, AllEntries, Requests, Counted, Attempt;
    if s.blocked.Some? && s.bevs != [] { AttemptIsLive(s, max, s.blocked.value, call); }
  }

  ghost predicate Extends(s: State, t: State) {
    s.fired <= t.fired && forall id :: id in s.sent ==> id in t.sent && t.sent[id] == s.sent[id]
  }

  lemma AsyncExtends(s: State, max: int, legacy: bool, call: Call)
    requires Inv(s)
    ensures Usable(s) && Extends(s, InvokeAsync(s, max, legacy, call).0)
  {
    assert s.nextRequestId !in s.sent;
    SentIsLive(s, max, legacy, call);
    hide Inv, InvokeAsync;
  }

  lemma ResumeExtends(s: State, max: int, call: Call)
    requires Inv(s)
    ensures Usable(s) && Extends(s, Resume(s, max, call).0)
  {
    assert s.blocked.Some? ==> s.blocked.value !in s.sent;
    ResumedIsLive(s, max, call);
    hide Inv, Resume;
  }

  lemma SyncExtends(s: State)
    requires Inv(s)
    ensures Usable(s) && Extends(s, InvokeSync(s).0)
  {
    assert s.nextRequestId !in s.sent && Usable(s);
    hide Inv;
  }

  lemma LoseExtends(s: State, r: Reader, c: Cxn)
    requires c in s.callbacks && c in s.contexts
    ensures Extends(s, Lose(s, r, c).0) && Lose(s, r, c).0.outstanding <= s.outstanding
    ensures Lose(s, r, c).0.blocked == s.blocked
  {
    hide Receive, Without, Fires;
    ReceiveExtends(s, r, c, []);
  }

  lemma StepExtends(s: State, client: Client, e: Event)
    requires Inv(s)
    ensures Extends(s, Step(s, client, e))
  {
    hide OneCluster, AllEntries, Requests, Counted, Receive, Lose, InvokeAsync, InvokeSync, Resume;
    if e.Async? {
      AsyncExtends(s, client.max, e.legacy, e.call);
    } else if e.Again? {
      ResumeExtends(s, client.max, e.call);
    } else if e.Sync? {
      SyncExtends(s);
    } else if e.Arrived? && Live(s, e.cxn) {
      ReceiveExtends(s, client.reader, e.cxn, e.bytes);
    } else if e.Lost? && Live(s, e.cxn) {
      LoseExtends(s, client.reader, e.cxn);
    }
  }

  // ---------- choosing a connection ----------

  lemma {:induction false} ScanSkips(bevs: seq<Cxn>, pressured: set<Cxn>, index: nat, tries: nat)
    requires |bevs| > 0
    ensures Scan(bevs, pressured, index, tries).0 == None <==>
            forall k :: index < k <= index + tries ==> At(bevs, k) in pressured
    decreases tries
  {
    hide At;
    if tries > 0 { ScanSkips(bevs, pressured, index + 1, tries - 1); }
  }

  /** Going once round the vector finds an unpressured connection whenever there is one. */
  lemma ScanFinds(bevs: seq<Cxn>, pressured: set<Cxn>, index: nat)
    requires |bevs| > 0
    ensures Scan(bevs, pressured, index, |bevs|).0.Some? <==> exists c :: c in bevs && c !in pressured
  {
    var n := |bevs|;
    ScanSkips(bevs, pressured, index, n);
    if c :| c in bevs && c !in pressured {
      var k :| 0 <= k < n && bevs[k] == c;
      var r := index % n;
      var j := if k > r then k - r else k - r + n;
      Residue(index, j, n, k);
      assert At(bevs, index + j) == c;
    }
  }

  lemma Residue(index: nat, j: nat, n: nat, k: nat)
    requires 0 < n && k < n
    requires j == (if k > index % n then k - index % n else k - index % n + n)
    ensures (index + j) % n == k
  {
    var q := index / n;
    assert index == q * n + index % n;
    if k > index % n {
      assert index + j == q * n + k;
      Unique(index + j, n, q, k);
    } else {
      assert index + j == (q + 1) * n + k;
      Unique(index + j, n, q + 1, k);
    }
  }

  lemma Unique(x: nat, n: nat, q: nat, k: nat)
    requires k < n && x == q * n + k
    ensures x % n == k
  {
    var d := x / n - q;
    assert n * d == k - x % n;
  }

  // ---------- the counter ----------

  /** The user callbacks in the tables of the first `n` connections. */
  function UserCallbacks(s: State, n: nat): int
    requires n <= |s.bevs| && forall c :: c in s.bevs ==> c in s.callbacks
  {
    if n == 0 then 0 else UserCallbacks(s, n - 1) + |s.callbacks[s.bevs[n - 1]]| - 1
  }

  ghost function WaitingOnFirst(s: State, n: nat): set<RequestId>
    requires n <= |s.bevs|
  {
    set id | id in PendingSet(s) && s.sent[id] in s.bevs[..n]
  }

  lemma {:induction false} TablesHoldPending(s: State, n: nat)
    requires Inv(s) && n <= |s.bevs|
    ensures UserCallbacks(s, n) == |WaitingOnFirst(s, n)|
  {
    hide OneCluster, AllEntries, Requests, Counted, PendingSet;
    if n > 0 {
      var c := s.bevs[n - 1];
      TablesHoldPending(s, n - 1);
      OwnRequests(s, c);
      OneMoreTable(s, n);
      hide WaitingOnFirst, WaitingOn, Tables;
      SizeOfBoth(WaitingOnFirst(s, n - 1), WaitingOn(s, c));
    } else {
      assert WaitingOnFirst(s, 0) == {};
    }
  }

  lemma OneMoreTable(s: State, n: nat)
    requires Tables(s) && 0 < n <= |s.bevs|
    ensures WaitingOnFirst(s, n) == WaitingOnFirst(s, n - 1) + WaitingOn(s, s.bevs[n - 1])
    ensures WaitingOnFirst(s, n - 1) !! WaitingOn(s, s.bevs[n - 1])
  {
    var c := s.bevs[n - 1];
    assert s.bevs[..n] == s.bevs[..n - 1] + [c];
    assert c !in s.bevs[..n - 1];
  }

  lemma SizeOfBoth(a: set<RequestId>, b: set<RequestId>)
    requires a !! b
    ensures |a + b| == |a| + |b|
  {
  }

  ghost function WaitingOn(s: State, c: Cxn): set<RequestId> { set id | id in PendingSet(s) && s.sent[id] == c }

  lemma OwnRequests(s: State, c: Cxn)
    requires Inv(s) && Live(s, c)
    ensures |s.callbacks[c]| == |WaitingOn(s, c)| + 1
  {
    var own := s.callbacks[c].Keys - {NOTIFICATION};
    TableRequests(s, c);
    HasNotification(s, c);
    hide Inv;
    forall id | id in own ensures id in WaitingOn(s, c) { assert WaitsOn(s, id, c); }
    forall id | id in WaitingOn(s, c) ensures id in own { assert WaitsOn(s, id, c); }
    assert WaitingOn(s, c) == own;
    assert s.callbacks[c].Keys == own + {NOTIFICATION};
    assert |s.callbacks[c]| == |s.callbacks[c].Keys|;
  }

  lemma HasNotification(s: State, c: Cxn)
    requires Inv(s) && Live(s, c)
    ensures NOTIFICATION in s.callbacks[c]
  {
    assert Entries(s, c);
  }

  /** The counter and the losses together are the user callbacks waiting in all tables. */
  lemma CounterIsExact(client: Client, es: seq<Event>)
    ensures var s := Run(client, es);
            && s.outstanding + s.lost == UserCallbacks(s, |s.bevs|)
            && forall c :: c in s.callbacks ==> NOTIFICATION in s.callbacks[c]
  {
    var s := Run(client, es);
    TablesHoldPending(s, |s.bevs|);
    assert s.bevs[..|s.bevs|] == s.bevs;
    forall id | id in PendingSet(s) ensures s.sent[id] in s.bevs { assert Pending(s, id); }
    assert WaitingOnFirst(s, |s.bevs|) == PendingSet(s);
    forall c | c in s.callbacks ensures NOTIFICATION in s.callbacks[c] { HasNotification(s, c); }
  }

  /** When nothing is waiting, the counter that `drain` reports on is zero exactly as long as no
      connection has been lost; after a loss it stays below zero. */
  lemma DrainSeesZero(client: Client, es: seq<Event>)
    requires PendingSet(Run(client, es)) == {}
    ensures Run(client, es).outstanding == 0 <==> Run(client, es).lost == 0
    ensures Run(client, es).outstanding + Run(client, es).lost == 0
  {
    assert Counted(Run(client, es));
  }

  lemma RunOneMore(client: Client, es: seq<Event>, e: Event)
    ensures Run(client, es + [e]) == Step(Run(client, es), client, e)
  {
    assert (es + [e])[..|es|] == es;
  }

  /** One login and its loss leave the counter at minus one. */
  lemma DrainMissesZero(client: Client)
    ensures var s := Run(client, [LoggedIn(0, 7, Instance(1, 1)), Lost(0)]);
            PendingSet(s) == {} && s.outstanding == -1
  {
    hide Inv, Run, Lose;
    var login, loss := LoggedIn(0, 7, Instance(1, 1)), Lost(0);
    var s := Join(START, 0, 7, Instance(1, 1));
    FirstEvent(client, login);
    RunOneMore(client, [login], loss);
    assert [login] + [loss] == [login, loss];
    hide Join;
    LoginThenLoss(s, client.reader);
  }

  lemma FirstEvent(client: Client, e: Event)
    ensures Inv(START) && Run(client, [e]) == Step(START, client, e)
  {
    hide Step, Inv;
    assert Run(client, []) == START;
    RunOneMore(client, [], e);
    assert [] + [e] == [e];
  }

  lemma LoginThenLoss(s: State, r: Reader)
    requires s == Join(START, 0, 7, Instance(1, 1))
    ensures Live(s, 0) && 0 in s.contexts && Lose(s, r, 0).0.sent == map[] && Lose(s, r, 0).0.outstanding == -1
  {
    assert More(FRESH, []) == FRESH;
    assert RespondAll(s, 0, []) == s;
    assert |s.callbacks[0]| == 1;
  }

  /** Without synchronous calls the counter never exceeds its limit. */
  lemma {:induction false} AsyncStaysInLimit(client: Client, es: seq<Event>)
    requires client.max >= 0 && forall e :: e in es ==> !e.Sync?
    ensures InLimit(Run(client, es), client.max)
    decreases |es|
  {
    if es != [] {
      var e, s := es[|es| - 1], Run(client, es[..|es| - 1]);
      AsyncStaysInLimit(client, es[..|es| - 1]);
      StepInLimit(s, client, e);
    }
  }

  /** A blocked call has left room for its own request. */
  ghost predicate InLimit(s: State, max: int) { s.outstanding <= max && (s.blocked.Some? ==> s.outstanding < max) }

  lemma AttemptInLimit(s: State, max: int, id: RequestId, call: Call)
    requires s.bevs != [] && Usable(s) && s.outstanding < max
    ensures InLimit(Attempt(s, max, id, call).0, max)
  {
    hide Scan;
  }

  lemma StepInLimit(s: State, client: Client, e: Event)
    requires Inv(s) && InLimit(s, client.max) && !e.Sync?
    ensures InLimit(Step(s, client, e), client.max)
  {
    hide OneCluster, AllEntries, Requests, Counted, Receive, Attempt, Lose;
    if e.Async? && MayCall(s) && s.bevs != [] && s.outstanding < client.max {
      AttemptInLimit(s.(nextRequestId := s.nextRequestId + 1), client.max, s.nextRequestId, e.call);
    } else if e.Again? && s.blocked.Some? && s.bevs != [] {
      AttemptInLimit(s, client.max, s.blocked.value, e.call);
    } else if e.Arrived? && Live(s, e.cxn) {
      ReceiveExtends(s, client.reader, e.cxn, e.bytes);
    } else if e.Lost? && Live(s, e.cxn) {
      LoseExtends(s, client.reader, e.cxn);
    }
  }
}
