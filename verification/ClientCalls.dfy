/** What each event of the client comes to, in terms of the state before it: when a call is sent,
    refused or kept waiting, which connection it takes, and what logins, arrivals, losses and
    drained buffers change. */
module ClientCalls {
  import opened Words
  import opened WireFormat
  import opened Deframer
  import opened ClientState
  import Responses

  predicate SomeFree(s: State) { exists c :: c in s.bevs && c !in s.backpressured }

  /** The connection `k` places on from where the last search ended. */
  function InTurn(s: State, k: nat): Cxn
    requires s.bevs != []
  {
    s.bevs[(s.nextConnectionIndex + k) % |s.bevs|]
  }

  /** A search ends `k` places on: at the first unpressured connection, or, when there is none and
      the request is queued anyway, at the one behind a full round. */
  predicate SearchEnds(s: State, tried: bool, k: nat) {
    && s.bevs != []
    && if tried && SomeFree(s) then
         && 1 <= k <= |s.bevs| && InTurn(s, k) !in s.backpressured
         && forall j :: 1 <= j < k ==> InTurn(s, j) in s.backpressured
       else k == 1 + if tried then |s.bevs| else 0
  }

  predicate HasHome(s: State, home: Option<int>) {
    home.Some? && home.value in s.hosts && s.hosts[home.value] in s.bevs
  }

  /** The request goes to the live connection of its home, and otherwise to the one in turn. */
  predicate Chosen(s: State, call: Call, k: nat, c: Cxn)
    requires s.bevs != []
  {
    c == if HasHome(s, call.home) then s.hosts[call.home.value] else InTurn(s, k)
  }

  /** Between `s` and `t` request `id` was sent on `c`, and nothing else happened. */
  ghost predicate SentOn(s: State, t: State, id: RequestId, c: Cxn, call: Call) {
    && c in s.bevs && c in s.callbacks && c in t.callbacks && WaitsOn(t, id, c)
    && t.callbacks[c] == s.callbacks[c][id := UserCallback(id)]
    && (forall d :: d in t.callbacks <==> d in s.callbacks)
    && (forall d :: d in s.callbacks && d != c ==> t.callbacks[d] == s.callbacks[d])
    && t.sent == s.sent[id := c] && t.fired == s.fired && t.lost == s.lost
    && t.outstanding == s.outstanding + 1 && t.blocked == None
    && t.backpressured == s.backpressured + (if call.full then {c} else {})
    && t.bevs == s.bevs && t.contexts == s.contexts && t.hosts == s.hosts && t.instance == s.instance
  }

  /** Request `id` was sent on the connection whose turn it is, or to its home. */
  ghost predicate Goes(s: State, t: State, tried: bool, id: RequestId, c: Cxn, call: Call) {
    && SentOn(s, t, id, c, call)
    && var k := t.nextConnectionIndex - s.nextConnectionIndex;
       k >= 0 && SearchEnds(s, tried, k) && Chosen(s, call, k, c)
  }

  // ---------- asynchronous calls ----------

  /** Each outcome has its exact condition; the refusals leave everything as it was. */
  lemma AsyncOutcome(s: State, max: int, legacy: bool, call: Call)
    requires Inv(s)
    ensures Usable(s)
    ensures var (t, outcome) := InvokeAsync(s, max, legacy, call);
      && (outcome == NoConnections <==> s.bevs == [])
      && (outcome == TooBusy <==> s.bevs != [] && s.outstanding >= max)
      && (outcome == ElasticModeMismatch <==> s.bevs != [] && s.outstanding < max && legacy)
      && (outcome.Sent? <==> s.bevs != [] && s.outstanding < max && !legacy && (SomeFree(s) || call.queueAnyway))
      && (outcome == Blocked <==> s.bevs != [] && s.outstanding < max && !legacy && !SomeFree(s) && !call.queueAnyway)
      && (outcome in {NoConnections, TooBusy, ElasticModeMismatch} ==> t == s)
  {
    hide OneCluster, AllEntries, Requests, Counted, Attempt;
    if s.bevs != [] && s.outstanding < max && !legacy {
      RoundOutcome(s.(nextRequestId := s.nextRequestId + 1), max, s.nextRequestId, call);
      SameFree(s, s.(nextRequestId := s.nextRequestId + 1));
    }
  }

  lemma SameFree(s: State, t: State)
    requires s.bevs == t.bevs && s.backpressured == t.backpressured
    ensures SomeFree(s) <==> SomeFree(t)
  {
  }

  /** A call that is sent takes the next number and the right connection. */
  lemma AsyncSends(s: State, max: int, legacy: bool, call: Call)
    requires Inv(s)
    ensures Usable(s)
    ensures var (t, outcome) := InvokeAsync(s, max, legacy, call);
      outcome.Sent? ==>
        Goes(s, t, true, s.nextRequestId, outcome.cxn, call) && t.nextRequestId == s.nextRequestId + 1
  {
    hide Inv, Tables, Attempt, Goes, SomeFree, Usable;
    NewNumber(s);
    AsyncOutcome(s, max, legacy, call);
    var (t, outcome) := InvokeAsync(s, max, legacy, call);
    if outcome.Sent? {
      var n := s.(nextRequestId := s.nextRequestId + 1);
      RoundSends(n, max, s.nextRequestId, call);
      NumberIsIrrelevant(s, n, t, s.nextRequestId, outcome.cxn, call);
    }
  }

  lemma NewNumber(s: State)
    requires Inv(s)
    ensures s.nextRequestId !in s.sent && s.nextRequestId !in s.fired && Usable(s) && Tables(s)
    ensures var n := s.(nextRequestId := s.nextRequestId + 1); Usable(n) && Tables(n)
    ensures s.blocked.Some? ==> s.blocked.value !in s.fired
  {
    hide OneCluster, AllEntries, Counted;
  }

  lemma NumberIsIrrelevant(s: State, n: State, t: State, id: RequestId, c: Cxn, call: Call)
    requires n == s.(nextRequestId := n.nextRequestId) && Goes(n, t, true, id, c, call)
    ensures Goes(s, t, true, id, c, call)
  {
    SameFree(s, n);
    var k := t.nextConnectionIndex - s.nextConnectionIndex;
    assert InTurn(s, k) == InTurn(n, k);
    forall j | 1 <= j < k && SomeFree(s) ensures InTurn(s, j) in s.backpressured {
      assert InTurn(n, j) == InTurn(s, j);
    }
  }

  /** A call that has to wait has its number, and went once round the connections. */
  lemma AsyncWaits(s: State, max: int, legacy: bool, call: Call)
    requires Inv(s)
    ensures Usable(s)
    ensures var (t, outcome) := InvokeAsync(s, max, legacy, call);
      outcome == Blocked ==>
        t == s.(nextRequestId := s.nextRequestId + 1, blocked := Some(s.nextRequestId),
                nextConnectionIndex := s.nextConnectionIndex + |s.bevs|)
  {
    AsyncOutcome(s, max, legacy, call);
    hide OneCluster, AllEntries, Requests, Counted, Attempt;
    var (t, outcome) := InvokeAsync(s, max, legacy, call);
    if outcome == Blocked {
      var n := s.(nextRequestId := s.nextRequestId + 1);
      SameFree(s, n);
      RoundWaits(n, max, s.nextRequestId, call);
    }
  }

  // ---------- one round ----------

  lemma RoundOutcome(s: State, max: int, id: RequestId, call: Call)
    requires Tables(s) && s.bevs != []
    ensures Usable(s)
    ensures var outcome := Attempt(s, max, id, call).1;
      && (outcome.Sent? <==> (s.outstanding <= max && SomeFree(s)) || call.queueAnyway)
      && (outcome == Blocked <==> !outcome.Sent?)
  {
    hide Scan, At;
    ScanFinds(s.bevs, s.backpressured, s.nextConnectionIndex);
  }

  lemma RoundSends(s: State, max: int, id: RequestId, call: Call)
    requires Tables(s) && s.bevs != [] && id !in s.fired
    ensures Usable(s)
    ensures var (t, outcome) := Attempt(s, max, id, call);
      outcome.Sent? ==> Goes(s, t, s.outstanding <= max, id, outcome.cxn, call) && t.nextRequestId == s.nextRequestId
  {
    hide SearchEnds, Chosen, Attempt, SentOn;
    RoundEnds(s, max, id, call);
    hide Tables;
    var (t, outcome) := Attempt(s, max, id, call);
    if outcome.Sent? {
      var u := s.(nextConnectionIndex := t.nextConnectionIndex, blocked := None);
      EnqueuedIsSent(s, u, id, outcome.cxn, call);
      assert t.nextRequestId == s.nextRequestId by { KeepsNumber(u, id, outcome.cxn, call.full); }
    }
  }

  lemma KeepsNumber(s: State, id: RequestId, c: Cxn, full: bool)
    requires c in s.callbacks
    ensures var t := Press(Enqueue(s, id, c), c, full);
      t.nextRequestId == s.nextRequestId && t.nextConnectionIndex == s.nextConnectionIndex
  {
  }

  lemma EnqueuedIsSent(s: State, u: State, id: RequestId, c: Cxn, call: Call)
    requires Tables(s) && c in s.bevs && id !in s.fired
    requires u == s.(nextConnectionIndex := u.nextConnectionIndex, nextRequestId := u.nextRequestId, blocked := None)
    ensures c in u.callbacks && SentOn(s, Press(Enqueue(u, id, c), c, call.full), id, c, call)
  {
  }

  /** The round stops where the search ends. */
  lemma RoundEnds(s: State, max: int, id: RequestId, call: Call)
    requires Tables(s) && s.bevs != []
    ensures Usable(s)
    ensures var (t, outcome) := Attempt(s, max, id, call);
      outcome.Sent? ==>
        && outcome.cxn in s.bevs && outcome.cxn in s.callbacks
        && t == Press(Enqueue(s.(nextConnectionIndex := t.nextConnectionIndex, blocked := None), id, outcome.cxn),
                      outcome.cxn, call.full)
        && var k := t.nextConnectionIndex - s.nextConnectionIndex;
           k >= 0 && SearchEnds(s, s.outstanding <= max, k) && Chosen(s, call, k, outcome.cxn)
  {
    hide Scan, At, Enqueue, Press, SearchEnds, InTurn;
    SearchIs(s, s.outstanding <= max);
    var (t, outcome) := Attempt(s, max, id, call);
    if outcome.Sent? {
      var (free, index) :=
        if s.outstanding <= max then Scan(s.bevs, s.backpressured, s.nextConnectionIndex, |s.bevs|)
        else (None, s.nextConnectionIndex);
      var end := if free == None then index + 1 else index;
      KeepsNumber(s.(nextConnectionIndex := end, blocked := None), id, outcome.cxn, call.full);
    }
  }

  lemma SearchIs(s: State, tried: bool)
    requires s.bevs != []
    ensures var (free, index) :=
        if tried then Scan(s.bevs, s.backpressured, s.nextConnectionIndex, |s.bevs|) else (None, s.nextConnectionIndex);
      var end := if free == None then index + 1 else index;
      var k := end - s.nextConnectionIndex;
      && k > 0 && SearchEnds(s, tried, k) && InTurn(s, k) in s.bevs
      && InTurn(s, k) == if free == None then At(s.bevs, end) else free.value
  {
    hide Scan;
    ScanFinds(s.bevs, s.backpressured, s.nextConnectionIndex);
    ScanStops(s.bevs, s.backpressured, s.nextConnectionIndex, |s.bevs|);
    var (free, end) := Scan(s.bevs, s.backpressured, s.nextConnectionIndex, |s.bevs|);
    if free.Some? {
      forall j | 1 <= j < end - s.nextConnectionIndex ensures InTurn(s, j) in s.backpressured {
        assert At(s.bevs, s.nextConnectionIndex + j) == InTurn(s, j);
      }
    }
  }

  lemma RoundWaits(s: State, max: int, id: RequestId, call: Call)
    requires Tables(s) && s.bevs != []
    ensures Usable(s)
    ensures var (t, outcome) := Attempt(s, max, id, call);
      outcome == Blocked ==>
        t == s.(blocked := Some(id),
                nextConnectionIndex := s.nextConnectionIndex + if s.outstanding <= max then |s.bevs| else 0)
  {
    hide Scan, At;
    ScanStops(s.bevs, s.backpressured, s.nextConnectionIndex, |s.bevs|);
  }

  /** The index a search reaches: of the first unpressured connection, or behind all it tried. */
  lemma {:induction false} ScanStops(bevs: seq<Cxn>, pressured: set<Cxn>, index: nat, tries: nat)
    requires |bevs| > 0
    ensures var (free, end) := Scan(bevs, pressured, index, tries);
      && index <= end <= index + tries
      && (free == None ==> end == index + tries)
      && (free.Some? ==> end > index && free.value == At(bevs, end))
      && (forall j :: index < j < end ==> At(bevs, j) in pressured)
    decreases tries
  {
    hide At;
    if tries > 0 { ScanStops(bevs, pressured, index + 1, tries - 1); }
  }

  // ---------- the other calls ----------

  /** A waiting call goes on exactly when it may, under its own number. */
  lemma ResumeOutcome(s: State, max: int, call: Call)
    requires Inv(s)
    ensures Usable(s)
    ensures var (t, outcome) := Resume(s, max, call);
      && (outcome.Sent? <==>
            s.blocked.Some? && s.bevs != [] && ((s.outstanding <= max && SomeFree(s)) || call.queueAnyway))
      && (outcome == Blocked <==> !outcome.Sent?)
      && (outcome.Sent? ==>
            && Goes(s, t, s.outstanding <= max, s.blocked.value, outcome.cxn, call)
            && t.nextRequestId == s.nextRequestId)
  {
    hide Inv, Tables, Attempt, Goes, SomeFree, Usable;
    NewNumber(s);
    if s.blocked.Some? && s.bevs != [] {
      RoundOutcome(s, max, s.blocked.value, call);
      RoundSends(s, max, s.blocked.value, call);
    }
  }

  /** A synchronous call takes the connection the index is at, pressed or not, and moves it on. */
  lemma SyncOutcome(s: State)
    requires Inv(s)
    ensures Usable(s)
    ensures var (t, outcome) := InvokeSync(s);
      && (outcome == NoConnections <==> s.bevs == []) && (outcome == NoConnections ==> t == s)
      && (s.bevs != [] ==>
            && outcome == Sent(InTurn(s, 0)) && t.nextConnectionIndex == s.nextConnectionIndex + 1
            && t.nextRequestId == s.nextRequestId + 1 && t.blocked == s.blocked
            && (s.blocked == None ==> SentOn(s, t, s.nextRequestId, outcome.cxn, Call(None, false, false))))
  {
    hide Inv, SentOn, Tables;
    NewNumber(s);
    if s.bevs != [] {
      var n := s.(nextConnectionIndex := s.nextConnectionIndex + 1, nextRequestId := s.nextRequestId + 1);
      if s.blocked == None { EnqueuedIsSent(s, n, s.nextRequestId, InTurn(s, 0), Call(None, false, false)); }
    }
  }

  // ---------- logins and drained buffers ----------

  /** A login at another cluster is turned away; any other joins the vector, both maps and the
      host map, and leaves the rest as it was. */
  lemma LoginJoins(s: State, client: ClientState.Client, c: Cxn, host: int, inst: Instance)
    requires Inv(s) && c !in s.seen
    ensures var t := Step(s, client, LoggedIn(c, host, inst));
      if s.bevs != [] && s.instance != Some(inst) then t == s.(seen := s.seen + {c})
      else
        && t.bevs == s.bevs + [c] && t.instance == Some(inst)
        && t.contexts == s.contexts[c := Context(4, true, [])]
        && t.callbacks == s.callbacks[c := map[NOTIFICATION := TopologyNotification]]
        && t.hosts == s.hosts[host := c] && t.backpressured == s.backpressured
        && t.sent == s.sent && t.fired == s.fired
        && t.outstanding == s.outstanding && t.nextRequestId == s.nextRequestId
  {
    hide Tables, AllEntries, Requests, Counted;
  }

  /** A drained connection is no longer under pressure, so that a call within the limit is sent. */
  lemma DrainedIsFree(s: State, client: ClientState.Client, c: Cxn, call: Call)
    requires Inv(s) && c in s.bevs && s.outstanding < client.max
    ensures var t := Step(s, client, Written(c));
      && t == s.(backpressured := s.backpressured - {c}) && Inv(t)
      && Usable(t) && InvokeAsync(t, client.max, false, call).1.Sent?
  {
    hide Inv, InvokeAsync;
    var t := s.(backpressured := s.backpressured - {c});
    StepKeeps(s, client, Written(c));
    assert c in t.bevs && c !in t.backpressured;
    AsyncOutcome(t, client.max, false, call);
  }

  // ---------- arrivals and losses ----------

  /** One of these messages is the response to request `id`. */
  predicate Named(messages: seq<seq<Byte>>, id: RequestId)
    requires Long(messages)
  {
    exists i :: 0 <= i < |messages| && ClientData(messages[i]) == id
  }

  lemma {:induction false} RespondAllAnswers(s: State, c: Cxn, messages: seq<seq<Byte>>, id: RequestId)
    requires Inv(s) && Live(s, c) && Long(messages)
    ensures var t := RespondAll(s, c, messages);
      && t.fired[id] == s.fired[id] + (if WaitsOn(s, id, c) && Named(messages, id) then 1 else 0)
      && (forall d :: WaitsOn(t, id, d) <==> WaitsOn(s, id, d) && !(d == c && Named(messages, id)))
    decreases |messages|
  {
    hide ClientData, Inv;
    if messages != [] {
      var n := ClientData(messages[0]);
      var t := Respond(s, c, n);
      RespondKeeps(s, c, n);
      RespondOnce(s, c, n, id);
      assert forall i :: 0 <= i < |messages| - 1 ==> messages[1..][i] == messages[i + 1];
      RespondAllAnswers(t, c, messages[1..], id);
      NamedFirst(messages, id);
    }
  }

  lemma NamedFirst(messages: seq<seq<Byte>>, id: RequestId)
    requires Long(messages) && messages != []
    ensures Long(messages[1..]) && (Named(messages, id) <==> ClientData(messages[0]) == id || Named(messages[1..], id))
  {
    hide ClientData;
    assert forall i :: 0 <= i < |messages| - 1 ==> messages[1..][i] == messages[i + 1];
    if Named(messages, id) && ClientData(messages[0]) != id {
      var i :| 0 <= i < |messages| && ClientData(messages[i]) == id;
      assert messages[1..][i - 1] == messages[i];
    }
    if Named(messages[1..], id) {
      var i :| 0 <= i < |messages[1..]| && ClientData(messages[1..][i]) == id;
      assert messages[i + 1] == messages[1..][i];
    }
  }

  lemma RespondOnce(s: State, c: Cxn, n: RequestId, id: RequestId)
    requires Inv(s) && Live(s, c)
    ensures var t := Respond(s, c, n);
      && t.callbacks.Keys == s.callbacks.Keys
      && t.fired[id] == s.fired[id] + (if WaitsOn(s, id, c) && n == id then 1 else 0)
      && (forall d :: WaitsOn(t, id, d) <==> WaitsOn(s, id, d) && !(d == c && n == id))
  {
    ResponseAnswersOwnRequest(s, c, n);
    hide Inv, Respond, Answered;
    RespondKeepsSent(s, c, n);
  }

  lemma RespondKeepsSent(s: State, c: Cxn, n: RequestId)
    requires c in s.callbacks
    ensures Respond(s, c, n).sent == s.sent && Respond(s, c, n).callbacks.Keys == s.callbacks.Keys
  {
  }

  /** Bytes that arrive answer, once each, exactly the requests that wait on the connection and
      are named by a message the bytes complete. */
  lemma ArrivalAnswers(s: State, client: ClientState.Client, c: Cxn, bytes: seq<Byte>, id: RequestId)
    requires Inv(s) && Live(s, c)
    ensures c in s.contexts && Long(Arrive(client.reader, s.contexts[c], bytes).messages)
    ensures var t, reading := Step(s, client, Arrived(c, bytes)), Arrive(client.reader, s.contexts[c], bytes);
      var answered := WaitsOn(s, id, c) && Named(reading.messages, id);
      && t.fired[id] == s.fired[id] + (if answered then 1 else 0)
      && (forall d :: WaitsOn(t, id, d) <==> WaitsOn(s, id, d) && !(d == c && answered))
  {
    assert c in s.contexts.Keys;
    ReceiveAnswers(s, client.reader, c, bytes, id);
  }

  /** The server's side of it: encoded responses, framed one behind the other, answer exactly the
      waiting requests whose numbers they carry. */
  lemma {:induction false} ResponsesAnswer(s: State, client: ClientState.Client, c: Cxn, rs: seq<Responses.Response>,
                                           ms: seq<seq<Byte>>, id: RequestId)
    requires Inv(s) && Live(s, c) && c in s.contexts
    requires s.contexts[c] == Context(s.contexts[c].nextLength, true, []) && s.contexts[c].nextLength >= 4
    requires |ms| == |rs| && AllSendable(ms) && AllAccepted(client.reader, ms)
    requires forall i :: 0 <= i < |rs| ==> Responses.ResponseFits(rs[i]) && ms[i] == Responses.EncodeResponse(rs[i])
    ensures var t := Step(s, client, Arrived(c, Frames(ms)));
      t.fired[id] == s.fired[id] +
                     if WaitsOn(s, id, c) && (exists i :: 0 <= i < |rs| && rs[i].clientData == id) then 1 else 0
  {
    hide Inv, ClientData, Step, Frames, Responses.ResponseFits, Responses.EncodeResponse;
    ArrivalAnswers(s, client, c, Frames(ms), id);
    AllArrive(client.reader, s.contexts[c], ms);
    forall i | 0 <= i < |rs| ensures |ms[i]| >= SHORTEST && ClientData(ms[i]) == rs[i].clientData {
      CarriesNumber(rs[i]);
    }
    if i :| 0 <= i < |rs| && rs[i].clientData == id { assert ClientData(ms[i]) == id; }
  }

  lemma CarriesNumber(r: Responses.Response)
    requires Responses.ResponseFits(r)
    ensures var m := Responses.EncodeResponse(r); |m| >= SHORTEST && ClientData(m) == r.clientData
  {
    hide Responses.ResponseFits, Responses.EncodeResponse;
    Responses.ClientDataInPlace(r);
  }

  lemma {:induction false} AllArrive(r: Reader, c: Context, ms: seq<seq<Byte>>)
    requires c == Context(c.nextLength, true, []) && c.nextLength >= 4 && AllSendable(ms) && AllAccepted(r, ms)
    ensures Arrive(r, c, Frames(ms)).messages == ms
  {
    hide Loop, Complete, Readable;
    var all := Frames(ms);
    assert [] + all == all && all[..|all|] == all;
    AllComplete(ms);
    ReadableIsAll(r, ms);
    LoopReadsFrames(r, c.nextLength, ms, |all|);
    if ms != [] { SomeFrames(ms); }
  }

  lemma SomeFrames(ms: seq<seq<Byte>>)
    requires ms != []
    ensures |Frames(ms)| >= 4
  {
  }

  lemma ReceiveAnswers(s: State, r: Reader, c: Cxn, bytes: seq<Byte>, id: RequestId)
    requires Inv(s) && Live(s, c)
    ensures c in s.contexts && Long(Arrive(r, s.contexts[c], bytes).messages)
    ensures var t, messages := Receive(s, r, c, bytes).0, Arrive(r, s.contexts[c], bytes).messages;
      && t.fired[id] == s.fired[id] + (if WaitsOn(s, id, c) && Named(messages, id) then 1 else 0)
      && (forall d :: WaitsOn(t, id, d) <==> WaitsOn(s, id, d) && !(d == c && Named(messages, id)))
  {
    assert c in s.contexts.Keys;
    ArrivedAreLong(r, s.contexts[c], bytes);
    var reading := Arrive(r, s.contexts[c], bytes);
    var u := s.(contexts := s.contexts[c := reading.context]);
    OtherFieldsKeep(s, u);
    hide Inv, Arrive;
    RespondAllAnswers(u, c, reading.messages, id);
  }

  /** A loss, unless what was read before it is unreadable, answers every request that waits on
      the connection once and no other, and removes the connection everywhere. */
  lemma LossEnds(s: State, client: ClientState.Client, c: Cxn, id: RequestId)
    requires Inv(s) && Live(s, c)
    ensures c in s.contexts
    ensures !Arrive(client.reader, s.contexts[c], []).broken ==>
      var t := Step(s, client, Lost(c));
      && t.fired[id] == s.fired[id] + (if WaitsOn(s, id, c) then 1 else 0) && !WaitsOn(t, id, c)
      && c !in t.bevs && c !in t.contexts && c !in t.callbacks && c !in t.backpressured
      && (forall d :: d != c ==> (d in t.bevs <==> d in s.bevs) && (d in t.callbacks <==> d in s.callbacks))
  {
    hide Inv, Receive, Arrive, Drop;
    ReceiveAnswers(s, client.reader, c, [], id);
    ReceiveKeeps(s, client.reader, c, []);
    if !Arrive(client.reader, s.contexts[c], []).broken {
      var r := Receive(s, client.reader, c, []).0;
      assert Step(s, client, Lost(c)) == Drop(r, c) by { LostDrops(s, client, c); }
      DropEnds(r, c, id);
      SameVector(s, r);
    }
  }

  lemma LostDrops(s: State, client: ClientState.Client, c: Cxn)
    requires Inv(s) && Live(s, c) && c in s.contexts && !Arrive(client.reader, s.contexts[c], []).broken
    ensures Step(s, client, Lost(c)) == Drop(Receive(s, client.reader, c, []).0, c)
  {
    hide Inv, Drop, Arrive, RespondAll;
  }

  lemma DropEnds(s: State, c: Cxn, id: RequestId)
    requires Inv(s) && Live(s, c)
    ensures var t := Drop(s, c);
      && t.fired[id] == s.fired[id] + (if WaitsOn(s, id, c) then 1 else 0) && !WaitsOn(t, id, c)
      && c !in t.bevs && c !in t.contexts && c !in t.callbacks && c !in t.backpressured
      && (forall d :: d != c ==> (d in t.bevs <==> d in s.bevs) && (d in t.callbacks <==> d in s.callbacks))
  {
    hide Inv, Drop;
    DropTakes(s, c);
    LossAnswersAll(s, c, id);
    DropKeeps(s, c);
    OnlyThatOne(s, Drop(s, c), c, id);
  }

  lemma DropTakes(s: State, c: Cxn)
    requires c in s.callbacks
    ensures Drop(s, c).callbacks == s.callbacks - {c}
  {
  }

  lemma OnlyThatOne(s: State, t: State, c: Cxn, id: RequestId)
    requires Inv(s) && Inv(t) && t.callbacks == s.callbacks - {c}
    ensures c !in t.bevs && c !in t.contexts && c !in t.callbacks && c !in t.backpressured && !WaitsOn(t, id, c)
    ensures forall d :: d != c ==> (d in t.bevs <==> d in s.bevs) && (d in t.callbacks <==> d in s.callbacks)
  {
    assert c !in t.callbacks.Keys;
    assert WaitsOn(t, id, c) ==> Live(t, c);
  }

  lemma SameVector(s: State, t: State)
    requires Inv(s) && Inv(t) && t.callbacks.Keys == s.callbacks.Keys
    ensures forall d :: (d in t.bevs <==> d in s.bevs) && (d in t.callbacks <==> d in s.callbacks)
  {
    assert forall d :: d in s.callbacks <==> d in s.callbacks.Keys;
    assert forall d :: d in t.callbacks <==> d in t.callbacks.Keys;
  }
}
