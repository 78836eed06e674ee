/**
 The request port of a collector thread (zDriverPort.cpp).  Every operation holds the lock from start
 to end, so a run is a sequence of whole operations; the collector alternates `receive` and `ack`.
 */
module DriverPort {
  import opened Options

  datatype Request = Request(cause: nat, youngWorkers: nat, oldWorkers: nat) {
    /** `operator==` compares the causes only. */
    predicate Matches(other: Request) {
      cause == other.cause
    }
  }

  /** A waiting request; `id` stands for the address of the entry. */
  datatype Entry = Entry(id: nat, message: Request, seqnum: nat)

  /** `results` holds what each satisfied request was told. */
  datatype Port = Port(hasMessage: bool, message: Request, seqnum: nat, queue: seq<Entry>, results: map<nat, Request>)

  predicate Served(p: Port, e: Entry) {
    e.message.Matches(p.message) && e.seqnum < p.seqnum
  }

  function Unserved(p: Port, q: seq<Entry>): seq<Entry> {
    if q == [] then [] else if Served(p, q[0]) then Unserved(p, q[1..]) else [q[0]] + Unserved(p, q[1..])
  }

  function Satisfied(p: Port, q: seq<Entry>): map<nat, Request> {
    if q == [] then map[] else if Served(p, q[0]) then map[q[0].id := p.message] + Satisfied(p, q[1..])
      else Satisfied(p, q[1..])
  }

  function AfterSendSync(p: Port, id: nat, message: Request): Port {
    p.(queue := p.queue + [Entry(id, message, p.seqnum)])
  }

  function AfterSendAsync(p: Port, message: Request): Port {
    if p.hasMessage then p else p.(hasMessage := true, message := message)
  }

  /** `receive` waits until this holds. */
  predicate CanReceive(p: Port) {
    p.hasMessage || p.queue != []
  }

  function AfterReceive(p: Port): Port
    requires CanReceive(p)
  {
    var q := p.(seqnum := p.seqnum + 1);
    if p.hasMessage then q else q.(message := p.queue[0].message, hasMessage := true)
  }

  function AfterAck(p: Port): Port {
    if !p.hasMessage then p else
      var queue := Unserved(p, p.queue);
      var q := p.(queue := queue, results := p.results + Satisfied(p, p.queue));
      if queue == [] then q.(hasMessage := false) else q.(message := queue[0].message)
  }

  // The operations

  /** The loop in `ack` has looked at the entries `kept`, and at those it has removed; `rest` is to come. */
  ghost predicate Halfway(p: Port, queue: seq<Entry>, results: map<nat, Request>, kept: seq<Entry>, rest: seq<Entry>) {
    && queue == kept + rest
    && kept + Unserved(p, rest) == Unserved(p, p.queue)
    && results + Satisfied(p, rest) == p.results + Satisfied(p, p.queue)
  }

  /** One entry of the loop. */
  lemma Onwards(p: Port, queue: seq<Entry>, results: map<nat, Request>, kept: seq<Entry>, rest: seq<Entry>)
    requires Halfway(p, queue, results, kept, rest) && rest != []
    ensures |kept| < |queue| && queue[|kept|] == rest[0]
    ensures if Served(p, rest[0])
      then Halfway(p, queue[..|kept|] + queue[|kept| + 1..], results[rest[0].id := p.message], kept, rest[1..])
      else Halfway(p, queue, results, kept + [rest[0]], rest[1..])
  {
    if Served(p, rest[0]) {
      Skip(p, queue, results, kept, rest);
    } else {
      Keep(p, queue, results, kept, rest);
    }
  }

  lemma Skip(p: Port, queue: seq<Entry>, results: map<nat, Request>, kept: seq<Entry>, rest: seq<Entry>)
    requires Halfway(p, queue, results, kept, rest) && rest != [] && Served(p, rest[0])
    ensures Halfway(p, queue[..|kept|] + queue[|kept| + 1..], results[rest[0].id := p.message], kept, rest[1..])
  {
    assert queue[..|kept|] + queue[|kept| + 1..] == kept + rest[1..];
    assert results + Satisfied(p, rest) == results[rest[0].id := p.message] + Satisfied(p, rest[1..]);
  }

  lemma Keep(p: Port, queue: seq<Entry>, results: map<nat, Request>, kept: seq<Entry>, rest: seq<Entry>)
    requires Halfway(p, queue, results, kept, rest) && rest != [] && !Served(p, rest[0])
    ensures Halfway(p, queue, results, kept + [rest[0]], rest[1..])
  {
    assert queue == kept + [rest[0]] + rest[1..];
    assert kept + Unserved(p, rest) == kept + [rest[0]] + Unserved(p, rest[1..]);
  }

  lemma Through(p: Port, queue: seq<Entry>, results: map<nat, Request>, kept: seq<Entry>, rest: seq<Entry>)
    requires Halfway(p, queue, results, kept, rest) && rest == []
    ensures queue == Unserved(p, p.queue) && results == p.results + Satisfied(p, p.queue)
  {
    assert results + map[] == results;
  }

  class DriverPort {
    var hasMessage: bool
    var message: Request
    var seqnum: nat
    var queue: seq<Entry>
    var results: map<nat, Request>

    function View(): Port
      reads this
    {
      Port(hasMessage, message, seqnum, queue, results)
    }

    constructor ()
      ensures View() == Port(false, Request(0, 0, 0), 0, [], map[])
    {
      hasMessage, message, seqnum, queue, results := false, Request(0, 0, 0), 0, [], map[];
    }

    method SendSync(id: nat, request: Request)
      modifies this
      ensures View() == AfterSendSync(old(View()), id, request)
      ensures queue == old(queue) + [Entry(id, request, seqnum)] && hasMessage == old(hasMessage)
      ensures seqnum == old(seqnum) && message == old(message) && results == old(results)
    {
      var entry := Entry(id, request, seqnum);
      queue := queue + [entry];
    }

    method SendAsync(request: Request)
      modifies this
      ensures View() == AfterSendAsync(old(View()), request)
      ensures old(hasMessage) ==> View() == old(View())
      ensures !old(hasMessage) ==> hasMessage && message == request
      ensures seqnum == old(seqnum) && queue == old(queue) && results == old(results)
    {
      if !hasMessage {
        message := request;
        hasMessage := true;
      }
    }

    method Receive() returns (request: Request)
      requires CanReceive(View())
      modifies this
      ensures View() == AfterReceive(old(View())) && request == message
      ensures hasMessage && request == if old(hasMessage) then old(message) else old(queue)[0].message
      ensures seqnum == old(seqnum) + 1 && queue == old(queue) && results == old(results)
    {
      seqnum := seqnum + 1;
      if !hasMessage {
        message := queue[0].message;
        hasMessage := true;
      }
      return message;
    }

    method Ack()
      modifies this
      ensures View() == AfterAck(old(View()))
    {
      if !hasMessage {
        return;
      }
      ghost var p := View();
      var i := 0;
      ghost var kept, rest := [], queue;
      while i < |queue|
        invariant Halfway(p, queue, results, kept, rest) && i == |kept| && |queue| == i + |rest|
        invariant hasMessage && message == p.message && seqnum == p.seqnum
        decreases |rest|
      {
        var entry := queue[i];
        Onwards(p, queue, results, kept, rest);
        if entry.message.Matches(message) && entry.seqnum < seqnum {
          queue := queue[..i] + queue[i + 1..];
          results := results[entry.id := message];
        } else {
          kept := kept + [entry];
          i := i + 1;
        }
        rest := rest[1..];
      }
      Through(p, queue, results, kept, rest);
      if queue == [] {
        hasMessage := false;
      } else {
        message := queue[0].message;
      }
    }
  }

  // Runs

  /**
     The port and its history: the request being collected, every request received so far, every entry
     ever queued, and which collection satisfied each.
   */
  datatype System = System(port: Port, ghost collecting: Option<Request>, ghost log: seq<Request>,
    ghost sent: map<nat, Entry>, ghost servedBy: map<nat, nat>)

  datatype Action = Send(id: nat, sync: Request) | Post(async: Request) | Take | Done

  predicate HasEntry(q: seq<Entry>, id: nat) {
    exists i :: 0 <= i < |q| && q[i].id == id
  }

  /** One whole operation.  The collector acknowledges what it received before it receives again. */
  ghost predicate Step(s: System, s': System, a: Action) {
    match a
    case Send(id, m) =>
      && id !in s.sent && s'.port == AfterSendSync(s.port, id, m)
      && s'.sent == s.sent[id := Entry(id, m, s.port.seqnum)] && s'.collecting == s.collecting && s'.log == s.log &&
        s'.servedBy == s.servedBy
    case Post(m) => s' == s.(port := AfterSendAsync(s.port, m))
    case Take =>
      && s.collecting.None? && CanReceive(s.port)
      && var p := AfterReceive(s.port);
      s' == s.(port := p, collecting := Some(p.message), log := s.log + [p.message])
    case Done =>
      && s.collecting.Some? && s'.port == AfterAck(s.port) && s'.collecting == None && s'.log == s.log &&
        s'.sent == s.sent
      && s'.servedBy == s.servedBy + (map id | id in Satisfied(s.port, s.port.queue) :: |s.log| - 1)
  }

  ghost predicate Init(s: System) {
    s == System(Port(false, Request(0, 0, 0), 0, [], map[]), None, [], map[], map[])
  }

  /** A queued entry is one that was sent, and is not satisfied yet. */
  ghost predicate EntryOk(s: System, e: Entry) {
    e.id in s.sent && s.sent[e.id] == e && e.seqnum <= s.port.seqnum && e.id !in s.port.results
  }

  /** A satisfied request was told of a collection for the same cause that was received after it was queued. */
  ghost predicate ResultOk(s: System, id: nat) {
    && id in s.port.results && id in s.sent && id in s.servedBy
    && s.sent[id].seqnum <= s.servedBy[id] < |s.log|
    && s.log[s.servedBy[id]] == s.port.results[id]
    && s.port.results[id].cause == s.sent[id].message.cause
  }

  ghost predicate DistinctIds(q: seq<Entry>) {
    forall i, j :: 0 <= i < j < |q| ==> q[i].id != q[j].id
  }

  ghost predicate Inv(s: System) {
    && |s.log| == s.port.seqnum
    && (s.collecting.Some? ==>
        && s.log != [] && s.log[|s.log| - 1] == s.collecting.value
        && s.port.hasMessage && s.port.message == s.collecting.value)
    && DistinctIds(s.port.queue)
    && (forall e {:trigger EntryOk(s, e)} :: e in s.port.queue ==> EntryOk(s, e))
    && (forall id :: id in s.sent ==> s.sent[id].id == id && (id in s.port.results || s.sent[id] in s.port.queue))
    && (forall id {:trigger ResultOk(s, id)} :: id in s.port.results ==> ResultOk(s, id))
  }

  lemma {:induction false} UnservedMembers(p: Port, q: seq<Entry>, e: Entry)
    ensures e in Unserved(p, q) <==> e in q && !Served(p, e)
  {
    if q != [] {
      UnservedMembers(p, q[1..], e);
      assert q == [q[0]] + q[1..];
    }
  }

  lemma {:induction false} UnservedDistinct(p: Port, q: seq<Entry>)
    requires DistinctIds(q)
    ensures DistinctIds(Unserved(p, q))
  {
    if q != [] {
      var r := Unserved(p, q[1..]);
      UnservedDistinct(p, q[1..]);
      forall e | e in r
        ensures e.id != q[0].id
      {
        UnservedMembers(p, q[1..], e);
        var i :| 0 <= i < |q[1..]| && q[1..][i] == e;
        assert q[i + 1] == e;
      }
    }
  }

  lemma {:induction false} SatisfiedIs(p: Port, q: seq<Entry>, id: nat)
    ensures id in Satisfied(p, q) ==>
      Satisfied(p, q)[id] == p.message && exists e :: e in q && Served(p, e) && e.id == id
    ensures forall e :: e in q && Served(p, e) ==> e.id in Satisfied(p, q)
  {
    if q != [] {
      SatisfiedIs(p, q[1..], id);
      assert q == [q[0]] + q[1..];
      forall e | e in q && Served(p, e)
        ensures e.id in Satisfied(p, q)
      {
        if e != q[0] {
          assert e in q[1..];
        }
      }
      if id in Satisfied(p, q[1..]) {
        var e :| e in q[1..] && Served(p, e) && e.id == id;
        assert e in q;
      }
    }
  }

  lemma SameEntry(s: System, d: Entry, e: Entry)
    requires Inv(s) && d in s.port.queue && e in s.port.queue && d.id == e.id
    ensures d == e
  {
    assert EntryOk(s, d) && EntryOk(s, e);
  }

  /** An acknowledgement: what happens to each entry that stays, and to each that goes. */
  lemma DoneEntry(s: System, s': System, e: Entry)
    requires Inv(s) && Step(s, s', Done) && e in s.port.queue
    ensures if Served(s.port, e) then e !in s'.port.queue && ResultOk(s', e.id)
      else e in s'.port.queue && EntryOk(s', e)
  {
    var p := s.port;
    assert EntryOk(s, e);
    UnservedMembers(p, p.queue, e);
    SatisfiedIs(p, p.queue, e.id);
    if e.id in Satisfied(p, p.queue) {
      var d :| d in p.queue && Served(p, d) && d.id == e.id;
      SameEntry(s, d, e);
    }
  }

  lemma DoneResult(s: System, s': System, id: nat)
    requires Inv(s) && Step(s, s', Done) && id in s'.port.results
    ensures ResultOk(s', id)
  {
    var p := s.port;
    SatisfiedIs(p, p.queue, id);
    if id in Satisfied(p, p.queue) {
      var e :| e in p.queue && Served(p, e) && e.id == id;
      DoneEntry(s, s', e);
    } else {
      assert ResultOk(s, id);
    }
  }

  lemma DoneInv(s: System, s': System)
    requires Inv(s) && Step(s, s', Done)
    ensures Inv(s')
  {
    UnservedDistinct(s.port, s.port.queue);
    forall e | e in s'.port.queue
      ensures EntryOk(s', e)
    {
      UnservedMembers(s.port, s.port.queue, e);
      DoneEntry(s, s', e);
    }
    forall id | id in s'.port.results
      ensures ResultOk(s', id)
    {
      DoneResult(s, s', id);
    }
    forall id | id in s'.sent
      ensures id in s'.port.results || s'.sent[id] in s'.port.queue
    {
      if s.sent[id] in s.port.queue {
        assert EntryOk(s, s.sent[id]);
        DoneEntry(s, s', s.sent[id]);
        assert Served(s.port, s.sent[id]) ==> ResultOk(s', s.sent[id].id);
      }
    }
  }

  lemma SendInv(s: System, s': System, id: nat, m: Request)
    requires Inv(s) && Step(s, s', Send(id, m))
    ensures Inv(s')
  {
    assert id in s.port.results ==> ResultOk(s, id);
    forall e | e in s'.port.queue
      ensures EntryOk(s', e) && (e in s.port.queue ==> e.id != id)
    {
      assert e in s.port.queue ==> EntryOk(s, e);
    }
    forall i | i in s'.port.results
      ensures ResultOk(s', i)
    {
      assert ResultOk(s, i);
    }
  }

  /** Every operation keeps the invariant. */
  lemma StepInv(s: System, s': System, a: Action)
    requires Inv(s) && Step(s, s', a)
    ensures Inv(s')
  {
    match a
    case Send(id, m) => SendInv(s, s', id, m);
    case Done => DoneInv(s, s');
    case _ =>
      forall e | e in s'.port.queue
        ensures EntryOk(s', e)
      {
        assert EntryOk(s, e);
      }
      forall id | id in s'.port.results
        ensures ResultOk(s', id)
      {
        assert ResultOk(s, id);
      }
  }

  /** Between `receive` and `ack` the message stays what `receive` returned. */
  lemma MessageStays(s: System, s': System, a: Action)
    requires Inv(s) && Step(s, s', a) && s.collecting.Some? && !a.Done?
    ensures s'.collecting == s.collecting && s'.port.hasMessage
    ensures s'.port.message == s.port.message == s.collecting.value
  {
  }

  // How long a request waits

  /** The place of an entry in the queue. */
  function Place(q: seq<Entry>, id: nat): nat {
    if q == [] || q[0].id == id then 0 else 1 + Place(q[1..], id)
  }

  predicate Waiting(s: System, id: nat) {
    HasEntry(s.port.queue, id)
  }

  /** The next acknowledgement will satisfy the first entry of the queue. */
  ghost predicate FirstIsNext(s: System) {
    && s.port.queue != [] && s.port.hasMessage && s.port.message.Matches(s.port.queue[0].message)
    && (s.collecting.Some? ==> s.port.queue[0].seqnum < s.port.seqnum)
  }

  /** At most how many acknowledgements the request still waits for. */
  ghost function Rank(s: System, id: nat): nat {
    if !Waiting(s, id) then 0 else Place(s.port.queue, id) + if FirstIsNext(s) then 1 else 2
  }

  lemma HasTail(q: seq<Entry>, id: nat)
    requires q != []
    ensures HasEntry(q, id) <==> q[0].id == id || HasEntry(q[1..], id)
  {
    if HasEntry(q, id) {
      var i :| 0 <= i < |q| && q[i].id == id;
      assert i > 0 ==> q[1..][i - 1].id == id;
    }
    if HasEntry(q[1..], id) {
      var i :| 0 <= i < |q[1..]| && q[1..][i].id == id;
      assert q[i + 1].id == id;
    }
  }

  /** Serving a queue moves no entry back, and moves every other entry up if it serves the first. */
  lemma {:induction false} PlaceUnserved(p: Port, q: seq<Entry>, id: nat)
    requires HasEntry(Unserved(p, q), id) && DistinctIds(q)
    ensures HasEntry(q, id) && Place(Unserved(p, q), id) <= Place(q, id)
    ensures q != [] && Served(p, q[0]) ==> q[0].id == id || Place(Unserved(p, q), id) < Place(q, id)
  {
    if q != [] {
      HasTail(q, id);
      var r := Unserved(p, q[1..]);
      if Served(p, q[0]) {
        PlaceUnserved(p, q[1..], id);
        var i :| 0 <= i < |q[1..]| && q[1..][i].id == id;
        assert q[i + 1].id == id;
      } else {
        HasTail(Unserved(p, q), id);
        assert Unserved(p, q)[1..] == r;
        if q[0].id != id {
          PlaceUnserved(p, q[1..], id);
        }
      }
    }
  }

  lemma {:induction false} PlaceAppend(q: seq<Entry>, e: Entry, id: nat)
    requires HasEntry(q, id)
    ensures HasEntry(q + [e], id) && Place(q + [e], id) == Place(q, id)
  {
    HasTail(q, id);
    assert (q + [e])[1..] == q[1..] + [e];
    if q[0].id != id {
      PlaceAppend(q[1..], e, id);
    }
    HasTail(q + [e], id);
  }

  /** An acknowledgement brings every request that still waits closer to being served. */
  lemma DoneRank(s: System, s': System, id: nat)
    requires Inv(s) && Step(s, s', Done) && Waiting(s', id)
    ensures Waiting(s, id) && Rank(s', id) < Rank(s, id)
  {
    var p := s.port;
    PlaceUnserved(p, p.queue, id);
    if FirstIsNext(s) && p.queue[0].id == id {
      FirstGone(s, s', id);
    }
  }

  lemma FirstGone(s: System, s': System, id: nat)
    requires Inv(s) && Step(s, s', Done) && FirstIsNext(s) && s.port.queue[0].id == id
    ensures !Waiting(s', id)
  {
    var q := s.port.queue;
    assert s'.port.queue == Unserved(s.port, q);
    forall i | 0 <= i < |s'.port.queue|
      ensures s'.port.queue[i].id != id
    {
      var e := s'.port.queue[i];
      UnservedMembers(s.port, q, e);
      assert EntryOk(s, e) && EntryOk(s, q[0]);
    }
  }

  /** The other operations do not set it back, and a request that was waiting still is. */
  lemma OtherRank(s: System, s': System, a: Action, id: nat)
    requires Inv(s) && Step(s, s', a) && !a.Done? && Waiting(s, id)
    ensures Waiting(s', id) && Rank(s', id) <= Rank(s, id)
  {
    match a
    case Send(i, m) => PlaceAppend(s.port.queue, Entry(i, m, s.port.seqnum), id);
    case Take => assert EntryOk(s, s.port.queue[0]);
    case _ =>
  }

  ghost predicate StepAt(run: seq<System>, acts: seq<Action>, i: nat) {
    i + 1 < |run| && i < |acts| && Step(run[i], run[i + 1], acts[i])
  }

  ghost predicate Run(run: seq<System>, acts: seq<Action>) {
    |run| > 0 && Init(run[0]) && forall i: nat {:trigger StepAt(run, acts, i)} :: i + 1 < |run| ==> StepAt(run, acts, i)
  }

  /** How many acknowledgements there are among steps `i` up to `j`. */
  function Acks(acts: seq<Action>, i: nat, j: nat): nat
    requires i <= j <= |acts|
    decreases j
  {
    if i == j then 0 else Acks(acts, i, j - 1) + if acts[j - 1].Done? then 1 else 0
  }

  lemma {:induction false} RunInv(run: seq<System>, acts: seq<Action>, i: nat)
    requires Run(run, acts) && i < |run|
    ensures Inv(run[i])
  {
    if i > 0 {
      RunInv(run, acts, i - 1);
      assert StepAt(run, acts, i - 1);
      StepInv(run[i - 1], run[i], acts[i - 1]);
    }
  }

  lemma {:induction false} RunRank(run: seq<System>, acts: seq<Action>, i: nat, j: nat, id: nat)
    requires Run(run, acts) && i <= j < |run| && j <= |acts| && Waiting(run[i], id)
    ensures Waiting(run[j], id) ==> Rank(run[j], id) + Acks(acts, i, j) <= Rank(run[i], id)
    ensures !Waiting(run[j], id) ==> id in run[j].port.results
    decreases j
  {
    if i < j {
      RunRank(run, acts, i, j - 1, id);
      RunInv(run, acts, j - 1);
      assert StepAt(run, acts, j - 1);
      RankStep(run[j - 1], run[j], acts[j - 1], id);
    }
  }

  lemma RankStep(s: System, s': System, a: Action, id: nat)
    requires Inv(s) && Step(s, s', a) && (Waiting(s, id) || id in s.port.results)
    ensures Waiting(s', id) && Waiting(s, id) ==> Rank(s', id) + (if a.Done? then 1 else 0) <= Rank(s, id)
    ensures Waiting(s', id) && !Waiting(s, id) ==> false
    ensures !Waiting(s', id) ==> id in s'.port.results
  {
    StepInv(s, s', a);
    if Waiting(s', id) {
      var i :| 0 <= i < |s'.port.queue| && s'.port.queue[i].id == id;
      assert EntryOk(s', s'.port.queue[i]);
    }
    if Waiting(s, id) {
      var i :| 0 <= i < |s.port.queue| && s.port.queue[i].id == id;
      assert EntryOk(s, s.port.queue[i]);
      if a.Done? {
        if Waiting(s', id) {
          DoneRank(s, s', id);
        }
      } else {
        OtherRank(s, s', a, id);
      }
    }
  }

  /**
     A request at place `p` of the queue is satisfied after at most `p + 2` acknowledgements, by a
     collection for its cause that was received after it was queued.
   */
  lemma SatisfiedInTime(run: seq<System>, acts: seq<Action>, i: nat, j: nat, id: nat)
    requires Run(run, acts) && i <= j < |run| && j <= |acts| && Waiting(run[i], id)
    requires Acks(acts, i, j) >= Place(run[i].port.queue, id) + 2
    ensures id in run[j].port.results && ResultOk(run[j], id)
  {
    RunRank(run, acts, i, j, id);
    RunInv(run, acts, j);
  }

  // What is collected next

  /** Whatever is posted or queued in between, a posted message is the next to be received. */
  lemma {:induction false} PostedStays(run: seq<System>, acts: seq<Action>, i: nat, j: nat)
    requires Run(run, acts) && i <= j < |run| && j <= |acts|
    requires run[i].port.hasMessage && run[i].collecting.None?
    requires forall k :: i <= k < j ==> !acts[k].Take?
    ensures run[j].port.hasMessage && run[j].port.message == run[i].port.message
    ensures run[j].collecting.None? && run[j].log == run[i].log
    decreases j
  {
    if i < j {
      PostedStays(run, acts, i, j - 1);
      assert StepAt(run, acts, j - 1);
    }
  }

  /**
     In any run a request that is posted to a port without a message is the one that the next `receive` returns;
     one that is posted to a port with a message changes nothing.
   */
  lemma PostedIsTaken(run: seq<System>, acts: seq<Action>, i: nat, j: nat)
    requires Run(run, acts) && i < j && j + 1 < |run| && i < |acts| && acts[i].Post?
    requires forall k :: i < k < j ==> k < |acts| && !acts[k].Take?
    requires j < |acts| && acts[j].Take?
    ensures run[i].port.hasMessage ==> run[i + 1] == run[i]
    ensures !run[i].port.hasMessage ==>
      run[j + 1].log == run[i].log + [acts[i].async] && run[j + 1].collecting == Some(acts[i].async)
  {
    RunInv(run, acts, i);
    assert StepAt(run, acts, i);
    if !run[i].port.hasMessage {
      PostedStays(run, acts, i + 1, j);
      assert StepAt(run, acts, j);
    }
  }

  /** An acknowledgement posts the oldest request that still waits, and leaves no message if none does. */
  lemma DonePosts(s: System, s': System)
    requires Inv(s) && Step(s, s', Done)
    ensures s'.port.hasMessage <==> exists id :: Waiting(s', id)
    ensures s'.port.hasMessage ==> s'.port.queue != [] && s'.port.message == s'.port.queue[0].message
  {
    if s'.port.queue != [] {
      assert HasEntry(s'.port.queue, s'.port.queue[0].id);
      assert Waiting(s', s'.port.queue[0].id);
    }
  }

  /** The collector never waits while a request is posted or queued, and can always acknowledge what it collects. */
  lemma NeverStuck(s: System) returns (a: Action, s': System)
    requires Inv(s) && (s.port.hasMessage || exists id :: Waiting(s, id))
    ensures (a.Take? || a.Done?) && Step(s, s', a)
  {
    if s.collecting.None? {
      var p := AfterReceive(s.port);
      a, s' := Take, s.(port := p, collecting := Some(p.message), log := s.log + [p.message]);
    } else {
      a := Done;
      s' := s.(port := AfterAck(s.port), collecting := None,
        servedBy := s.servedBy + (map id | id in Satisfied(s.port, s.port.queue) :: |s.log| - 1));
    }
  }
}
