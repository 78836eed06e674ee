/**
 The live map of a page (zLiveMap.cpp, zLiveMap.inline.hpp, zBitMap.inline.hpp) as a system of atomic
 steps.  Marking threads clear stale information on the way: the first to arrive in a cycle resets the
 page, and the first in each segment clears the segment.  Objects are numbered by their bit pairs.
 */
module LiveMap {
  import opened Powers
  import opened Options

  /** The sequence number of a page whose information is being reset. */
  const INITIALIZING: nat := 0xFFFF_FFFF

  /** The first bit of an object says that it is marked at all, the second that it is marked strongly. */
  datatype Pair = Pair(marked: bool, strong: bool)

  /** How many objects there are, and how far to shift an object's number to get its segment. */
  datatype Setup = Setup(objects: nat, shift: nat) {
    function Segment(o: nat): nat {
      Shr(o, shift)
    }

    function Start(seg: nat): nat {
      Shl(seg, shift)
    }

    function End(seg: nat): nat {
      Start(seg) + Pow2(shift)
    }
  }

  datatype Thread =
    | Idle
    | CheckPage(o: nat, finalizable: bool)
    | ResetLoad(o: nat, finalizable: bool)
    | ResetSwap(o: nat, finalizable: bool, seen: nat)
    | ZeroCounts(o: nat, finalizable: bool)
    | ZeroLive(o: nat, finalizable: bool)
    | ZeroClaims(o: nat, finalizable: bool)
    | Publish(o: nat, finalizable: bool)
    | CheckSegment(o: nat, finalizable: bool)
    | Claim(o: nat, finalizable: bool)
    | AwaitLive(o: nat, finalizable: bool)
    | Clear(o: nat, finalizable: bool, pos: nat)
    | SetLive(o: nat, finalizable: bool)
    | Mark(o: nat, finalizable: bool)
    | Swap(o: nat, finalizable: bool, word: Pair)
    | Report(o: nat, success: bool, incLive: bool)

  /**
   `cycle` is the generation's sequence number.  The ghost parts: `marked`, `strongly` and `counted` are the
   objects marked at all, marked strongly and counted since the cycle began; `resetter`, `clearer` and
   `reporter` say which thread is resetting the page, clearing a segment, or about to count an object.
   */
  datatype State = State(
    cycle: nat, seqnum: nat, liveObjects: nat, live: set<nat>, claimed: set<nat>, bits: seq<Pair>,
    threads: map<nat, Thread>,
    ghost marked: set<nat>, ghost strongly: set<nat>, ghost counted: set<nat>,
    ghost resetter: Option<nat>, ghost clearer: map<nat, nat>, ghost reporter: map<nat, nat>)

  datatype Action =
    | Begin(o: nat, finalizable: bool) | LoadPage | LoadSeqnum | SwapSeqnum | ClearCounts | ClearLive | ClearClaims
      | StoreSeqnum
    | LoadSegment | SetClaim | LoadLive | ClearOne | StoreLive | LoadBits | SetBits | FailBits | Count

  /** What marking does to an object's bits. */
  function Marked(p: Pair, finalizable: bool): Pair {
    if finalizable then p.(marked := true) else Pair(true, true)
  }

  function To(s: State, t: nat, th: Thread): State {
    s.(threads := s.threads[t := th])
  }

  /** The bits are set: the object is marked, and it is to be counted if it was not marked before. */
  function Set(s: State, t: nat, o: nat, finalizable: bool): State
    requires o < |s.bits|
  {
    var was := s.bits[o];
    var inc := !was.marked;
    var success := if finalizable then inc else was != Pair(true, true);
    To(s, t, Report(o, success, inc)).(
      bits := s.bits[o := Marked(was, finalizable)], marked := s.marked + {o},
      strongly := if finalizable then s.strongly else s.strongly + {o},
      reporter := if inc then s.reporter[o := t] else s.reporter)
  }

  /** One atomic step of thread `t`, or `None` if it cannot take that step now. */
  function Next(u: Setup, s: State, t: nat, a: Action): Option<State>
    requires t in s.threads
  {
    var me := s.threads[t];
    match a
    case Begin(o, fin) => if me.Idle? && o < u.objects then Some(To(s, t, CheckPage(o, fin))) else None
    case LoadPage => if !me.CheckPage? then None
      else Some(To(s, t, if s.seqnum == s.cycle then CheckSegment(me.o, me.finalizable)
        else ResetLoad(me.o, me.finalizable)))
    case LoadSeqnum => if !me.ResetLoad? then None
      else if s.seqnum == s.cycle then Some(To(s, t, CheckSegment(me.o, me.finalizable)))
      else if s.seqnum == INITIALIZING then Some(s)
      else Some(To(s, t, ResetSwap(me.o, me.finalizable, s.seqnum)))
    case SwapSeqnum => if !me.ResetSwap? then None
      else if s.seqnum == me.seen then
        Some(To(s, t, ZeroCounts(me.o, me.finalizable)).(seqnum := INITIALIZING, resetter := Some(t)))
      else Some(To(s, t, ResetLoad(me.o, me.finalizable)))
    case ClearCounts => if !me.ZeroCounts? then None
      else Some(To(s, t, ZeroLive(me.o, me.finalizable)).(liveObjects := 0))
    case ClearLive => if !me.ZeroLive? then None else Some(To(s, t, ZeroClaims(me.o, me.finalizable)).(live := {}))
    case ClearClaims => if !me.ZeroClaims? then None else Some(To(s, t, Publish(me.o, me.finalizable)).(claimed := {}))
    case StoreSeqnum => if !me.Publish? then None
      else Some(To(s, t, CheckSegment(me.o, me.finalizable)).(seqnum := s.cycle, resetter := None))
    case LoadSegment => if !me.CheckSegment? then None
      else Some(To(s, t, if u.Segment(me.o) in s.live then Mark(me.o, me.finalizable) else Claim(me.o, me.finalizable)))
    case SetClaim => if !me.Claim? then None
      else if u.Segment(me.o) in s.claimed then Some(To(s, t, AwaitLive(me.o, me.finalizable)))
      else Some(To(s, t, Clear(me.o, me.finalizable, u.Start(u.Segment(me.o)))).(
        claimed := s.claimed + {u.Segment(me.o)}, clearer := s.clearer[u.Segment(me.o) := t]))
    case LoadLive => if !me.AwaitLive? then None
      else if u.Segment(me.o) in s.live then Some(To(s, t, Mark(me.o, me.finalizable))) else Some(s)
    case ClearOne => if !me.Clear? then None
      else if me.pos >= u.End(u.Segment(me.o)) || me.pos >= |s.bits| then Some(To(s, t, SetLive(me.o, me.finalizable)))
      else Some(To(s, t, me.(pos := me.pos + 1)).(bits := s.bits[me.pos := Pair(false, false)]))
    case StoreLive => if !me.SetLive? then None
      else Some(To(s, t, Mark(me.o, me.finalizable)).(
        live := s.live + {u.Segment(me.o)}, clearer := s.clearer - {u.Segment(me.o)}))
    case LoadBits => if !me.Mark? || me.o >= |s.bits| then None
      else if me.finalizable then Some(Set(s, t, me.o, true))
      else if s.bits[me.o] == Pair(true, true) then Some(To(s, t, Report(me.o, false, false)))
      else Some(To(s, t, Swap(me.o, me.finalizable, s.bits[me.o])))
    case SetBits => if !me.Swap? || me.o >= |s.bits| || s.bits[me.o] != me.word then None
      else Some(Set(s, t, me.o, false))
    case FailBits => if !me.Swap? then None else Some(To(s, t, Mark(me.o, me.finalizable)))
    case Count => if !me.Report? then None
      else if me.incLive then
        Some(To(s, t, Idle).(liveObjects := s.liveObjects + 1, counted := s.counted + {me.o},
          reporter := s.reporter - {me.o}))
      else Some(To(s, t, Idle))
  }

  /** A new marking cycle begins when no thread is marking; whatever the map holds is now out of date. */
  function NewCycle(s: State, cycle: nat): State {
    s.(cycle := cycle, marked := {}, strongly := {}, counted := {}, clearer := map[], reporter := map[])
  }

  ghost predicate CanBegin(s: State, cycle: nat) {
    (forall t :: t in s.threads ==> s.threads[t].Idle?) && cycle != s.seqnum && cycle != INITIALIZING
  }

  /** `get`. */
  predicate Get(u: Setup, s: State, o: nat) {
    s.seqnum == s.cycle && u.Segment(o) in s.live && o < |s.bits| && s.bits[o].marked
  }

  /** The same for the second bit, `is_strong_bit_set`; both bits of an object lie in one segment. */
  predicate GetStrong(u: Setup, s: State, o: nat) {
    s.seqnum == s.cycle && u.Segment(o) in s.live && o < |s.bits| && s.bits[o].strong
  }

  // The invariant

  predicate Resetting(th: Thread) {
    th.ZeroCounts? || th.ZeroLive? || th.ZeroClaims? || th.Publish?
  }

  predicate BeforeReset(th: Thread) {
    th.Idle? || th.CheckPage? || th.ResetLoad? || th.ResetSwap? || Resetting(th)
  }

  predicate Clearing(th: Thread) {
    th.Clear? || th.SetLive?
  }

  /** The objects of the segment below `pos` are clear. */
  ghost predicate Cleared(u: Setup, bits: seq<Pair>, seg: nat, pos: nat) {
    forall o: nat :: o < |bits| && u.Segment(o) == seg && o < pos ==> bits[o] == Pair(false, false)
  }

  ghost predicate ThreadOk(u: Setup, s: State, t: nat)
    requires t in s.threads
  {
    var me := s.threads[t];
    && (!me.Idle? ==> me.o < u.objects)
    && (s.seqnum != s.cycle ==> BeforeReset(me))
    && (me.ResetSwap? ==> me.seen != s.cycle && me.seen != INITIALIZING)
    && (Resetting(me) <==> s.resetter == Some(t))
    && (me.ZeroLive? || me.ZeroClaims? || me.Publish? ==> s.liveObjects == 0)
    && (me.ZeroClaims? || me.Publish? ==> s.live == {})
    && (me.Publish? ==> s.claimed == {})
    && (Clearing(me) ==> u.Segment(me.o) in s.clearer && s.clearer[u.Segment(me.o)] == t)
    && (me.AwaitLive? ==> u.Segment(me.o) in s.claimed)
    && (me.Clear? ==> me.pos >= u.Start(u.Segment(me.o)) && Cleared(u, s.bits, u.Segment(me.o), me.pos))
    && (me.SetLive? ==> Cleared(u, s.bits, u.Segment(me.o), |s.bits|))
    && (me.Mark? || me.Swap? || me.Report? ==> u.Segment(me.o) in s.live)
    && (me.Swap? ==> !me.finalizable)
    && (me.Report? && me.incLive ==> me.o in s.reporter && s.reporter[me.o] == t)
  }

  /** The bits of the object `o` say whether it has been marked, and marked strongly, since the cycle began. */
  ghost predicate ObjectOk(u: Setup, s: State, o: nat) {
    && (o in s.marked ==> u.Segment(o) in s.live) && (o in s.strongly ==> o in s.marked)
    && (u.Segment(o) in s.live && o < |s.bits| ==>
        (s.bits[o].marked <==> o in s.marked) && (s.bits[o].strong <==> o in s.strongly))
    && (o in s.marked <==> o in s.counted || o in s.reporter)
    && !(o in s.counted && o in s.reporter)
  }

  ghost predicate PageOk(u: Setup, s: State) {
    && |s.bits| == u.objects && s.cycle != INITIALIZING
    && (s.resetter.Some? <==> s.seqnum == INITIALIZING)
    && (s.seqnum != s.cycle ==>
        s.marked == {} && s.strongly == {} && s.counted == {} && s.reporter == map[] && s.clearer == map[])
    && (s.seqnum == s.cycle ==> CycleOk(u, s))
  }

  ghost predicate CycleOk(u: Setup, s: State) {
    && |s.counted| == s.liveObjects
    && s.live <= s.claimed
    && (forall seg :: seg in s.clearer <==> seg in s.claimed && seg !in s.live)
    && (forall o {:trigger ObjectOk(u, s, o)} :: ObjectOk(u, s, o))
  }

  ghost predicate Inv(u: Setup, s: State) {
    && PageOk(u, s)
    && (forall t {:trigger ThreadOk(u, s, t)} :: t in s.threads ==> ThreadOk(u, s, t))
    && (s.resetter.Some? ==> s.resetter.value in s.threads)
    && (forall o :: o in s.reporter ==> s.reporter[o] in s.threads && IsReporting(s.threads[s.reporter[o]], o))
    && (forall seg :: seg in s.clearer ==>
          s.clearer[seg] in s.threads && IsClearing(u, s.threads[s.clearer[seg]], seg))
  }

  predicate IsClearing(u: Setup, th: Thread, seg: nat) {
    Clearing(th) && u.Segment(th.o) == seg
  }

  predicate IsReporting(th: Thread, o: nat) {
    th.Report? && th.incLive && th.o == o
  }

  lemma SegmentRange(u: Setup, o: nat, seg: nat)
    ensures u.Segment(o) == seg <==> u.Start(seg) <= o < u.End(seg)
  {
    ShrRange(o, u.shift, seg);
  }

  // How one step may change what others rely on

  /** The shared parts only grow, apart from bits of segments that are not live. */
  ghost predicate Grows(u: Setup, s: State, s': State, t: nat) {
    && s'.cycle == s.cycle && s'.threads.Keys == s.threads.Keys
    && (forall v :: v in s.threads && v != t ==> s'.threads[v] == s.threads[v])
    && (s.seqnum == s.cycle ==>
        s'.seqnum == s.cycle && s.live <= s'.live && s.claimed <= s'.claimed && s.marked <= s'.marked &&
        s.strongly <= s'.strongly)
  }

  predicate IsMarking(a: Action) {
    a.LoadBits? || a.SetBits? || a.FailBits? || a.Count?
  }

  lemma StepGrows(u: Setup, s: State, t: nat, a: Action)
    requires Inv(u, s) && t in s.threads && Next(u, s, t, a).Some?
    ensures Grows(u, s, Next(u, s, t, a).value, t)
  {
    if IsMarking(a) {
      MarkGrows(u, s, t, a);
    } else {
      ResetGrows(u, s, t, a);
    }
  }

  lemma MarkGrows(u: Setup, s: State, t: nat, a: Action)
    requires Inv(u, s) && t in s.threads && Next(u, s, t, a).Some? && IsMarking(a)
    ensures Grows(u, s, Next(u, s, t, a).value, t)
  {
    if a.SetBits? {
      SetGrows(u, s, t);
    } else if a.Count? {
      CountGrows(u, s, t);
    } else {
      assert ThreadOk(u, s, t);
    }
  }

  lemma CountGrows(u: Setup, s: State, t: nat)
    requires Inv(u, s) && t in s.threads && Next(u, s, t, Count).Some?
    ensures Grows(u, s, Next(u, s, t, Count).value, t)
  {
    assert ThreadOk(u, s, t);
  }

  lemma SetGrows(u: Setup, s: State, t: nat)
    requires Inv(u, s) && t in s.threads && Next(u, s, t, SetBits).Some?
    ensures Grows(u, s, Next(u, s, t, SetBits).value, t)
  {
    assert ThreadOk(u, s, t);
  }

  lemma ResetGrows(u: Setup, s: State, t: nat, a: Action)
    requires Inv(u, s) && t in s.threads && Next(u, s, t, a).Some? && !IsMarking(a)
    ensures Grows(u, s, Next(u, s, t, a).value, t)
  {
    assert ThreadOk(u, s, t);
  }

  /** The thread that moves. */
  lemma StepOwn(u: Setup, s: State, t: nat, a: Action)
    requires Inv(u, s) && t in s.threads && Next(u, s, t, a).Some?
    ensures ThreadOk(u, Next(u, s, t, a).value, t)
  {
    if a.ClearOne? {
      ClearOwn(u, s, t);
    } else if a.SetClaim? {
      ClaimOwn(u, s, t);
    } else if a.LoadBits? || a.SetBits? {
      MarkOwn(u, s, t, a);
    } else if a.FailBits? || a.Count? {
      EndOwn(u, s, t, a);
    } else if BeforeReset(s.threads[t]) {
      ResetOwn(u, s, t, a);
    } else {
      SegmentOwn(u, s, t, a);
    }
  }

  lemma MarkOwn(u: Setup, s: State, t: nat, a: Action)
    requires Inv(u, s) && t in s.threads && Next(u, s, t, a).Some? && (a.LoadBits? || a.SetBits?)
    ensures ThreadOk(u, Next(u, s, t, a).value, t)
  {
    assert ThreadOk(u, s, t);
  }

  lemma EndOwn(u: Setup, s: State, t: nat, a: Action)
    requires Inv(u, s) && t in s.threads && Next(u, s, t, a).Some? && (a.FailBits? || a.Count?)
    ensures ThreadOk(u, Next(u, s, t, a).value, t)
  {
    assert ThreadOk(u, s, t);
  }

  lemma ResetOwn(u: Setup, s: State, t: nat, a: Action)
    requires Inv(u, s) && t in s.threads && Next(u, s, t, a).Some? && BeforeReset(s.threads[t])
    ensures ThreadOk(u, Next(u, s, t, a).value, t)
  {
    if Resetting(s.threads[t]) {
      ResettingOwn(u, s, t, a);
    } else {
      assert ThreadOk(u, s, t);
    }
  }

  lemma ResettingOwn(u: Setup, s: State, t: nat, a: Action)
    requires Inv(u, s) && t in s.threads && Next(u, s, t, a).Some? && Resetting(s.threads[t])
    ensures ThreadOk(u, Next(u, s, t, a).value, t)
  {
    assert ThreadOk(u, s, t);
  }

  lemma SegmentOwn(u: Setup, s: State, t: nat, a: Action)
    requires Inv(u, s) && t in s.threads && Next(u, s, t, a).Some? && !BeforeReset(s.threads[t])
    requires a.LoadSegment? || a.LoadLive? || a.StoreLive?
    ensures ThreadOk(u, Next(u, s, t, a).value, t)
  {
    assert ThreadOk(u, s, t);
  }

  lemma ClaimOwn(u: Setup, s: State, t: nat)
    requires Inv(u, s) && t in s.threads && Next(u, s, t, SetClaim).Some?
    ensures ThreadOk(u, Next(u, s, t, SetClaim).value, t)
  {
    assert ThreadOk(u, s, t);
    SegmentStart(u, s.bits, u.Segment(s.threads[t].o));
  }

  lemma SegmentStart(u: Setup, bits: seq<Pair>, seg: nat)
    ensures Cleared(u, bits, seg, u.Start(seg))
  {
    forall o: nat | o < |bits| && u.Segment(o) == seg && o < u.Start(seg)
      ensures false
    {
      SegmentRange(u, o, seg);
    }
  }

  lemma ClearOwn(u: Setup, s: State, t: nat)
    requires Inv(u, s) && t in s.threads && s.threads[t].Clear?
    ensures ThreadOk(u, Next(u, s, t, ClearOne).value, t)
  {
    assert ThreadOk(u, s, t);
    var me := s.threads[t];
    if me.pos >= u.End(u.Segment(me.o)) || me.pos >= |s.bits| {
      forall o: nat | o < |s.bits| && u.Segment(o) == u.Segment(me.o)
        ensures s.bits[o] == Pair(false, false)
      {
        SegmentRange(u, o, u.Segment(me.o));
      }
    }
  }

  /** Every other thread. */
  lemma StepOther(u: Setup, s: State, t: nat, a: Action, v: nat)
    requires Inv(u, s) && t in s.threads && Next(u, s, t, a).Some? && v in s.threads && v != t
    ensures ThreadOk(u, Next(u, s, t, a).value, v)
  {
    var other := s.threads[v];
    if BeforeReset(other) {
      EarlyOther(u, s, t, a, v);
    } else {
      LateOther(u, s, t, a, v);
    }
  }

  lemma EarlyOther(u: Setup, s: State, t: nat, a: Action, v: nat)
    requires Inv(u, s) && t in s.threads && Next(u, s, t, a).Some? && v in s.threads && v != t
    requires BeforeReset(s.threads[v])
    ensures ThreadOk(u, Next(u, s, t, a).value, v)
  {
    StepGrows(u, s, t, a);
    ResetterOther(u, s, t, a, v);
    assert ThreadOk(u, s, v);
    if Resetting(s.threads[v]) {
      OneResets(u, s, t, a, v);
    }
  }

  /** While a thread resets the page nobody else touches what it resets. */
  lemma OneResets(u: Setup, s: State, t: nat, a: Action, v: nat)
    requires Inv(u, s) && t in s.threads && Next(u, s, t, a).Some? && v in s.threads && v != t
    requires Resetting(s.threads[v])
    ensures var s' := Next(u, s, t, a).value;
      && s'.seqnum == s.seqnum == INITIALIZING && s'.liveObjects == s.liveObjects && s'.live == s.live
      && s'.claimed == s.claimed
  {
    assert ThreadOk(u, s, t) && ThreadOk(u, s, v);
  }

  lemma LateOther(u: Setup, s: State, t: nat, a: Action, v: nat)
    requires Inv(u, s) && t in s.threads && Next(u, s, t, a).Some? && v in s.threads && v != t
    requires !BeforeReset(s.threads[v])
    ensures ThreadOk(u, Next(u, s, t, a).value, v)
  {
    assert ThreadOk(u, s, t) && ThreadOk(u, s, v);
    StepGrows(u, s, t, a);
    var other := s.threads[v];
    if Clearing(other) {
      ClearingOther(u, s, t, a, v);
    }
    if other.Report? && other.incLive {
      ReportOther(u, s, t, a, v);
    }
    ResetterOther(u, s, t, a, v);
  }

  lemma ResetterOther(u: Setup, s: State, t: nat, a: Action, v: nat)
    requires Inv(u, s) && t in s.threads && Next(u, s, t, a).Some? && v in s.threads && v != t
    ensures Next(u, s, t, a).value.resetter == Some(v) <==> s.resetter == Some(v)
  {
    assert ThreadOk(u, s, t) && ThreadOk(u, s, v);
  }

  lemma ReportOther(u: Setup, s: State, t: nat, a: Action, v: nat)
    requires Inv(u, s) && t in s.threads && Next(u, s, t, a).Some? && v in s.threads && v != t
    requires s.threads[v].Report? && s.threads[v].incLive
    ensures var s' := Next(u, s, t, a).value;
      s.threads[v].o in s'.reporter && s'.reporter[s.threads[v].o] == v
  {
    assert ThreadOk(u, s, t) && ThreadOk(u, s, v);
    assert ObjectOk(u, s, s.threads[v].o);
  }

  lemma ClearingOther(u: Setup, s: State, t: nat, a: Action, v: nat)
    requires Inv(u, s) && t in s.threads && Next(u, s, t, a).Some? && v in s.threads && v != t && Clearing(s.threads[v])
    ensures var s' := Next(u, s, t, a).value;
      var seg := u.Segment(s.threads[v].o);
      && seg in s'.clearer && s'.clearer[seg] == v
      && |s'.bits| == |s.bits|
      && forall o: nat :: o < |s.bits| && u.Segment(o) == seg ==> s'.bits[o] == s.bits[o]
  {
    assert ThreadOk(u, s, t) && ThreadOk(u, s, v);
    if a.ClearOne? && s.threads[t].Clear? {
      var me := s.threads[t];
      if me.pos < u.End(u.Segment(me.o)) {
        SegmentRange(u, me.pos, u.Segment(me.o));
      }
    }
  }

  /** The page. */
  lemma StepObject(u: Setup, s: State, t: nat, a: Action, o: nat)
    requires Inv(u, s) && t in s.threads && Next(u, s, t, a).Some? && s.seqnum == s.cycle
    ensures ObjectOk(u, Next(u, s, t, a).value, o)
  {
    assert ThreadOk(u, s, t) && ObjectOk(u, s, o);
    var me := s.threads[t];
    if a.ClearOne? && me.Clear? && me.pos < u.End(u.Segment(me.o)) {
      SegmentRange(u, me.pos, u.Segment(me.o));
    }
  }

  lemma StepCycle(u: Setup, s: State, t: nat, a: Action)
    requires Inv(u, s) && t in s.threads && Next(u, s, t, a).Some? && s.seqnum == s.cycle
    ensures CycleOk(u, Next(u, s, t, a).value)
  {
    var s' := Next(u, s, t, a).value;
    var me := s.threads[t];
    assert ThreadOk(u, s, t);
    forall o
      ensures ObjectOk(u, s', o)
    {
      StepObject(u, s, t, a, o);
    }
    if me.Report? {
      assert ObjectOk(u, s, me.o);
    }
  }

  lemma StepPage(u: Setup, s: State, t: nat, a: Action)
    requires Inv(u, s) && t in s.threads && Next(u, s, t, a).Some?
    ensures PageOk(u, Next(u, s, t, a).value)
  {
    assert ThreadOk(u, s, t);
    if s.seqnum == s.cycle {
      StepGrows(u, s, t, a);
      StepCycle(u, s, t, a);
    } else {
      StepReset(u, s, t, a);
    }
  }

  /** Steps before the page is reset. */
  lemma StepReset(u: Setup, s: State, t: nat, a: Action)
    requires Inv(u, s) && t in s.threads && Next(u, s, t, a).Some? && s.seqnum != s.cycle
    ensures PageOk(u, Next(u, s, t, a).value)
  {
    assert ThreadOk(u, s, t);
  }

  /** Every step of every thread keeps the invariant. */
  lemma StepInv(u: Setup, s: State, t: nat, a: Action)
    requires Inv(u, s) && t in s.threads && Next(u, s, t, a).Some?
    ensures Inv(u, Next(u, s, t, a).value)
  {
    var s' := Next(u, s, t, a).value;
    StepPage(u, s, t, a);
    StepGrows(u, s, t, a);
    forall v | v in s'.threads
      ensures ThreadOk(u, s', v)
    {
      if v == t {
        StepOwn(u, s, t, a);
      } else {
        StepOther(u, s, t, a, v);
      }
    }
    StepReporters(u, s, t, a);
    StepClearers(u, s, t, a);
  }

  lemma StepClearers(u: Setup, s: State, t: nat, a: Action)
    requires Inv(u, s) && t in s.threads && Next(u, s, t, a).Some?
    ensures var s' := Next(u, s, t, a).value;
      forall seg :: seg in s'.clearer ==>
        s'.clearer[seg] in s'.threads && IsClearing(u, s'.threads[s'.clearer[seg]], seg)
  {
    var s' := Next(u, s, t, a).value;
    forall seg | seg in s'.clearer
      ensures s'.clearer[seg] in s'.threads && IsClearing(u, s'.threads[s'.clearer[seg]], seg)
    {
      if Clearing(s.threads[t]) {
        OwnClearer(u, s, t, a, seg);
      } else {
        OtherClearer(u, s, t, a, seg);
      }
    }
  }

  lemma OwnClearer(u: Setup, s: State, t: nat, a: Action, seg: nat)
    requires Inv(u, s) && t in s.threads && Next(u, s, t, a).Some? && Clearing(s.threads[t])
    requires seg in Next(u, s, t, a).value.clearer
    ensures var s' := Next(u, s, t, a).value;
      s'.clearer[seg] in s'.threads && IsClearing(u, s'.threads[s'.clearer[seg]], seg)
  {
    assert ThreadOk(u, s, t);
  }

  lemma OtherClearer(u: Setup, s: State, t: nat, a: Action, seg: nat)
    requires Inv(u, s) && t in s.threads && Next(u, s, t, a).Some? && !Clearing(s.threads[t])
    requires seg in Next(u, s, t, a).value.clearer
    ensures var s' := Next(u, s, t, a).value;
      s'.clearer[seg] in s'.threads && IsClearing(u, s'.threads[s'.clearer[seg]], seg)
  {
    assert ThreadOk(u, s, t);
  }

  lemma StepReporters(u: Setup, s: State, t: nat, a: Action)
    requires Inv(u, s) && t in s.threads && Next(u, s, t, a).Some?
    ensures var s' := Next(u, s, t, a).value;
      && (s'.resetter.Some? ==> s'.resetter.value in s'.threads)
      && forall o :: o in s'.reporter ==> s'.reporter[o] in s'.threads && IsReporting(s'.threads[s'.reporter[o]], o)
  {
    if IsMarking(a) {
      MarkReporters(u, s, t, a);
    } else {
      assert ThreadOk(u, s, t);
    }
  }

  lemma MarkReporters(u: Setup, s: State, t: nat, a: Action)
    requires Inv(u, s) && t in s.threads && Next(u, s, t, a).Some? && IsMarking(a)
    ensures var s' := Next(u, s, t, a).value;
      && s'.resetter == s.resetter && s'.threads.Keys == s.threads.Keys
      && forall o :: o in s'.reporter ==> s'.reporter[o] in s'.threads && IsReporting(s'.threads[s'.reporter[o]], o)
  {
    if a.Count? {
      CountReporters(u, s, t);
    } else {
      assert ThreadOk(u, s, t);
    }
  }

  lemma CountReporters(u: Setup, s: State, t: nat)
    requires Inv(u, s) && t in s.threads && Next(u, s, t, Count).Some?
    ensures var s' := Next(u, s, t, Count).value;
      && s'.resetter == s.resetter && s'.threads.Keys == s.threads.Keys
      && forall o :: o in s'.reporter ==> s'.reporter[o] in s'.threads && IsReporting(s'.threads[s'.reporter[o]], o)
  {
    assert ThreadOk(u, s, t);
  }

  /** So does the start of a new cycle, whatever the map held before. */
  lemma NewCycleInv(u: Setup, s: State, cycle: nat)
    requires Inv(u, s) && CanBegin(s, cycle)
    ensures Inv(u, NewCycle(s, cycle))
  {
    var s' := NewCycle(s, cycle);
    if s.resetter.Some? {
      assert ThreadOk(u, s, s.resetter.value);
    }
    forall t | t in s'.threads
      ensures ThreadOk(u, s', t)
    {
      assert ThreadOk(u, s, t);
    }
  }

  // Runs

  /** A new page: no thread is marking it, and its bits hold anything. */
  ghost predicate Init(u: Setup, s: State) {
    && |s.bits| == u.objects && s.seqnum == 0 && s.cycle != 0 && s.cycle != INITIALIZING
    && (forall t :: t in s.threads ==> s.threads[t].Idle?)
    && s.marked == {} && s.strongly == {} && s.counted == {}
    && s.resetter == None && s.clearer == map[] && s.reporter == map[]
  }

  ghost predicate Steps(u: Setup, s: State, s': State, t: nat, a: Action) {
    t in s.threads && Next(u, s, t, a) == Some(s')
  }

  ghost predicate Begins(s: State, s': State, cycle: nat) {
    CanBegin(s, cycle) && s' == NewCycle(s, cycle)
  }

  ghost predicate SomeStep(u: Setup, s: State, s': State) {
    (exists t, a :: Steps(u, s, s', t, a)) || (exists c :: Begins(s, s', c))
  }

  lemma SomeStepInv(u: Setup, s: State, s': State)
    requires Inv(u, s) && SomeStep(u, s, s')
    ensures Inv(u, s')
  {
    if t, a :| Steps(u, s, s', t, a) {
      StepInv(u, s, t, a);
    } else {
      var c :| Begins(s, s', c);
      NewCycleInv(u, s, c);
    }
  }

  ghost predicate StepAt(u: Setup, run: seq<State>, i: nat) {
    i + 1 < |run| && SomeStep(u, run[i], run[i + 1])
  }

  ghost predicate Run(u: Setup, run: seq<State>) {
    |run| > 0 && Init(u, run[0]) && forall i: nat {:trigger StepAt(u, run, i)} :: i + 1 < |run| ==> StepAt(u, run, i)
  }

  /**
     Over any run, through any number of marking cycles, `get` tells the objects marked in the current cycle
     from the others, and the strong bit those marked strongly.
   */
  lemma {:induction false} RunGetExact(u: Setup, run: seq<State>, i: nat)
    requires Run(u, run) && i < |run|
    ensures Inv(u, run[i])
    ensures forall o: nat :: o < u.objects ==> (Get(u, run[i], o) <==> o in run[i].marked)
    ensures forall o: nat :: o < u.objects ==> (GetStrong(u, run[i], o) <==> o in run[i].strongly)
  {
    if i == 0 {
      assert forall t :: t in run[0].threads ==> ThreadOk(u, run[0], t);
    } else {
      RunGetExact(u, run, i - 1);
      assert StepAt(u, run, i - 1);
      SomeStepInv(u, run[i - 1], run[i]);
    }
    forall o: nat | o < u.objects
      ensures Get(u, run[i], o) <==> o in run[i].marked
      ensures GetStrong(u, run[i], o) <==> o in run[i].strongly
    {
      GetExact(u, run[i], o);
    }
  }

  // What the callers rely on

  /** The two bits are read as set exactly for the objects marked, and marked strongly, since the cycle began. */
  lemma GetExact(u: Setup, s: State, o: nat)
    requires Inv(u, s) && o < u.objects
    ensures Get(u, s, o) <==> o in s.marked
    ensures GetStrong(u, s, o) <==> o in s.strongly
  {
    assert s.seqnum == s.cycle ==> ObjectOk(u, s, o);
  }

  ghost predicate SameCycle(run: seq<State>, k: nat) {
    k + 1 < |run| && run[k + 1].cycle == run[k].cycle
  }

  /** No cycle begins between states `i` and `j`. */
  ghost predicate OneCycle(run: seq<State>, i: nat, j: nat) {
    forall k: nat {:trigger SameCycle(run, k)} :: i <= k < j ==> SameCycle(run, k)
  }

  /**
     A mark succeeds exactly if it is the first of its kind to have an effect, a finalizable one on an object
     that was not marked and a strong one on an object that was not marked strongly.  Of all successful marks
     of an object in a cycle exactly the first reports that it is to be counted.
   */
  lemma ReportsOnce(u: Setup, s: State, t: nat, a: Action)
    requires Inv(u, s) && t in s.threads && Next(u, s, t, a).Some?
    requires a.SetBits? || a.LoadBits?
    requires Next(u, s, t, a).value.threads[t].Report?
    ensures var me, s' := s.threads[t], Next(u, s, t, a).value;
      && me.o in s'.marked && (!me.finalizable ==> me.o in s'.strongly)
      && (s'.threads[t].success <==> if me.finalizable then me.o !in s.marked else me.o !in s.strongly)
      && (s'.threads[t].incLive <==> me.o !in s.marked)
  {
    assert ThreadOk(u, s, t) && (s.seqnum == s.cycle ==> ObjectOk(u, s, s.threads[t].o));
  }

  /** Thread `t` is told to count the object. */
  predicate Reports(s: State, s': State, t: nat, o: nat) {
    t in s.threads && t in s'.threads && !IsReporting(s.threads[t], o) && IsReporting(s'.threads[t], o)
  }

  ghost predicate SomeReport(s: State, s': State, o: nat) {
    exists t :: Reports(s, s', t, o)
  }

  /** Within a cycle a step reports the object exactly if it is the step that marks it. */
  lemma ReportIsFirst(u: Setup, s: State, s': State, o: nat)
    requires Inv(u, s) && SomeStep(u, s, s') && s'.cycle == s.cycle
    ensures SomeReport(s, s', o) <==> o in s'.marked && o !in s.marked
    ensures o in s.marked ==> o in s'.marked
  {
    if t, a :| Steps(u, s, s', t, a) {
      StepReports(u, s, s', t, a, o);
    }
  }

  lemma StepReports(u: Setup, s: State, s': State, t: nat, a: Action, o: nat)
    requires Inv(u, s) && Steps(u, s, s', t, a)
    ensures SomeReport(s, s', o) <==> o in s'.marked && o !in s.marked
    ensures o in s.marked ==> o in s'.marked
  {
    StepGrows(u, s, t, a);
    if (a.LoadBits? || a.SetBits?) && s'.threads[t].Report? {
      ReportsOnce(u, s, t, a);
      assert Reports(s, s', t, s.threads[t].o) <==> s'.threads[t].incLive;
    } else {
      QuietStep(u, s, s', t, a);
    }
  }

  /** Any other step marks nothing and reports nothing. */
  lemma QuietStep(u: Setup, s: State, s': State, t: nat, a: Action)
    requires Steps(u, s, s', t, a)
    requires a.LoadBits? || a.SetBits? ==> t in s'.threads && !s'.threads[t].Report?
    ensures t in s'.threads && s'.marked == s.marked && !s'.threads[t].Report?
  {
    if !IsMarking(a) {
      QuietReset(u, s, s', t, a);
    }
  }

  lemma QuietReset(u: Setup, s: State, s': State, t: nat, a: Action)
    requires Steps(u, s, s', t, a) && !IsMarking(a)
    ensures t in s'.threads && s'.marked == s.marked && !s'.threads[t].Report?
  {
  }

  /** How often the object is reported from state `i` to state `j`. */
  ghost function TimesReported(run: seq<State>, i: nat, j: nat, o: nat): nat
    requires i <= j < |run|
    decreases j - i
  {
    if i == j then 0 else TimesReported(run, i, j - 1, o) + if SomeReport(run[j - 1], run[j], o) then 1 else 0
  }

  /** Over any part of one cycle of a run an object is reported once if it comes to be marked, and otherwise never. */
  lemma {:induction false} CountedOnce(u: Setup, run: seq<State>, i: nat, j: nat, o: nat)
    requires Run(u, run) && i <= j < |run|
    requires OneCycle(run, i, j)
    ensures TimesReported(run, i, j, o) == if o in run[j].marked && o !in run[i].marked then 1 else 0
    ensures o in run[i].marked ==> o in run[j].marked
    decreases j - i
  {
    if i < j {
      CountedOnce(u, run, i, j - 1, o);
      RunGetExact(u, run, j - 1);
      assert StepAt(u, run, j - 1);
      assert SameCycle(run, j - 1);
      ReportIsFirst(u, run[j - 1], run[j], o);
    }
  }

  /** No mark is wiped by a late clear: all three parts of what is read stay true for the rest of the cycle. */
  lemma RunMarksStay(u: Setup, run: seq<State>, i: nat, j: nat, o: nat)
    requires Run(u, run) && i <= j < |run| && o < u.objects
    requires OneCycle(run, i, j)
    ensures Get(u, run[i], o) ==> Get(u, run[j], o)
    ensures GetStrong(u, run[i], o) ==> GetStrong(u, run[j], o)
  {
    RunGetExact(u, run, i);
    RunGetExact(u, run, j);
    CountedOnce(u, run, i, j, o);
    if o in run[i].strongly {
      StrongStays(u, run, i, j, o);
    }
  }

  lemma StrongStep(u: Setup, s: State, s': State, o: nat)
    requires Inv(u, s) && SomeStep(u, s, s') && s'.cycle == s.cycle && o in s.strongly
    ensures o in s'.strongly
  {
    if t, a :| Steps(u, s, s', t, a) {
      StepGrows(u, s, t, a);
    }
  }

  lemma {:induction false} StrongStays(u: Setup, run: seq<State>, i: nat, j: nat, o: nat)
    requires Run(u, run) && i <= j < |run| && OneCycle(run, i, j) && o in run[i].strongly
    ensures o in run[j].strongly
    decreases j - i
  {
    if i < j {
      StrongStays(u, run, i, j - 1, o);
      RunGetExact(u, run, j - 1);
      assert StepAt(u, run, j - 1) && SameCycle(run, j - 1);
      StrongStep(u, run[j - 1], run[j], o);
    }
  }

  // Whole marks

  /** Thread `t` is marking the object in this way, or has done so. */
  ghost predicate Attends(s: State, t: nat, o: nat, finalizable: bool) {
    t in s.threads && var me := s.threads[t];
      !me.Idle? && me.o == o && if me.Report? then o in s.marked && (!finalizable ==> o in s.strongly)
        else me.finalizable == finalizable
  }

  lemma AttendsOn(u: Setup, s: State, s': State, v: nat, o: nat, finalizable: bool)
    requires Inv(u, s) && SomeStep(u, s, s') && Attends(s, v, o, finalizable)
    ensures v in s'.threads && (s'.threads[v].Idle? || Attends(s', v, o, finalizable)) && s'.cycle == s.cycle
  {
    if t, a :| Steps(u, s, s', t, a) {
      StepGrows(u, s, t, a);
      if t == v {
        AttendsOwn(u, s, s', t, a, o, finalizable);
      } else {
        assert ThreadOk(u, s, v);
      }
    }
  }

  lemma AttendsOwn(u: Setup, s: State, s': State, t: nat, a: Action, o: nat, finalizable: bool)
    requires Inv(u, s) && Steps(u, s, s', t, a) && Attends(s, t, o, finalizable)
    ensures t in s'.threads && (s'.threads[t].Idle? || Attends(s', t, o, finalizable))
  {
    if IsMarking(a) {
      AttendsMark(u, s, s', t, a, o, finalizable);
    }
  }

  lemma AttendsMark(u: Setup, s: State, s': State, t: nat, a: Action, o: nat, finalizable: bool)
    requires Inv(u, s) && Steps(u, s, s', t, a) && Attends(s, t, o, finalizable) && IsMarking(a)
    ensures t in s'.threads && (s'.threads[t].Idle? || Attends(s', t, o, finalizable))
  {
    assert ThreadOk(u, s, t);
    if (a.LoadBits? || a.SetBits?) && s'.threads[t].Report? {
      ReportsOnce(u, s, t, a);
    }
  }

  ghost predicate Marking(run: seq<State>, v: nat, k: nat) {
    k < |run| && v in run[k].threads && !run[k].threads[v].Idle?
  }

  lemma {:induction false} AttendsAll(u: Setup, run: seq<State>, i: nat, j: nat, v: nat, o: nat, finalizable: bool)
    requires Run(u, run) && i < j < |run| && Steps(u, run[i], run[i + 1], v, Begin(o, finalizable))
    requires forall k: nat {:trigger Marking(run, v, k)} :: i < k <= j ==> Marking(run, v, k)
    ensures Attends(run[j], v, o, finalizable)
    decreases j
  {
    if i + 1 < j {
      AttendsAll(u, run, i, j - 1, v, o, finalizable);
      RunGetExact(u, run, j - 1);
      assert StepAt(u, run, j - 1) && Marking(run, v, j);
      AttendsOn(u, run[j - 1], run[j], v, o, finalizable);
    }
  }

  /** When a mark is over its object is marked, and a strong mark has set the strong bit. */
  lemma MarkDone(u: Setup, run: seq<State>, i: nat, j: nat, v: nat, o: nat, finalizable: bool)
    requires Run(u, run) && i < j < |run| && Steps(u, run[i], run[i + 1], v, Begin(o, finalizable))
    requires forall k: nat {:trigger Marking(run, v, k)} :: i < k <= j ==> Marking(run, v, k)
    requires v in run[j].threads && run[j].threads[v].Report?
    ensures run[j].threads[v].o == o && Get(u, run[j], o) && (!finalizable ==> GetStrong(u, run[j], o))
  {
    AttendsAll(u, run, i, j, v, o, finalizable);
    RunGetExact(u, run, j);
    assert ThreadOk(u, run[j], v);
  }

  /** What a marking thread does next if it is not disturbed. */
  function NextAction(s: State, me: Thread): Action {
    match me
    case Idle => Begin(0, false)
    case CheckPage(_, _) => LoadPage
    case ResetLoad(_, _) => LoadSeqnum
    case ResetSwap(_, _, _) => SwapSeqnum
    case ZeroCounts(_, _) => ClearCounts
    case ZeroLive(_, _) => ClearLive
    case ZeroClaims(_, _) => ClearClaims
    case Publish(_, _) => StoreSeqnum
    case CheckSegment(_, _) => LoadSegment
    case Claim(_, _) => SetClaim
    case AwaitLive(_, _) => LoadLive
    case Clear(_, _, _) => ClearOne
    case SetLive(_, _) => StoreLive
    case Mark(_, _) => LoadBits
    case Swap(o, _, word) => if o < |s.bits| && s.bits[o] == word then SetBits else FailBits
    case Report(_, _, _) => Count
  }

  /** At most how many steps it then takes until its mark is over. */
  function StepsLeft(u: Setup, s: State, me: Thread): nat {
    match me
    case Idle => 0
    case Report(_, _, _) => 1
    case Swap(o, _, word) => if o < |s.bits| && s.bits[o] == word then 2 else 4
    case Mark(_, _) => 3
    case SetLive(_, _) => 4
    case Clear(o, _, pos) => 5 + if pos < u.End(u.Segment(o)) then u.End(u.Segment(o)) - pos else 0
    case AwaitLive(_, _) => 6
    case Claim(_, _) => 6 + Pow2(u.shift)
    case CheckSegment(_, _) => 7 + Pow2(u.shift)
    case Publish(_, _) => 8 + Pow2(u.shift)
    case ZeroClaims(_, _) => 9 + Pow2(u.shift)
    case ZeroLive(_, _) => 10 + Pow2(u.shift)
    case ZeroCounts(_, _) => 11 + Pow2(u.shift)
    case ResetSwap(_, _, seen) => if seen == s.seqnum then 12 + Pow2(u.shift) else 14 + Pow2(u.shift)
    case ResetLoad(_, _) => 13 + Pow2(u.shift)
    case CheckPage(_, _) => 14 + Pow2(u.shift)
  }

  ghost predicate Alone(s: State, t: nat) {
    t in s.threads && forall v :: v in s.threads && v != t ==> s.threads[v].Idle?
  }

  /** The thread can take a step, which brings it closer to the end of its mark. */
  ghost predicate Nears(u: Setup, s: State, t: nat)
    requires t in s.threads
  {
    var me, next := s.threads[t], Next(u, s, t, NextAction(s, s.threads[t]));
    next.Some? && t in next.value.threads && StepsLeft(u, next.value, next.value.threads[t]) < StepsLeft(u, s, me)
  }

  /**
     A thread that the others leave alone is never stuck, and each step brings it closer to the end of its mark,
     whatever state the others have left the map in.
   */
  lemma AloneEnds(u: Setup, s: State, t: nat)
    requires Inv(u, s) && Alone(s, t) && !s.threads[t].Idle?
    ensures Nears(u, s, t) && Alone(Next(u, s, t, NextAction(s, s.threads[t])).value, t)
  {
    var me := s.threads[t];
    if BeforeReset(me) {
      ResetNears(u, s, t);
    } else if me.AwaitLive? {
      AwaitNears(u, s, t);
    } else if me.Claim? || me.CheckSegment? || Clearing(me) {
      SegmentNears(u, s, t);
    } else {
      MarkNears(u, s, t);
    }
    StepGrows(u, s, t, NextAction(s, me));
  }

  lemma ResetNears(u: Setup, s: State, t: nat)
    requires Inv(u, s) && Alone(s, t) && !s.threads[t].Idle? && BeforeReset(s.threads[t])
    ensures Nears(u, s, t)
  {
    assert ThreadOk(u, s, t);
    if s.resetter.Some? {
      assert ThreadOk(u, s, s.resetter.value);
    }
  }

  /** Nobody waits for a segment that nobody is clearing. */
  lemma AwaitNears(u: Setup, s: State, t: nat)
    requires Inv(u, s) && Alone(s, t) && s.threads[t].AwaitLive?
    ensures Nears(u, s, t)
  {
    assert ThreadOk(u, s, t);
  }

  lemma SegmentNears(u: Setup, s: State, t: nat)
    requires Inv(u, s) && Alone(s, t)
    requires var me := s.threads[t]; me.Claim? || me.CheckSegment? || Clearing(me)
    ensures Nears(u, s, t)
  {
    if Clearing(s.threads[t]) {
      ClearNears(u, s, t);
    } else {
      assert ThreadOk(u, s, t);
    }
  }

  lemma ClearNears(u: Setup, s: State, t: nat)
    requires Inv(u, s) && Alone(s, t) && Clearing(s.threads[t])
    ensures Nears(u, s, t)
  {
    assert ThreadOk(u, s, t);
  }

  lemma MarkNears(u: Setup, s: State, t: nat)
    requires Inv(u, s) && Alone(s, t)
    requires var me := s.threads[t]; me.Mark? || me.Swap? || me.Report?
    ensures Nears(u, s, t)
  {
    assert ThreadOk(u, s, t);
  }

  /** When no thread is marking, the page's count of live objects is the number of objects marked in the cycle. */
  lemma CountExact(u: Setup, s: State)
    requires Inv(u, s) && s.seqnum == s.cycle && forall t :: t in s.threads ==> s.threads[t].Idle?
    ensures s.liveObjects == |s.marked|
  {
    forall o
      ensures o in s.marked <==> o in s.counted
    {
      assert ObjectOk(u, s, o);
    }
    assert s.marked == s.counted;
  }
}
