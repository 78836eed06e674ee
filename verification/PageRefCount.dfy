/**
 The reference count of a page under relocation (zForwarding.cpp) as a system of atomic steps: threads
 retain and release the page, one thread may claim it for relocation in place, and others wait until
 it is released.  The condition lock is modelled down to sleeping and waking.
 */
module PageRefCount {

  /** Where a waiting thread is: before the lock, about to read the count, about to sleep, asleep. */
  datatype Phase = Lock | Check | Sleepy | Asleep

  datatype Thread =
    | Out
    | Retaining | RetainSwap(seen: int) | Queued | Refused
    | Hold
    | Claiming | ClaimSwap(seen: int) | Claimed
    | Releasing | ReleaseSwap(seen: int)
    | Notify | Notifying
    | Wait(target: int, phase: Phase)
    | Detached

  /** `inverted` records that the claiming thread has turned the count negative. */
  datatype State = State(count: int, lock: set<nat>, threads: map<nat, Thread>, ghost inverted: bool)

  datatype Action =
    | BeginRetain | LoadRetain | SwapRetain | Dequeue | Resume
    | BeginClaim | LoadClaim | SwapClaim
    | BeginRelease | LoadRelease | SwapRelease
    | TakeLock | ReadCount | FallAsleep | WakeAll
    | BeginDetach

  /** What `notify_all` does to a thread. */
  function Woken(th: Thread): Thread {
    if th.Wait? && th.phase.Asleep? then th.(phase := Lock) else th
  }

  ghost predicate Others(s: State, s': State, t: nat) {
    t in s.threads && s'.threads.Keys == s.threads.Keys && forall v :: v in s.threads && v != t ==>
      s'.threads[v] == s.threads[v]
  }

  /** Only the step's own thread changes. */
  ghost predicate Moves(s: State, s': State, t: nat, th: Thread) {
    Others(s, s', t) && s'.threads[t] == th && s'.inverted == s.inverted
  }

  /** A step that changes neither the count nor the lock. */
  ghost predicate Quiet(s: State, s': State, t: nat, th: Thread) {
    Moves(s, s', t, th) && s'.count == s.count && s'.lock == s.lock
  }

  /** One atomic step of thread `t`; `claimer` is the thread that has won `claim`. */
  ghost predicate Step(claimer: nat, s: State, s': State, t: nat, a: Action) {
    t in s.threads && var me := s.threads[t]; match a
    case BeginRetain => me.Out? && Quiet(s, s', t, Retaining)
    case LoadRetain => me.Retaining? &&
      Quiet(s, s', t, if s.count == 0 then Refused else if s.count < 0 then Queued else RetainSwap(s.count))
    case SwapRetain => me.RetainSwap? &&
      if s.count == me.seen then Moves(s, s', t, Hold) && s'.count == me.seen + 1 && s'.lock == s.lock
      else Quiet(s, s', t, Retaining)
    case Dequeue => me.Queued? && Quiet(s, s', t, Refused)
    case Resume => me.Refused? && Quiet(s, s', t, Out)
    case BeginClaim => me.Hold? && t == claimer && !s.inverted && Quiet(s, s', t, Claiming)
    case LoadClaim => me.Claiming? && Quiet(s, s', t, ClaimSwap(s.count))
    case SwapClaim => me.ClaimSwap? &&
      if s.count == me.seen then
        && Others(s, s', t) && s'.count == -me.seen && s'.lock == s.lock && s'.inverted
        && s'.threads[t] == (if me.seen != 1 then Wait(-1, Lock) else Claimed)
      else Quiet(s, s', t, Claiming)
    case BeginRelease => (me.Hold? || me.Claimed?) && Quiet(s, s', t, Releasing)
    case LoadRelease => me.Releasing? && Quiet(s, s', t, ReleaseSwap(s.count))
    case SwapRelease => me.ReleaseSwap? &&
      if s.count == me.seen then
        && Moves(s, s', t, if me.seen == 1 || me.seen == -2 || me.seen == -1 then Notify else Out)
        && s'.count == (if me.seen > 0 then me.seen - 1 else me.seen + 1) && s'.lock == s.lock
      else Quiet(s, s', t, Releasing)
    case TakeLock => s.lock == {} && s'.lock == {t} && s'.count == s.count &&
      ((me.Notify? && Moves(s, s', t, Notifying)) ||
        (me.Wait? && me.phase.Lock? && Moves(s, s', t, me.(phase := Check))))
    case ReadCount => me.Wait? && me.phase.Check? &&
      if s.count == me.target then
        Moves(s, s', t, if me.target == -1 then Claimed else Detached) && s'.count == s.count && s'.lock == {}
      else Quiet(s, s', t, me.(phase := Sleepy))
    case FallAsleep => me.Wait? && me.phase.Sleepy? && Moves(s, s', t, me.(phase := Asleep)) &&
      s'.count == s.count && s'.lock == {}
    case WakeAll => me.Notifying? && s'.count == s.count && s'.lock == {} && s'.inverted == s.inverted &&
      s'.threads.Keys == s.threads.Keys && s'.threads[t] == Out &&
      forall v :: v in s.threads && v != t ==> s'.threads[v] == Woken(s.threads[v])
    case BeginDetach => me.Out? && Quiet(s, s', t, if s.count == 0 then Detached else Wait(0, Lock))
  }

  /** The threads that hold a reference to the page. */
  predicate HasRef(th: Thread) {
    th.Hold? || th.Claiming? || th.ClaimSwap? || th.Claimed? || th.Releasing? || th.ReleaseSwap? ||
      (th.Wait? && th.target == -1)
  }

  predicate HasLock(th: Thread) {
    th.Notifying? || (th.Wait? && (th.phase.Check? || th.phase.Sleepy?))
  }

  ghost function Holders(s: State): set<nat> {
    set t | t in s.threads && HasRef(s.threads[t])
  }

  ghost predicate ThreadOk(claimer: nat, s: State, t: nat)
    requires t in s.threads
  {
    var me := s.threads[t];
    && (me.RetainSwap? ==> me.seen > 0)
    && (me.Claiming? || me.ClaimSwap? ==> t == claimer && !s.inverted)
    && (me.ClaimSwap? ==> me.seen > 0)
    && (me.Wait? ==> me.target == 0 || me.target == -1)
    && (me.Claimed? || (me.Wait? && me.target == -1) ==> t == claimer && s.inverted)
    && (me.Claimed? ==> Holders(s) == {t})
    && (me.Detached? ==> s.count == 0)
    && (HasLock(me) <==> t in s.lock)
  }

  /** Some thread is going to wake the sleepers. */
  ghost predicate WakeUpDue(s: State) {
    exists v :: v in s.threads && (s.threads[v].Notify? || s.threads[v].Notifying?)
  }

  /** Thread `t` sleeps, or is about to, although what it waits for has come. */
  ghost predicate Overslept(s: State, t: nat) {
    t in s.threads && s.threads[t].Wait? && (s.threads[t].phase.Sleepy? || s.threads[t].phase.Asleep?) &&
      s.count == s.threads[t].target
  }

  ghost predicate Inv(claimer: nat, s: State) {
    && Counted(s)
    && (forall t {:trigger ThreadOk(claimer, s, t)} :: t in s.threads ==> ThreadOk(claimer, s, t))
    && (forall t, v :: t in s.lock && v in s.lock ==> t == v) && s.lock <= s.threads.Keys
    && (forall t :: Overslept(s, t) ==> WakeUpDue(s))
  }

  /** The page starts with one reference, which the relocating thread holds. */
  ghost predicate Init(owner: nat, s: State) {
    && s.count == 1 && s.lock == {} && !s.inverted
    && owner in s.threads && s.threads[owner].Hold? && forall t :: t in s.threads && t != owner ==> s.threads[t].Out?
  }

  lemma InitInv(claimer: nat, owner: nat, s: State)
    requires Init(owner, s)
    ensures Inv(claimer, s)
  {
    assert Holders(s) == {owner};
    assert forall t :: t in s.threads ==> ThreadOk(claimer, s, t);
  }

  /** The count says how many holders there are. */
  ghost predicate Counted(s: State) {
    if s.inverted then s.count == -|Holders(s)| else s.count == |Holders(s)|
  }

  /** How the holders change when one thread moves. */
  lemma HoldersMove(s: State, s': State, t: nat)
    requires Others(s, s', t)
    ensures Holders(s') == if HasRef(s'.threads[t]) then Holders(s) + {t} else Holders(s) - {t}
    ensures t in Holders(s) <==> HasRef(s.threads[t])
    ensures |Holders(s')| ==
      |Holders(s)| + (if HasRef(s'.threads[t]) then 1 else 0) - (if HasRef(s.threads[t]) then 1 else 0)
  {
    assert Holders(s') == if HasRef(s'.threads[t]) then Holders(s) + {t} else Holders(s) - {t};
    if HasRef(s'.threads[t]) && HasRef(s.threads[t]) {
      assert Holders(s') == Holders(s);
    } else if !HasRef(s'.threads[t]) && !HasRef(s.threads[t]) {
      assert Holders(s') == Holders(s);
    }
  }

  lemma SameHolders(s: State, s': State, t: nat)
    requires t in s.threads && s'.threads.Keys == s.threads.Keys
    requires !HasRef(s'.threads[t]) && !HasRef(s.threads[t])
    requires forall v :: v in s.threads && v != t ==> s'.threads[v] == Woken(s.threads[v])
    ensures Holders(s') == Holders(s)
  {
  }

  predicate IsSwap(a: Action) {
    a.SwapRetain? || a.SwapRelease? || a.SwapClaim?
  }

  /** Only the three swaps change the count or who holds a reference. */
  lemma OtherSteps(claimer: nat, s: State, s': State, t: nat, a: Action)
    requires t in s.threads && ThreadOk(claimer, s, t) && Step(claimer, s, s', t, a) && !IsSwap(a)
    ensures t in s'.threads && s'.count == s.count && s'.inverted == s.inverted
    ensures HasRef(s'.threads[t]) == HasRef(s.threads[t])
    ensures !a.WakeAll? ==> Others(s, s', t)
    ensures a.WakeAll? ==> !HasRef(s.threads[t]) && s'.threads.Keys == s.threads.Keys
    ensures a.WakeAll? ==> forall v :: v in s.threads && v != t ==> s'.threads[v] == Woken(s.threads[v])
  {
  }

  lemma SwapSteps(claimer: nat, s: State, s': State, t: nat, a: Action)
    requires t in s.threads && ThreadOk(claimer, s, t) && Step(claimer, s, s', t, a) && IsSwap(a)
    ensures Others(s, s', t)
    ensures var d := (if HasRef(s'.threads[t]) then 1 else 0) - (if HasRef(s.threads[t]) then 1 else 0);
      && (s.inverted ==> s'.inverted)
      && (s.count > 0 && !s'.inverted ==> s'.count == s.count + d)
      && (s.count < 0 ==> s'.count == s.count - d && d <= 0)
      && (s'.inverted && !s.inverted ==> s'.count == -s.count && d == 0)
      && (s.count == 0 && !HasRef(s.threads[t]) ==> s'.count == 0 && d == 0)
  {
  }

  /** The count after a step. */
  lemma StepCount(claimer: nat, s: State, s': State, t: nat, a: Action)
    requires Counted(s) && t in s.threads && ThreadOk(claimer, s, t) && Step(claimer, s, s', t, a)
    ensures Counted(s')
    ensures s'.inverted ==> Holders(s') <= Holders(s)
  {
    if IsSwap(a) {
      SwapSteps(claimer, s, s', t, a);
      HoldersMove(s, s', t);
    } else {
      OtherSteps(claimer, s, s', t, a);
      if a.WakeAll? {
        SameHolders(s, s', t);
      } else {
        HoldersMove(s, s', t);
      }
    }
  }

  /** The thread that moves is again in a sound state. */
  lemma StepOwn(claimer: nat, s: State, s': State, t: nat, a: Action)
    requires Inv(claimer, s) && Step(claimer, s, s', t, a)
    ensures ThreadOk(claimer, s', t)
  {
    assert ThreadOk(claimer, s, t);
    if a.WakeAll? {
      SameHolders(s, s', t);
    } else {
      HoldersMove(s, s', t);
    }
    StepCount(claimer, s, s', t, a);
    if s'.threads[t].Claimed? && t in Holders(s') {
      Alone(Holders(s'), t);
    }
  }

  lemma Alone(h: set<nat>, t: nat)
    requires t in h
    ensures |h| == 1 ==> h == {t}
  {
    if |h| == 1 {
      assert |h - {t}| == 0;
    }
  }

  /** So is every other thread. */
  lemma StepOther(claimer: nat, s: State, s': State, t: nat, a: Action, v: nat)
    requires Inv(claimer, s) && Step(claimer, s, s', t, a) && v in s.threads && v != t
    ensures ThreadOk(claimer, s', v)
  {
    assert ThreadOk(claimer, s, t) && ThreadOk(claimer, s, v);
    StepCount(claimer, s, s', t, a);
    if s.threads[v].Claimed? {
      assert t !in Holders(s);
    }
    if s.threads[v].Detached? {
      ZeroStays(claimer, s, s', t, a);
    }
  }

  /** Zero is absorbing: a page without references is never retained or claimed again. */
  lemma ZeroStays(claimer: nat, s: State, s': State, t: nat, a: Action)
    requires Inv(claimer, s) && Step(claimer, s, s', t, a) && s.count == 0
    ensures s'.count == 0 && Holders(s') == {}
  {
    assert ThreadOk(claimer, s, t);
    assert Holders(s) == {};
    assert t !in Holders(s);
    StepCount(claimer, s, s', t, a);
  }

  /** No wake-up is lost: whoever makes a waited-for count true goes on to wake the sleepers. */
  lemma StepWakes(claimer: nat, s: State, s': State, t: nat, a: Action, v: nat)
    requires Inv(claimer, s) && Step(claimer, s, s', t, a) && Overslept(s', v)
    ensures WakeUpDue(s')
  {
    assert ThreadOk(claimer, s, t);
    assert v in s.threads && ThreadOk(claimer, s, v);
    StepOwn(claimer, s, s', t, a);
    if v != t {
      StepOther(claimer, s, s', t, a, v);
    }
    if !a.WakeAll? && !s'.threads[t].Notify? && !s'.threads[t].Notifying? {
      DueBefore(claimer, s, s', t, a, v);
      var w :| w in s.threads && (s.threads[w].Notify? || s.threads[w].Notifying?);
      assert w != t;
    }
  }

  lemma DueBefore(claimer: nat, s: State, s': State, t: nat, a: Action, v: nat)
    requires Inv(claimer, s) && Step(claimer, s, s', t, a) && Overslept(s', v) && v in s.threads
    requires !a.WakeAll? && !s'.threads[t].Notify? && !s'.threads[t].Notifying?
    requires ThreadOk(claimer, s, t) && ThreadOk(claimer, s, v)
    ensures Overslept(s, v)
  {
    StepCount(claimer, s, s', t, a);
  }

  /** Every step of every thread keeps the invariant. */
  lemma StepInv(claimer: nat, s: State, s': State, t: nat, a: Action)
    requires Inv(claimer, s) && Step(claimer, s, s', t, a)
    ensures Inv(claimer, s')
  {
    StepCount(claimer, s, s', t, a);
    forall v | v in s'.threads
      ensures ThreadOk(claimer, s', v)
    {
      if v == t {
        StepOwn(claimer, s, s', t, a);
      } else {
        StepOther(claimer, s, s', t, a, v);
      }
    }
    forall v | Overslept(s', v)
      ensures WakeUpDue(s')
    {
      StepWakes(claimer, s, s', t, a, v);
    }
    assert ThreadOk(claimer, s, t);
  }

  // What the callers rely on

  ghost predicate SomeStep(claimer: nat, s: State, s': State) {
    exists t, a :: Step(claimer, s, s', t, a)
  }

  ghost predicate StepAt(claimer: nat, run: seq<State>, i: nat) {
    i + 1 < |run| && SomeStep(claimer, run[i], run[i + 1])
  }

  ghost predicate Run(claimer: nat, owner: nat, run: seq<State>) {
    |run| > 0 && Init(owner, run[0]) && forall i: nat {:trigger StepAt(claimer, run, i)} :: i + 1 < |run| ==>
      StepAt(claimer, run, i)
  }

  lemma SomeStepInv(claimer: nat, s: State, s': State)
    requires Inv(claimer, s) && SomeStep(claimer, s, s')
    ensures Inv(claimer, s')
  {
    var t, a :| Step(claimer, s, s', t, a);
    StepInv(claimer, s, s', t, a);
  }

  lemma {:induction false} RunInv(claimer: nat, owner: nat, run: seq<State>, i: nat)
    requires Run(claimer, owner, run) && i < |run|
    ensures Inv(claimer, run[i])
  {
    if i == 0 {
      InitInv(claimer, owner, run[0]);
    } else {
      RunInv(claimer, owner, run, i - 1);
      assert StepAt(claimer, run, i - 1);
      SomeStepInv(claimer, run[i - 1], run[i]);
    }
  }

  /** In every reachable state the absolute count is the number of holders. */
  lemma CountIsHolders(claimer: nat, owner: nat, run: seq<State>, i: nat)
    requires Run(claimer, owner, run) && i < |run|
    ensures |Holders(run[i])| == if run[i].count < 0 then -run[i].count else run[i].count
  {
    RunInv(claimer, owner, run, i);
  }

  /** A thread that has claimed the page is its only holder for as long as it holds it, and a detached page has none. */
  lemma Exclusive(claimer: nat, owner: nat, run: seq<State>, i: nat, t: nat)
    requires Run(claimer, owner, run) && i < |run| && t in run[i].threads
    ensures run[i].threads[t].Claimed? ==> Holders(run[i]) == {t} && run[i].count == -1
    ensures run[i].threads[t].Detached? ==>
      Holders(run[i]) == {} && forall j: nat :: i <= j < |run| ==> run[j].count == 0
  {
    RunInv(claimer, owner, run, i);
    assert ThreadOk(claimer, run[i], t);
    if run[i].threads[t].Detached? {
      forall j: nat | i <= j < |run|
        ensures run[j].count == 0
      {
        ZeroForGood(claimer, owner, run, i, j);
      }
    }
  }

  lemma {:induction false} ZeroForGood(claimer: nat, owner: nat, run: seq<State>, i: nat, j: nat)
    requires Run(claimer, owner, run) && i <= j < |run| && run[i].count == 0
    ensures run[j].count == 0
    decreases j
  {
    if i < j {
      ZeroForGood(claimer, owner, run, i, j - 1);
      RunInv(claimer, owner, run, j - 1);
      assert StepAt(claimer, run, j - 1);
      ZeroNext(claimer, run[j - 1], run[j]);
    }
  }

  lemma ZeroNext(claimer: nat, s: State, s': State)
    requires Inv(claimer, s) && SomeStep(claimer, s, s') && s.count == 0
    ensures s'.count == 0
  {
    var t, a :| Step(claimer, s, s', t, a);
    ZeroStays(claimer, s, s', t, a);
  }

  /** Once the count is negative nobody retains the page: the holders only become fewer. */
  lemma NoRetainWhenClaimed(claimer: nat, s: State, s': State, t: nat, a: Action)
    requires Inv(claimer, s) && Step(claimer, s, s', t, a) && s.count < 0
    ensures s'.count <= 0 && Holders(s') <= Holders(s) && !(a.SwapRetain? && s'.threads[t].Hold?)
  {
    assert ThreadOk(claimer, s, t);
    StepCount(claimer, s, s', t, a);
    assert s'.inverted;
  }

  /**
     The assertions in the code hold: a releasing thread never sees zero, and a claiming thread sees a
     positive count.
   */
  lemma AssertionsHold(claimer: nat, s: State, t: nat)
    requires Inv(claimer, s) && t in s.threads
    ensures s.threads[t].Releasing? ==> s.count != 0
    ensures s.threads[t].Claiming? ==> s.count > 0
  {
    assert ThreadOk(claimer, s, t);
    if HasRef(s.threads[t]) {
      assert t in Holders(s);
    }
  }

  // What the operations achieve

  /** A retaining thread waits only for a claimed page, and gives up only on a released one or after waiting. */
  lemma RetainBlocked(claimer: nat, s: State, s': State, t: nat, a: Action)
    requires Step(claimer, s, s', t, a)
    ensures t in s'.threads
    ensures s'.threads[t].Queued? && !s.threads[t].Queued? ==> a.LoadRetain? && s.count < 0
    ensures s'.threads[t].Refused? && !s.threads[t].Refused? ==> (a.LoadRetain? && s.count == 0) || s.threads[t].Queued?
  {
  }

  /** Between `s` and `late` the thread has not moved, and the count is the same again. */
  predicate Undisturbed(s: State, late: State, t: nat) {
    t in s.threads && t in late.threads && late.threads[t] == s.threads[t] && late.count == s.count
  }

  /** If the count is positive when it is read and the same at the swap, the page is retained. */
  lemma RetainSucceeds(claimer: nat, s: State, read: State, late: State, s': State, t: nat)
    requires Step(claimer, s, read, t, LoadRetain) && Undisturbed(read, late, t)
    requires Step(claimer, late, s', t, SwapRetain)
    ensures s.count > 0 && t in s'.threads && s'.threads[t].Hold? && s'.count == s.count + 1
    ensures Holders(s') == Holders(late) + {t} && t !in Holders(late)
  {
    HoldersMove(late, s', t);
  }

  /**
     A release whose swap finds the count it has read gives up the reference, and goes on to wake the sleepers
     exactly if this releases the page, or leaves it to the claiming thread.
   */
  lemma ReleaseSucceeds(claimer: nat, s: State, read: State, late: State, s': State, t: nat)
    requires Inv(claimer, s) && Step(claimer, s, read, t, LoadRelease) && Undisturbed(read, late, t)
    requires Step(claimer, late, s', t, SwapRelease)
    ensures t in s'.threads && s'.count == if s.count > 0 then s.count - 1 else s.count + 1
    ensures s.count != 0 && Holders(s') == Holders(late) - {t} && t in Holders(late)
    ensures s'.threads[t].Notify? <==> s'.count == 0 || s'.count == -1
    ensures s'.threads[t].Notify? || s'.threads[t].Out?
  {
    AssertionsHold(claimer, s, t);
    HoldersMove(late, s', t);
  }

  /** A claim whose swap finds the count it has read inverts it, and has the page at once if nobody else holds it. */
  lemma ClaimSucceeds(claimer: nat, s: State, read: State, late: State, s': State, t: nat)
    requires Inv(claimer, s) && Step(claimer, s, read, t, LoadClaim) && Undisturbed(read, late, t)
    requires Step(claimer, late, s', t, SwapClaim)
    ensures t in s'.threads && s'.count == -s.count < 0 && s'.inverted && Holders(s') == Holders(late)
    ensures s'.threads[t].Claimed? <==> s.count == 1
    ensures s.count > 1 ==> s'.threads[t].Wait? && s'.threads[t].target == -1
  {
    AssertionsHold(claimer, s, t);
    HoldersMove(late, s', t);
  }

  /** A waiting thread that reads the count it waits for is through. */
  lemma WaitEnds(claimer: nat, s: State, s': State, t: nat)
    requires Inv(claimer, s) && Step(claimer, s, s', t, ReadCount)
    ensures t in s'.threads && s.threads[t].Wait?
    ensures s'.threads[t].Claimed? <==> s.threads[t].target == -1 && s.count == -1
    ensures s'.threads[t].Detached? <==> s.threads[t].target == 0 && s.count == 0
  {
    assert ThreadOk(claimer, s, t);
  }

  /** The threads that cannot move: sleepers, and those that need the lock while another thread has it. */
  predicate Blocked(s: State, th: Thread) {
    (th.Wait? && th.phase.Asleep?) || (s.lock != {} && (th.Notify? || (th.Wait? && th.phase.Lock?)))
  }

  function Moved(s: State, t: nat, th: Thread): State {
    s.(threads := s.threads[t := th])
  }

  /** Every other thread can take its next step; one that has detached the page is through. */
  lemma CanStep(claimer: nat, s: State, t: nat) returns (a: Action, s': State)
    requires Inv(claimer, s) && t in s.threads && !Blocked(s, s.threads[t]) && !s.threads[t].Detached?
    ensures Step(claimer, s, s', t, a)
  {
    var me := s.threads[t];
    assert ThreadOk(claimer, s, t);
    match me {
      case Out => a, s' := BeginRetain, Moved(s, t, Retaining);
      case Retaining => a, s' := LoadRetain,
        Moved(s, t, if s.count == 0 then Refused else if s.count < 0 then Queued else RetainSwap(s.count));
      case RetainSwap(_) => a, s' := SwapStep(s, t);
      case Queued => a, s' := Dequeue, Moved(s, t, Refused);
      case Refused => a, s' := Resume, Moved(s, t, Out);
      case Hold => a, s' := BeginRelease, Moved(s, t, Releasing);
      case Claiming => a, s' := LoadClaim, Moved(s, t, ClaimSwap(s.count));
      case ClaimSwap(_) => a, s' := SwapStep(s, t);
      case Claimed => a, s' := BeginRelease, Moved(s, t, Releasing);
      case Releasing => a, s' := LoadRelease, Moved(s, t, ReleaseSwap(s.count));
      case ReleaseSwap(_) => a, s' := SwapStep(s, t);
      case Notify => a, s' := TakeLock, Moved(s, t, Notifying).(lock := {t});
      case Notifying =>
        a, s' := WakeAll, s.(lock := {}, threads :=
          map v | v in s.threads :: if v == t then Out else Woken(s.threads[v]));
      case Wait(target, phase) => a, s' := WaitStep(s, t, target, phase);
    }
  }

  lemma SwapStep(s: State, t: nat) returns (a: Action, s': State)
    requires t in s.threads
    requires s.threads[t].RetainSwap? || s.threads[t].ClaimSwap? || s.threads[t].ReleaseSwap?
    ensures forall claimer :: Step(claimer, s, s', t, a)
  {
    match s.threads[t] {
      case RetainSwap(seen) => a, s' := SwapRetain,
        if s.count == seen then Moved(s, t, Hold).(count := seen + 1) else Moved(s, t, Retaining);
      case ClaimSwap(seen) => a, s' := SwapClaim,
        if s.count != seen then Moved(s, t, Claiming)
        else Moved(s, t, if seen != 1 then Wait(-1, Lock) else Claimed).(count := -seen, inverted := true);
      case ReleaseSwap(seen) => a, s' := SwapRelease,
        if s.count != seen then Moved(s, t, Releasing)
        else Moved(s, t, if seen == 1 || seen == -2 || seen == -1 then Notify else Out).(
          count := if seen > 0 then seen - 1 else seen + 1);
    }
  }

  lemma WaitStep(s: State, t: nat, target: int, phase: Phase) returns (a: Action, s': State)
    requires t in s.threads && s.threads[t] == Wait(target, phase) && !Blocked(s, s.threads[t])
    ensures forall claimer :: Step(claimer, s, s', t, a)
  {
    match phase {
      case Lock => a, s' := TakeLock, Moved(s, t, Wait(target, Check)).(lock := {t});
      case Check => a, s' := ReadCount,
        if s.count == target then Moved(s, t, if target == -1 then Claimed else Detached).(lock := {})
        else Moved(s, t, Wait(target, Sleepy));
      case Sleepy => a, s' := FallAsleep, Moved(s, t, Wait(target, Asleep)).(lock := {});
    }
  }

  /** Whoever has the lock can move. */
  lemma LockMoves(claimer: nat, s: State, t: nat)
    requires Inv(claimer, s) && t in s.lock
    ensures t in s.threads && !Blocked(s, s.threads[t]) && !s.threads[t].Detached?
  {
    assert ThreadOk(claimer, s, t);
  }

  // Refusals over a run

  /** Step `k` is thread `v` reading a count that is not positive. */
  ghost predicate ReadsGone(claimer: nat, run: seq<State>, v: nat, k: nat) {
    k + 1 < |run| && Step(claimer, run[k], run[k + 1], v, LoadRetain) && run[k].count <= 0
  }

  ghost predicate GivenUp(run: seq<State>, v: nat, k: nat) {
    k < |run| && v in run[k].threads && (run[k].threads[v].Queued? || run[k].threads[v].Refused?)
  }

  ghost predicate Busy(run: seq<State>, v: nat, k: nat) {
    k < |run| && v in run[k].threads && !run[k].threads[v].Out?
  }

  lemma TurnAt(claimer: nat, run: seq<State>, k: nat, v: nat)
    requires StepAt(claimer, run, k) && v in run[k].threads && GivenUp(run, v, k + 1)
    ensures GivenUp(run, v, k) || ReadsGone(claimer, run, v, k)
  {
    var t, a :| Step(claimer, run[k], run[k + 1], t, a);
    if t == v {
      RetainBlocked(claimer, run[k], run[k + 1], t, a);
    }
  }

  /**
     Over any run `retain_page` refuses only because of the count that it read last, which was zero or negative:
     the thread has waited, or been on its way back, ever since.
   */
  lemma {:induction false} RefusedOnlyIfGone(claimer: nat, owner: nat, run: seq<State>, i: nat, j: nat, v: nat)
    returns (k: nat)
    requires Run(claimer, owner, run) && i < j < |run|
    requires v in run[i].threads && run[i].threads[v].Retaining?
    requires forall m: nat {:trigger Busy(run, v, m)} :: i <= m <= j ==> Busy(run, v, m)
    requires GivenUp(run, v, j)
    ensures i <= k < j && ReadsGone(claimer, run, v, k)
    ensures forall m: nat {:trigger GivenUp(run, v, m)} :: k < m <= j ==> GivenUp(run, v, m)
    decreases j
  {
    assert StepAt(claimer, run, j - 1) && Busy(run, v, j - 1);
    TurnAt(claimer, run, j - 1, v);
    if GivenUp(run, v, j - 1) {
      k := RefusedOnlyIfGone(claimer, owner, run, i, j - 1, v);
    } else {
      k := j - 1;
    }
  }
}
