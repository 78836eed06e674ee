/**
 The lock-free forwarding table (zForwarding.inline.hpp, zForwardingEntry.hpp) as a system of atomic
 steps: any number of threads look up and insert objects of one page, by linear probing over words
 that are each written at most once.
 */
module ForwardingTable {
  import opened Powers

  // The packed entry

  type Word = bv64
  type Index = i: bv64 | i < 0x4_0000
  type Offset = o: bv64 | o < 0x2000_0000_0000

  const EMPTY: Word := 0

  /** Bit 0 says that the entry is populated, 45 bits hold the new offset and 18 the old index. */
  function Encode(fromIndex: Index, toOffset: Offset): Word {
    1 | (toOffset << 1) | (fromIndex << 46)
  }

  predicate Populated(w: Word) {
    w & 1 != 0
  }

  function ToOffset(w: Word): Offset {
    (w >> 1) & 0x1FFF_FFFF_FFFF
  }

  function FromIndex(w: Word): Index {
    (w >> 46) & 0x3_FFFF
  }

  /** Every field reads back as it was written, and the empty word is not populated. */
  lemma EntryRoundTrip(fromIndex: Index, toOffset: Offset)
    ensures Populated(Encode(fromIndex, toOffset)) && !Populated(EMPTY)
    ensures ToOffset(Encode(fromIndex, toOffset)) == toOffset
    ensures FromIndex(Encode(fromIndex, toOffset)) == fromIndex
  {
  }

  // The table

  /** `nentries`: twice the live objects, rounded up to a power of two. */
  function NEntries(live: nat): nat {
    RoundUpPow2(live * 2)
  }

  lemma HalfFull(live: nat) returns (k: nat)
    ensures NEntries(live) == Pow2(k) && 2 * live <= Pow2(k)
    ensures live > 0 ==> Pow2(k) < 4 * live
  {
    k := RoundUpIsPower(live * 2);
  }

  /** A table of `2^k` entries for the objects `live`, with any hash function. */
  datatype Setup = Setup(k: nat, live: set<Index>, hash: Index -> nat) {
    function Length(): nat {
      Pow2(k)
    }

    ghost predicate Ok() {
      2 * |live| <= Length()
    }

    /** `x & mask`. */
    function Mask(x: nat): (c: nat)
      ensures c < Length()
    {
      ShlShrBelow(x, k);
      x - Shl(Shr(x, k), k)
    }

    function First(key: Index): nat {
      Mask(hash(key))
    }

    function Next(c: nat): nat {
      Mask(c + 1)
    }

    /** How far a probe for `key` has come when it is at slot `c`. */
    function Dist(key: Index, c: nat): int {
      if c >= First(key) then c - First(key) else c + Length() - First(key)
    }
  }

  lemma NextSlot(u: Setup, c: nat)
    requires c < u.Length()
    ensures u.Next(c) == if c + 1 == u.Length() then 0 else c + 1
  {
    ShrRange(c + 1, u.k, if c + 1 == u.Length() then 1 else 0);
    ShlIsMul(1, u.k);
    ShlIsMul(0, u.k);
  }

  /**
   Where a thread is.  Find: about to read the slot at `cursor`.  Missed: `find` has returned an empty
   entry.  Cas: in `insert`, about to compare and swap.  Probe: in the inner loop of `insert`.
   */
  datatype Thread =
    | Idle
    | Find(key: Index, cursor: nat)
    | Missed(key: Index, cursor: nat)
    | Cas(key: Index, to: Offset, cursor: nat)
    | Probe(key: Index, to: Offset, cursor: nat)
    | Done(key: Index, result: Offset)

  datatype State = State(table: seq<Word>, threads: map<nat, Thread>)

  datatype Action = Start(key: Index) | Load | Install(to: Offset) | Swap | Reload | Leave

  ghost predicate Init(u: Setup, s: State) {
    s.table == seq(u.Length(), i => EMPTY) && forall t :: t in s.threads ==> s.threads[t].Idle?
  }

  function At(s: State, c: nat): Word
    requires c < |s.table|
  {
    s.table[c]
  }

  /** One atomic step of thread `t`, which touches no other thread. */
  ghost predicate Step(u: Setup, s: State, s': State, t: nat, a: Action) {
    && t in s.threads && s'.threads.Keys == s.threads.Keys
    && (forall v :: v in s.threads && v != t ==> s'.threads[v] == s.threads[v])
    && var me, me' := s.threads[t], s'.threads[t];
    match a
    case Start(key) => me.Idle? && key in u.live && me' == Find(key, u.First(key)) && s'.table == s.table
    case Load =>
      && me.Find? && me.cursor < |s.table| && s'.table == s.table
      && me' == var e := At(s, me.cursor);
           if !Populated(e) then Missed(me.key, me.cursor)
           else if FromIndex(e) == me.key then Done(me.key, ToOffset(e))
           else Find(me.key, u.Next(me.cursor))
    case Install(to) => me.Missed? && me' == Cas(me.key, to, me.cursor) && s'.table == s.table
    case Swap =>
      && me.Cas? && me.cursor < |s.table|
      && if At(s, me.cursor) == EMPTY
         then s'.table == s.table[me.cursor := Encode(me.key, me.to)] && me' == Done(me.key, me.to)
         else s'.table == s.table && me' == Probe(me.key, me.to, me.cursor)
    case Reload =>
      && me.Probe? && me.cursor < |s.table| && s'.table == s.table
      && me' == var e := At(s, me.cursor);
           if !Populated(e) then Cas(me.key, me.to, me.cursor)
           else if FromIndex(e) == me.key then Done(me.key, ToOffset(e))
           else Probe(me.key, me.to, u.Next(me.cursor))
    case Leave => me.Done? && me' == Idle && s'.table == s.table
  }

  // The invariant

  /** Slot `j` holds an entry for another object. */
  ghost predicate Other(table: seq<Word>, key: Index, j: nat) {
    j < |table| && Populated(table[j]) && FromIndex(table[j]) != key
  }

  /** Every slot that a probe for `key` visits before slot `c` holds an entry for another object. */
  ghost predicate Passed(u: Setup, table: seq<Word>, key: Index, c: nat) {
    forall j: nat {:trigger Other(table, key, j)} :: j < u.Length() && u.Dist(key, j) < u.Dist(key, c) ==>
      Other(table, key, j)
  }

  ghost predicate SlotOk(u: Setup, table: seq<Word>, i: nat)
    requires i < |table|
  {
    if Populated(table[i]) then FromIndex(table[i]) in u.live && Passed(u, table, FromIndex(table[i]), i)
    else table[i] == EMPTY
  }

  ghost predicate TableOk(u: Setup, table: seq<Word>) {
    |table| == u.Length() && forall i: nat {:trigger SlotOk(u, table, i)} :: i < |table| ==> SlotOk(u, table, i)
  }

  /** The table forwards `key` to `to`. */
  ghost predicate Forwards(table: seq<Word>, key: Index, to: Offset) {
    exists i :: Holds(table, key, to, i)
  }

  ghost predicate Holds(table: seq<Word>, key: Index, to: Offset, i: int) {
    0 <= i < |table| && Populated(table[i]) && FromIndex(table[i]) == key && ToOffset(table[i]) == to
  }

  ghost predicate ThreadOk(u: Setup, table: seq<Word>, me: Thread) {
    match me
    case Idle => true
    case Done(key, result) => key in u.live && Forwards(table, key, result)
    case _ => me.key in u.live && me.cursor < u.Length() && Passed(u, table, me.key, me.cursor)
  }

  ghost predicate Inv(u: Setup, s: State) {
    u.Ok() && TableOk(u, s.table) && forall t :: t in s.threads ==> ThreadOk(u, s.table, s.threads[t])
  }

  /** Entries stay: no populated slot ever changes. */
  ghost predicate Keeps(table: seq<Word>, table': seq<Word>) {
    |table'| == |table| && forall i :: 0 <= i < |table| && Populated(table[i]) ==> table'[i] == table[i]
  }

  lemma InitInv(u: Setup, s: State)
    requires u.Ok() && Init(u, s)
    ensures Inv(u, s)
  {
    assert forall i: nat :: i < |s.table| ==> SlotOk(u, s.table, i);
  }

  lemma PassedAt(u: Setup, table: seq<Word>, key: Index, c: nat, j: nat)
    requires Passed(u, table, key, c) && j < u.Length()
    ensures u.Dist(key, j) < u.Dist(key, c) ==> Other(table, key, j)
  {
    assert Other(table, key, j) <==> j < |table| && Populated(table[j]) && FromIndex(table[j]) != key;
  }

  /** No object has two entries. */
  lemma OnceOnly(u: Setup, table: seq<Word>, i: nat, j: nat)
    requires TableOk(u, table) && i < |table| && j < |table|
    requires Populated(table[i]) && Populated(table[j]) && FromIndex(table[i]) == FromIndex(table[j])
    ensures i == j
  {
    var key := FromIndex(table[i]);
    assert SlotOk(u, table, i) && SlotOk(u, table, j);
    PassedAt(u, table, key, i, j);
    PassedAt(u, table, key, j, i);
  }

  /** The objects entered in the first `m` slots. */
  ghost function Entered(table: seq<Word>, m: nat): set<Index>
    requires m <= |table|
  {
    set i: nat | i < m && Populated(table[i]) :: FromIndex(table[i])
  }

  lemma {:induction false} FullTable(u: Setup, table: seq<Word>, m: nat)
    requires TableOk(u, table) && m <= |table| && forall i: nat :: i < m ==> Populated(table[i])
    ensures |Entered(table, m)| == m && Entered(table, m) <= u.live
  {
    if m > 0 {
      FullTable(u, table, m - 1);
      var key := FromIndex(table[m - 1]);
      assert SlotOk(u, table, m - 1);
      forall i: nat | i < m - 1
        ensures FromIndex(table[i]) != key
      {
        if FromIndex(table[i]) == key {
          OnceOnly(u, table, i, m - 1);
        }
      }
      assert Entered(table, m) == Entered(table, m - 1) + {key};
    }
  }

  /** Half the slots stay empty, so no probe comes round to where it started. */
  lemma SomeEmpty(u: Setup, table: seq<Word>)
    requires u.Ok() && TableOk(u, table)
    ensures exists i: nat :: i < |table| && !Populated(table[i])
  {
    if forall i: nat :: i < |table| ==> Populated(table[i]) {
      FullTable(u, table, |table|);
      Larger(Entered(table, |table|), u.live);
    }
  }

  lemma {:induction false} Larger(s: set<Index>, t: set<Index>)
    requires s <= t
    ensures |s| <= |t|
  {
    if s != {} {
      var x :| x in s;
      Larger(s - {x}, t - {x});
    }
  }

  /** Past a slot that holds another object, the probe has still passed only such slots and is one further. */
  lemma ProbeOn(u: Setup, table: seq<Word>, key: Index, c: nat)
    requires u.Ok() && TableOk(u, table) && c < u.Length() && Passed(u, table, key, c) && Other(table, key, c)
    ensures u.Next(c) < u.Length() && Passed(u, table, key, u.Next(c))
    ensures u.Dist(key, u.Next(c)) == u.Dist(key, c) + 1
  {
    NextSlot(u, c);
    if u.Next(c) == u.First(key) {
      SomeEmpty(u, table);
      var i: nat :| i < |table| && !Populated(table[i]);
      PassedAt(u, table, key, c, i);
    }
    forall j: nat | j < u.Length() && u.Dist(key, j) < u.Dist(key, u.Next(c))
      ensures Other(table, key, j)
    {
      assert u.Dist(key, j) == u.Dist(key, c) ==> j == c;
    }
  }

  /** A probe that has reached an empty slot proves that the object has no entry. */
  lemma MissIsAbsent(u: Setup, table: seq<Word>, key: Index, c: nat)
    requires TableOk(u, table) && c < u.Length() && Passed(u, table, key, c) && !Populated(table[c])
    ensures forall to: Offset :: !Forwards(table, key, to)
  {
    forall i: nat, to: Offset | Holds(table, key, to, i)
      ensures false
    {
      assert SlotOk(u, table, i);
      PassedAt(u, table, key, c, i);
      PassedAt(u, table, key, i, c);
    }
  }

  lemma PassedKeeps(u: Setup, table: seq<Word>, table': seq<Word>, key: Index, c: nat)
    requires Keeps(table, table') && Passed(u, table, key, c)
    ensures Passed(u, table', key, c)
  {
    forall j: nat | j < u.Length() && u.Dist(key, j) < u.Dist(key, c)
      ensures Other(table', key, j)
    {
      assert Other(table, key, j);
    }
  }

  lemma ForwardsKeeps(table: seq<Word>, table': seq<Word>, key: Index, to: Offset)
    requires Keeps(table, table') && Forwards(table, key, to)
    ensures Forwards(table', key, to)
  {
    var i :| Holds(table, key, to, i);
    assert Holds(table', key, to, i);
  }

  /** A successful swap enters the object once, at the end of its probe path. */
  lemma SwapOk(u: Setup, table: seq<Word>, key: Index, to: Offset, c: nat)
    requires u.Ok() && TableOk(u, table) && key in u.live && c < u.Length() && Passed(u, table, key, c)
    requires table[c] == EMPTY
    ensures TableOk(u, table[c := Encode(key, to)]) && Keeps(table, table[c := Encode(key, to)])
    ensures Forwards(table[c := Encode(key, to)], key, to)
  {
    var table' := table[c := Encode(key, to)];
    EntryRoundTrip(key, to);
    assert Keeps(table, table');
    forall i: nat | i < |table'|
      ensures SlotOk(u, table', i)
    {
      assert SlotOk(u, table, i);
      if Populated(table[i]) {
        PassedKeeps(u, table, table', FromIndex(table[i]), i);
      }
      if i == c {
        PassedKeeps(u, table, table', key, c);
      }
    }
    assert Holds(table', key, to, c);
  }

  lemma StepTable(u: Setup, s: State, s': State, t: nat, a: Action)
    requires Inv(u, s) && Step(u, s, s', t, a)
    ensures TableOk(u, s'.table) && Keeps(s.table, s'.table)
  {
    var me := s.threads[t];
    assert ThreadOk(u, s.table, me);
    if a.Swap? && At(s, me.cursor) == EMPTY {
      SwapOk(u, s.table, me.key, me.to, me.cursor);
    }
  }

  lemma OwnThread(u: Setup, s: State, s': State, t: nat, a: Action)
    requires Inv(u, s) && Step(u, s, s', t, a)
    ensures ThreadOk(u, s'.table, s'.threads[t])
  {
    match a
    case Start(key) => NothingPassed(u, s.table, key);
    case Load => OwnLoad(u, s, s', t);
    case Install(to) => OwnInstall(u, s, s', t, to);
    case Swap => OwnSwap(u, s, s', t);
    case Reload => OwnReload(u, s, s', t);
    case Leave =>
  }

  lemma OwnLoad(u: Setup, s: State, s': State, t: nat)
    requires Inv(u, s) && Step(u, s, s', t, Load)
    ensures ThreadOk(u, s.table, s'.threads[t])
  {
    var me := s.threads[t];
    assert ThreadOk(u, s.table, me);
    ReadOk(u, s.table, me.key, me.cursor);
  }

  lemma OwnReload(u: Setup, s: State, s': State, t: nat)
    requires Inv(u, s) && Step(u, s, s', t, Reload)
    ensures ThreadOk(u, s.table, s'.threads[t])
  {
    var me := s.threads[t];
    assert ThreadOk(u, s.table, me);
    ReadOk(u, s.table, me.key, me.cursor);
  }

  lemma OwnInstall(u: Setup, s: State, s': State, t: nat, to: Offset)
    requires Inv(u, s) && Step(u, s, s', t, Install(to))
    ensures ThreadOk(u, s.table, s'.threads[t])
  {
    assert ThreadOk(u, s.table, s.threads[t]);
  }

  lemma OwnSwap(u: Setup, s: State, s': State, t: nat)
    requires Inv(u, s) && Step(u, s, s', t, Swap)
    ensures ThreadOk(u, s'.table, s'.threads[t])
  {
    var me := s.threads[t];
    assert ThreadOk(u, s.table, me);
    if At(s, me.cursor) == EMPTY {
      SwapOk(u, s.table, me.key, me.to, me.cursor);
    }
  }

  lemma NothingPassed(u: Setup, table: seq<Word>, key: Index)
    ensures Passed(u, table, key, u.First(key))
  {
  }

  lemma ReadOk(u: Setup, table: seq<Word>, key: Index, c: nat)
    requires u.Ok() && TableOk(u, table) && c < u.Length() && Passed(u, table, key, c)
    ensures Populated(table[c]) && FromIndex(table[c]) == key ==> Forwards(table, key, ToOffset(table[c]))
    ensures Populated(table[c]) && FromIndex(table[c]) != key ==>
      u.Next(c) < u.Length() && Passed(u, table, key, u.Next(c)) && u.Dist(key, u.Next(c)) == u.Dist(key, c) + 1
  {
    if Populated(table[c]) {
      if FromIndex(table[c]) == key {
        assert Holds(table, key, ToOffset(table[c]), c);
      } else {
        ProbeOn(u, table, key, c);
      }
    }
  }

  lemma OtherThread(u: Setup, table: seq<Word>, table': seq<Word>, me: Thread)
    requires ThreadOk(u, table, me) && Keeps(table, table')
    ensures ThreadOk(u, table', me)
  {
    match me
    case Idle =>
    case Done(key, result) => ForwardsKeeps(table, table', key, result);
    case _ => PassedKeeps(u, table, table', me.key, me.cursor);
  }

  /** Every step of every thread keeps the invariant, and no step changes a populated slot. */
  lemma StepInv(u: Setup, s: State, s': State, t: nat, a: Action)
    requires Inv(u, s) && Step(u, s, s', t, a)
    ensures Inv(u, s') && Keeps(s.table, s'.table)
  {
    StepTable(u, s, s', t, a);
    forall v | v in s'.threads
      ensures ThreadOk(u, s'.table, s'.threads[v])
    {
      if v == t {
        OwnThread(u, s, s', t, a);
      } else {
        OtherThread(u, s.table, s'.table, s.threads[v]);
      }
    }
  }

  // Runs

  ghost predicate SomeStep(u: Setup, s: State, s': State) {
    exists t, a :: Step(u, s, s', t, a)
  }

  ghost predicate StepAt(u: Setup, states: seq<State>, i: nat) {
    i + 1 < |states| && SomeStep(u, states[i], states[i + 1])
  }

  ghost predicate Run(u: Setup, states: seq<State>) {
    && |states| > 0 && Init(u, states[0])
    && forall i: nat {:trigger StepAt(u, states, i)} :: i + 1 < |states| ==> StepAt(u, states, i)
  }

  lemma SomeStepInv(u: Setup, s: State, s': State)
    requires Inv(u, s) && SomeStep(u, s, s')
    ensures Inv(u, s') && Keeps(s.table, s'.table)
  {
    var t, a :| Step(u, s, s', t, a);
    StepInv(u, s, s', t, a);
  }

  lemma {:induction false} RunInv(u: Setup, states: seq<State>, i: nat)
    requires u.Ok() && Run(u, states) && i < |states|
    ensures Inv(u, states[i])
  {
    if i == 0 {
      InitInv(u, states[0]);
    } else {
      RunInv(u, states, i - 1);
      assert StepAt(u, states, i - 1);
      SomeStepInv(u, states[i - 1], states[i]);
    }
  }

  lemma KeepsOn(a: seq<Word>, b: seq<Word>, c: seq<Word>)
    requires Keeps(a, b) && Keeps(b, c)
    ensures Keeps(a, c)
  {
  }

  /** Once populated, a slot keeps its entry for the rest of the run. */
  lemma {:induction false} RunKeeps(u: Setup, states: seq<State>, i: nat, j: nat)
    requires u.Ok() && Run(u, states) && i <= j < |states|
    ensures Keeps(states[i].table, states[j].table)
    decreases j
  {
    if i < j {
      RunKeeps(u, states, i, j - 1);
      RunInv(u, states, j - 1);
      assert StepAt(u, states, j - 1);
      SomeStepInv(u, states[j - 1], states[j]);
      KeepsOn(states[i].table, states[j - 1].table, states[j].table);
    }
  }

  /** Whoever looks up or inserts an object, at whatever time in the run, is told the same new offset. */
  lemma Agreement(u: Setup, states: seq<State>, i: nat, t: nat, j: nat, v: nat)
    requires u.Ok() && Run(u, states) && i <= j < |states|
    requires t in states[i].threads && states[i].threads[t].Done?
    requires v in states[j].threads && states[j].threads[v].Done?
    requires states[i].threads[t].key == states[j].threads[v].key
    ensures states[i].threads[t].result == states[j].threads[v].result
  {
    RunInv(u, states, i);
    RunInv(u, states, j);
    RunKeeps(u, states, i, j);
    var key := states[i].threads[t].key;
    ForwardsKeeps(states[i].table, states[j].table, key, states[i].threads[t].result);
    var x: nat :| Holds(states[j].table, key, states[i].threads[t].result, x);
    var y: nat :| Holds(states[j].table, key, states[j].threads[v].result, y);
    OnceOnly(u, states[j].table, x, y);
  }

  /** A lookup that finds nothing read its last slot at a moment when the object had no entry. */
  lemma MissedWhenAbsent(u: Setup, s: State, s': State, t: nat)
    requires Inv(u, s) && Step(u, s, s', t, Load) && s'.threads[t].Missed?
    ensures forall to: Offset :: !Forwards(s.table, s.threads[t].key, to)
  {
    assert ThreadOk(u, s.table, s.threads[t]);
    MissIsAbsent(u, s.table, s.threads[t].key, s.threads[t].cursor);
  }

  // Termination

  /** An upper bound on the steps a thread still takes before its lookup or insertion is over. */
  ghost function Rank(u: Setup, table: seq<Word>, me: Thread): int {
    match me
    case Find(key, c) => u.Length() - u.Dist(key, c)
    case Cas(key, to, c) => 3 * (u.Length() - u.Dist(key, c)) + 1
    case Probe(key, to, c) => 3 * (u.Length() - u.Dist(key, c)) + if c < |table| && Populated(table[c]) then 0 else 2
    case _ => 0
  }

  /** A thread that is probing. */
  predicate Busy(me: Thread) {
    me.Find? || me.Cas? || me.Probe?
  }

  lemma RankBound(u: Setup, s: State, v: nat)
    requires Inv(u, s) && v in s.threads
    ensures 0 <= Rank(u, s.table, s.threads[v]) <= 3 * u.Length() + 2
  {
    assert ThreadOk(u, s.table, s.threads[v]);
  }

  /** A probing thread's own steps lower its rank. */
  lemma Progress(u: Setup, s: State, s': State, t: nat, a: Action)
    requires Inv(u, s) && Step(u, s, s', t, a) && Busy(s.threads[t])
    ensures 0 <= Rank(u, s'.table, s'.threads[t]) < Rank(u, s.table, s.threads[t]) <= 3 * u.Length() + 2
  {
    var me := s.threads[t];
    assert ThreadOk(u, s.table, me);
    assert SlotOk(u, s.table, me.cursor);
    ReadOk(u, s.table, me.key, me.cursor);
  }

  /** The steps of other threads never raise it. */
  lemma NoSetback(u: Setup, s: State, s': State, t: nat, a: Action, v: nat)
    requires Inv(u, s) && Step(u, s, s', t, a) && v in s.threads && v != t
    ensures Rank(u, s'.table, s'.threads[v]) <= Rank(u, s.table, s.threads[v])
  {
    StepTable(u, s, s', t, a);
  }

  ghost predicate StepBy(u: Setup, states: seq<State>, who: seq<nat>, acts: seq<Action>, i: nat) {
    i + 1 < |states| && i < |who| && i < |acts| && Step(u, states[i], states[i + 1], who[i], acts[i])
  }

  /** A run in which thread `who[i]` takes the step `acts[i]` out of `states[i]`. */
  ghost predicate RunBy(u: Setup, states: seq<State>, who: seq<nat>, acts: seq<Action>) {
    && |states| > 0 && Init(u, states[0])
    && forall i: nat {:trigger StepBy(u, states, who, acts, i)} :: i + 1 < |states| ==>
         StepBy(u, states, who, acts, i)
  }

  lemma RunByIsRun(u: Setup, states: seq<State>, who: seq<nat>, acts: seq<Action>)
    requires RunBy(u, states, who, acts)
    ensures Run(u, states)
  {
    forall i: nat {:trigger StepAt(u, states, i)} | i + 1 < |states|
      ensures StepAt(u, states, i)
    {
      assert StepBy(u, states, who, acts, i);
      assert SomeStep(u, states[i], states[i + 1]);
    }
  }

  /** How many of the steps from `i` up to `j` thread `v` takes. */
  function OwnSteps(who: seq<nat>, i: nat, j: nat, v: nat): nat
    requires i <= j <= |who|
    decreases j - i
  {
    if i == j then 0 else OwnSteps(who, i, j - 1, v) + if who[j - 1] == v then 1 else 0
  }

  /** Thread `v` is in the middle of one lookup or insertion. */
  ghost predicate BusyAt(states: seq<State>, v: nat, k: nat) {
    k < |states| && v in states[k].threads && Busy(states[k].threads[v])
  }

  lemma {:induction false} RankFalls(
    u: Setup, states: seq<State>, who: seq<nat>, acts: seq<Action>, i: nat, j: nat, v: nat)
    requires u.Ok() && RunBy(u, states, who, acts) && i <= j < |states| && j <= |who| && v in states[i].threads
    requires forall k: nat {:trigger BusyAt(states, v, k)} :: i <= k < j ==> BusyAt(states, v, k)
    ensures v in states[j].threads
    ensures Rank(u, states[j].table, states[j].threads[v]) + OwnSteps(who, i, j, v) <=
      Rank(u, states[i].table, states[i].threads[v])
    decreases j - i
  {
    if i < j {
      RankFalls(u, states, who, acts, i, j - 1, v);
      assert BusyAt(states, v, j - 1) && StepBy(u, states, who, acts, j - 1);
      RunByIsRun(u, states, who, acts);
      RunInv(u, states, j - 1);
      var a := acts[j - 1];
      if who[j - 1] == v {
        Progress(u, states[j - 1], states[j], v, a);
      } else {
        NoSetback(u, states[j - 1], states[j], who[j - 1], a, v);
      }
    }
  }

  /**
     In any run a thread is through with its probing after at most `3n + 2` steps of its own, whatever the
     others do.
   */
  lemma WaitFree(u: Setup, states: seq<State>, who: seq<nat>, acts: seq<Action>, i: nat, j: nat, v: nat)
    requires u.Ok() && RunBy(u, states, who, acts) && i <= j < |states| && j <= |who| && v in states[i].threads
    requires forall k: nat {:trigger BusyAt(states, v, k)} :: i <= k < j ==> BusyAt(states, v, k)
    ensures OwnSteps(who, i, j, v) <= 3 * u.Length() + 2
  {
    RankFalls(u, states, who, acts, i, j, v);
    RunByIsRun(u, states, who, acts);
    RunInv(u, states, i);
    RunInv(u, states, j);
    RankBound(u, states[i], v);
    RankBound(u, states[j], v);
  }

  /** What a thread can always do next: no thread is ever stuck. */
  lemma CanStep(u: Setup, s: State, t: nat) returns (a: Action, s': State)
    requires Inv(u, s) && t in s.threads && (s.threads[t].Idle? ==> u.live != {})
    ensures Step(u, s, s', t, a)
  {
    var me := s.threads[t];
    assert ThreadOk(u, s.table, me);
    match me {
      case Idle =>
        var key :| key in u.live;
        a, s' := Start(key), Moved(s, t, Find(key, u.First(key)));
      case Find(key, c) =>
        var e := s.table[c];
        a, s' := Load, Moved(s, t, if !Populated(e) then Missed(key, c)
          else if FromIndex(e) == key then Done(key, ToOffset(e)) else Find(key, u.Next(c)));
      case Missed(key, c) => a, s' := Install(0), Moved(s, t, Cas(key, 0, c));
      case Cas(key, to, c) =>
        a, s' := Swap, if s.table[c] == EMPTY
          then Moved(s, t, Done(key, to)).(table := s.table[c := Encode(key, to)])
          else Moved(s, t, Probe(key, to, c));
      case Probe(key, to, c) =>
        var e := s.table[c];
        a, s' := Reload, Moved(s, t, if !Populated(e) then Cas(key, to, c)
          else if FromIndex(e) == key then Done(key, ToOffset(e)) else Probe(key, to, u.Next(c)));
      case Done(key, result) => a, s' := Leave, Moved(s, t, Idle);
    }
  }

  function Moved(s: State, t: nat, me: Thread): State {
    s.(threads := s.threads[t := me])
  }

  // Where the offsets come from

  /** Step `i` of the run is a thread that starts to insert the object `key` at the offset `to`. */
  ghost predicate Gives(states: seq<State>, who: seq<nat>, acts: seq<Action>, i: nat, key: Index, to: Offset) {
    && i < |states| && i < |who| && i < |acts| && acts[i] == Install(to)
    && who[i] in states[i].threads && states[i].threads[who[i]].Missed? && states[i].threads[who[i]].key == key
  }

  /** Some thread has asked to insert `key` at `to` in the first `n` steps. */
  ghost predicate Given(states: seq<State>, who: seq<nat>, acts: seq<Action>, n: nat, key: Index, to: Offset) {
    exists i: nat :: i < n && Gives(states, who, acts, i, key, to)
  }

  /** Every offset that a thread carries or has been told. */
  ghost predicate ThreadGiven(states: seq<State>, who: seq<nat>, acts: seq<Action>, n: nat, me: Thread) {
    match me
    case Cas(key, to, _) => Given(states, who, acts, n, key, to)
    case Probe(key, to, _) => Given(states, who, acts, n, key, to)
    case Done(key, result) => Given(states, who, acts, n, key, result)
    case _ => true
  }

  ghost predicate EntryGiven(states: seq<State>, who: seq<nat>, acts: seq<Action>, n: nat, w: Word) {
    Populated(w) ==> Given(states, who, acts, n, FromIndex(w), ToOffset(w))
  }

  ghost predicate AllGiven(states: seq<State>, who: seq<nat>, acts: seq<Action>, n: nat)
    requires n < |states|
  {
    && (forall c :: 0 <= c < |states[n].table| ==> EntryGiven(states, who, acts, n, states[n].table[c]))
    && forall t :: t in states[n].threads ==> ThreadGiven(states, who, acts, n, states[n].threads[t])
  }

  lemma GivenMore(states: seq<State>, who: seq<nat>, acts: seq<Action>, n: nat, me: Thread, w: Word)
    ensures ThreadGiven(states, who, acts, n, me) ==> ThreadGiven(states, who, acts, n + 1, me)
    ensures EntryGiven(states, who, acts, n, w) ==> EntryGiven(states, who, acts, n + 1, w)
  {
  }

  lemma StepGiven(u: Setup, states: seq<State>, who: seq<nat>, acts: seq<Action>, n: nat)
    requires StepBy(u, states, who, acts, n) && AllGiven(states, who, acts, n)
    ensures AllGiven(states, who, acts, n + 1)
  {
    var s, s', t := states[n], states[n + 1], who[n];
    forall c | 0 <= c < |s'.table|
      ensures EntryGiven(states, who, acts, n + 1, s'.table[c])
    {
      EntryStep(u, states, who, acts, n, c);
    }
    forall v | v in s'.threads
      ensures ThreadGiven(states, who, acts, n + 1, s'.threads[v])
    {
      GivenMore(states, who, acts, n, s.threads[v], EMPTY);
      if v == t {
        OwnGiven(u, states, who, acts, n);
      }
    }
  }

  lemma EntryStep(u: Setup, states: seq<State>, who: seq<nat>, acts: seq<Action>, n: nat, c: nat)
    requires StepBy(u, states, who, acts, n) && AllGiven(states, who, acts, n) && c < |states[n + 1].table|
    ensures EntryGiven(states, who, acts, n + 1, states[n + 1].table[c])
  {
    var s, me := states[n], states[n].threads[who[n]];
    if acts[n].Swap? && At(s, me.cursor) == EMPTY && c == me.cursor {
      assert ThreadGiven(states, who, acts, n, me);
      EntryRoundTrip(me.key, me.to);
      GivenMore(states, who, acts, n, me, EMPTY);
    } else {
      GivenMore(states, who, acts, n, me, s.table[c]);
    }
  }

  lemma OwnGiven(u: Setup, states: seq<State>, who: seq<nat>, acts: seq<Action>, n: nat)
    requires StepBy(u, states, who, acts, n) && AllGiven(states, who, acts, n)
    ensures ThreadGiven(states, who, acts, n + 1, states[n + 1].threads[who[n]])
  {
    var s, me := states[n], states[n].threads[who[n]];
    assert ThreadGiven(states, who, acts, n, me);
    match acts[n] {
      case Install(to) => assert Gives(states, who, acts, n, me.key, to);
      case Swap => GivenMore(states, who, acts, n, me, EMPTY);
      case Start(key) =>
      case Leave =>
      case _ =>
        assert EntryGiven(states, who, acts, n, At(s, me.cursor));
        GivenMore(states, who, acts, n, me, At(s, me.cursor));
    }
  }

  /**
     Over any run, every offset that the table holds for an object, and every offset that a thread is told for
     it, is one at which some thread has asked to insert this object.
   */
  lemma {:induction false} OffsetsGiven(u: Setup, states: seq<State>, who: seq<nat>, acts: seq<Action>, n: nat)
    requires RunBy(u, states, who, acts) && n < |states|
    ensures AllGiven(states, who, acts, n)
  {
    if n == 0 {
      assert forall c :: 0 <= c < |states[0].table| ==> states[0].table[c] == EMPTY;
    } else {
      OffsetsGiven(u, states, who, acts, n - 1);
      assert StepBy(u, states, who, acts, n - 1);
      StepGiven(u, states, who, acts, n - 1);
    }
  }

  /** Thread `v` has not ended its operation by step `k`. */
  ghost predicate Going(states: seq<State>, v: nat, k: nat) {
    k < |states| && v in states[k].threads && !states[k].threads[v].Done? && !states[k].threads[v].Idle?
  }

  /** What `was` becomes when it starts on an object or starts to insert it, for as long as that goes on. */
  predicate Stays(a: Action, was: Thread, me: Thread) {
    match a
    case Start(key) => !me.Idle? && me.key == key
    case Install(to) => was.Missed? && (me.Cas? || me.Probe?) && me.key == was.key && me.to == to
    case _ => false
  }

  lemma StaysOn(u: Setup, s: State, s': State, t: nat, b: Action, v: nat, a: Action, was: Thread)
    requires Step(u, s, s', t, b) && v in s.threads && Stays(a, was, s.threads[v])
    ensures v in s'.threads && (s'.threads[v].Idle? || s'.threads[v].Done? || Stays(a, was, s'.threads[v]))
  {
    if v == t {
      StaysOwn(u, s, s', t, b, a, was);
    }
  }

  lemma StaysOwn(u: Setup, s: State, s': State, t: nat, b: Action, a: Action, was: Thread)
    requires Step(u, s, s', t, b) && Stays(a, was, s.threads[t])
    ensures t in s'.threads && (s'.threads[t].Idle? || s'.threads[t].Done? || Stays(a, was, s'.threads[t]))
  {
  }

  /** A thread that starts on an object stays with it, and keeps the offset at which it starts to insert it. */
  lemma {:induction false} StaysWith(
    u: Setup, states: seq<State>, who: seq<nat>, acts: seq<Action>, i: nat, j: nat, v: nat)
    requires RunBy(u, states, who, acts) && i < j < |states| && i < |who| && who[i] == v && i < |acts|
    requires acts[i].Start? || acts[i].Install?
    requires forall k: nat {:trigger Going(states, v, k)} :: i < k <= j ==> Going(states, v, k)
    ensures v in states[i].threads && Going(states, v, j)
    ensures Stays(acts[i], states[i].threads[v], states[j].threads[v])
    decreases j
  {
    assert StepBy(u, states, who, acts, i);
    assert Going(states, v, j);
    if i + 1 < j {
      StaysWith(u, states, who, acts, i, j - 1, v);
      assert StepBy(u, states, who, acts, j - 1);
      StaysOn(u, states[j - 1], states[j], who[j - 1], acts[j - 1], v, acts[i], states[i].threads[v]);
    }
  }

  /**
     An insertion that finds an empty slot enters the object at the offset that it was given, and that is what
     the thread is told; one that finds the object there already is told what the table holds.
   */
  lemma InsertEnds(u: Setup, states: seq<State>, who: seq<nat>, acts: seq<Action>, i: nat, j: nat, v: nat)
    requires u.Ok() && RunBy(u, states, who, acts) && i < j && j + 1 < |states|
    requires i < |who| && who[i] == v && i < |acts| && acts[i].Install?
    requires forall k: nat {:trigger Going(states, v, k)} :: i < k <= j ==> Going(states, v, k)
    requires v in states[j + 1].threads && states[j + 1].threads[v].Done?
    ensures v in states[i].threads && states[i].threads[v].Missed?
    ensures var key, to, result := states[i].threads[v].key, acts[i].to, states[j + 1].threads[v].result;
      && states[j + 1].threads[v].key == key
      && Forwards(states[j + 1].table, key, result)
      && if Forwards(states[j].table, key, result) then states[j + 1].table == states[j].table else result == to
  {
    StaysWith(u, states, who, acts, i, j, v);
    RunByIsRun(u, states, who, acts);
    RunInv(u, states, j);
    RunInv(u, states, j + 1);
    assert StepBy(u, states, who, acts, j) && Going(states, v, j);
    assert ThreadOk(u, states[j + 1].table, states[j + 1].threads[v]);
    var me := states[j].threads[v];
    assert ThreadOk(u, states[j].table, me);
    if who[j] == v {
      ReadOk(u, states[j].table, me.key, me.cursor);
      if acts[j].Swap? {
        MissIsAbsent(u, states[j].table, me.key, me.cursor);
      }
    }
  }
}
