/**
 Why the versions of the mark stack list (zMarkStack.inline.hpp) must not wrap within an operation: a run in
 which one thread completes exactly `2^32` operations while another is about to swap.  That swap then
 takes the list for the one it read long ago and drops two of its three elements.
 */
module StackWrap {
  import opened Options
  import opened VersionedStack

  // Runs of whole operations

  ghost predicate Path(run: seq<State>, who: seq<nat>, s: State, s': State) {
    && |run| > 0 && run[0] == s && run[|run| - 1] == s' && |who| + 1 == |run|
    && (forall i: nat {:trigger StepAt(run, who, i)} :: i + 1 < |run| ==> StepAt(run, who, i))
    && AllYoung(run, who, |who|, 0)
  }

  ghost predicate Leads(s: State, s': State) {
    exists run, who :: Path(run, who, s, s')
  }

  lemma Stays(s: State)
    ensures Leads(s, s)
  {
    assert Path([s], [], s, s);
  }

  lemma OneMore(s: State, s1: State, s2: State, t: nat, a: Action)
    requires Leads(s, s1) && Young(s1, t, 0) && Step(s1, s2, t, a)
    ensures Leads(s, s2)
  {
    var run, who :| Path(run, who, s, s1);
    var run', who' := run + [s2], who + [t];
    assert SomeStep(s1, s2, t);
    forall i: nat | i + 1 < |run'|
      ensures StepAt(run', who', i) && YoungAt(run', who', i, 0)
    {
      if i + 1 < |run| {
        assert StepAt(run, who, i) && YoungAt(run, who, i, 0);
      }
    }
    assert Path(run', who', s, s2);
  }

  lemma Onward(s: State, s1: State, s2: State)
    requires Leads(s, s1) && Leads(s1, s2)
    ensures Leads(s, s2)
  {
    var run, who :| Path(run, who, s, s1);
    var run2, who2 :| Path(run2, who2, s1, s2);
    var run', who' := run + run2[1..], who + who2;
    forall i: nat | i + 1 < |run'|
      ensures StepAt(run', who', i) && YoungAt(run', who', i, 0)
    {
      if i + 1 < |run| {
        assert StepAt(run, who, i) && YoungAt(run, who, i, 0);
      } else {
        var k: nat := i + 1 - |run|;
        assert StepAt(run2, who2, k) && YoungAt(run2, who2, k, 0);
        assert run'[i] == run2[k] && run'[i + 1] == run2[k + 1] && who'[i] == who2[k];
      }
    }
    assert Path(run', who', s, s2);
  }

  /** The head is well formed and carries the number of operations so far. */
  ghost predicate HeadOk(s: State, h: Head) {
    h.Ok() && s.head == Encode(h) && Decode(s.head) == h && h.version == s.ops % WRAP
  }

  ghost predicate Resting(s: State, t: nat) {
    t in s.threads && s.threads[t] == Idle
  }

  /** After thread `t` has pushed `n`, undisturbed. */
  ghost function Pushed(s: State, h: Head, n: nat): State
    requires h.Ok() && n < NULL
  {
    State(Encode(Head(Some(n), NextVersion(h.version))), s.next[n := h.node], s.threads, s.ops + 1, s.owner - {n})
  }

  lemma PushLeads(s: State, h: Head, t: nat, n: nat)
    requires HeadOk(s, h) && Resting(s, t) && n in s.owner && s.owner[n] == t && n < NULL
    ensures Leads(s, Pushed(s, h, n)) && HeadOk(Pushed(s, h, n), Head(Some(n), NextVersion(h.version)))
    ensures Resting(Pushed(s, h, n), t)
  {
    var s1 := s.(threads := s.threads[t := PushLoad(n)]);
    var s2 := s.(threads := s1.threads[t := PushWrite(n, h, s.ops)]);
    var s3 := s.(threads := s2.threads[t := PushSwap(n, h, s.ops)], next := s.next[n := h.node]);
    var s4 := Pushed(s, h, n);
    DecodeEncode(Head(Some(n), NextVersion(h.version)));
    VersionStep(s.ops);
    assert s4.threads == s3.threads[t := Idle];
    Stays(s);
    OneMore(s, s, s1, t, BeginPush(n));
    OneMore(s, s1, s2, t, Load);
    OneMore(s, s2, s3, t, Write);
    OneMore(s, s3, s4, t, Swap);
  }

  /** After thread `t` has popped the first element, undisturbed. */
  ghost function PoppedBy(s: State, h: Head, t: nat, n: nat): State
    requires h.Ok() && n in s.next && (s.next[n].Some? ==> s.next[n].value < NULL)
  {
    State(Encode(Head(s.next[n], NextVersion(h.version))), s.next, s.threads, s.ops + 1, s.owner[n := t])
  }

  lemma PopLeads(s: State, h: Head, t: nat, n: nat)
    requires HeadOk(s, h) && Resting(s, t) && h.node == Some(n) && n in s.next
    requires s.next[n].Some? ==> s.next[n].value < NULL
    ensures Leads(s, PoppedBy(s, h, t, n)) && HeadOk(PoppedBy(s, h, t, n), Head(s.next[n], NextVersion(h.version)))
    ensures Resting(PoppedBy(s, h, t, n), t)
  {
    var s1 := s.(threads := s.threads[t := PopLoad]);
    var s2 := s.(threads := s1.threads[t := PopRead(h, s.ops)]);
    var s3 := s.(threads := s2.threads[t := PopSwap(h, s.next[n], s.ops)]);
    var s5 := PoppedBy(s, h, t, n);
    var s4 := s5.(threads := s3.threads[t := Popped(Some(n))]);
    DecodeEncode(Head(s.next[n], NextVersion(h.version)));
    VersionStep(s.ops);
    assert s5.threads == s4.threads[t := Idle];
    Stays(s);
    OneMore(s, s, s1, t, BeginPop);
    OneMore(s, s1, s2, t, Load);
    OneMore(s, s2, s3, t, Read);
    OneMore(s, s3, s4, t, Swap);
    OneMore(s, s4, s5, t, Return);
  }

  // The run

  /** The list 0, 1, 2 after `ops` operations; thread 0 is at `me` and thread 1 has nothing. */
  ghost function Three(ops: nat, me: Thread): State {
    State(Encode(Head(Some(0), ops % WRAP)), map[0 := Some(1), 1 := Some(2), 2 := None], map[0 := me, 1 := Idle],
      ops, map[])
  }

  lemma ThreeHead(ops: nat, me: Thread)
    ensures HeadOk(Three(ops, me), Head(Some(0), ops % WRAP))
  {
    DecodeEncode(Head(Some(0), ops % WRAP));
  }

  /** Thread 1 pops the first element and pushes it again. */
  lemma PopPush(ops: nat, me: Thread)
    ensures Leads(Three(ops, me), Three(ops + 2, me))
  {
    var s, h := Three(ops, me), Head(Some(0), ops % WRAP);
    ThreeHead(ops, me);
    PopLeads(s, h, 1, 0);
    var p, g := PoppedBy(s, h, 1, 0), Head(Some(1), NextVersion(h.version));
    PushLeads(p, g, 1, 0);
    VersionStep(ops);
    VersionStep(ops + 1);
    assert Pushed(p, g, 0) == Three(ops + 2, me);
    Onward(s, p, Three(ops + 2, me));
  }

  lemma {:induction false} Rounds(ops: nat, me: Thread, k: nat)
    ensures Leads(Three(ops, me), Three(ops + 2 * k, me))
  {
    if k == 0 {
      Stays(Three(ops, me));
    } else {
      Rounds(ops, me, k - 1);
      PopPush(ops + 2 * (k - 1), me);
      Onward(Three(ops, me), Three(ops + 2 * (k - 1), me), Three(ops + 2 * k, me));
    }
  }

  /** Thread 1 owns the stacks 0, 1 and 2, and the list is empty. */
  ghost function Start(): State {
    State(Encode(Head(None, 0)), map[0 := None, 1 := None, 2 := None], map[0 := Idle, 1 := Idle], 0,
      map[0 := 1, 1 := 1, 2 := 1])
  }

  /** Thread 0 has read the list that holds only 0. */
  ghost function Waiting(): Thread {
    PopSwap(Head(Some(0), 1), None, 1)
  }

  ghost function OneListed(): State {
    State(Encode(Head(Some(0), 1)), map[0 := None, 1 := None, 2 := None], map[0 := Waiting(), 1 := Idle], 1,
      map[1 := 1, 2 := 1])
  }

  /** Thread 1 pushes 0, and thread 0 begins to pop it. */
  lemma Opening()
    ensures Leads(Start(), OneListed())
  {
    var s, h := Start(), Head(None, 0);
    DecodeEncode(h);
    PushLeads(s, h, 1, 0);
    var a, g := Pushed(s, h, 0), Head(Some(0), 1);
    var b := a.(threads := a.threads[0 := PopLoad]);
    var c := a.(threads := b.threads[0 := PopRead(g, 1)]);
    var d := OneListed();
    assert d == a.(threads := c.threads[0 := Waiting()]);
    OneMore(s, a, b, 0, BeginPop);
    OneMore(s, b, c, 0, Load);
    OneMore(s, c, d, 0, Read);
  }

  /** Thread 1 pops 0 and pushes 2, 1 and 0. */
  lemma Rebuilt()
    ensures Leads(OneListed(), Three(5, Waiting()))
  {
    var s, h := OneListed(), Head(Some(0), 1);
    DecodeEncode(h);
    PopLeads(s, h, 1, 0);
    var a, ha := PoppedBy(s, h, 1, 0), Head(None, 2);
    PushLeads(a, ha, 1, 2);
    var b, hb := Pushed(a, ha, 2), Head(Some(2), 3);
    PushLeads(b, hb, 1, 1);
    var c, hc := Pushed(b, hb, 1), Head(Some(1), 4);
    PushLeads(c, hc, 1, 0);
    assert Pushed(c, hc, 0) == Three(5, Waiting());
    Onward(s, a, b);
    Onward(s, b, c);
    Onward(s, c, Three(5, Waiting()));
  }

  /** The three elements are the abstract stack. */
  lemma ThreeInv(ops: nat)
    requires ops > 1
    ensures Inv(Three(ops, Waiting()), Head(Some(0), ops % WRAP), [0, 1, 2])
  {
    var s := Three(ops, Waiting());
    assert Chain(s.next, None, []);
    assert [2][1..] == [] && [1, 2][1..] == [2] && [0, 1, 2][1..] == [1, 2];
    assert Chain(s.next, Some(2), [2]);
    assert Chain(s.next, Some(1), [1, 2]);
    ThreeHead(ops, Waiting());
  }

  /** Of the three elements of the list, thread 0 pops one, and the list is then empty. */
  ghost predicate Drops(s: State, s': State) {
    && Inv(s, Decode(s.head), [0, 1, 2]) && Step(s, s', 0, Swap) && s'.threads[0] == Popped(Some(0))
    && s.ops - s.threads[0].at == WRAP && Decode(s'.head).node == None
  }

  lemma LastSwap(s: State) returns (s': State)
    requires s == Three(1 + WRAP, Waiting())
    ensures Drops(s, s')
  {
    ThreeInv(1 + WRAP);
    ThreeHead(1 + WRAP, Waiting());
    var h' := Head(None, 2);
    DecodeEncode(h');
    s' := State(Encode(h'), s.next, s.threads[0 := Popped(Some(0))], s.ops + 1, map[0 := 0]);
    assert Step(s, s', 0, Swap);
  }

  /** Thread 1 has completed `2^32` operations since thread 0 read the head. */
  lemma Wrapped() returns (run: seq<State>, who: seq<nat>)
    ensures Run(run, who) && AllYoung(run, who, |who|, 0) && |who| + 1 == |run|
    ensures run[|run| - 1] == Three(1 + WRAP, Waiting())
  {
    var k: nat := (WRAP - 4) / 2;
    Opening();
    Rebuilt();
    Rounds(5, Waiting(), k);
    Onward(Start(), OneListed(), Three(5, Waiting()));
    Onward(Start(), Three(5, Waiting()), Three(5 + 2 * k, Waiting()));
    run, who :| Path(run, who, Start(), Three(1 + WRAP, Waiting()));
    DecodeEncode(Head(None, 0));
  }

  /** A run whose last pop has lived through exactly `2^32` other operations and every other pop through none. */
  lemma WrapLoses() returns (run: seq<State>, who: seq<nat>)
    ensures Run(run, who) && |who| + 1 == |run| > 1
    ensures AllYoung(run, who, |who| - 1, 0) && AllYoung(run, who, |who|, WRAP)
    ensures Drops(run[|run| - 2], run[|run| - 1]) && !Linear(run, who, |run| - 1)
  {
    var run1, who1 := Wrapped();
    var s := run1[|run1| - 1];
    var s' := LastSwap(s);
    run, who := run1 + [s'], who1 + [0];
    assert SomeStep(s, s', 0);
    forall i: nat | i < |who|
      ensures StepAt(run, who, i) && YoungAt(run, who, i, WRAP) && (i < |who1| ==> YoungAt(run, who, i, 0))
    {
      if i < |who1| {
        assert StepAt(run1, who1, i) && YoungAt(run1, who1, i, 0);
      }
    }
    assert !FreshAt(run, who, |who1|);
    RunLinearizes(run, who, |run| - 1);
  }

  // The bound

  /** All runs linearize in which every pop that succeeds has lived through at most `k` other operations. */
  ghost predicate Bound(k: nat) {
    forall run: seq<State>, who: seq<nat> {:trigger AllYoung(run, who, |run| - 1, k)} ::
      Run(run, who) && AllYoung(run, who, |run| - 1, k) ==> Linear(run, who, |run| - 1)
  }

  /** This is so if and only if the version does not come round within a pop. */
  lemma BoundIsExact(k: nat)
    ensures Bound(k) <==> k < WRAP
  {
    if k < WRAP {
      forall run: seq<State>, who: seq<nat> {:trigger AllYoung(run, who, |run| - 1, k)} |
        Run(run, who) && AllYoung(run, who, |run| - 1, k)
        ensures Linear(run, who, |run| - 1)
      {
        YoungRun(run, who, |run| - 1, k);
      }
    } else {
      var run, who := WrapLoses();
      forall i: nat | i < |run| - 1
        ensures YoungAt(run, who, i, k)
      {
        assert YoungAt(run, who, i, WRAP);
      }
      assert AllYoung(run, who, |run| - 1, k);
    }
  }
}
