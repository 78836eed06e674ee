/**
 The lock-free list of mark stacks (zMarkStack.inline.hpp) as a system of atomic steps.  The head word
 pairs a stack's number with a 32-bit version that every successful push and pop increments.
 */
module VersionedStack {
  import opened Options

  const WRAP: nat := 0x1_0000_0000
  /** The number that stands for the null pointer, `(uint32_t)-1`. */
  const NULL: nat := 0xFFFF_FFFF

  datatype Head = Head(node: Option<nat>, version: nat) {
    predicate Ok() {
      version < WRAP && (node.Some? ==> node.value < NULL)
    }
  }

  /** `encode_versioned_pointer`: stacks are numbered by their place in the mark stack space. */
  function Encode(h: Head): nat
    requires h.Ok()
  {
    (if h.node.None? then NULL else h.node.value) * WRAP + h.version
  }

  /** `decode_versioned_pointer`. */
  function Decode(w: nat): Head {
    Head(if w / WRAP == NULL then None else Some(w / WRAP), w % WRAP)
  }

  lemma DecodeEncode(h: Head)
    requires h.Ok()
    ensures Decode(Encode(h)) == h
  {
    var a := if h.node.None? then NULL else h.node.value;
    assert (a * WRAP + h.version) / WRAP == a;
    assert (a * WRAP + h.version) % WRAP == h.version;
  }

  /** The version after one more operation. */
  function NextVersion(v: nat): nat {
    if v + 1 == WRAP then 0 else v + 1
  }

  /**
   Where a thread is; `at` counts the operations that had succeeded when it read the head.
   PushWrite: about to write the new stack's `next`.  PopRead: about to read it.
   */
  datatype Thread =
    | Idle
    | PushLoad(node: nat)
    | PushWrite(node: nat, seen: Head, ghost at: nat)
    | PushSwap(node: nat, seen: Head, ghost at: nat)
    | PopLoad
    | PopRead(seen: Head, ghost at: nat)
    | PopSwap(seen: Head, next: Option<nat>, ghost at: nat)
    | Popped(result: Option<nat>)

  /** `owner` says which thread has each stack that is not in the list; `ops` counts the successful operations. */
  datatype State = State(head: nat, next: map<nat, Option<nat>>, threads: map<nat, Thread>, ghost ops: nat,
    ghost owner: map<nat, nat>)

  datatype Action = BeginPush(node: nat) | BeginPop | Load | Write | Read | Swap | Return
    | Scribble(node: nat, value: Option<nat>) | Give(node: nat, to: nat)

  ghost predicate Others(s: State, s': State, t: nat, th: Thread) {
    && t in s.threads && s'.threads == s.threads[t := th]
  }

  /** A step that touches only its own thread. */
  ghost predicate Local(s: State, s': State, t: nat, th: Thread) {
    Others(s, s', t, th) && s'.head == s.head && s'.next == s.next && s'.ops == s.ops && s'.owner == s.owner
  }

  function WithSeen(me: Thread, seen: Head, ghost at: nat): Thread
    requires me.PushSwap? || me.PopSwap? || me.PushLoad? || me.PopLoad?
  {
    match me
    case PushLoad(n) => PushWrite(n, seen, at)
    case PushSwap(n, _, _) => PushWrite(n, seen, at)
    case _ => if seen.node.None? then Popped(None) else PopRead(seen, at)
  }

  /** The head that a swap tries to install. */
  function NewHead(me: Thread): Head
    requires me.PushSwap? || me.PopSwap?
  {
    Head(if me.PushSwap? then Some(me.node) else me.next, NextVersion(me.seen.version))
  }

  /** One atomic step of thread `t`. */
  ghost predicate Step(s: State, s': State, t: nat, a: Action) {
    t in s.threads && var me := s.threads[t]; match a
    case BeginPush(node) => me.Idle? && node in s.owner && s.owner[node] == t && Local(s, s', t, PushLoad(node))
    case BeginPop => me.Idle? && Local(s, s', t, PopLoad)
    case Load => (me.PushLoad? || me.PopLoad?) && Local(s, s', t, WithSeen(me, Decode(s.head), s.ops))
    case Write => me.PushWrite? &&
      Others(s, s', t, PushSwap(me.node, me.seen, me.at)) && s'.next == s.next[me.node := me.seen.node] &&
      s'.head == s.head && s'.ops == s.ops && s'.owner == s.owner
    case Read => me.PopRead? && me.seen.node.Some? && me.seen.node.value in s.next &&
      Local(s, s', t, PopSwap(me.seen, s.next[me.seen.node.value], me.at))
    case Swap =>
      && (me.PushSwap? || me.PopSwap?) && me.seen.Ok()
      && NewHead(me).Ok()
      && if s.head == Encode(me.seen) then
           && s'.head == Encode(NewHead(me)) && s'.next == s.next && s'.ops == s.ops + 1
           && (if me.PushSwap? then Others(s, s', t, Idle) && s'.owner == s.owner - {me.node}
               else
                 && me.seen.node.Some? && Others(s, s', t, Popped(me.seen.node))
                 && s'.owner == s.owner[me.seen.node.value := t])
         else Local(s, s', t, WithSeen(me, Decode(s.head), s.ops))
    case Return => me.Popped? && Local(s, s', t, Idle)
    case Scribble(node, value) => me.Idle? && node in s.owner && s.owner[node] == t &&
      (value.Some? ==> value.value < NULL) &&
      Others(s, s', t, me) && s'.next == s.next[node := value] && s'.head == s.head && s'.ops == s.ops &&
        s'.owner == s.owner
    case Give(node, to) =>
      && me.Idle? && node in s.owner && s.owner[node] == t
      && Others(s, s', t, me) && s'.owner == s.owner[node := to] && s'.head == s.head && s'.next == s.next &&
        s'.ops == s.ops
  }

  /** Thread `t` is about to complete a pop. */
  ghost predicate Popping(s: State, t: nat) {
    t in s.threads && s.threads[t].PopSwap? && s.threads[t].seen.Ok() && s.head == Encode(s.threads[t].seen)
  }

  /** If so, the link that it read is still the link of the element it takes. */
  ghost predicate Fresh(s: State, t: nat) {
    Popping(s, t) ==>
      var me := s.threads[t];
      me.seen.node.Some? && me.seen.node.value in s.next && me.next == s.next[me.seen.node.value]
  }

  /** If so, at most `k` operations have succeeded since it read the head. */
  ghost predicate Young(s: State, t: nat, k: nat) {
    Popping(s, t) ==> s.ops - s.threads[t].at <= k
  }

  // The abstract stack

  /** The list that starts at `first` holds exactly `stack`. */
  ghost predicate Chain(next: map<nat, Option<nat>>, first: Option<nat>, stack: seq<nat>)
    decreases stack
  {
    if stack == [] then first == None
    else first == Some(stack[0]) && stack[0] in next && Chain(next, next[stack[0]], stack[1..])
  }

  ghost predicate HeadIs(s: State, h: Head) {
    h.Ok() && s.head == Encode(h) && h.version == s.ops % WRAP
  }

  ghost predicate SeenOk(s: State, h: Head, seen: Head, at: nat) {
    seen.Ok() && at <= s.ops && seen.version == at % WRAP && (at == s.ops ==> seen == h)
  }

  ghost predicate ThreadOk(s: State, h: Head, t: nat)
    requires t in s.threads
  {
    match s.threads[t]
    case PushLoad(n) => n in s.owner && s.owner[n] == t
    case PushWrite(n, seen, at) => n in s.owner && s.owner[n] == t && SeenOk(s, h, seen, at)
    case PushSwap(n, seen, at) => n in s.owner && s.owner[n] == t && SeenOk(s, h, seen, at) && n in s.next &&
      s.next[n] == seen.node
    case PopRead(seen, at) => SeenOk(s, h, seen, at) && seen.node.Some? && seen.node.value in s.next
    case PopSwap(seen, n, at) =>
      && SeenOk(s, h, seen, at) && seen.node.Some? && seen.node.value in s.next
      && (n.Some? ==> n.value < NULL) && (at == s.ops ==> s.next[seen.node.value] == n)
    case _ => true
  }

  /** `stack` is the abstract stack of the state: it lists each stack once, apart from those that threads own. */
  ghost predicate Inv(s: State, h: Head, stack: seq<nat>) {
    && HeadIs(s, h) && Chain(s.next, h.node, stack)
    && (forall i, j :: 0 <= i < j < |stack| ==> stack[i] != stack[j])
    && (forall n :: n in stack ==> n !in s.owner)
    && (forall n :: n in s.owner ==> n in s.next)
    && (forall n :: n in s.next ==> n < NULL && (s.next[n].Some? ==> s.next[n].value < NULL))
    && (forall t {:trigger ThreadOk(s, h, t)} :: t in s.threads ==> ThreadOk(s, h, t))
  }

  /** What a step does to the abstract stack: a push that succeeds and a pop that succeeds take effect at their swap. */
  ghost predicate Abstract(s: State, s': State, t: nat, stack: seq<nat>, stack': seq<nat>)
    requires t in s.threads && t in s'.threads
  {
    var me, me' := s.threads[t], s'.threads[t];
    if me.PushSwap? && s'.ops > s.ops then stack' == [me.node] + stack
    else if me.PopSwap? && s'.ops > s.ops then me' == Popped(me.seen.node) && me.seen.node.Some? &&
      stack == [me.seen.node.value] + stack'
    else stack' == stack && ((me.PopLoad? || me.PopSwap?) && me'.Popped? ==> me'.result == None && stack == [])
  }

  lemma {:induction false} ChainSame(
    next: map<nat, Option<nat>>, next': map<nat, Option<nat>>, first: Option<nat>, stack: seq<nat>)
    requires Chain(next, first, stack)
    requires forall n :: n in stack && n in next ==> n in next' && next'[n] == next[n]
    ensures Chain(next', first, stack)
    decreases stack
  {
    if stack != [] {
      ChainSame(next, next', next[stack[0]], stack[1..]);
    }
  }

  lemma VersionStep(ops: nat)
    ensures (ops + 1) % WRAP == NextVersion(ops % WRAP)
  {
  }

  /** Two operation counts less than a wrap apart with the same version are the same. */
  lemma SameVersion(at: nat, ops: nat)
    requires at <= ops < at + WRAP && at % WRAP == ops % WRAP
    ensures at == ops
  {
  }

  /** A swap that succeeds saw the head that is there, whatever has happened in between. */
  lemma SwapSawHead(s: State, h: Head, seen: Head)
    requires HeadIs(s, h) && seen.Ok() && s.head == Encode(seen)
    ensures seen == h
  {
    DecodeEncode(h);
    DecodeEncode(seen);
  }

  /** The link read by a pop that has not lived through `2^32` other operations is current. */
  lemma YoungIsFresh(s: State, h: Head, stack: seq<nat>, t: nat)
    requires Inv(s, h, stack) && t in s.threads && Young(s, t, WRAP - 1)
    ensures Fresh(s, t)
  {
    if Popping(s, t) {
      assert ThreadOk(s, h, t);
      SwapSawHead(s, h, s.threads[t].seen);
      SameVersion(s.threads[t].at, s.ops);
    }
  }

  lemma FirstOf(next: map<nat, Option<nat>>, first: Option<nat>, other: Option<nat>, stack: seq<nat>)
    requires Chain(next, first, stack) && Chain(next, other, stack)
    ensures first == other
  {
  }

  /** The new abstract stack and head. */
  ghost function After(s: State, s': State, t: nat, stack: seq<nat>): seq<nat>
    requires t in s.threads
  {
    var me := s.threads[t];
    if s'.ops <= s.ops then stack
    else if me.PushSwap? then [me.node] + stack
    else if stack != [] then stack[1..]
    else stack
  }

  ghost function HeadAfter(s: State, s': State, t: nat, h: Head): Head
    requires t in s.threads
  {
    var me := s.threads[t];
    if s'.ops <= s.ops then h
    else Head(if me.PushSwap? then Some(me.node) else if me.PopSwap? then me.next else h.node, NextVersion(h.version))
  }

  /** A push that succeeds is right however long it has taken. */
  lemma PushDone(s: State, h: Head, stack: seq<nat>, s': State, t: nat)
    requires Inv(s, h, stack) && Step(s, s', t, Swap) && s.threads[t].PushSwap? && s'.ops > s.ops
    ensures Inv(s', HeadAfter(s, s', t, h), After(s, s', t, stack)) && Abstract(s, s', t, stack, After(s, s', t, stack))
  {
    var me := s.threads[t];
    assert ThreadOk(s, h, t);
    SwapSawHead(s, h, me.seen);
    VersionStep(s.ops);
    var h', stack' := HeadAfter(s, s', t, h), [me.node] + stack;
    assert stack'[1..] == stack;
    forall v | v in s'.threads
      ensures ThreadOk(s', h', v)
    {
      assert ThreadOk(s, h, v);
      assert v != t && (s.threads[v].PushLoad? || s.threads[v].PushWrite? || s.threads[v].PushSwap?) ==>
        s.threads[v].node != me.node;
    }
  }

  /**
     A pop that succeeds takes the first element; what is left is the list if and only if the link it read is
     current.
   */
  lemma PopDone(s: State, h: Head, stack: seq<nat>, s': State, t: nat)
    requires Inv(s, h, stack) && Step(s, s', t, Swap) && s.threads[t].PopSwap? && s'.ops > s.ops
    ensures stack != [] && stack[0] in s.next && s.threads[t].seen.node == Some(stack[0])
    ensures Abstract(s, s', t, stack, stack[1..])
    ensures Inv(s', HeadAfter(s, s', t, h), stack[1..]) <==> s.threads[t].next == s.next[stack[0]]
  {
    var me := s.threads[t];
    assert ThreadOk(s, h, t);
    SwapSawHead(s, h, me.seen);
    var h', stack' := HeadAfter(s, s', t, h), stack[1..];
    assert stack == [stack[0]] + stack';
    if me.next == s.next[stack[0]] {
      PopRight(s, h, stack, s', t);
    } else if Inv(s', h', stack') {
      FirstOf(s.next, me.next, s.next[stack[0]], stack');
    }
  }

  lemma PopRight(s: State, h: Head, stack: seq<nat>, s': State, t: nat)
    requires Inv(s, h, stack) && Step(s, s', t, Swap) && s.threads[t].PopSwap? && s'.ops > s.ops
    requires stack != [] && stack[0] in s.next && s.threads[t].seen == h && h.node == Some(stack[0])
    requires s.threads[t].next == s.next[stack[0]]
    ensures Inv(s', HeadAfter(s, s', t, h), stack[1..])
  {
    assert ThreadOk(s, h, t);
    VersionStep(s.ops);
    var h', stack' := HeadAfter(s, s', t, h), stack[1..];
    assert stack == [stack[0]] + stack';
    forall v | v in s'.threads
      ensures ThreadOk(s', h', v)
    {
      assert ThreadOk(s, h, v);
      assert stack[0] !in s.owner;
    }
  }

  /** Steps that do not complete an operation leave the abstract stack alone. */
  lemma OtherStep(s: State, h: Head, stack: seq<nat>, s': State, t: nat, a: Action)
    requires Inv(s, h, stack) && Step(s, s', t, a) && s'.ops == s.ops
    ensures Inv(s', h, stack) && Abstract(s, s', t, stack, stack)
  {
    assert ThreadOk(s, h, t);
    DecodeEncode(h);
    if a.Write? || a.Scribble? {
      ChainSame(s.next, s'.next, h.node, stack);
    }
    forall v | v in s'.threads
      ensures ThreadOk(s', h, v)
    {
      if v == t {
        OwnThread(s, h, stack, s', t, a);
      } else {
        OtherThread(s, h, stack, s', t, a, v);
      }
    }
    HeadInStack(s, h, stack);
  }

  lemma OwnThread(s: State, h: Head, stack: seq<nat>, s': State, t: nat, a: Action)
    requires Inv(s, h, stack) && Step(s, s', t, a) && s'.ops == s.ops
    ensures ThreadOk(s', h, t)
  {
    assert ThreadOk(s, h, t);
    DecodeEncode(h);
    HeadInStack(s, h, stack);
  }

  lemma OtherThread(s: State, h: Head, stack: seq<nat>, s': State, t: nat, a: Action, v: nat)
    requires Inv(s, h, stack) && Step(s, s', t, a) && s'.ops == s.ops && v in s.threads && v != t
    ensures ThreadOk(s', h, v)
  {
    HeadInStack(s, h, stack);
    assert ThreadOk(s, h, t) && ThreadOk(s, h, v);
  }

  lemma HeadInStack(s: State, h: Head, stack: seq<nat>)
    requires Chain(s.next, h.node, stack)
    ensures h.node.Some? ==> h.node.value in stack && h.node.value in s.next
    ensures h.node.None? ==> stack == []
  {
  }

  /**
     Every step does to the abstract stack what the operation promises, and the list is the new abstract stack
     if and only if the step is no pop that succeeds with a link that is no longer current.
   */
  lemma Linearizes(s: State, h: Head, stack: seq<nat>, s': State, t: nat, a: Action)
    requires Inv(s, h, stack) && Step(s, s', t, a)
    ensures Abstract(s, s', t, stack, After(s, s', t, stack))
    ensures Inv(s', HeadAfter(s, s', t, h), After(s, s', t, stack)) <==> (s'.ops > s.ops ==> Fresh(s, t))
  {
    if s'.ops == s.ops {
      OtherStep(s, h, stack, s', t, a);
    } else if s.threads[t].PushSwap? {
      PushDone(s, h, stack, s', t);
    } else {
      PopDone(s, h, stack, s', t);
    }
  }

  /** A swap fails only if another operation has succeeded since the thread read the head. */
  lemma FailsOnlyIfBeaten(s: State, h: Head, stack: seq<nat>, s': State, t: nat)
    requires Inv(s, h, stack) && Step(s, s', t, Swap) && s'.ops == s.ops
    ensures s.threads[t].at < s.ops
  {
    assert ThreadOk(s, h, t);
  }

  /** A pop returns null exactly if it reads the head of an empty list. */
  lemma EmptyExactly(s: State, h: Head, stack: seq<nat>, s': State, t: nat)
    requires Inv(s, h, stack) && Step(s, s', t, Load) && s.threads[t].PopLoad?
    ensures t in s'.threads && (s'.threads[t] == Popped(None) <==> stack == [])
    ensures s'.threads[t].Popped? ==> s'.threads[t].result.None?
  {
    DecodeEncode(h);
    HeadInStack(s, h, stack);
  }

  /** What a thread can always do next. */
  lemma CanStep(s: State, h: Head, stack: seq<nat>, t: nat) returns (a: Action, s': State)
    requires Inv(s, h, stack) && t in s.threads
    ensures Step(s, s', t, a)
  {
    var me := s.threads[t];
    assert ThreadOk(s, h, t);
    match me {
      case Idle => a, s' := BeginPop, Moved(s, t, PopLoad);
      case PushLoad(_) => a, s' := Load, Moved(s, t, WithSeen(me, Decode(s.head), s.ops));
      case PopLoad => a, s' := Load, Moved(s, t, WithSeen(me, Decode(s.head), s.ops));
      case PushWrite(n, seen, at) =>
        a, s' := Write, Moved(s, t, PushSwap(n, seen, at)).(next := s.next[n := seen.node]);
      case PopRead(seen, at) => a, s' := Read, Moved(s, t, PopSwap(seen, s.next[seen.node.value], at));
      case PushSwap(_, _, _) => a, s' := SwapStep(s, h, stack, t);
      case PopSwap(_, _, _) => a, s' := SwapStep(s, h, stack, t);
      case Popped(_) => a, s' := Return, Moved(s, t, Idle);
    }
  }

  ghost function Moved(s: State, t: nat, th: Thread): State {
    s.(threads := s.threads[t := th])
  }

  lemma SwapStep(s: State, h: Head, stack: seq<nat>, t: nat) returns (a: Action, s': State)
    requires Inv(s, h, stack) && t in s.threads && (s.threads[t].PushSwap? || s.threads[t].PopSwap?)
    ensures Step(s, s', t, a)
  {
    var me := s.threads[t];
    assert ThreadOk(s, h, t);
    a := Swap;
    if s.head != Encode(me.seen) {
      s' := Moved(s, t, WithSeen(me, Decode(s.head), s.ops));
    } else if me.PushSwap? {
      s' := Moved(s, t, Idle).(head := Encode(NewHead(me)), ops := s.ops + 1, owner := s.owner - {me.node});
    } else {
      s' := Moved(s, t, Popped(me.seen.node)).(
        head := Encode(NewHead(me)), ops := s.ops + 1, owner := s.owner[me.seen.node.value := t]);
    }
  }

  // Runs

  ghost predicate SomeStep(s: State, s': State, t: nat) {
    exists a :: Step(s, s', t, a)
  }

  ghost predicate StepAt(run: seq<State>, who: seq<nat>, i: nat) {
    i + 1 < |run| && i < |who| && SomeStep(run[i], run[i + 1], who[i])
  }

  /** A run from an empty list, in which thread `who[i]` takes step `i`. */
  ghost predicate Run(run: seq<State>, who: seq<nat>) {
    && |run| > 0 && Inv(run[0], Head(None, run[0].ops % WRAP), [])
    && forall i: nat {:trigger StepAt(run, who, i)} :: i + 1 < |run| ==> StepAt(run, who, i)
  }

  /** The abstract stack after `i` steps. */
  ghost function StackAt(run: seq<State>, who: seq<nat>, i: nat): seq<nat>
    requires Run(run, who) && i < |run|
  {
    if i == 0 then [] else
      assert StepAt(run, who, i - 1);
      After(run[i - 1], run[i], who[i - 1], StackAt(run, who, i - 1))
  }

  ghost predicate FreshAt(run: seq<State>, who: seq<nat>, i: nat) {
    i + 1 < |run| && i < |who| && (run[i + 1].ops > run[i].ops ==> Fresh(run[i], who[i]))
  }

  /** No step up to `n` is a pop that succeeds with a link that is no longer current. */
  ghost predicate AllFresh(run: seq<State>, who: seq<nat>, n: nat) {
    forall i: nat {:trigger FreshAt(run, who, i)} :: i < n ==> FreshAt(run, who, i)
  }

  /** The list is the abstract stack. */
  ghost predicate LinearAt(run: seq<State>, who: seq<nat>, i: nat)
    requires Run(run, who)
  {
    i < |run| && Inv(run[i], Decode(run[i].head), StackAt(run, who, i))
  }

  /** It is so up to step `n`, and every operation does to the abstract stack what it promises. */
  ghost predicate Linear(run: seq<State>, who: seq<nat>, n: nat)
    requires Run(run, who)
  {
    && (forall i: nat {:trigger LinearAt(run, who, i)} :: i <= n ==> LinearAt(run, who, i))
    && (forall i: nat {:trigger AbstractAt(run, who, i)} :: i < n ==> AbstractAt(run, who, i))
  }

  ghost predicate AbstractAt(run: seq<State>, who: seq<nat>, i: nat)
    requires Run(run, who)
  {
    && i + 1 < |run| && StepAt(run, who, i) && who[i] in run[i].threads && who[i] in run[i + 1].threads
    && Abstract(run[i], run[i + 1], who[i], StackAt(run, who, i), StackAt(run, who, i + 1))
  }

  /** One step of a run, from a list that is the abstract stack. */
  lemma LinearStep(run: seq<State>, who: seq<nat>, i: nat)
    requires Run(run, who) && i + 1 < |run| && LinearAt(run, who, i)
    ensures AbstractAt(run, who, i) && (LinearAt(run, who, i + 1) <==> FreshAt(run, who, i))
  {
    assert StepAt(run, who, i);
    var a :| Step(run[i], run[i + 1], who[i], a);
    var h := Decode(run[i].head);
    Linearizes(run[i], h, StackAt(run, who, i), run[i + 1], who[i], a);
    NewHeadIs(run[i], h, StackAt(run, who, i), run[i + 1], who[i], a);
  }

  lemma NewHeadIs(s: State, h: Head, stack: seq<nat>, s': State, t: nat, a: Action)
    requires Inv(s, h, stack) && Step(s, s', t, a)
    ensures Decode(s'.head) == HeadAfter(s, s', t, h)
  {
    DecodeEncode(h);
    if s'.ops > s.ops {
      SwapSawHead(s, h, s.threads[t].seen);
      DecodeEncode(NewHead(s.threads[t]));
    }
  }

  /** A run linearizes exactly as long as no pop succeeds with a link that is no longer current. */
  lemma {:induction false} RunLinearizes(run: seq<State>, who: seq<nat>, n: nat)
    requires Run(run, who) && n < |run|
    ensures Linear(run, who, n) <==> AllFresh(run, who, n)
  {
    if n == 0 {
      DecodeEncode(Head(None, run[0].ops % WRAP));
      assert LinearAt(run, who, 0);
    } else {
      RunLinearizes(run, who, n - 1);
      LinearMore(run, who, n);
    }
  }

  lemma LinearMore(run: seq<State>, who: seq<nat>, n: nat)
    requires Run(run, who) && 0 < n < |run| && (Linear(run, who, n - 1) <==> AllFresh(run, who, n - 1))
    ensures Linear(run, who, n) <==> AllFresh(run, who, n)
  {
    if Linear(run, who, n - 1) {
      assert LinearAt(run, who, n - 1);
      LinearStep(run, who, n - 1);
      assert AllFresh(run, who, n) <==> FreshAt(run, who, n - 1);
      assert Linear(run, who, n) <==> LinearAt(run, who, n);
    } else {
      assert Linear(run, who, n) ==> Linear(run, who, n - 1);
      assert AllFresh(run, who, n) ==> AllFresh(run, who, n - 1);
    }
  }

  ghost predicate YoungAt(run: seq<State>, who: seq<nat>, i: nat, k: nat) {
    i + 1 < |run| && i < |who| && (run[i + 1].ops > run[i].ops ==> Young(run[i], who[i], k))
  }

  /** Every pop that succeeds has lived through at most `k` other operations. */
  ghost predicate AllYoung(run: seq<State>, who: seq<nat>, n: nat, k: nat) {
    forall i: nat {:trigger YoungAt(run, who, i, k)} :: i < n ==> YoungAt(run, who, i, k)
  }

  lemma {:induction false} YoungRun(run: seq<State>, who: seq<nat>, n: nat, k: nat)
    requires Run(run, who) && n < |run| && AllYoung(run, who, n, k) && k < WRAP
    ensures Linear(run, who, n)
  {
    if n > 0 {
      YoungRun(run, who, n - 1, k);
      RunLinearizes(run, who, n - 1);
      assert LinearAt(run, who, n - 1) && YoungAt(run, who, n - 1, k) && StepAt(run, who, n - 1);
      YoungFresh(run, who, n - 1, k);
      assert AllFresh(run, who, n);
    }
    RunLinearizes(run, who, n);
  }

  lemma YoungFresh(run: seq<State>, who: seq<nat>, i: nat, k: nat)
    requires Run(run, who) && LinearAt(run, who, i) && YoungAt(run, who, i, k) && StepAt(run, who, i) && k < WRAP
    ensures FreshAt(run, who, i)
  {
    if run[i + 1].ops > run[i].ops {
      YoungIsFresh(run[i], Decode(run[i].head), StackAt(run, who, i), who[i]);
    }
  }

  /** Whether step `i` has put `n` into the list. */
  ghost predicate Pushes(run: seq<State>, who: seq<nat>, i: nat, n: nat)
    requires Run(run, who) && i + 1 < |run|
  {
    assert StepAt(run, who, i);
    var me := run[i].threads[who[i]];
    me.PushSwap? && run[i + 1].ops > run[i].ops && me.node == n
  }

  /** Whether step `i` has returned `n` to the thread that pops it. */
  ghost predicate Pops(run: seq<State>, who: seq<nat>, i: nat, n: nat)
    requires Run(run, who) && i + 1 < |run|
  {
    assert StepAt(run, who, i);
    var me, me' := run[i].threads[who[i]], run[i + 1].threads[who[i]];
    !me.Popped? && me'.Popped? && me'.result == Some(n)
  }

  /** How often `n` has been pushed, and popped, in the first `i` steps. */
  ghost function TimesPushed(run: seq<State>, who: seq<nat>, i: nat, n: nat): nat
    requires Run(run, who) && i < |run|
  {
    if i == 0 then 0 else TimesPushed(run, who, i - 1, n) + if Pushes(run, who, i - 1, n) then 1 else 0
  }

  ghost function TimesPopped(run: seq<State>, who: seq<nat>, i: nat, n: nat): nat
    requires Run(run, who) && i < |run|
  {
    if i == 0 then 0 else TimesPopped(run, who, i - 1, n) + if Pops(run, who, i - 1, n) then 1 else 0
  }

  function Times(stack: seq<nat>, n: nat): nat {
    if stack == [] then 0 else (if stack[0] == n then 1 else 0) + Times(stack[1..], n)
  }

  /** What one step pushes comes into the abstract stack, and what it pops leaves it. */
  lemma StepConserves(run: seq<State>, who: seq<nat>, i: nat, n: nat)
    requires Run(run, who) && i + 1 < |run| && Linear(run, who, i + 1)
    ensures Times(StackAt(run, who, i), n) + (if Pushes(run, who, i, n) then 1 else 0) ==
      Times(StackAt(run, who, i + 1), n) + if Pops(run, who, i, n) then 1 else 0
  {
    assert AbstractAt(run, who, i) && StepAt(run, who, i);
    var a :| Step(run[i], run[i + 1], who[i], a);
    PopReturns(run[i], run[i + 1], who[i], a, StackAt(run, who, i), StackAt(run, who, i + 1), n);
  }

  lemma PopReturns(s: State, s': State, t: nat, a: Action, stack: seq<nat>, stack': seq<nat>, n: nat)
    requires Step(s, s', t, a) && Abstract(s, s', t, stack, stack')
    ensures var me, me' := s.threads[t], s'.threads[t];
      Times(stack, n) + (if me.PushSwap? && s'.ops > s.ops && me.node == n then 1 else 0) ==
      Times(stack', n) + if !me.Popped? && me'.Popped? && me'.result == Some(n) then 1 else 0
  {
    var me := s.threads[t];
    if me.PushSwap? && s'.ops > s.ops {
      assert stack'[1..] == stack;
    } else if me.PopSwap? && s'.ops > s.ops {
      assert stack[1..] == stack';
    }
  }

  /**
     No element is lost and none is popped twice: however often it was pushed, it has been popped as often, or
     once less while it is listed.
   */
  lemma {:induction false} Conserved(run: seq<State>, who: seq<nat>, i: nat, n: nat)
    requires Run(run, who) && i < |run| && AllFresh(run, who, i)
    ensures TimesPushed(run, who, i, n) == TimesPopped(run, who, i, n) + if n in StackAt(run, who, i) then 1 else 0
  {
    RunLinearizes(run, who, i);
    Balanced(run, who, i, n);
    assert LinearAt(run, who, i);
    AtMostOnce(StackAt(run, who, i), n);
  }

  lemma {:induction false} Balanced(run: seq<State>, who: seq<nat>, i: nat, n: nat)
    requires Run(run, who) && i < |run| && Linear(run, who, i)
    ensures TimesPushed(run, who, i, n) == TimesPopped(run, who, i, n) + Times(StackAt(run, who, i), n)
  {
    if i > 0 {
      Balanced(run, who, i - 1, n);
      StepConserves(run, who, i - 1, n);
    }
  }

  lemma {:induction false} AtMostOnce(stack: seq<nat>, n: nat)
    requires forall i, j :: 0 <= i < j < |stack| ==> stack[i] != stack[j]
    ensures Times(stack, n) == if n in stack then 1 else 0
  {
    if stack != [] {
      AtMostOnce(stack[1..], n);
      assert stack == [stack[0]] + stack[1..];
      assert stack[0] !in stack[1..];
    }
  }
}
