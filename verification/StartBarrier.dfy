/** bench_commands.c: run_benchmarks starts its children together. Parent and children are separate processes
    that step in any order; each has a signal mask and, for SIGUSR1, one pending bit that does not count. Both
    the children's "I am up" and the parent's "go" are SIGUSR1. The case modelled is the one where fork and the
    children's CPU set-up succeed. */
module StartBarrier {

  /** Where the parent is: about to block the signal, fork, block it again and wait for child k, note its pid, or
      release child k. */
  datatype ParentPc = Block(k: nat) | Fork(k: nat) | AwaitBlock(k: nat) | Await(k: nat) | Record(k: nat)
                    | Release(k: nat) | Done

  datatype ChildPc = Unborn | Setup | Notify | ChildBlock | Waiting | Exec | Running

  datatype Child = Child(pc: ChildPc, blocked: bool, pending: bool, killed: bool, released: nat)

  datatype State = State(parent: ParentPc, parentBlocked: bool, parentPending: bool, parentKilled: bool,
                         lost: nat, pids: set<nat>, children: seq<Child>)

  function NextProg(k: nat, n: nat): ParentPc {
    if k < n then Block(k) else FirstRelease(0, n)
  }

  function FirstRelease(k: nat, n: nat): ParentPc {
    if k < n then Release(k) else Done
  }

  ghost predicate Init(s: State, n: nat) {
    && s == State(NextProg(0, n), s.parentBlocked, false, false, 0, {}, s.children)
    && |s.children| == n
    && forall i :: 0 <= i < n ==> s.children[i] == Child(Unborn, false, false, false, 0)
  }

  /** Delivery of SIGUSR1 to the parent: it dies of it unless the signal is blocked, and a second one is lost while
      the first is pending. */
  function SignalParent(s: State): State {
    if !s.parentBlocked then s.(parentKilled := true)
    else if s.parentPending then s.(lost := s.lost + 1)
    else s.(parentPending := true)
  }

  function SignalChild(s: State, i: nat): State
    requires i < |s.children|
  {
    var c := s.children[i].(released := s.children[i].released + 1);
    if !c.blocked then s.(children := s.children[i := c.(killed := true)])
    else if c.pending then s.(children := s.children[i := c], lost := s.lost + 1)
    else s.(children := s.children[i := c.(pending := true)])
  }

  ghost predicate ParentStep(s: State, t: State) {
    var n := |s.children|;
    match s.parent
    case Block(k) => t == s.(parentBlocked := true, parent := Fork(k))
    case Fork(k) =>
      k < n && t == s.(children := s.children[k := Child(Setup, s.parentBlocked, false, false, 0)],
          parent := AwaitBlock(k))
    case AwaitBlock(k) => t == s.(parentBlocked := true, parent := Await(k))
    case Await(k) => s.parentPending && t == s.(parentPending := false, parent := Record(k))
    case Record(k) => t == s.(pids := s.pids + {k}, parent := NextProg(k + 1, n))
    case Release(k) => k < n && k in s.pids && t == SignalChild(s, k).(parent := FirstRelease(k + 1, n))
    case Done => false
  }

  ghost predicate ChildStep(s: State, t: State, i: nat) {
    && i < |s.children|
    && var c := s.children[i];
       match c.pc
       case Unborn => false
       case Setup => t == s.(children := s.children[i := c.(pc := Notify)])
       case Notify => t == SignalParent(s.(children := s.children[i := c.(pc := ChildBlock)]))
       case ChildBlock => t == s.(children := s.children[i := c.(pc := Waiting, blocked := true)])
       case Waiting => c.pending && t == s.(children := s.children[i := c.(pc := Exec, pending := false)])
       case Exec => t == s.(children := s.children[i := c.(pc := Running)])
       case Running => false
  }

  /** One step of any live process. */
  ghost predicate Next(s: State, t: State) {
    || (!s.parentKilled && ParentStep(s, t))
    || exists i :: 0 <= i < |s.children| && !s.children[i].killed && ChildStep(s, t, i)
  }

  ghost predicate CanStep(s: State) {
    exists t :: Next(s, t)
  }

  predicate Reported(c: Child) {
    c.pc == ChildBlock || c.pc == Waiting || c.pc == Exec || c.pc == Running
  }

  /** Every program of the barrier has started. */
  predicate Final(s: State) {
    s.parent == Done && forall i :: 0 <= i < |s.children| ==> s.children[i].pc == Running
  }

  // ----- the invariant

  /** How many children have been forked. */
  function Forked(s: State): nat {
    match s.parent
    case Block(k) => k
    case Fork(k) => k
    case AwaitBlock(k) => k + 1
    case Await(k) => k + 1
    case Record(k) => k + 1
    case Release(_) => |s.children|
    case Done => |s.children|
  }

  /** How many children the parent has heard of. */
  function Heard(s: State): nat {
    match s.parent
    case Block(k) => k
    case Fork(k) => k
    case AwaitBlock(k) => k
    case Await(k) => k
    case Record(k) => k + 1
    case Release(_) => |s.children|
    case Done => |s.children|
  }

  /** How many children have been released. */
  function ReleasedUpTo(s: State): nat {
    match s.parent
    case Release(k) => k
    case Done => |s.children|
    case _ => 0
  }

  ghost predicate ParentOk(s: State) {
    && !s.parentKilled && s.lost == 0
    && (s.children == [] || s.parent.Block? || s.parentBlocked)
    && (s.parent.Block? ==> s.parent.k < |s.children| && (s.parent.k == 0 || s.parentBlocked))
    && (s.parent.Fork? || s.parent.AwaitBlock? || s.parent.Await? || s.parent.Record? || s.parent.Release? ==>
          s.parent.k < |s.children|)
    && (forall j :: 0 <= j < (if s.parent.Record? then s.parent.k else Heard(s)) ==> j in s.pids)
    && (if s.parent.AwaitBlock? || s.parent.Await?
        then s.parentPending <==> Reported(s.children[s.parent.k])
        else !s.parentPending)
  }

  /** What holds of child i, given how far the parent is. */
  predicate ChildOk(c: Child, i: nat, forked: nat, heard: nat, released: nat) {
    && !c.killed
    && (c.pc == Unborn <==> i >= forked)
    && (i < forked ==> c.blocked)
    && (i < heard ==> Reported(c))
    && c.released == (if i < released then 1 else 0)
    && (c.pending <==> i < released && c.pc != Exec && c.pc != Running)
    && (c.pc == Exec || c.pc == Running ==> i < released)
  }

  ghost predicate Inv(s: State) {
    && ParentOk(s)
    && forall i :: 0 <= i < |s.children| ==> ChildOk(s.children[i], i, Forked(s), Heard(s), ReleasedUpTo(s))
  }

  lemma InitInv(s: State, n: nat)
    requires Init(s, n)
    ensures Inv(s)
  {
  }

  lemma ParentKeepsInv(s: State, t: State)
    requires Inv(s) && ParentStep(s, t)
    ensures Inv(t)
  {
    match s.parent
    case Fork(k) => assert !Reported(t.children[k]);
    case Release(k) =>
      assert ChildOk(s.children[k], k, Forked(s), Heard(s), k);
    case _ =>
  }

  lemma ChildKeepsInv(s: State, t: State, i: nat)
    requires Inv(s) && ChildStep(s, t, i)
    ensures Inv(t)
  {
    var c := s.children[i];
    assert ChildOk(c, i, Forked(s), Heard(s), ReleasedUpTo(s));
    if c.pc == Notify {
      assert !Reported(c) && i >= Heard(s) && i < Forked(s);
      assert (s.parent.AwaitBlock? || s.parent.Await?) && s.parent.k == i;
    }
  }

  lemma NextKeepsInv(s: State, t: State)
    requires Inv(s) && Next(s, t)
    ensures Inv(t)
  {
    if ParentStep(s, t) {
      ParentKeepsInv(s, t);
    } else {
      var i :| 0 <= i < |s.children| && ChildStep(s, t, i);
      ChildKeepsInv(s, t, i);
    }
  }

  // ----- runs

  ghost predicate IsRun(run: seq<State>, n: nat) {
    && run != [] && Init(run[0], n)
    && forall k :: 0 <= k < |run| - 1 ==> Next(run[k], run[k + 1])
  }

  lemma {:induction false} RunInv(run: seq<State>, n: nat, k: nat)
    requires IsRun(run, n) && k < |run|
    ensures Inv(run[k]) && |run[k].children| == n
  {
    if k == 0 {
      InitInv(run[0], n);
    } else {
      RunInv(run, n, k - 1);
      NextKeepsInv(run[k - 1], run[k]);
      NextKeepsSize(run[k - 1], run[k]);
    }
  }

  lemma NextKeepsSize(s: State, t: State)
    requires Next(s, t)
    ensures |t.children| == |s.children|
  {
  }

  /** The barrier: in every interleaving, once a child runs its program every child has reported up. */
  lemma NoneRunsBeforeAllAreUp(run: seq<State>, n: nat, k: nat, i: nat, j: nat)
    requires IsRun(run, n) && k < |run| && i < n && j < n
    requires |run[k].children| == n && (run[k].children[i].pc == Exec || run[k].children[i].pc == Running)
    ensures Reported(run[k].children[j])
  {
    var s := run[k];
    RunInv(run, n, k);
    assert ChildOk(s.children[i], i, Forked(s), Heard(s), ReleasedUpTo(s));
    assert ChildOk(s.children[j], j, Forked(s), Heard(s), ReleasedUpTo(s));
  }

  /** Signals: none is lost, none kills, and each child is sent its release at most once, exactly once by the end. */
  lemma SignalsAreSafe(run: seq<State>, n: nat, k: nat, i: nat)
    requires IsRun(run, n) && k < |run| && i < n
    ensures var s := run[k];
            && |s.children| == n && s.lost == 0 && !s.parentKilled && !s.children[i].killed
            && s.children[i].released <= 1
            && (s.parent == Done ==> s.children[i].released == 1)
            && (s.children[i].pc == Running ==> s.children[i].released == 1 && !s.children[i].pending)
  {
    var s := run[k];
    RunInv(run, n, k);
    assert ChildOk(s.children[i], i, Forked(s), Heard(s), ReleasedUpTo(s));
  }

  // ----- progress

  /** A state that is not final has a step to take: the barrier cannot deadlock. */
  lemma NoDeadlock(s: State)
    requires Inv(s) && !Final(s)
    ensures CanStep(s)
  {
    var n := |s.children|;
    if s.parent == Done {
      var i :| 0 <= i < n && s.children[i].pc != Running;
      assert ChildOk(s.children[i], i, n, n, n);
      ChildCanStep(s, i);
    } else if s.parent.Await? && !s.parentPending {
      var i := s.parent.k;
      assert ChildOk(s.children[i], i, Forked(s), Heard(s), ReleasedUpTo(s));
      ChildCanStep(s, i);
    } else {
      ParentCanStep(s);
    }
  }

  lemma ParentCanStep(s: State)
    requires Inv(s) && s.parent != Done && (s.parent.Await? ==> s.parentPending)
    ensures CanStep(s)
  {
    var n := |s.children|;
    var t := match s.parent
      case Block(k) => s.(parentBlocked := true, parent := Fork(k))
      case Fork(k) => s.(children := s.children[k := Child(Setup, s.parentBlocked, false, false, 0)],
          parent := AwaitBlock(k))
      case AwaitBlock(k) => s.(parentBlocked := true, parent := Await(k))
      case Await(k) => s.(parentPending := false, parent := Record(k))
      case Record(k) => s.(pids := s.pids + {k}, parent := NextProg(k + 1, n))
      case Release(k) => SignalChild(s, k).(parent := FirstRelease(k + 1, n));
    assert ParentStep(s, t);
    assert Next(s, t);
  }

  lemma ChildCanStep(s: State, i: nat)
    requires i < |s.children| && !s.children[i].killed
    requires s.children[i].pc != Unborn && s.children[i].pc != Running
    requires s.children[i].pc == Waiting ==> s.children[i].pending
    ensures CanStep(s)
  {
    var c := s.children[i];
    var t := match c.pc
      case Setup => s.(children := s.children[i := c.(pc := Notify)])
      case Notify => SignalParent(s.(children := s.children[i := c.(pc := ChildBlock)]))
      case ChildBlock => s.(children := s.children[i := c.(pc := Waiting, blocked := true)])
      case Waiting => s.(children := s.children[i := c.(pc := Exec, pending := false)])
      case Exec => s.(children := s.children[i := c.(pc := Running)]);
    assert ChildStep(s, t, i);
    assert Next(s, t);
  }

  function ChildRank(c: Child): nat {
    match c.pc
    case Unborn => 5
    case Setup => 5
    case Notify => 4
    case ChildBlock => 3
    case Waiting => 2
    case Exec => 1
    case Running => 0
  }

  function ParentRank(p: ParentPc, n: nat): int {
    match p
    case Block(k) => 5 * (n - k) + n
    case Fork(k) => 5 * (n - k) + n - 1
    case AwaitBlock(k) => 5 * (n - k) + n - 2
    case Await(k) => 5 * (n - k) + n - 3
    case Record(k) => 5 * (n - k) + n - 4
    case Release(k) => n - k
    case Done => 0
  }

  function ChildrenRank(cs: seq<Child>): nat {
    if cs == [] then 0 else ChildrenRank(cs[..|cs| - 1]) + ChildRank(cs[|cs| - 1])
  }

  /** The number of steps still to come. */
  function Rank(s: State): int {
    ParentRank(s.parent, |s.children|) + ChildrenRank(s.children)
  }

  lemma {:induction false} RankUpdate(cs: seq<Child>, i: nat, c: Child)
    requires i < |cs|
    ensures ChildrenRank(cs[i := c]) == ChildrenRank(cs) - ChildRank(cs[i]) + ChildRank(c)
  {
    var n := |cs| - 1;
    if i == n {
      assert cs[i := c][..n] == cs[..n];
    } else {
      RankUpdate(cs[..n], i, c);
      assert cs[i := c][..n] == cs[..n][i := c];
    }
  }

  lemma ParentCountsDown(s: State, t: State)
    requires Inv(s) && ParentStep(s, t)
    ensures Rank(t) == Rank(s) - 1
  {
    match s.parent
    case Fork(k) =>
      assert ChildOk(s.children[k], k, Forked(s), Heard(s), ReleasedUpTo(s));
      RankUpdate(s.children, k, t.children[k]);
    case Release(k) =>
      ReleaseRank(s, k);
    case _ =>
  }

  lemma ReleaseRank(s: State, k: nat)
    requires k < |s.children|
    ensures |SignalChild(s, k).children| == |s.children|
    ensures ChildrenRank(SignalChild(s, k).children) == ChildrenRank(s.children)
  {
    RankUpdate(s.children, k, SignalChild(s, k).children[k]);
  }

  lemma ChildCountsDown(s: State, t: State, i: nat)
    requires ChildStep(s, t, i)
    ensures Rank(t) == Rank(s) - 1
  {
    assert t.parent == s.parent && t.children == s.children[i := t.children[i]];
    RankUpdate(s.children, i, t.children[i]);
  }

  lemma StepsCountDown(s: State, t: State)
    requires Inv(s) && Next(s, t)
    ensures Rank(t) == Rank(s) - 1
  {
    if ParentStep(s, t) {
      ParentCountsDown(s, t);
    } else {
      var i :| 0 <= i < |s.children| && ChildStep(s, t, i);
      ChildCountsDown(s, t, i);
    }
  }

  lemma {:induction false} InitialRank(cs: seq<Child>)
    requires forall i :: 0 <= i < |cs| ==> cs[i].pc == Unborn
    ensures ChildrenRank(cs) == 5 * |cs|
  {
    if cs != [] {
      InitialRank(cs[..|cs| - 1]);
    }
  }

  lemma {:induction false} FinalRank(cs: seq<Child>)
    ensures ChildrenRank(cs) == 0 <==> forall i :: 0 <= i < |cs| ==> cs[i].pc == Running
  {
    if cs != [] {
      FinalRank(cs[..|cs| - 1]);
    }
  }

  lemma {:induction false} RunRank(run: seq<State>, n: nat, k: nat)
    requires IsRun(run, n) && k < |run|
    ensures Rank(run[k]) == 11 * n - k
  {
    if k == 0 {
      InitialRank(run[0].children);
    } else {
      RunInv(run, n, k - 1);
      RunRank(run, n, k - 1);
      StepsCountDown(run[k - 1], run[k]);
    }
  }

  lemma RankNotNegative(s: State)
    requires Inv(s)
    ensures Rank(s) >= 0 && (Rank(s) == 0 <==> Final(s))
  {
    FinalRank(s.children);
  }

  /** Every interleaving takes exactly 11 n steps: it is never longer, and at that length all programs run. */
  lemma EveryRunStartsAll(run: seq<State>, n: nat)
    requires IsRun(run, n)
    ensures |run| <= 11 * n + 1
    ensures |run| == 11 * n + 1 <==> Final(run[|run| - 1])
    ensures |run| < 11 * n + 1 ==> CanStep(run[|run| - 1])
  {
    var last := |run| - 1;
    RunInv(run, n, last);
    RunRank(run, n, last);
    RankNotNegative(run[last]);
    if |run| < 11 * n + 1 {
      NoDeadlock(run[last]);
    }
  }
}
