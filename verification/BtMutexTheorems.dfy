/** What the B-tree mutex protocol guarantees in every interleaving. */
module BtMutexTheorems {
  import opened Options
  import opened BtMutex

  /** The invariant holds in every state of every run. */
  lemma {:induction false} RunInv(states: seq<State>, i: nat)
    requires Run(states) && i < |states|
    ensures Inv(states[i])
  {
    hide Moves;
    if i == 0 {
      InitialInv(states[0]);
    } else {
      RunInv(states, i - 1);
      assert Next(states[i - 1], states[i]);
      var c :| Moves(states[i - 1], states[i], c);
      MovesInv(states[i - 1], states[i], c);
    }
  }

  // ---------------------------------------------------------------- deadlocks

  /** Connection c cannot move: another thread has the mutex it wants. */
  ghost predicate Blocked(s: State, c: ConnId) {
    && c < |s.conns| && LocalOk(s.conns[c])
    && WaitsAt(s.conns[c]) >= 0 && s.conns[c].list[WaitsAt(s.conns[c])] in s.env.owner
  }

  function WaitAddr(x: Conn): Addr
    requires PcOk(x) && WaitsAt(x) >= 0
  {
    x.list[WaitsAt(x)]
  }

  /** c waits for a mutex held by d. */
  ghost predicate WaitsFor(s: State, c: ConnId, d: ConnId) {
    Blocked(s, c) && s.env.owner[WaitAddr(s.conns[c])] == d
  }

  /** A thread about to block holds only mutexes of smaller address. */
  lemma HeldIsSmaller(s: State, c: ConnId, a: Addr)
    requires Inv(s) && c < |s.conns| && WaitsAt(s.conns[c]) >= 0
    requires a in s.env.owner && s.env.owner[a] == c
    ensures a < WaitAddr(s.conns[c])
  {
    var x := s.conns[c];
    var k :| 0 <= k < |x.list| && x.list[k] == a;
    assert Holds(x, k) && LockedAt(x, k);
  }

  /** Along a chain of waiting connections the awaited addresses increase. */
  ghost predicate Chain(s: State, cs: seq<ConnId>) {
    |cs| > 0 && forall i, j :: 0 <= i < j == i + 1 < |cs| ==> WaitsFor(s, cs[i], cs[j])
  }

  lemma {:induction false} ChainIncreases(s: State, cs: seq<ConnId>, i: nat)
    requires Inv(s) && Chain(s, cs) && 0 < i < |cs|
    ensures Blocked(s, cs[0])
    ensures Blocked(s, cs[i]) ==> WaitAddr(s.conns[cs[0]]) < WaitAddr(s.conns[cs[i]])
  {
    assert WaitsFor(s, cs[0], cs[1]) && WaitsFor(s, cs[i - 1], cs[i]);
    if i > 1 {
      ChainIncreases(s, cs, i - 1);
    }
    if Blocked(s, cs[i]) {
      HeldIsSmaller(s, cs[i], WaitAddr(s.conns[cs[i - 1]]));
    }
  }

  /** The wait-for relation has no cycle. */
  lemma NoWaitCycle(s: State, cs: seq<ConnId>)
    requires Inv(s) && Chain(s, cs) && |cs| > 1
    ensures cs[0] != cs[|cs| - 1]
  {
    ChainIncreases(s, cs, |cs| - 1);
  }

  /** A set of connections each of which waits for another one of the set. */
  ghost predicate Deadlocked(s: State, stuck: set<ConnId>) {
    stuck != {} && forall c :: c in stuck ==> Blocked(s, c) && s.env.owner[WaitAddr(s.conns[c])] in stuck
  }

  ghost predicate AllBlocked(s: State, stuck: set<ConnId>) {
    forall d :: d in stuck ==> Blocked(s, d)
  }

  lemma {:induction false} MostDemanding(s: State, stuck: set<ConnId>) returns (c: ConnId)
    requires stuck != {} && AllBlocked(s, stuck)
    ensures c in stuck && forall d :: d in stuck ==> WaitAddr(s.conns[d]) <= WaitAddr(s.conns[c])
    decreases |stuck|
  {
    c :| c in stuck;
    if stuck != {c} {
      assert stuck == (stuck - {c}) + {c};
      var d := MostDemanding(s, stuck - {c});
      if WaitAddr(s.conns[c]) < WaitAddr(s.conns[d]) {
        c := d;
      }
    }
  }

  lemma NoDeadlock(s: State, stuck: set<ConnId>)
    requires Inv(s)
    ensures !Deadlocked(s, stuck)
  {
    if Deadlocked(s, stuck) {
      var c := MostDemanding(s, stuck);
      var w := WaitAddr(s.conns[c]);
      HeldIsSmaller(s, s.env.owner[w], w);
      assert false;
    }
  }

  /** No deadlock in any state of any run. */
  lemma NoDeadlockInAnyRun(states: seq<State>, i: nat, stuck: set<ConnId>)
    requires Run(states) && i < |states|
    ensures !Deadlocked(states[i], stuck)
  {
    RunInv(states, i);
    NoDeadlock(states[i], stuck);
  }

  /** A connection that is not blocked can always take a step. */
  lemma UnblockedCanMove(s: State, c: ConnId) returns (t: State)
    requires Inv(s) && c < |s.conns| && !Blocked(s, c)
    ensures Moves(s, t, c)
  {
    var x := s.conns[c];
    if x.pc.Idle? {
      t := s.(conns := s.conns[c := Begin(x, EnterAll)]);
      assert MayCall(x, EnterAll);
    } else {
      var r := Step(c, x, s.env);
      t := State(s.conns[c := r.value.0], r.value.1);
    }
  }

  // ------------------------------------------------------------- what Enter gives

  /** Outside the protocol a connection holds exactly the mutexes it wants, and
      BtShared.db points to it in each of them. */
  lemma IdleHoldsWhatItWants(s: State, c: ConnId, k: nat)
    requires Inv(s) && c < |s.conns| && s.conns[c].pc.Idle? && k < |s.conns[c].list|
    ensures var x := s.conns[c];
            && (x.locked[k] <==> x.want[k] > 0)
            && (Mine(c, s.env, x.list[k]) <==> x.want[k] > 0)
            && (x.want[k] > 0 ==> x.list[k] in s.env.db && s.env.db[x.list[k]] == c)
  {
    assert LockedAt(s.conns[c], k);
    assert Mine(c, s.env, s.conns[c].list[k]) <==> Holds(s.conns[c], k);
  }

  /** The assertions inside unlockBtreeMutex and lockBtreeMutex. */
  lemma SourceAssertions(s: State, c: ConnId, j: nat)
    requires Inv(s) && c < |s.conns| && j < |s.conns[c].list|
    ensures var x := s.conns[c];
            && (x.pc == Unlock(j) || (x.pc.Release? && x.pc.j == j && x.locked[j]) ==>
                  x.locked[j] && Mine(c, s.env, x.list[j]) && x.list[j] in s.env.db && s.env.db[x.list[j]] == c)
            && (WaitsAt(x) == j ==> !x.locked[j] && !Mine(c, s.env, x.list[j]))
  {
    assert LockedAt(s.conns[c], j);
    assert Mine(c, s.env, s.conns[c].list[j]) <==> Holds(s.conns[c], j);
  }

  // ------------------------------------------------------ the effect of one call

  /** `want` after adding n to every sharable entry of aDb[from..]. */
  function Bump(aDb: seq<DbSlot>, from: nat, want: seq<int>, n: int): (r: seq<int>)
    ensures |r| == |want|
    decreases |aDb| - from
  {
    if from >= |aDb| then want
    else if aDb[from].Sharable? && aDb[from].k < |want| then
      var k := aDb[from].k;
      Bump(aDb, from + 1, want[k := want[k] + n], n)
    else Bump(aDb, from + 1, want, n)
  }

  /** The value `want` will have when the call in progress returns. */
  function Goal(x: Conn): seq<int> {
    if x.pc.AllEnter? then Bump(x.aDb, x.pc.i, x.want, 1)
    else if x.pc.AllLeave? then Bump(x.aDb, x.pc.i, x.want, -1)
    else match x.ret
      case ToCaller => x.want
      case ToEnterAll(i, _) => Bump(x.aDb, i, x.want, 1)
      case ToLeaveAll(i) => Bump(x.aDb, i, x.want, -1)
  }

  /** The value noSharedCache will have then. */
  ghost predicate GoalFlag(x: Conn) {
    if x.pc.AllEnter? || x.ret.ToEnterAll? then NoneShared(x.aDb, |x.aDb|) else x.noSharedCache
  }

  /** x and y are records of one connection, at work on the same goal. */
  ghost predicate SameGoal(x: Conn, y: Conn) {
    y.list == x.list && y.aDb == x.aDb && Goal(y) == Goal(x) && (GoalFlag(y) <==> GoalFlag(x))
  }

  /** Position k is named by a sharable entry of aDb[from..]. */
  ghost predicate Named(aDb: seq<DbSlot>, from: nat, k: nat) {
    exists i :: from <= i < |aDb| && aDb[i] == Sharable(k)
  }

  /** What a call is to change wantToLock of position k by. */
  ghost function Change(aDb: seq<DbSlot>, call: Call, k: nat): int {
    match call
    case Enter(p) => if k == p then 1 else 0
    case Leave(p) => if k == p then -1 else 0
    case EnterAll => if Named(aDb, 0, k) then 1 else 0
    case LeaveAll => if Named(aDb, 0, k) then -1 else 0
  }

  lemma {:induction false} BumpAt(aDb: seq<DbSlot>, from: nat, want: seq<int>, n: int, k: nat)
    requires SlotsOk(aDb, |want|) && k < |want|
    ensures Bump(aDb, from, want, n)[k] == want[k] + if Named(aDb, from, k) then n else 0
    decreases |aDb| - from
  {
    if from < |aDb| {
      if aDb[from].Sharable? {
        var p := aDb[from].k;
        BumpAt(aDb, from + 1, want[p := want[p] + n], n, k);
      } else {
        BumpAt(aDb, from + 1, want, n, k);
      }
      assert Named(aDb, from, k) <==> aDb[from] == Sharable(k) || Named(aDb, from + 1, k);
    }
  }

  /** A call sets the goal; no step of the protocol changes it; a returned call
      has reached it. */
  lemma CallSetsGoal(x: Conn, call: Call)
    requires LocalOk(x) && x.pc.Idle? && MayCall(x, call)
    ensures var y := Begin(x, call);
            && y.list == x.list && y.aDb == x.aDb && |Goal(y)| == |x.want|
            && (forall k :: 0 <= k < |x.want| ==> Goal(y)[k] == x.want[k] + Change(x.aDb, call, k))
            && (GoalFlag(y) <==> if call.EnterAll? then NoneShared(x.aDb, |x.aDb|) else x.noSharedCache)
  {
    forall k: nat | k < |x.want| && (call.EnterAll? || call.LeaveAll?)
      ensures Goal(Begin(x, call))[k] == x.want[k] + Change(x.aDb, call, k)
    {
      BumpAt(x.aDb, 0, x.want, if call.EnterAll? then 1 else -1, k);
    }
  }

  lemma StepKeepsGoal(c: ConnId, x: Conn, e: Env)
    requires LocalOk(x) && !x.pc.Idle? && Step(c, x, e).Some?
    ensures SameGoal(x, Step(c, x, e).value.0)
  {
    hide LocalOk;
    hide Record;
    if x.pc.AllEnter? || x.pc.AllLeave? {
      LoopKeepsGoal(c, x, e);
    }
  }

  lemma LoopKeepsGoal(c: ConnId, x: Conn, e: Env)
    requires LocalOk(x) && (x.pc.AllEnter? || x.pc.AllLeave?)
    ensures Step(c, x, e).Some? && SameGoal(x, Step(c, x, e).value.0)
  {
  }

  ghost predicate Busy(s: State, c: ConnId) {
    c < |s.conns| && !s.conns[c].pc.Idle?
  }

  /** While a call of connection c is in progress its goal stays the same,
      whatever the other connections do. */
  lemma {:induction false} GoalAlongRun(states: seq<State>, c: ConnId, i: nat, j: nat)
    requires Run(states) && i <= j < |states| && c < |states[i].conns|
    requires forall k :: i <= k < j ==> Busy(states[k], c)
    ensures c < |states[j].conns| && SameGoal(states[i].conns[c], states[j].conns[c])
  {
    if i < j {
      GoalAlongRun(states, c, i, j - 1);
      assert Next(states[j - 1], states[j]);
      MoveKeepsGoal(states[j - 1], states[j], c);
    }
  }

  lemma MoveKeepsGoal(s: State, t: State, c: ConnId)
    requires Next(s, t) && Busy(s, c)
    ensures c < |t.conns| && SameGoal(s.conns[c], t.conns[c])
  {
    var d :| Moves(s, t, d);
    if d == c && Step(c, s.conns[c], s.env).Some? {
      StepKeepsGoal(c, s.conns[c], s.env);
    }
  }

  /** Connection c makes the call at step i and is back from it at step j. */
  ghost predicate Calls(states: seq<State>, c: ConnId, i: nat, j: nat, call: Call) {
    && Run(states) && i < j < |states| && c < |states[i].conns| == |states[i + 1].conns| && c < |states[j].conns|
    && var x := states[i].conns[c];
       && x.pc.Idle? && |x.want| == |x.locked| == |x.list|
       && MayCall(x, call) && states[i + 1].conns[c] == Begin(x, call)
       && (forall k :: i < k < j ==> Busy(states[k], c)) && states[j].conns[c].pc.Idle?
  }

  /** In every run, a call that is back has changed wantToLock exactly as it says:
      EnterAll and LeaveAll by one for each sharable entry of aDb[].  The connection
      again holds exactly the mutexes it wants, and after EnterAll noSharedCache says
      whether there is no sharable entry. */
  lemma CallEffect(states: seq<State>, c: ConnId, i: nat, j: nat, call: Call)
    requires Calls(states, c, i, j, call)
    ensures var x, y := states[i].conns[c], states[j].conns[c];
            && y.list == x.list && y.aDb == x.aDb && |y.want| == |x.want| == |x.list|
            && (forall k :: 0 <= k < |x.want| ==> y.want[k] == x.want[k] + Change(x.aDb, call, k))
            && (forall k :: 0 <= k < |x.want| ==> (Mine(c, states[j].env, x.list[k]) <==> y.want[k] > 0))
            && (y.noSharedCache <==> if call.EnterAll? then NoneShared(x.aDb, |x.aDb|) else x.noSharedCache)
  {
    RunInv(states, i);
    CallSetsGoal(states[i].conns[c], call);
    GoalAlongRun(states, c, i + 1, j);
    RunInv(states, j);
    ReachedGoal(states[j], c);
  }

  lemma ReachedGoal(s: State, c: ConnId)
    requires Inv(s) && c < |s.conns| && s.conns[c].pc.Idle?
    ensures var x := s.conns[c];
            && x.want == Goal(x) && |x.want| == |x.list| && (GoalFlag(x) <==> x.noSharedCache)
            && forall k :: 0 <= k < |x.list| ==> (Mine(c, s.env, x.list[k]) <==> x.want[k] > 0)
  {
    IdleHoldsAll(s, c);
  }

  /** LeaveAll undoes EnterAll, whatever the other connections do before, between and
      after: wantToLock and the mutexes owned are what they were, and in between
      LeaveAll may be called. */
  lemma LeaveAllUndoes(states: seq<State>, c: ConnId, i: nat, j: nat, l: nat, m: nat)
    requires Calls(states, c, i, j, EnterAll) && j <= l && l < m < |states|
    requires forall k :: j <= k <= l ==> c < |states[k].conns| && states[k].conns[c] == states[j].conns[c]
    ensures LocalOk(states[l].conns[c]) && MayCall(states[l].conns[c], LeaveAll)
    ensures Calls(states, c, l, m, LeaveAll) ==>
              var x, y := states[i].conns[c], states[m].conns[c];
              && y.want == x.want && y.list == x.list
              && forall k :: 0 <= k < |x.list| ==>
                   (Mine(c, states[m].env, x.list[k]) <==> Mine(c, states[i].env, x.list[k]))
  {
    hide NoneShared;
    hide EnvOk;
    var x, y := states[i].conns[c], states[j].conns[c];
    CallEffect(states, c, i, j, EnterAll);
    forall n | 0 <= n < |y.aDb| && y.aDb[n].Sharable?
      ensures y.aDb[n].k < |y.want| && y.want[y.aDb[n].k] > 0
    {
      RunInv(states, i);
      assert Named(x.aDb, 0, x.aDb[n].k);
    }
    assert states[l].conns[c] == y;
    RunInv(states, l);
    if Calls(states, c, l, m, LeaveAll) {
      CallEffect(states, c, l, m, LeaveAll);
      RunInv(states, i);
      IdleHoldsAll(states[i], c);
      forall k | 0 <= k < |x.want|
        ensures states[m].conns[c].want[k] == x.want[k]
      {
        assert Change(x.aDb, EnterAll, k) + Change(x.aDb, LeaveAll, k) == 0;
      }
    }
  }

  lemma IdleHoldsAll(s: State, c: ConnId)
    requires Inv(s) && c < |s.conns| && s.conns[c].pc.Idle?
    ensures |s.conns[c].want| == |s.conns[c].list|
    ensures forall k :: 0 <= k < |s.conns[c].list| ==>
              (Mine(c, s.env, s.conns[c].list[k]) <==> s.conns[c].want[k] > 0)
  {
    forall k | 0 <= k < |s.conns[c].list|
      ensures Mine(c, s.env, s.conns[c].list[k]) <==> s.conns[c].want[k] > 0
    {
      IdleHoldsWhatItWants(s, c, k);
    }
  }

  // -------------------------------------------------------------- termination

  /** Steps a call can still take: first the rest of aDb[], then the rest of the
      current Enter or Leave. */
  function OuterRank(x: Conn): int {
    var m := |x.aDb|;
    if x.pc.AllEnter? then 2 * (m - x.pc.i) + 1
    else if x.pc.AllLeave? then 2 * (m - x.pc.i) + 1
    else match x.ret
      case ToCaller => 0
      case ToEnterAll(i, _) => 2 * (m - i) + 2
      case ToLeaveAll(i) => 2 * (m - i) + 2
  }

  function InnerRank(x: Conn): int {
    var n := |x.list|;
    match x.pc
    case Try(_) => 5 * n + 5
    case Took(_) => 1
    case Release(_, j) => 3 * n + 3 + 2 * (n - j)
    case Released(_, j) => 3 * n + 2 + 2 * (n - j)
    case Block(_) => 3 * n + 2
    case Own(_) => 3 * n + 1
    case Relock(_, j) => 3 * (n - j) + 1
    case RelockBlock(_, j) => 3 * (n - j)
    case RelockOwn(_, j) => 3 * (n - j) - 1
    case Unlock(_) => 2
    case Unlocked(_) => 1
    case _ => 0
  }

  /** Every step of a connection brings its call closer to returning, so only
      waiting can keep it from doing so; and no step of another connection sets
      it back, since it changes nothing but that connection. */
  lemma StepGetsCloser(c: ConnId, x: Conn, e: Env, y: Conn, f: Env)
    requires LocalOk(x) && !x.pc.Idle? && Steps(c, x, e, y, f)
    ensures Closer(x, y)
  {
    if Step(c, x, e) == Some((y, f)) {
      match x.pc
      case AllEnter(_, _) => LoopGetsCloser(c, x, e);
      case AllLeave(_) => LoopGetsCloser(c, x, e);
      case Took(_) => EdgeGetsCloser(c, x, e);
      case Relock(_, _) => RelockGetsCloser(c, x, e);
      case RelockBlock(_, _) => RelockGetsCloser(c, x, e);
      case RelockOwn(_, _) => RelockGetsCloser(c, x, e);
      case Unlock(_) => EdgeGetsCloser(c, x, e);
      case Unlocked(_) => EdgeGetsCloser(c, x, e);
      case _ => LockGetsCloser(c, x, e);
    } else {
      FailedTryGetsCloser(x);
    }
  }

  ghost predicate Closer(x: Conn, y: Conn) {
    && 0 <= OuterRank(y) <= OuterRank(x) && 0 <= InnerRank(y)
    && (OuterRank(y) < OuterRank(x) || InnerRank(y) < InnerRank(x))
  }

  lemma FailedTryGetsCloser(x: Conn)
    requires LocalOk(x) && x.pc.Try?
    ensures Closer(x, TryFails(x))
  {
  }

  lemma EdgeGetsCloser(c: ConnId, x: Conn, e: Env)
    requires LocalOk(x) && (x.pc.Took? || x.pc.Unlock? || x.pc.Unlocked?)
    ensures Step(c, x, e).Some? && Closer(x, Step(c, x, e).value.0)
  {
    if x.pc.Took? {
      ReturnGetsCloser(x.(locked := x.locked[x.pc.p := true]));
    } else if x.pc.Unlocked? {
      ReturnGetsCloser(x.(locked := x.locked[x.pc.p := false]));
    }
  }

  lemma LockGetsCloser(c: ConnId, x: Conn, e: Env)
    requires LocalOk(x) && (x.pc.Try? || x.pc.Release? || x.pc.Released? || x.pc.Block? || x.pc.Own?)
    requires Step(c, x, e).Some?
    ensures var y := Step(c, x, e).value.0; OuterRank(y) == OuterRank(x) >= 0 && 0 <= InnerRank(y) < InnerRank(x)
  {
  }

  lemma RelockGetsCloser(c: ConnId, x: Conn, e: Env)
    requires LocalOk(x) && (x.pc.Relock? || x.pc.RelockBlock? || x.pc.RelockOwn?)
    requires Step(c, x, e).Some?
    ensures var y := Step(c, x, e).value.0; 0 <= OuterRank(y) <= OuterRank(x) && 0 <= InnerRank(y) < InnerRank(x)
  {
    if x.pc.Relock? && x.pc.j == |x.list| {
      ReturnGetsCloser(x);
    }
  }

  lemma ReturnGetsCloser(x: Conn)
    requires PcOk(x) && !x.pc.Idle? && !x.pc.AllEnter? && !x.pc.AllLeave?
    requires x.ret.ToEnterAll? || x.ret.ToLeaveAll? ==> x.ret.i <= |x.aDb|
    ensures 0 <= OuterRank(Return(x)) <= OuterRank(x) && InnerRank(Return(x)) == 0 < InnerRank(x)
  {
  }

  lemma LoopGetsCloser(c: ConnId, x: Conn, e: Env)
    requires LocalOk(x) && (x.pc.AllEnter? || x.pc.AllLeave?)
    ensures Step(c, x, e).Some?
    ensures var y := Step(c, x, e).value.0; 0 <= OuterRank(y) < OuterRank(x) && 0 <= InnerRank(y)
  {
  }

  // ----------------------------------------------------------------- progress

  /** The mutexes in use whose addresses are greater than w. */
  ghost function Above(s: State, w: Addr): set<Addr> {
    set a | a in s.env.owner && a > w
  }

  lemma FewerAbove(s: State, w: Addr, v: Addr)
    requires w < v && v in s.env.owner
    ensures |Above(s, v)| < |Above(s, w)|
  {
    assert v in Above(s, w) - Above(s, v);
    assert Above(s, v) <= Above(s, w) - {v};
    var a, b := Above(s, v), Above(s, w) - {v};
    assert b == a + (b - a);
  }

  /** How far a wait chain from c can still go. */
  ghost function Reach(s: State, c: ConnId): nat
    requires c < |s.conns|
  {
    if Blocked(s, c) then |Above(s, WaitAddr(s.conns[c]))| + 1 else 0
  }

  lemma ReachShrinks(s: State, c: ConnId, d: ConnId)
    requires Inv(s) && c < |s.conns| && WaitsFor(s, c, d)
    ensures d < |s.conns| && Reach(s, d) < Reach(s, c)
  {
    if Blocked(s, d) {
      HeldIsSmaller(s, d, WaitAddr(s.conns[c]));
      FewerAbove(s, WaitAddr(s.conns[c]), WaitAddr(s.conns[d]));
    }
  }

  /** Every chain of waiting connections can be followed to one that is not blocked. */
  lemma {:induction false} ChainEnds(s: State, c: ConnId) returns (cs: seq<ConnId>)
    requires Inv(s) && c < |s.conns|
    ensures Chain(s, cs) && cs[0] == c && cs[|cs| - 1] < |s.conns| && !Blocked(s, cs[|cs| - 1])
    decreases Reach(s, c)
  {
    cs := [c];
    if Blocked(s, c) {
      var d := s.env.owner[WaitAddr(s.conns[c])];
      ReachShrinks(s, c, d);
      var rest := ChainEnds(s, d);
      cs := [c] + rest;
      forall i, j | 0 <= i < j == i + 1 < |cs| ensures WaitsFor(s, cs[i], cs[j]) {
        assert cs[j] == rest[j - 1] && (i > 0 ==> WaitsFor(s, rest[i - 1], rest[j - 1]));
      }
    }
  }

  /** In every state of every run, a connection waits in the end only for one that
      is outside any call, or that can take a step and is brought closer to
      returning by it. */
  lemma Progress(states: seq<State>, i: nat, c: ConnId) returns (cs: seq<ConnId>, t: State)
    requires Run(states) && i < |states| && c < |states[i].conns|
    ensures Chain(states[i], cs) && cs[0] == c
    ensures var d := cs[|cs| - 1];
            && d < |states[i].conns| && Moves(states[i], t, d)
            && (Busy(states[i], d) ==> Closer(states[i].conns[d], t.conns[d]))
  {
    RunInv(states, i);
    cs := ChainEnds(states[i], c);
    t := MoveCloser(states[i], cs[|cs| - 1]);
  }

  lemma MoveCloser(s: State, d: ConnId) returns (t: State)
    requires Inv(s) && d < |s.conns| && !Blocked(s, d)
    ensures Moves(s, t, d) && (Busy(s, d) ==> Closer(s.conns[d], t.conns[d]))
  {
    t := UnblockedCanMove(s, d);
    if Busy(s, d) {
      StepGetsCloser(d, s.conns[d], s.env, t.conns[d], t.env);
    }
  }
}
