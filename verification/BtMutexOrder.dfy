/** The order in which sqlite3BtreeEnterAll first tries the mutexes. */
module BtMutexOrder {
  import opened Options
  import opened BtMutex
  import opened BtMutexTheorems

  /** The list positions of the sharable entries of aDb[] from i on that are not
      locked yet, in the order of aDb[]. */
  function Unlocked(aDb: seq<DbSlot>, i: nat, want: seq<nat>): seq<nat>
    decreases |aDb| - i
  {
    if i >= |aDb| then []
    else if IsUnlocked(aDb[i], want) then [aDb[i].k] + Unlocked(aDb, i + 1, want)
    else Unlocked(aDb, i + 1, want)
  }

  predicate IsUnlocked(slot: DbSlot, want: seq<nat>) {
    slot.Sharable? && slot.k < |want| && want[slot.k] == 0
  }

  /** What is left to be tried by an EnterAll in progress. */
  function Upcoming(x: Conn): seq<nat> {
    if x.pc.AllEnter? then Unlocked(x.aDb, x.pc.i, x.want)
    else if x.ret.ToEnterAll? then Unlocked(x.aDb, x.ret.i, x.want)
    else []
  }

  /** The connection has come to the try in btreeLockCarefully. */
  function Tried(x: Conn, y: Conn): seq<nat> {
    if y.pc.Try? && y != x then [y.pc.p] else []
  }

  /** The positions tried by connection c between states i and j of a run. */
  ghost function Tries(states: seq<State>, c: ConnId, i: nat, j: nat): seq<nat>
    requires i <= j < |states| && forall k :: i <= k <= j ==> c < |states[k].conns|
    decreases j - i
  {
    if i == j then [] else Tries(states, c, i, j - 1) + Tried(states[j - 1].conns[c], states[j].conns[c])
  }

  /** Entering one B-tree does not lock those that aDb[] names later. */
  lemma {:induction false} OthersStayUnlocked(aDb: seq<DbSlot>, i: nat, want: seq<nat>, k: nat, n: nat)
    requires k < |want| && forall m :: i <= m < |aDb| && aDb[m].Sharable? ==> aDb[m].k != k
    ensures Unlocked(aDb, i, want[k := n]) == Unlocked(aDb, i, want)
    decreases |aDb| - i
  {
    if i < |aDb| {
      OthersStayUnlocked(aDb, i + 1, want, k, n);
    }
  }

  ghost predicate EnteringAll(x: Conn) {
    x.pc.AllEnter? || x.ret.ToEnterAll?
  }

  /** Every step of EnterAll takes its try, if it makes one, from what is upcoming. */
  lemma StepTries(c: ConnId, x: Conn, e: Env, y: Conn, f: Env)
    requires LocalOk(x) && !x.pc.Idle? && EnteringAll(x) && Steps(c, x, e, y, f)
    ensures Upcoming(x) == Tried(x, y) + Upcoming(y)
    ensures EnteringAll(y) || (y.pc.Idle? && Upcoming(y) == [])
  {
    if x.pc.AllEnter? {
      LoopTries(c, x, e);
    } else {
      InnerTries(c, x, e, y, f);
    }
  }

  lemma LoopTries(c: ConnId, x: Conn, e: Env)
    requires LocalOk(x) && x.pc.AllEnter?
    ensures Step(c, x, e).Some?
    ensures var y := Step(c, x, e).value.0;
            && Upcoming(x) == Tried(x, y) + Upcoming(y)
            && (EnteringAll(y) || (y.pc.Idle? && Upcoming(y) == []))
  {
    var i := x.pc.i;
    if i < |x.aDb| && x.aDb[i].Sharable? {
      var k := x.aDb[i].k;
      assert LockedAt(x, k);
      OthersStayUnlocked(x.aDb, i + 1, x.want, k, x.want[k] + 1);
    }
  }

  lemma InnerTries(c: ConnId, x: Conn, e: Env, y: Conn, f: Env)
    requires LocalOk(x) && !x.pc.Idle? && !x.pc.AllEnter? && x.ret.ToEnterAll? && Steps(c, x, e, y, f)
    ensures Upcoming(x) == Tried(x, y) + Upcoming(y) && EnteringAll(y)
  {
    if Step(c, x, e) == Some((y, f)) {
      InnerStep(c, x, e);
    }
  }

  /** Inside Enter nothing is tried, and what EnterAll still has to do stays. */
  lemma InnerStep(c: ConnId, x: Conn, e: Env)
    requires LocalOk(x) && !x.pc.Idle? && !x.pc.AllEnter? && x.ret.ToEnterAll? && Step(c, x, e).Some?
    ensures var y := Step(c, x, e).value.0;
            && y.want == x.want && y.aDb == x.aDb && !y.pc.Try?
            && ((y.ret == x.ret && !y.pc.AllEnter?) || (y.pc.AllEnter? && y.pc.i == x.ret.i))
  {
    match x.pc
    case AllLeave(_) =>
    case _ =>
  }

  /** The tries of a whole EnterAll, in any run, are the entries not locked when it began. */
  lemma {:induction false} TriesAlongRun(states: seq<State>, c: ConnId, i: nat, j: nat)
    requires Run(states) && i <= j < |states| && forall k :: i <= k <= j ==> c < |states[k].conns|
    requires EnteringAll(states[i].conns[c]) && forall k :: i <= k < j ==> Busy(states[k], c)
    ensures Upcoming(states[i].conns[c]) == Tries(states, c, i, j) + Upcoming(states[j].conns[c])
    ensures EnteringAll(states[j].conns[c]) || (states[j].conns[c].pc.Idle? && Upcoming(states[j].conns[c]) == [])
    decreases j - i
  {
    if i < j {
      TriesAlongRun(states, c, i, j - 1);
      RunInv(states, j - 1);
      OneMoreMove(states[j - 1], states[j], c, Upcoming(states[i].conns[c]), Tries(states, c, i, j - 1));
    }
  }

  lemma OneMoreMove(s: State, t: State, c: ConnId, all: seq<nat>, tries: seq<nat>)
    requires Inv(s) && Next(s, t) && Busy(s, c) && c < |t.conns|
    requires all == tries + Upcoming(s.conns[c])
    requires EnteringAll(s.conns[c])
    ensures all == tries + Tried(s.conns[c], t.conns[c]) + Upcoming(t.conns[c])
    ensures EnteringAll(t.conns[c]) || (t.conns[c].pc.Idle? && Upcoming(t.conns[c]) == [])
  {
    hide Moves;
    MoveTries(s, t, c);
  }

  lemma MoveTries(s: State, t: State, c: ConnId)
    requires Inv(s) && Next(s, t) && Busy(s, c) && c < |t.conns| && EnteringAll(s.conns[c])
    ensures Upcoming(s.conns[c]) == Tried(s.conns[c], t.conns[c]) + Upcoming(t.conns[c])
    ensures EnteringAll(t.conns[c]) || (t.conns[c].pc.Idle? && Upcoming(t.conns[c]) == [])
  {
    var d :| Moves(s, t, d);
    if d == c {
      StepTries(c, s.conns[c], s.env, t.conns[c], t.env);
    }
  }

  /** Ascending positions, which are ascending addresses. */
  ghost predicate Rising(ps: seq<nat>) {
    forall i, j :: 0 <= i < j < |ps| ==> ps[i] < ps[j]
  }

  /** aDb[] names the B-trees not locked yet in ascending order. */
  ghost predicate InOrder(aDb: seq<DbSlot>, from: nat, want: seq<nat>) {
    forall i, j :: from <= i < j < |aDb| && IsUnlocked(aDb[i], want) && IsUnlocked(aDb[j], want) ==> aDb[i].k < aDb[j].k
  }

  lemma {:induction false} UnlockedMembers(aDb: seq<DbSlot>, from: nat, want: seq<nat>, k: nat)
    ensures k in Unlocked(aDb, from, want) <==>
            exists i :: from <= i < |aDb| && IsUnlocked(aDb[i], want) && aDb[i].k == k
    decreases |aDb| - from
  {
    if from < |aDb| {
      UnlockedMembers(aDb, from + 1, want, k);
    }
  }

  lemma {:induction false} RisingIffInOrder(aDb: seq<DbSlot>, from: nat, want: seq<nat>)
    ensures Rising(Unlocked(aDb, from, want)) <==> InOrder(aDb, from, want)
    decreases |aDb| - from
  {
    if from < |aDb| {
      var rest := Unlocked(aDb, from + 1, want);
      RisingIffInOrder(aDb, from + 1, want);
      if IsUnlocked(aDb[from], want) {
        RisingFrom(aDb[from].k, rest);
        FirstIsLeast(aDb, from, want, rest);
      }
    }
  }

  lemma RisingFrom(k: nat, rest: seq<nat>)
    ensures Rising([k] + rest) <==> Rising(rest) && forall m :: m in rest ==> k < m
  {
    var all := [k] + rest;
    if Rising(all) {
      forall i, j | 0 <= i < j < |rest| ensures rest[i] < rest[j] {
        assert all[i + 1] < all[j + 1];
      }
      forall m | m in rest ensures k < m {
        var i :| 0 <= i < |rest| && rest[i] == m;
        assert all[0] < all[i + 1];
      }
    }
    if Rising(rest) && forall m :: m in rest ==> k < m {
      forall i, j | 0 <= i < j < |all| ensures all[i] < all[j] {
        assert all[j] == rest[j - 1] && rest[j - 1] in rest;
      }
    }
  }

  lemma FirstIsLeast(aDb: seq<DbSlot>, from: nat, want: seq<nat>, rest: seq<nat>)
    requires from < |aDb| && IsUnlocked(aDb[from], want) && rest == Unlocked(aDb, from + 1, want)
    ensures (forall m :: m in rest ==> aDb[from].k < m)
              <==> forall j :: from < j < |aDb| && IsUnlocked(aDb[j], want) ==> aDb[from].k < aDb[j].k
  {
    forall m | m in rest
      ensures exists i :: from < i < |aDb| && IsUnlocked(aDb[i], want) && aDb[i].k == m
    {
      UnlockedMembers(aDb, from + 1, want, m);
    }
    forall j | from < j < |aDb| && IsUnlocked(aDb[j], want)
      ensures aDb[j].k in rest
    {
      UnlockedMembers(aDb, from + 1, want, aDb[j].k);
    }
  }

  /** In every run, an EnterAll of connection c that has returned has first tried
      the mutexes in ascending order if and only if aDb[] names those the
      connection did not hold yet in ascending order. */
  lemma EnterAllOrder(states: seq<State>, c: ConnId, i: nat, j: nat)
    requires Run(states) && i < j < |states| && forall k :: i <= k <= j ==> c < |states[k].conns|
    requires states[i].conns[c].pc.Idle?
    requires |states[i].conns[c].want| == |states[i].conns[c].locked| == |states[i].conns[c].list|
    requires states[i + 1].conns[c] == Begin(states[i].conns[c], EnterAll)
    requires (forall k :: i < k < j ==> Busy(states[k], c)) && states[j].conns[c].pc.Idle?
    ensures var x := states[i].conns[c];
            && Tries(states, c, i + 1, j) == Unlocked(x.aDb, 0, x.want)
            && (Rising(Tries(states, c, i + 1, j)) <==> InOrder(x.aDb, 0, x.want))
  {
    var x := states[i].conns[c];
    RunInv(states, i);
    RunInv(states, j);
    if x.noSharedCache {
      NothingUnlocked(x.aDb, 0, x.want);
    } else {
      TriesAlongRun(states, c, i + 1, j);
    }
    RisingIffInOrder(x.aDb, 0, x.want);
  }

  lemma {:induction false} NothingUnlocked(aDb: seq<DbSlot>, from: nat, want: seq<nat>)
    requires NoneShared(aDb, |aDb|)
    ensures Unlocked(aDb, from, want) == []
    decreases |aDb| - from
  {
    if from < |aDb| {
      NothingUnlocked(aDb, from + 1, want);
    }
  }

  /** A connection whose two sharable B-trees aDb[] names in descending order. */
  function Example(want: seq<nat>, locked: seq<bool>, pc: Pc, ret: Ret): Conn {
    Conn([10, 20], want, locked, [Sharable(1), Sharable(0)], false, pc, ret)
  }

  /** Its first steps after it has called EnterAll. */
  function Stage(n: nat): State {
    var none, mine := Env(map[], map[]), Env(map[20 := 0], map[20 := 0]);
    if n == 0 then State([Example([0, 0], [false, false], Idle, ToCaller)], none)
    else if n == 1 then State([Example([0, 0], [false, false], AllEnter(0, true), ToCaller)], none)
    else if n == 2 then State([Example([0, 1], [false, false], Try(1), ToEnterAll(1, false))], none)
    else if n == 3 then
      State([Example([0, 1], [false, false], Took(1), ToEnterAll(1, false))], Env(map[20 := 0], map[]))
    else if n == 4 then State([Example([0, 1], [false, true], AllEnter(1, false), ToCaller)], mine)
    else State([Example([1, 1], [false, true], Try(0), ToEnterAll(2, false))], mine)
  }

  lemma StageOk(n: nat)
    requires n <= 4
    ensures LocalOk(Stage(n).conns[0])
  {
    hide SlotsOk;
    var x := Stage(n).conns[0];
    ExampleShape(x.want, x.locked, x.pc, x.ret);
    assert LockedAt(x, 0) && LockedAt(x, 1);
    assert x.aDb[0].Sharable?;
  }

  lemma ExampleShape(want: seq<nat>, locked: seq<bool>, pc: Pc, ret: Ret)
    requires |want| == |locked| == 2
    ensures Shape(Example(want, locked, pc, ret))
  {
  }

  lemma StageMoves(n: nat)
    requires n <= 4
    ensures Next(Stage(n), Stage(n + 1))
  {
    StageOk(n);
    StageSteps(n);
    assert Moves(Stage(n), Stage(n + 1), 0);
  }

  lemma StageSteps(n: nat)
    requires n <= 4 && LocalOk(Stage(n).conns[0])
    ensures n == 0 ==> MayCall(Stage(0).conns[0], EnterAll) && Stage(1).conns[0] == Begin(Stage(0).conns[0], EnterAll)
    ensures n > 0 ==> Step(0, Stage(n).conns[0], Stage(n).env) == Some((Stage(n + 1).conns[0], Stage(n + 1).env))
  {
    var x := Stage(n).conns[0];
    if n == 1 {
      assert x.want[1 := 1] == [0, 1];
    } else if n == 3 {
      assert x.locked[1 := true] == [false, true];
    } else if n == 4 {
      assert x.want[0 := 1] == [1, 1];
    }
  }

  /** There EnterAll comes to try the first mutex while it holds the second. */
  lemma Descending() returns (states: seq<State>)
    ensures Run(states) && states[0] == Stage(0) && states[|states| - 1] == Stage(5)
    ensures Stage(0).conns[0].aDb == [Sharable(1), Sharable(0)]
    ensures Stage(5).conns[0].pc == Try(0) && Mine(0, Stage(5).env, Stage(5).conns[0].list[1])
  {
    states := seq(6, n requires 0 <= n < 6 => Stage(n));
    forall i, j | 0 <= i < j == i + 1 < |states| ensures Next(states[i], states[j]) {
      StageMoves(i);
    }
  }
}
