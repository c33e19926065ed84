/** The shared-cache B-tree mutex protocol as a state machine: any number of
    connections, one thread each, taking one step at a time. */
module BtMutex {
  import opened Options

  type ConnId = nat
  type Addr = nat       // the address of a BtShared, which orders the mutexes

  /** An entry of db->aDb[]: no B-tree, a private one, or the k-th entry of the
      connection's list of sharable B-trees. */
  datatype DbSlot = NoBtree | Private | Sharable(k: nat)

  /** Where a thread is.  `p` and `j` are positions in the pNext list. */
  datatype Pc =
    | Idle                            // outside the protocol
    | Try(p: nat)                     // btreeLockCarefully: before sqlite3_mutex_try
    | Took(p: nat)                    // the try succeeded; pBt->db and locked not yet set
    | Release(p: nat, j: nat)         // first loop, pLater == j
    | Released(p: nat, j: nat)        // mutex j left, locked not yet cleared
    | Block(p: nat)                   // lockBtreeMutex(p): before sqlite3_mutex_enter
    | Own(p: nat)                     // mutex p entered; pBt->db and locked not yet set
    | Relock(p: nat, j: nat)          // second loop, pLater == j
    | RelockBlock(p: nat, j: nat)     // lockBtreeMutex(j): before sqlite3_mutex_enter
    | RelockOwn(p: nat, j: nat)       // mutex j entered; pBt->db and locked not yet set
    | Unlock(p: nat)                  // sqlite3BtreeLeave: before sqlite3_mutex_leave
    | Unlocked(p: nat)                // mutex p left, locked not yet cleared
    | AllEnter(i: nat, skipOk: bool)  // loop head of btreeEnterAll
    | AllLeave(i: nat)                // loop head of btreeLeaveAll

  /** Where Enter and Leave return to. */
  datatype Ret = ToCaller | ToEnterAll(i: nat, skipOk: bool) | ToLeaveAll(i: nat)

  datatype Conn = Conn(
    list: seq<Addr>, want: seq<nat>, locked: seq<bool>,
    aDb: seq<DbSlot>, noSharedCache: bool,
    pc: Pc, ret: Ret)

  /** Who holds each mutex, and BtShared.db. */
  datatype Env = Env(owner: map<Addr, ConnId>, db: map<Addr, ConnId>)

  datatype State = State(conns: seq<Conn>, env: Env)

  // ------------------------------------------------------------ well-formedness

  /** The facts sqlite3BtreeEnter asserts about the list, and that aDb[] names
      each sharable B-tree at most once. */
  ghost predicate Shape(x: Conn) {
    |x.want| == |x.locked| == |x.list| && Ascending(x.list) && SlotsOk(x.aDb, |x.list|)
  }

  ghost predicate Ascending(list: seq<Addr>) {
    forall i, k :: 0 <= i < k < |list| ==> list[i] < list[k]
  }

  ghost predicate SlotsOk(aDb: seq<DbSlot>, n: nat) {
    && (forall i :: 0 <= i < |aDb| && aDb[i].Sharable? ==> aDb[i].k < n)
    && (forall i, j :: 0 <= i < j < |aDb| && aDb[i].Sharable? && aDb[j].Sharable? ==> aDb[i].k != aDb[j].k)
  }

  predicate PcOk(x: Conn) {
    var n := |x.list|;
    match x.pc
    case Idle => x.ret.ToCaller?
    case Try(p) => p < n
    case Took(p) => p < n
    case Release(p, j) => p < j <= n
    case Released(p, j) => p < j < n
    case Block(p) => p < n
    case Own(p) => p < n
    case Relock(p, j) => p < j <= n
    case RelockBlock(p, j) => p < j < n
    case RelockOwn(p, j) => p < j < n
    case Unlock(p) => p < n
    case Unlocked(p) => p < n
    case AllEnter(i, _) => i <= |x.aDb| && x.ret.ToCaller?
    case AllLeave(i) => i <= |x.aDb| && x.ret.ToCaller?
  }

  /** The mutex a thread is about to block on, if any. */
  function WaitsAt(x: Conn): int {
    match x.pc
    case Block(p) => p
    case RelockBlock(_, j) => j
    case _ => -1
  }

  /** The position whose mutex is held although `locked` is not set yet. */
  function Gaining(x: Conn): int {
    match x.pc
    case Took(p) => p
    case Own(p) => p
    case RelockOwn(_, j) => j
    case _ => -1
  }

  /** The position whose mutex is gone although `locked` is still set. */
  function Losing(x: Conn): int {
    match x.pc
    case Released(_, j) => j
    case Unlocked(p) => p
    case _ => -1
  }

  /** The thread holds the mutex at position k. */
  predicate Holds(x: Conn, k: nat)
    requires k < |x.locked|
  {
    (x.locked[k] && k != Losing(x)) || k == Gaining(x)
  }

  /** Position k keeps the steady relation: locked exactly when wanted. */
  predicate Steady(x: Conn, k: nat)
    requires k < |x.locked| == |x.want|
  {
    x.locked[k] <==> x.want[k] > 0
  }

  ghost predicate AllSteady(x: Conn)
    requires |x.locked| == |x.want|
  {
    forall k {:trigger Steady(x, k)} {:trigger x.locked[k]} :: 0 <= k < |x.locked| ==> Steady(x, k)
  }

  /** What `locked` and `wantToLock` look like at each program point. */
  predicate LockedAt(x: Conn, k: nat)
    requires k < |x.locked| == |x.want|
  {
    match x.pc
    case Try(p) => if k == p then !x.locked[k] && x.want[k] > 0 else Steady(x, k)
    case Took(p) => if k == p then !x.locked[k] && x.want[k] > 0 else Steady(x, k)
    case Release(p, j) =>
      if k == p then !x.locked[k] && x.want[k] > 0 else if p < k < j then !x.locked[k] else Steady(x, k)
    case Released(p, j) =>
      if k == p then !x.locked[k] && x.want[k] > 0 else if p < k < j then !x.locked[k]
      else if k == j then x.locked[k] && x.want[k] > 0 else Steady(x, k)
    case Block(p) => if k == p then !x.locked[k] && x.want[k] > 0 else if k > p then !x.locked[k] else Steady(x, k)
    case Own(p) => if k == p then !x.locked[k] && x.want[k] > 0 else if k > p then !x.locked[k] else Steady(x, k)
    case Relock(p, j) => if k >= j then !x.locked[k] else Steady(x, k)
    case RelockBlock(p, j) =>
      if k == j then !x.locked[k] && x.want[k] > 0 else if k > j then !x.locked[k] else Steady(x, k)
    case RelockOwn(p, j) =>
      if k == j then !x.locked[k] && x.want[k] > 0 else if k > j then !x.locked[k] else Steady(x, k)
    case Unlock(p) => if k == p then x.locked[k] && x.want[k] == 0 else Steady(x, k)
    case Unlocked(p) => if k == p then x.locked[k] && x.want[k] == 0 else Steady(x, k)
    case _ => Steady(x, k)
  }

  /** The entries of aDb[] that btreeLeaveAll has yet to leave are wanted. */
  ghost predicate StillWanted(aDb: seq<DbSlot>, want: seq<nat>, from: nat) {
    forall i :: from <= i < |aDb| && aDb[i].Sharable? ==> aDb[i].k < |want| && want[aDb[i].k] > 0
  }

  /** None of the first n entries of aDb[] is sharable. */
  ghost predicate NoneShared(aDb: seq<DbSlot>, n: nat) {
    forall i :: 0 <= i < n && i < |aDb| ==> !aDb[i].Sharable?
  }

  /** noSharedCache is set only if no entry is sharable; skipOk says whether the
      entries gone through so far are not. */
  ghost predicate FlagsOk(x: Conn) {
    && (x.noSharedCache ==> NoneShared(x.aDb, |x.aDb|))
    && (x.pc.AllEnter? ==> (x.pc.skipOk <==> NoneShared(x.aDb, x.pc.i)))
    && (x.ret.ToEnterAll? ==> (x.ret.skipOk <==> NoneShared(x.aDb, x.ret.i)))
  }

  ghost predicate LocalOk(x: Conn) {
    && Shape(x) && PcOk(x) && FlagsOk(x)
    && (forall k {:trigger LockedAt(x, k)} {:trigger x.locked[k]} :: 0 <= k < |x.list| ==> LockedAt(x, k))
    && (x.pc.AllLeave? ==> StillWanted(x.aDb, x.want, x.pc.i))
    && (x.ret.ToEnterAll? ==> x.ret.i <= |x.aDb| && !x.pc.Idle?)
    && (x.ret.ToLeaveAll? ==> x.ret.i <= |x.aDb| && StillWanted(x.aDb, x.want, x.ret.i) && !x.pc.Idle?)
  }

  /** The mutexes held by connection c are those its program point says, and
      BtShared.db names c for every one of them it has finished locking. */
  ghost predicate EnvOk(c: ConnId, x: Conn, e: Env)
    requires |x.locked| == |x.list|
  {
    && (forall k :: 0 <= k < |x.list| ==> ((x.list[k] in e.owner && e.owner[x.list[k]] == c) <==> Holds(x, k)))
    && (forall k :: 0 <= k < |x.list| && x.locked[k] && Holds(x, k) ==> x.list[k] in e.db && e.db[x.list[k]] == c)
  }

  ghost predicate Inv(s: State) {
    && (forall c :: 0 <= c < |s.conns| ==> LocalOk(s.conns[c]))
    && (forall c :: 0 <= c < |s.conns| ==> |s.conns[c].locked| == |s.conns[c].list| && EnvOk(c, s.conns[c], s.env))
    && (forall a :: a in s.env.owner ==> s.env.owner[a] < |s.conns| && a in s.conns[s.env.owner[a]].list)
  }

  // ---------------------------------------------------------------------- steps

  /** Leave Enter or Leave. */
  function Return(x: Conn): Conn {
    match x.ret
    case ToCaller => x.(pc := Idle)
    case ToEnterAll(i, skipOk) => x.(pc := AllEnter(i, skipOk), ret := ToCaller)
    case ToLeaveAll(i) => x.(pc := AllLeave(i), ret := ToCaller)
  }

  /** sqlite3BtreeEnter on a sharable B-tree. */
  function BeginEnter(x: Conn, k: nat): Conn
    requires k < |x.want| == |x.locked|
  {
    var y := x.(want := x.want[k := x.want[k] + 1]);
    if y.locked[k] then Return(y) else y.(pc := Try(k))
  }

  /** sqlite3BtreeLeave on a sharable B-tree. */
  function BeginLeave(x: Conn, k: nat): Conn
    requires k < |x.want| && x.want[k] > 0
  {
    var y := x.(want := x.want[k := x.want[k] - 1]);
    if y.want[k] == 0 then y.(pc := Unlock(k)) else Return(y)
  }

  /** sqlite3_mutex_enter, a successful sqlite3_mutex_try. */
  function Acquire(e: Env, a: Addr, c: ConnId): Env {
    e.(owner := e.owner[a := c])
  }

  /** sqlite3_mutex_leave. */
  function Drop(e: Env, a: Addr): Env {
    e.(owner := e.owner - {a})
  }

  function Record(e: Env, a: Addr, c: ConnId): Env {
    e.(db := e.db[a := c])
  }

  /** One step of a thread inside the protocol, or None if it must wait. */
  function Step(c: ConnId, x: Conn, e: Env): Option<(Conn, Env)>
    requires |x.want| == |x.locked| == |x.list| && PcOk(x) && !x.pc.Idle?
    requires SlotsOk(x.aDb, |x.list|)
    requires x.pc.AllLeave? ==> StillWanted(x.aDb, x.want, x.pc.i)
  {
    var n := |x.list|;
    match x.pc
    case Try(p) =>
      if x.list[p] !in e.owner then Some((x.(pc := Took(p)), Acquire(e, x.list[p], c)))
      else Some((x.(pc := Release(p, p + 1)), e))
    case Took(p) =>
      Some((Return(x.(locked := x.locked[p := true])), Record(e, x.list[p], c)))
    case Release(p, j) =>
      if j == n then Some((x.(pc := Block(p)), e))
      else if x.locked[j] then Some((x.(pc := Released(p, j)), Drop(e, x.list[j])))
      else Some((x.(pc := Release(p, j + 1)), e))
    case Released(p, j) =>
      Some((x.(locked := x.locked[j := false], pc := Release(p, j + 1)), e))
    case Block(p) =>
      if x.list[p] in e.owner then None else Some((x.(pc := Own(p)), Acquire(e, x.list[p], c)))
    case Own(p) =>
      Some((x.(locked := x.locked[p := true], pc := Relock(p, p + 1)), Record(e, x.list[p], c)))
    case Relock(p, j) =>
      if j == n then Some((Return(x), e))
      else if x.want[j] > 0 then Some((x.(pc := RelockBlock(p, j)), e))
      else Some((x.(pc := Relock(p, j + 1)), e))
    case RelockBlock(p, j) =>
      if x.list[j] in e.owner then None else Some((x.(pc := RelockOwn(p, j)), Acquire(e, x.list[j], c)))
    case RelockOwn(p, j) =>
      Some((x.(locked := x.locked[j := true], pc := Relock(p, j + 1)), Record(e, x.list[j], c)))
    case Unlock(p) =>
      Some((x.(pc := Unlocked(p)), Drop(e, x.list[p])))
    case Unlocked(p) =>
      Some((Return(x.(locked := x.locked[p := false])), e))
    case AllEnter(i, skipOk) =>
      if i == |x.aDb| then Some((x.(noSharedCache := skipOk, pc := Idle), e))
      else if x.aDb[i].Sharable? then Some((BeginEnter(x.(ret := ToEnterAll(i + 1, false)), x.aDb[i].k), e))
      else Some((x.(pc := AllEnter(i + 1, skipOk)), e))
    case AllLeave(i) =>
      if i == |x.aDb| then Some((x.(pc := Idle), e))
      else if x.aDb[i].Sharable? then Some((BeginLeave(x.(ret := ToLeaveAll(i + 1)), x.aDb[i].k), e))
      else Some((x.(pc := AllLeave(i + 1)), e))
  }

  /** sqlite3_mutex_try returning SQLITE_BUSY, which it may do on a free mutex too. */
  function TryFails(x: Conn): Conn
    requires x.pc.Try?
  {
    x.(pc := Release(x.pc.p, x.pc.p + 1))
  }

  /** A thread inside the protocol may get from x and e to y and f. */
  ghost predicate Steps(c: ConnId, x: Conn, e: Env, y: Conn, f: Env)
    requires |x.want| == |x.locked| == |x.list| && PcOk(x) && !x.pc.Idle?
    requires SlotsOk(x.aDb, |x.list|)
    requires x.pc.AllLeave? ==> StillWanted(x.aDb, x.want, x.pc.i)
  {
    Step(c, x, e) == Some((y, f)) || (x.pc.Try? && y == TryFails(x) && f == e)
  }

  /** What an idle connection may call. */
  datatype Call = Enter(k: nat) | Leave(k: nat) | EnterAll | LeaveAll

  /** A caller leaves only what it has entered. */
  ghost predicate MayCall(x: Conn, call: Call)
    requires |x.want| == |x.locked| == |x.list|
  {
    match call
    case Enter(k) => k < |x.list|
    case Leave(k) => k < |x.list| && x.want[k] > 0
    case EnterAll => true
    case LeaveAll => StillWanted(x.aDb, x.want, 0)
  }

  function Begin(x: Conn, call: Call): Conn
    requires |x.want| == |x.locked| == |x.list|
    requires call.Enter? ==> call.k < |x.list|
    requires call.Leave? ==> call.k < |x.list| && x.want[call.k] > 0
  {
    match call
    case Enter(k) => BeginEnter(x, k)
    case Leave(k) => BeginLeave(x, k)
    case EnterAll => if x.noSharedCache then x else x.(pc := AllEnter(0, true))
    case LeaveAll => if x.noSharedCache then x else x.(pc := AllLeave(0))
  }

  /** Connection c takes one step from s to t. */
  ghost predicate Moves(s: State, t: State, c: ConnId) {
    && c < |s.conns| == |t.conns| && LocalOk(s.conns[c])
    && (forall d :: 0 <= d < |s.conns| && d != c ==> t.conns[d] == s.conns[d])
    && (var x := s.conns[c];
        if x.pc.Idle? then
          exists call :: MayCall(x, call) && t.conns[c] == Begin(x, call) && t.env == s.env
        else
          Steps(c, x, s.env, t.conns[c], t.env))
  }

  ghost predicate Initial(s: State) {
    && s.env.owner == map[]
    && forall c :: 0 <= c < |s.conns| ==>
         var x := s.conns[c];
         && Shape(x) && x.pc == Idle && x.ret == ToCaller
         && (x.noSharedCache ==> NoneShared(x.aDb, |x.aDb|))
         && forall k :: 0 <= k < |x.list| ==> x.want[k] == 0 && !x.locked[k]
  }

  /** Every interleaving of any number of steps of any connections. */
  ghost predicate Run(states: seq<State>) {
    |states| > 0 && Initial(states[0]) && 
    forall i, j {:trigger Next(states[i], states[j])} :: 0 <= i < j == i + 1 < |states| ==> Next(states[i], states[j])
  }

  ghost predicate Next(s: State, t: State) {
    exists c :: Moves(s, t, c)
  }

  // ------------------------------------------------------------ local preservation

  lemma ReturnOk(x: Conn)
    requires Shape(x) && AllSteady(x) && FlagsOk(x)
    requires x.ret.ToEnterAll? ==> x.ret.i <= |x.aDb|
    requires x.ret.ToLeaveAll? ==> x.ret.i <= |x.aDb| && StillWanted(x.aDb, x.want, x.ret.i)
    ensures LocalOk(Return(x))
    ensures forall k :: 0 <= k < |x.list| ==> (Holds(Return(x), k) <==> x.locked[k])
  {
  }

  lemma BeginEnterOk(x: Conn, k: nat)
    requires Shape(x) && k < |x.list| && AllSteady(x) && FlagsOk(x)
    requires x.ret.ToEnterAll? ==> x.ret.i <= |x.aDb|
    requires !x.ret.ToLeaveAll?
    ensures LocalOk(BeginEnter(x, k))
    ensures forall m :: 0 <= m < |x.list| ==> (Holds(BeginEnter(x, k), m) <==> x.locked[m])
  {
    var y := x.(want := x.want[k := x.want[k] + 1]);
    if y.locked[k] {
      ReturnOk(y);
    }
  }

  lemma BeginLeaveOk(x: Conn, k: nat)
    requires Shape(x) && k < |x.list| && x.want[k] > 0 && AllSteady(x) && FlagsOk(x)
    requires !x.ret.ToEnterAll?
    requires x.ret.ToLeaveAll? ==>
               0 < x.ret.i <= |x.aDb| && StillWanted(x.aDb, x.want, x.ret.i) && x.aDb[x.ret.i - 1] == Sharable(k)
    ensures LocalOk(BeginLeave(x, k))
    ensures forall m :: 0 <= m < |x.list| ==> (Holds(BeginLeave(x, k), m) <==> x.locked[m])
  {
    var y := x.(want := x.want[k := x.want[k] - 1]);
    if y.want[k] != 0 {
      ReturnOk(y);
    }
  }

  /** What one step of connection c may do to the shared state: take free
      mutexes, give up its own, and write the db of those it holds. */
  ghost predicate Confined(c: ConnId, e: Env, f: Env) {
    && (forall a :: Mine(c, e, a) || Free(e, a) || (a in f.owner && f.owner[a] == e.owner[a]))
    && (forall a :: Mine(c, f, a) || Free(f, a) || (a in e.owner && f.owner[a] == e.owner[a]))
    && (forall a :: a in e.db && !(Mine(c, e, a) && Mine(c, f, a)) ==> a in f.db && f.db[a] == e.db[a])
  }

  predicate Mine(c: ConnId, e: Env, a: Addr) {
    a in e.owner && e.owner[a] == c
  }

  predicate Free(e: Env, a: Addr) {
    a !in e.owner
  }

  ghost predicate Kept(c: ConnId, x: Conn, y: Conn, e: Env, f: Env) {
    y.list == x.list && LocalOk(y) && EnvOk(c, y, f) && Confined(c, e, f)
  }

  lemma KeptWithEnv(c: ConnId, x: Conn, y: Conn, e: Env)
    requires LocalOk(x) && EnvOk(c, x, e) && LocalOk(y) && y.list == x.list
    requires forall k :: 0 <= k < |x.list| ==> (Holds(x, k) <==> Holds(y, k))
    requires forall k :: 0 <= k < |x.list| && y.locked[k] && Holds(y, k) ==> x.locked[k]
    ensures Kept(c, x, y, e, e)
  {
  }

  lemma AcquireKept(c: ConnId, x: Conn, y: Conn, e: Env, p: nat)
    requires LocalOk(x) && EnvOk(c, x, e) && p < |x.list| && Free(e, x.list[p])
    requires LocalOk(y) && y.list == x.list && y.locked == x.locked && !x.locked[p]
    requires Gaining(x) == Losing(x) == Losing(y) == -1 && Gaining(y) == p
    ensures Kept(c, x, y, e, Acquire(e, x.list[p], c))
  {
  }

  lemma DropKept(c: ConnId, x: Conn, y: Conn, e: Env, p: nat)
    requires LocalOk(x) && EnvOk(c, x, e) && p < |x.list| && x.locked[p]
    requires LocalOk(y) && y.list == x.list && y.locked == x.locked
    requires Gaining(x) == Losing(x) == Gaining(y) == -1 && Losing(y) == p
    ensures Mine(c, e, x.list[p]) && e.db[x.list[p]] == c
    ensures Kept(c, x, y, e, Drop(e, x.list[p]))
  {
    assert Holds(x, p);
  }

  lemma RecordKept(c: ConnId, x: Conn, y: Conn, e: Env, p: nat)
    requires LocalOk(x) && EnvOk(c, x, e) && p < |x.list|
    requires LocalOk(y) && y.list == x.list && y.locked == x.locked[p := true]
    requires Gaining(x) == p && Losing(x) == Losing(y) == Gaining(y) == -1
    ensures Kept(c, x, y, e, Record(e, x.list[p], c))
  {
    assert Holds(x, p);
  }

  /** x and y are at points that say the same about every position. */
  lemma SamePoint(x: Conn, y: Conn)
    requires LocalOk(x) && y == x.(pc := y.pc) && PcOk(y)
    requires forall k :: 0 <= k < |x.list| && LockedAt(x, k) ==> LockedAt(y, k)
    requires !y.pc.Idle? && !y.pc.AllEnter? && !y.pc.AllLeave?
    ensures LocalOk(y)
  {
    forall k | 0 <= k < |x.list|
      ensures LockedAt(y, k)
    {
      assert LockedAt(x, k);
    }
  }

  lemma StepTry(c: ConnId, x: Conn, e: Env)
    requires LocalOk(x) && EnvOk(c, x, e) && x.pc.Try?
    ensures Step(c, x, e).Some? && Kept(c, x, Step(c, x, e).value.0, e, Step(c, x, e).value.1)
  {
    var p := x.pc.p;
    if Free(e, x.list[p]) {
      SamePoint(x, x.(pc := Took(p)));
      AcquireKept(c, x, x.(pc := Took(p)), e, p);
    } else {
      TryFailsKept(c, x, e);
    }
  }

  lemma TryFailsKept(c: ConnId, x: Conn, e: Env)
    requires LocalOk(x) && EnvOk(c, x, e) && x.pc.Try?
    ensures Kept(c, x, TryFails(x), e, e)
  {
    SamePoint(x, TryFails(x));
    KeptWithEnv(c, x, TryFails(x), e);
  }

  lemma StepTook(c: ConnId, x: Conn, e: Env)
    requires LocalOk(x) && EnvOk(c, x, e) && x.pc.Took?
    ensures Step(c, x, e).Some? && Kept(c, x, Step(c, x, e).value.0, e, Step(c, x, e).value.1)
  {
    var y := x.(locked := x.locked[x.pc.p := true]);
    forall k | 0 <= k < |x.list|
      ensures Steady(y, k)
    {
      assert LockedAt(x, k);
    }
    ReturnOk(y);
    RecordKept(c, x, Return(y), e, x.pc.p);
  }

  lemma StepRelease(c: ConnId, x: Conn, e: Env)
    requires LocalOk(x) && EnvOk(c, x, e) && x.pc.Release?
    ensures Step(c, x, e).Some? && Kept(c, x, Step(c, x, e).value.0, e, Step(c, x, e).value.1)
  {
    var p, j := x.pc.p, x.pc.j;
    if j < |x.list| && x.locked[j] {
      ReleaseOne(c, x, e, p, j);
    } else {
      ReleaseNone(c, x, e, p, j);
    }
  }

  lemma ReleaseOne(c: ConnId, x: Conn, e: Env, p: nat, j: nat)
    requires LocalOk(x) && EnvOk(c, x, e) && x.pc == Release(p, j) && j < |x.list| && x.locked[j]
    ensures Kept(c, x, x.(pc := Released(p, j)), e, Drop(e, x.list[j]))
  {
    SamePoint(x, x.(pc := Released(p, j)));
    DropKept(c, x, x.(pc := Released(p, j)), e, j);
  }

  lemma ReleaseNone(c: ConnId, x: Conn, e: Env, p: nat, j: nat)
    requires LocalOk(x) && EnvOk(c, x, e) && x.pc == Release(p, j) && (j == |x.list| || !x.locked[j])
    ensures Kept(c, x, x.(pc := if j == |x.list| then Block(p) else Release(p, j + 1)), e, e)
  {
    var y := x.(pc := if j == |x.list| then Block(p) else Release(p, j + 1));
    SamePoint(x, y);
    KeptWithEnv(c, x, y, e);
  }

  /** Writing `locked` at position p, when only that position must change. */
  lemma WrittenPoint(x: Conn, y: Conn, p: nat, b: bool)
    requires LocalOk(x) && p < |x.list| && y == x.(pc := y.pc, locked := x.locked[p := b]) && PcOk(y)
    requires forall k :: 0 <= k < |x.list| && LockedAt(x, k) ==> LockedAt(y, k)
    requires !y.pc.Idle? && !y.pc.AllEnter? && !y.pc.AllLeave?
    ensures LocalOk(y)
  {
    forall k | 0 <= k < |x.list|
      ensures LockedAt(y, k)
    {
      assert LockedAt(x, k);
    }
  }

  lemma StepReleased(c: ConnId, x: Conn, e: Env)
    requires LocalOk(x) && EnvOk(c, x, e) && x.pc.Released?
    ensures Step(c, x, e).Some? && Kept(c, x, Step(c, x, e).value.0, e, Step(c, x, e).value.1)
  {
    hide EnvOk;
    var p, j := x.pc.p, x.pc.j;
    var y := x.(locked := x.locked[j := false], pc := Release(p, j + 1));
    WrittenPoint(x, y, j, false);
    KeptWithEnv(c, x, y, e);
  }

  lemma StepBlock(c: ConnId, x: Conn, e: Env)
    requires LocalOk(x) && EnvOk(c, x, e) && x.pc.Block? && Step(c, x, e).Some?
    ensures Kept(c, x, Step(c, x, e).value.0, e, Step(c, x, e).value.1)
  {
    var p := x.pc.p;
    SamePoint(x, x.(pc := Own(p)));
    AcquireKept(c, x, x.(pc := Own(p)), e, p);
  }

  lemma StepOwn(c: ConnId, x: Conn, e: Env)
    requires LocalOk(x) && EnvOk(c, x, e) && x.pc.Own?
    ensures Step(c, x, e).Some? && Kept(c, x, Step(c, x, e).value.0, e, Step(c, x, e).value.1)
  {
    hide EnvOk;
    var p := x.pc.p;
    var y := x.(locked := x.locked[p := true], pc := Relock(p, p + 1));
    WrittenPoint(x, y, p, true);
    RecordKept(c, x, y, e, p);
  }

  lemma StepRelock(c: ConnId, x: Conn, e: Env)
    requires LocalOk(x) && EnvOk(c, x, e) && x.pc.Relock?
    ensures Step(c, x, e).Some? && Kept(c, x, Step(c, x, e).value.0, e, Step(c, x, e).value.1)
  {
    hide EnvOk;
    var p, j := x.pc.p, x.pc.j;
    if j == |x.list| {
      RelockDone(c, x, e);
    } else {
      var y := x.(pc := if x.want[j] > 0 then RelockBlock(p, j) else Relock(p, j + 1));
      SamePoint(x, y);
      KeptWithEnv(c, x, y, e);
    }
  }

  lemma RelockDone(c: ConnId, x: Conn, e: Env)
    requires LocalOk(x) && EnvOk(c, x, e) && x.pc.Relock? && x.pc.j == |x.list|
    ensures Kept(c, x, Return(x), e, e)
  {
    forall k | 0 <= k < |x.list|
      ensures Steady(x, k)
    {
      assert LockedAt(x, k);
    }
    ReturnOk(x);
    KeptWithEnv(c, x, Return(x), e);
  }

  lemma StepRelockBlock(c: ConnId, x: Conn, e: Env)
    requires LocalOk(x) && EnvOk(c, x, e) && x.pc.RelockBlock? && Step(c, x, e).Some?
    ensures Kept(c, x, Step(c, x, e).value.0, e, Step(c, x, e).value.1)
  {
    var p, j := x.pc.p, x.pc.j;
    SamePoint(x, x.(pc := RelockOwn(p, j)));
    AcquireKept(c, x, x.(pc := RelockOwn(p, j)), e, j);
  }

  lemma StepRelockOwn(c: ConnId, x: Conn, e: Env)
    requires LocalOk(x) && EnvOk(c, x, e) && x.pc.RelockOwn?
    ensures Step(c, x, e).Some? && Kept(c, x, Step(c, x, e).value.0, e, Step(c, x, e).value.1)
  {
    hide EnvOk;
    var p, j := x.pc.p, x.pc.j;
    var y := x.(locked := x.locked[j := true], pc := Relock(p, j + 1));
    WrittenPoint(x, y, j, true);
    RecordKept(c, x, y, e, j);
  }

  lemma StepLeave(c: ConnId, x: Conn, e: Env)
    requires LocalOk(x) && EnvOk(c, x, e) && (x.pc.Unlock? || x.pc.Unlocked?)
    ensures Step(c, x, e).Some? && Kept(c, x, Step(c, x, e).value.0, e, Step(c, x, e).value.1)
  {
    hide EnvOk;
    var p := x.pc.p;
    if x.pc.Unlock? {
      SamePoint(x, x.(pc := Unlocked(p)));
      DropKept(c, x, x.(pc := Unlocked(p)), e, p);
    } else {
      var z := x.(locked := x.locked[p := false]);
      forall k | 0 <= k < |x.list|
        ensures Steady(z, k)
      {
        assert LockedAt(x, k);
      }
      ReturnOk(z);
      KeptWithEnv(c, x, Return(z), e);
    }
  }

  lemma LoopHeadOk(y: Conn)
    requires Shape(y) && AllSteady(y) && PcOk(y) && FlagsOk(y) && y.ret.ToCaller?
    requires y.pc.Idle? || y.pc.AllEnter? || (y.pc.AllLeave? && StillWanted(y.aDb, y.want, y.pc.i))
    ensures LocalOk(y) && forall k :: 0 <= k < |y.list| ==> (Holds(y, k) <==> y.locked[k])
  {
  }

  lemma AtLoopHead(x: Conn)
    requires LocalOk(x) && (x.pc.AllEnter? || x.pc.AllLeave? || x.pc.Idle?)
    ensures AllSteady(x) && forall k :: 0 <= k < |x.list| ==> (Holds(x, k) <==> x.locked[k])
  {
    forall k | 0 <= k < |x.list|
      ensures Steady(x, k)
    {
      assert LockedAt(x, k);
    }
  }

  lemma StepAllEnter(c: ConnId, x: Conn, e: Env)
    requires LocalOk(x) && EnvOk(c, x, e) && x.pc.AllEnter?
    ensures Step(c, x, e).Some? && Kept(c, x, Step(c, x, e).value.0, e, Step(c, x, e).value.1)
  {
    hide Kept;
    var i := x.pc.i;
    if i < |x.aDb| && x.aDb[i].Sharable? {
      EnterNext(c, x, e, i);
    } else {
      var y := if i == |x.aDb| then x.(noSharedCache := x.pc.skipOk, pc := Idle)
               else x.(pc := AllEnter(i + 1, x.pc.skipOk));
      AtLoopHead(x);
      LoopHeadOk(y);
      KeptWithEnv(c, x, y, e);
    }
  }

  lemma EnterNext(c: ConnId, x: Conn, e: Env, i: nat)
    requires LocalOk(x) && EnvOk(c, x, e) && x.pc.AllEnter? && x.pc.i == i < |x.aDb| && x.aDb[i].Sharable?
    ensures Kept(c, x, BeginEnter(x.(ret := ToEnterAll(i + 1, false)), x.aDb[i].k), e, e)
  {
    AtLoopHead(x);
    var z := x.(ret := ToEnterAll(i + 1, false));
    assert AllSteady(z) by {
      forall k | 0 <= k < |x.list| ensures Steady(z, k) {
        assert Steady(x, k);
      }
    }
    BeginEnterOk(z, x.aDb[i].k);
    KeptWithEnv(c, x, BeginEnter(z, x.aDb[i].k), e);
  }

  lemma StepAllLeave(c: ConnId, x: Conn, e: Env)
    requires LocalOk(x) && EnvOk(c, x, e) && x.pc.AllLeave?
    ensures Step(c, x, e).Some? && Kept(c, x, Step(c, x, e).value.0, e, Step(c, x, e).value.1)
  {
    hide Kept;
    var i := x.pc.i;
    if i < |x.aDb| && x.aDb[i].Sharable? {
      LeaveNext(c, x, e, i);
    } else {
      var y := x.(pc := if i == |x.aDb| then Idle else AllLeave(i + 1));
      AtLoopHead(x);
      LoopHeadOk(y);
      KeptWithEnv(c, x, y, e);
    }
  }

  lemma LeaveNext(c: ConnId, x: Conn, e: Env, i: nat)
    requires LocalOk(x) && EnvOk(c, x, e) && x.pc == AllLeave(i) && i < |x.aDb| && x.aDb[i].Sharable?
    ensures Kept(c, x, BeginLeave(x.(ret := ToLeaveAll(i + 1)), x.aDb[i].k), e, e)
  {
    AtLoopHead(x);
    var z := x.(ret := ToLeaveAll(i + 1));
    assert AllSteady(z) by {
      forall k | 0 <= k < |x.list| ensures Steady(z, k) {
        assert Steady(x, k);
      }
    }
    BeginLeaveOk(z, x.aDb[i].k);
    LeftUnchanged(x, z, x.aDb[i].k);
    KeptWithEnv(c, x, BeginLeave(z, x.aDb[i].k), e);
  }

  lemma LeftUnchanged(x: Conn, z: Conn, k: nat)
    requires k < |z.want| && z.want[k] > 0 && z == x.(ret := z.ret)
    ensures BeginLeave(z, k).list == x.list && BeginLeave(z, k).locked == x.locked
  {
  }

  lemma StepKept(c: ConnId, x: Conn, e: Env)
    requires LocalOk(x) && EnvOk(c, x, e) && !x.pc.Idle? && Step(c, x, e).Some?
    ensures Kept(c, x, Step(c, x, e).value.0, e, Step(c, x, e).value.1)
  {
    match x.pc
    case Try(_) => StepTry(c, x, e);
    case Took(_) => StepTook(c, x, e);
    case Release(_, _) => StepRelease(c, x, e);
    case Released(_, _) => StepReleased(c, x, e);
    case Block(_) => StepBlock(c, x, e);
    case Own(_) => StepOwn(c, x, e);
    case Relock(_, _) => StepRelock(c, x, e);
    case RelockBlock(_, _) => StepRelockBlock(c, x, e);
    case RelockOwn(_, _) => StepRelockOwn(c, x, e);
    case Unlock(_) => StepLeave(c, x, e);
    case Unlocked(_) => StepLeave(c, x, e);
    case AllEnter(_, _) => StepAllEnter(c, x, e);
    case AllLeave(_) => StepAllLeave(c, x, e);
  }

  lemma CallKept(c: ConnId, x: Conn, e: Env, call: Call)
    requires LocalOk(x) && EnvOk(c, x, e) && x.pc.Idle? && MayCall(x, call)
    ensures Kept(c, x, Begin(x, call), e, e)
  {
    AtLoopHead(x);
    match call
    case Enter(k) => BeginEnterOk(x, k);
    case Leave(k) => BeginLeaveOk(x, k);
    case EnterAll => LoopHeadOk(Begin(x, call));
    case LeaveAll => LoopHeadOk(Begin(x, call));
    KeptWithEnv(c, x, Begin(x, call), e);
  }

  // ------------------------------------------------------------- the invariant

  /** A confined change leaves the other connections' mutexes alone. */
  lemma OthersKept(c: ConnId, d: ConnId, x: Conn, e: Env, f: Env)
    requires c != d && LocalOk(x) && EnvOk(d, x, e) && Confined(c, e, f)
    ensures EnvOk(d, x, f)
  {
    forall k | 0 <= k < |x.list|
      ensures Mine(d, f, x.list[k]) <==> Holds(x, k)
      ensures x.locked[k] && Holds(x, k) ==> x.list[k] in f.db && f.db[x.list[k]] == d
    {
      var a := x.list[k];
      assert Mine(c, e, a) || Free(e, a) || (a in f.owner && f.owner[a] == e.owner[a]);
      assert Mine(c, f, a) || Free(f, a) || (a in e.owner && f.owner[a] == e.owner[a]);
      assert Mine(d, e, a) <==> Holds(x, k);
    }
  }

  lemma InitialInv(s: State)
    requires Initial(s)
    ensures Inv(s)
  {
  }

  /** Every step of every connection keeps the invariant. */
  lemma MovesInv(s: State, t: State, c: ConnId)
    requires Inv(s) && Moves(s, t, c)
    ensures Inv(t)
  {
    hide NoneShared;
    hide Confined;
    var x, y := s.conns[c], t.conns[c];
    if x.pc.Idle? {
      var call :| MayCall(x, call) && y == Begin(x, call) && t.env == s.env;
      CallKept(c, x, s.env, call);
    } else if Step(c, x, s.env) == Some((y, t.env)) {
      StepKept(c, x, s.env);
    } else {
      TryFailsKept(c, x, s.env);
    }
    assert Kept(c, x, y, s.env, t.env);
    forall d | 0 <= d < |t.conns| && d != c
      ensures LocalOk(t.conns[d]) && EnvOk(d, t.conns[d], t.env)
    {
      OthersKept(c, d, s.conns[d], s.env, t.env);
    }
    OwnersKept(s, t, c);
  }

  lemma OwnersKept(s: State, t: State, c: ConnId)
    requires Inv(s) && c < |s.conns| == |t.conns| && t.conns[c].list == s.conns[c].list
    requires forall d :: 0 <= d < |s.conns| && d != c ==> t.conns[d] == s.conns[d]
    requires Confined(c, s.env, t.env)
    requires forall a :: Mine(c, t.env, a) && !Mine(c, s.env, a) ==> a in s.conns[c].list
    ensures forall a :: a in t.env.owner ==> t.env.owner[a] < |t.conns| && a in t.conns[t.env.owner[a]].list
  {
    forall a | a in t.env.owner
      ensures t.env.owner[a] < |t.conns| && a in t.conns[t.env.owner[a]].list
    {
      assert Mine(c, t.env, a) || Free(t.env, a) || (a in s.env.owner && t.env.owner[a] == s.env.owner[a]);
    }
  }
}
