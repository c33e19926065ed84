/** timediff(A,B) and the modifier "(+|-)YYYY-MM-DD HH:MM:SS.SSS" that it is
    meant for: adding timediff(A,B) to B should give A. */
module Timediff {
  import opened Options
  import opened Calendar
  import opened DateTimes

  /** The parts of the text that timediff() prints. */
  datatype Shift = Shift(plus: bool, Y: int, M: int, D: int, h: int, m: int, s: int)

  // -------------------------------------------------------- months and instants

  /** Day d of month number k, at time t; the day may overflow the month. */
  function At(k: int, d: int, t: int): int {
    (MonthStart(k) + d) * DAY - HALF_DAY + t
  }

  lemma AtIsInstant(y: int, m: int, d: int, t: int)
    requires 1 <= m <= 12
    ensures Instant(y, m, d) + t == At(MonthIndex(y, m), d, t)
  {
    DayInMonth(y, m, d);
  }

  /** One month more is 28 to 31 days more. */
  lemma AtNext(k: int, d: int, t: int)
    requires MonthOk(k)
    ensures At(k, d, t) + 28 * DAY <= At(k + 1, d, t) <= At(k, d, t) + 31 * DAY
  {
    NextMonth(k);
  }

  lemma AtMonotone(j: int, k: int, d: int, t: int)
    requires MonthOk(j) && MonthOk(k) && j <= k
    ensures At(j, d, t) <= At(k, d, t)
  {
    if j < k {
      MonthsInOrder(j, k);
      NextMonth(j);
    }
  }

  /** The first day and hour of the next month is past the whole month. */
  lemma LaterMonth(j: int, d: int, t: int, k: int, e: int, u: int)
    requires MonthOk(j) && MonthOk(k) && j < k
    requires 1 <= d <= MonthDays(j) && t < DAY && e >= 1 && u >= 0
    ensures At(j, d, t) < At(k, e, u)
  {
    MonthsInOrder(j, k);
  }

  /** p holds day d and time t of month number k, and the instant i. */
  ghost predicate Shows(p: DateTime, k: int, d: int, t: int, i: int)
    reads p
  {
    && p.validJD && p.validYMD && p.validHMS && p.tz == 0 && !p.isError
    && 1 <= p.M <= 12 && YearOk(p.Y) && MonthIndex(p.Y, p.M) == k
    && p.D == d && TimeOfDay(p.h, p.m, p.s) == t && p.iJD == i
  }

  /** Change year and month and compute the instant again. */
  method MoveTo(p: DateTime, Y: int, M: int, ghost k: int, ghost d: int, ghost t: int)
    requires Shows(p, k, d, t, p.iJD) && YearOk(Y) && 1 <= M <= 12
    modifies p
    ensures var j := MonthIndex(Y, M); Shows(p, j, d, t, At(j, d, t)) && p.Y == Y && p.M == M
  {
    hide DayNumber;
    hide MonthStart;
    p.Y, p.M := Y, M;
    p.validJD := false;
    p.ComputeJD();
    AtIsInstant(Y, M, d, t);
  }

  // ------------------------------------------------------------------ timediff()

  /** The loop for A not before B, which d2 enters with the month of A and the
      instant i.  It ends in the last month up to A's in which d2 is not after A. */
  method Backward(a: int, d2: DateTime, Y0: int, M0: int,
                  ghost kA: int, ghost kB: int, ghost d: int, ghost t: int, ghost i: int)
    returns (Y: int, M: int, ghost k: int)
    requires MonthOk(kA) && MonthOk(kB - 1) && At(kB - 1, d, t) <= a
    requires Shows(d2, kA, d, t, i) && a < i + 31 * DAY
    requires if kA > kB then i == At(kA, d, t) else i <= a
    requires 12 * Y0 + M0 == kA - kB && 0 <= M0 <= 11
    modifies d2
    ensures MonthOk(k) && k <= kA && Shows(d2, k, d, t, if k == kA then i else At(k, d, t))
    ensures d2.iJD <= a < d2.iJD + 31 * DAY
    ensures k < kA ==> kB - 1 <= k && kB < kA && a < At(k + 1, d, t)
    ensures 12 * Y + M == k - kB && 0 <= M <= 11
  {
    hide MonthStart;
    Y, M, k := Y0, M0, kA;
    while a < d2.iJD
      invariant MonthOk(k) && k <= kA && Shows(d2, k, d, t, if k == kA then i else At(k, d, t))
      invariant k < kA ==> kB - 1 <= k && kB < kA && a < At(k + 1, d, t)
      invariant a < d2.iJD + 31 * DAY
      invariant 12 * Y + M == k - kB && 0 <= M <= 11
      decreases k - kB + 1
    {
      Y, M := OneLess(Y, M);
      k := StepBack(a, d2, k, kB, d, t);
    }
  }

  method StepBack(a: int, d2: DateTime, ghost k: int, ghost kB: int, ghost d: int, ghost t: int)
    returns (ghost k': int)
    requires MonthOk(k) && MonthOk(kB - 1) && kB - 1 <= k && At(kB - 1, d, t) <= a < At(k, d, t)
    requires Shows(d2, k, d, t, At(k, d, t))
    modifies d2
    ensures k' == k - 1 && kB <= k && MonthOk(k') && Shows(d2, k', d, t, At(k', d, t)) && a < At(k', d, t) + 31 * DAY
  {
    hide MonthStart;
    var y, m := d2.Y, d2.M - 1;
    if m < 1 {
      m := 12;
      y := y - 1;
    }
    MoveBack(k, kB - 1, y, m);
    MoveTo(d2, y, m, k, d, t);
    k' := k - 1;
    AtNext(k', d, t);
  }

  /** One month less, as years and months. */
  method OneLess(Y0: int, M0: int) returns (Y: int, M: int)
    requires 0 <= M0 <= 11
    ensures 12 * Y + M == 12 * Y0 + M0 - 1 && 0 <= M <= 11
  {
    Y, M := Y0, M0 - 1;
    if M < 0 {
      M := 11;
      Y := Y - 1;
    }
  }

  lemma MoveBack(k: int, kB: int, y: int, m: int)
    requires MonthOk(k) && MonthOk(kB) && kB < k && 1 <= m <= 12 && MonthIndex(y, m) == k - 1
    ensures YearOk(y) && MonthOk(k - 1)
  {
    MonthParts(y, m);
  }

  /** The loop for A before B.  It ends in the first month from A's on in which d2 is
      not before A. */
  method Forward(a: int, d2: DateTime, Y0: int, M0: int,
                 ghost kA: int, ghost kB: int, ghost d: int, ghost t: int, ghost i: int)
    returns (Y: int, M: int, ghost k: int)
    requires MonthOk(kA) && MonthOk(kB) && a < At(kB, d, t)
    requires Shows(d2, kA, d, t, i) && i < a + 31 * DAY + Slack(kA, kB, d, t)
    requires if kA < kB then i == At(kA, d, t) else a <= i
    requires 12 * Y0 + M0 == kB - kA && 0 <= M0 <= 11
    modifies d2
    ensures MonthOk(k) && kA <= k && Shows(d2, k, d, t, if k == kA then i else At(k, d, t))
    ensures a <= d2.iJD < a + 31 * DAY + Slack(kA, kB, d, t)
    ensures kA < k ==> k <= kB && At(k - 1, d, t) < a
    ensures 12 * Y + M == kB - k && 0 <= M <= 11
  {
    hide MonthStart;
    Y, M, k := Y0, M0, kA;
    while a > d2.iJD
      invariant MonthOk(k) && kA <= k && Shows(d2, k, d, t, if k == kA then i else At(k, d, t))
      invariant kA < k ==> k <= kB && At(k - 1, d, t) < a
      invariant d2.iJD < a + 31 * DAY + Slack(kA, kB, d, t)
      invariant 12 * Y + M == kB - k && 0 <= M <= 11
      decreases kB - k
    {
      Y, M := OneLess(Y, M);
      k := StepOn(a, d2, k, kB, d, t);
    }
  }

  method StepOn(a: int, d2: DateTime, ghost k: int, ghost kB: int, ghost d: int, ghost t: int)
    returns (ghost k': int)
    requires MonthOk(k) && MonthOk(kB) && k <= kB && At(k, d, t) < a < At(kB, d, t)
    requires Shows(d2, k, d, t, At(k, d, t))
    modifies d2
    ensures k' == k + 1 && k' <= kB && MonthOk(k') && Shows(d2, k', d, t, At(k', d, t)) && At(k', d, t) < a + 31 * DAY
  {
    hide MonthStart;
    var y, m := d2.Y, d2.M + 1;
    if m > 12 {
      m := 1;
      y := y + 1;
    }
    MoveOn(k, kB, y, m);
    AtNext(k, d, t);
    MoveTo(d2, y, m, k, d, t);
    k' := k + 1;
  }

  lemma MoveOn(k: int, kB: int, y: int, m: int)
    requires MonthOk(k) && MonthOk(kB) && k < kB && 1 <= m <= 12 && MonthIndex(y, m) == k + 1
    ensures YearOk(y) && MonthOk(k + 1)
  {
    MonthParts(y, m);
  }

  /** Difference of two (year, month) pairs, with the month part in 0..11. */
  method MonthDifference(y1: int, m1: int, y2: int, m2: int) returns (Y: int, M: int)
    requires 1 <= m1 <= 12 && 1 <= m2 <= 12
    ensures 12 * Y + M == MonthIndex(y1, m1) - MonthIndex(y2, m2) && 0 <= M <= 11
  {
    Y := y1 - y2;
    M := m1 - m2;
    if M < 0 {
      Y := Y - 1;
      M := M + 12;
    }
  }

  /** Give d2 the year and month of d1, where they differ. */
  method Align(d2: DateTime, y1: int, m1: int, ghost k: int, ghost d: int, ghost t: int)
    requires Shows(d2, k, d, t, d2.iJD) && YearOk(y1) && 1 <= m1 <= 12
    modifies d2
    ensures var j := MonthIndex(y1, m1);
            if j == k then unchanged(d2) else Shows(d2, j, d, t, At(j, d, t))
  {
    hide MonthStart;
    if y1 != d2.Y {
      MoveTo(d2, y1, d2.M, k, d, t);
    }
    if m1 != d2.M {
      MoveTo(d2, y1, m1, MonthIndex(d2.Y, d2.M), d, t);
    }
  }

  /** The remainder, printed as days and time of day counted from 0000-01-01: what is
      more than the 31 days of January shows as days of February. */
  method PrintRemainder(rest: int) returns (D: int, h: int, m: int, s: int)
    requires 0 <= rest < 31 * DAY + 3600000
    ensures D == rest / DAY % 31
    ensures 0 <= h < 24 && 0 <= m < 60 && 0 <= s < 60000 && TimeOfDay(h, m, s) == rest % DAY
  {
    hide DayNumber;
    hide FromDayNumber;
    var d1 := new DateTime();
    d1.iJD := rest + 1486995408 * 100000;
    d1.validJD := true;
    January(rest);
    d1.ComputeYMD();
    d1.ComputeHMS();
    D, h, m, s := d1.D - 1, d1.h, d1.m, d1.s;
  }

  lemma January(rest: int)
    requires 0 <= rest < 31 * DAY + 3600000
    ensures var i := rest + 1486995408 * 100000;
            && ValidJulianDay(i) && DateAt(i).d == 1 + rest / DAY % 31 && MsOfDay(i) == rest % DAY
  {
    hide FromDayNumber;
    var n := rest / DAY;
    var f := if n < 31 then Date(0, 1, 1 + n) else Date(0, 2, 1);
    YearZero(f, n);
    PartsOfInstant(f, rest % DAY);
  }

  lemma YearZero(f: Date, n: int)
    requires 0 <= n <= 31 && f == if n < 31 then Date(0, 1, 1 + n) else Date(0, 2, 1)
    ensures ValidDate(f) && DayNumber(f.y, f.m, f.d) == 1721060 + n
  {
    assert DayNumber(0, 1, 1) == 1721060;
    DayLinear(0, 1, 1, n);
    assert DayNumber(0, 2, 1) == 1721091;
  }

  /** The instant i lies on the day its date fields show; if the time was given as
      24:mm:ss it lies in the first hour of the next day, and then isDate leaves the
      fields as they are only up to the 28th. */
  predicate Near(i: int, fields: Date) {
    var t := i - Instant(fields.y, fields.m, fields.d);
    0 <= t < DAY + 3600000 && (t >= DAY ==> fields.d <= 28)
  }

  /** In another month a day past the 28th with hour 24 reaches an hour further. */
  function Slack(kA: int, kB: int, d: int, t: int): int {
    if kA != kB && t >= DAY && d > 28 then 3600000 else 0
  }

  /** A month's worth of days at most lies between A and the day of B in A's month. */
  lemma CloseInMonth(a: int, f: Date, d: int, t: int)
    requires ValidDate(f) && Near(a, f) && 1 <= d <= 31 && 0 <= t < DAY + 3600000
    ensures var i := At(MonthIndex(f.y, f.m), d, t);
            a < i + 31 * DAY && i < a + 31 * DAY + 3600000 && (t < DAY || d <= 28 ==> i < a + 31 * DAY)
  {
    hide DayNumber;
    hide MonthStart;
    AtIsInstant(f.y, f.m, f.d, 0);
  }

  /** The instant d2 is compared with first: B itself, if it is in the same month. */
  ghost function FirstTry(b: int, kA: int, kB: int, d: int, t: int): int {
    if kA == kB then b else At(kA, d, t)
  }

  /** The month the loops of timediffFunc end in. */
  ghost function LandsIn(a: int, b: int, kA: int, kB: int, d: int, t: int): int {
    if kA == kB then kA
    else if a >= b then (if At(kA, d, t) <= a then kA else if At(kA - 1, d, t) <= a then kA - 1 else kA - 2)
    else (if a <= At(kA, d, t) then kA else if a <= At(kA + 1, d, t) then kA + 1 else kA + 2)
  }

  /** B at instant b is seen with day d and time t of month kB; with a time from
      24:00 on, the date may be that of the instant already. */
  ghost predicate SeenAs(b: int, kB: int, d: int, t: int) {
    && MonthOk(kB - 1) && MonthOk(kB) && 1 <= d <= 31 && 0 <= t < DAY + 3600000
    && ((b == At(kB, d, t) && (t < DAY || d <= 28)) || (t >= DAY && b == At(kB, d, t) - DAY))
  }

  /** What the loops start from. */
  ghost predicate Comparable(a: int, b: int, kA: int, kB: int, d: int, t: int, i: int) {
    && MonthOk(kA) && SeenAs(b, kB, d, t) && i == FirstTry(b, kA, kB, d, t)
    && a < i + 31 * DAY && i < a + 31 * DAY + Slack(kA, kB, d, t)
    && (a >= b ==> At(kB - 1, d, t) <= a && (kA <= kB ==> i <= a))
    && (a < b ==> a < At(kB, d, t) && (kA >= kB ==> a <= i))
  }

  lemma AlwaysComparable(a: int, f: Date, b: int, kB: int, d: int, t: int)
    requires ValidDate(f) && Near(a, f) && SeenAs(b, kB, d, t)
    ensures var kA := MonthIndex(f.y, f.m); Comparable(a, b, kA, kB, d, t, FirstTry(b, kA, kB, d, t))
  {
    hide MonthStart;
    var kA := MonthIndex(f.y, f.m);
    MonthParts(f.y, f.m);
    CloseInMonth(a, f, d, t);
    AtNext(kB - 1, d, t);
    if kA == kB {
      CloseInMonth(a, f, d, b - At(kB, d, 0));
    } else if kA < kB {
      AtMonotone(kA, kB - 1, d, t);
    } else {
      AtMonotone(kB, kA, d, t);
    }
  }

  /** The months of A and B are in the order of the instants; `late` is the day by
      which B's instant falls short of its fields. */
  predicate InOrder(a: int, kA: int, b: int, kB: int, late: int) {
    if a >= b then kA == kB || (kA > kB && a >= b + late) else kA <= kB
  }

  /** The loops of timediffFunc, after which d2 is at most 31 days from A. */
  method ShiftMonths(a: int, fields: Date, d2: DateTime, ghost kB: int, ghost d: int, ghost t: int)
    returns (Y: int, M: int, ghost k: int)
    requires ValidDate(fields) && Shows(d2, kB, d, t, d2.iJD)
    requires var kA := MonthIndex(fields.y, fields.m);
             Comparable(a, d2.iJD, kA, kB, d, t, FirstTry(d2.iJD, kA, kB, d, t))
    modifies d2
    ensures var b, kA := old(d2.iJD), MonthIndex(fields.y, fields.m);
            && MonthOk(k) && k == LandsIn(a, b, kA, kB, d, t) && d2.iJD == (if kA == kB then b else At(k, d, t))
            && (if a >= b then d2.iJD <= a < d2.iJD + 31 * DAY else a <= d2.iJD < a + 31 * DAY + Slack(kA, kB, d, t))
            && 0 <= M <= 11 && 12 * Y + M == (if a >= b then k - kB else kB - k)
            && (Y >= 0 <==> InOrder(a, kA, b, kB, At(kB, d, t) - b))
  {
    hide MonthStart;
    ghost var kA, b := MonthIndex(fields.y, fields.m), d2.iJD;
    ghost var i := FirstTry(b, kA, kB, d, t);
    if a >= d2.iJD {
      Y, M := MonthDifference(fields.y, fields.m, d2.Y, d2.M);
      Align(d2, fields.y, fields.m, kB, d, t);
      Y, M, k := Backward(a, d2, Y, M, kA, kB, d, t, i);
      LastNotAfter(a, b, k, kA, kB, d, t);
    } else {
      Y, M := MonthDifference(d2.Y, d2.M, fields.y, fields.m);
      Align(d2, fields.y, fields.m, kB, d, t);
      Y, M, k := Forward(a, d2, Y, M, kA, kB, d, t, i);
      FirstNotBefore(a, b, k, kA, kB, d, t);
    }
  }

  lemma LastNotAfter(a: int, b: int, k: int, kA: int, kB: int, d: int, t: int)
    requires Comparable(a, b, kA, kB, d, t, FirstTry(b, kA, kB, d, t)) && a >= b && MonthOk(k) && k <= kA
    requires k < kA ==> kB < kA && a < At(k + 1, d, t)
    requires (if k == kA then FirstTry(b, kA, kB, d, t) else At(k, d, t)) <= a
    ensures k == LandsIn(a, b, kA, kB, d, t)
    ensures k >= kB <==> InOrder(a, kA, b, kB, At(kB, d, t) - b)
  {
    hide MonthStart;
    if k < kA - 2 {
      AtNext(kA - 1, d, t);
      AtNext(kA - 2, d, t);
      AtMonotone(k + 1, kA - 2, d, t);
    } else if k == kA - 2 {
      AtNext(kA - 1, d, t);
    }
    if kA > kB {
      if k >= kB {
        AtMonotone(kB, k, d, t);
      } else {
        AtMonotone(k + 1, kB, d, t);
      }
    }
  }

  lemma FirstNotBefore(a: int, b: int, k: int, kA: int, kB: int, d: int, t: int)
    requires Comparable(a, b, kA, kB, d, t, FirstTry(b, kA, kB, d, t)) && a < b && MonthOk(k) && kA <= k
    requires kA < k ==> k <= kB && At(k - 1, d, t) < a
    requires a <= (if k == kA then FirstTry(b, kA, kB, d, t) else At(k, d, t))
    ensures k == LandsIn(a, b, kA, kB, d, t)
    ensures k <= kB <==> InOrder(a, kA, b, kB, At(kB, d, t) - b)
  {
    hide MonthStart;
    if k > kA + 2 {
      AtNext(kA, d, t);
      AtNext(kA + 1, d, t);
      AtMonotone(kA + 2, k - 1, d, t);
    } else if k == kA + 2 {
      AtNext(kA, d, t);
    }
  }

  // ----------------------------------------------------------------- B as written

  /** A date-time as it may be written: the day may lie outside its month, and the
      hour may be 24. */
  predicate IsWritten(w: Date, t: int) {
    YearOk(w.y) && 1 <= w.m <= 12 && 1 <= w.d <= 31 && 0 <= t < DAY + 3600000
  }

  function InstantOf(w: Date, t: int): int {
    Instant(w.y, w.m, w.d) + t
  }

  /** The date fields that timediff() sees: isDate normalises days beyond the 28th. */
  function Seen(w: Date, t: int): Date {
    if w.d > 28 then DateAt(InstantOf(w, t)) else w
  }

  /** One day, if isDate normalised the date while the hour stayed 24. */
  function Late(w: Date, t: int): int {
    if w.d > 28 && t >= DAY then 1 else 0
  }

  function MonthOf(w: Date): int {
    MonthIndex(w.y, w.m)
  }

  /** f is the day x of w's month, which may be a day of the next one. */
  predicate IsDay(w: Date, x: int, f: Date) {
    || (MonthOf(f) == MonthOf(w) && f.d == x)
    || (MonthOf(f) == MonthOf(w) + 1 && f.d == x - MonthDays(MonthOf(w)) && f.d <= 28)
  }

  /** The fields seen show the day of the instant, or of the midnight before it. */
  lemma SeenShows(w: Date, t: int)
    requires IsWritten(w, t) && ValidJulianDay(InstantOf(w, t))
    ensures var f := Seen(w, t);
            && ValidDate(f) && InstantOf(f, t) == InstantOf(w, t) + Late(w, t) * DAY
            && IsDay(w, w.d + Late(w, t), f)
  {
    hide DayNumber;
    hide FromDayNumber;
    if w.d > 28 {
      var x := w.d + Late(w, t);
      DayLinear(w.y, w.m, w.d, x - w.d);
      var f := DayFound(w, x);
      PartsOfInstant(f, t - Late(w, t) * DAY);
    } else {
      ShortEnough(w);
    }
  }

  lemma ShortEnough(w: Date)
    requires YearOk(w.y) && 1 <= w.m <= 12 && 1 <= w.d <= 28
    ensures ValidDate(w)
  {
  }

  /** The date of day x of w's month. */
  lemma DayFound(w: Date, x: int) returns (f: Date)
    requires YearOk(w.y) && 1 <= w.m <= 12 && 28 < x <= 32 && DayNumber(w.y, w.m, x) <= LAST_DAY
    ensures ValidDate(f) && DayNumber(f.y, f.m, f.d) == DayNumber(w.y, w.m, x) && IsDay(w, x, f)
  {
    hide DayNumber;
    MonthParts(w.y, w.m);
    if x <= DaysInMonth(w.y, w.m) {
      f := Date(w.y, w.m, x);
    } else if w.m < 12 {
      f := Date(w.y, w.m + 1, x - DaysInMonth(w.y, w.m));
      FromDayZero(w.y, w.m);
      DayLinear(w.y, w.m, 0, x);
      DayLinear(f.y, f.m, 0, f.d);
    } else {
      f := Date(w.y + 1, 1, x - 31);
      FromDayZero(w.y, w.m);
      DayLinear(w.y, w.m, 0, x);
      DayLinear(f.y, f.m, 0, f.d);
      YearEnds(w.y, x);
    }
  }

  lemma YearEnds(y: int, x: int)
    requires YearOk(y) && x > 31 && DayNumber(y, 12, x) <= LAST_DAY
    ensures YearOk(y + 1)
  {
    hide DayNumber;
    DayLinear(y, 12, 31, x - 31);
    LastOfYear();
  }

  lemma LastOfYear()
    ensures DayNumber(9999, 12, 31) == LAST_DAY
  {
  }

  /** isDate and computeYMD_HMS on B, as timediff() does them. */
  method ReadB(w: Date, t: int) returns (p: DateTime)
    requires IsWritten(w, t) && ValidJulianDay(InstantOf(w, t))
    ensures fresh(p) && ValidDate(Seen(w, t)) && Date(p.Y, p.M, p.D) == Seen(w, t)
    ensures Shows(p, MonthOf(Seen(w, t)), Seen(w, t).d, t, InstantOf(w, t))
  {
    hide DayNumber;
    hide FromDayNumber;
    hide DaysInMonth;
    p := Given(w, t);
    p.ComputeJD();
    SeenShows(w, t);
    if p.D > 28 {
      p.validYMD := false;
    }
    p.ComputeYMD();
    p.ComputeHMS();
  }

  lemma SeenIsSeenAs(w: Date, t: int)
    requires IsWritten(w, t) && ValidJulianDay(InstantOf(w, t))
    ensures var f := Seen(w, t);
            && SeenAs(InstantOf(w, t), MonthOf(f), f.d, t)
            && At(MonthOf(f), f.d, t) == InstantOf(w, t) + Late(w, t) * DAY
  {
    hide DayNumber;
    hide FromDayNumber;
    hide MonthStart;
    SeenShows(w, t);
    var f := Seen(w, t);
    AtIsInstant(f.y, f.m, f.d, t);
    MonthParts(f.y, f.m);
    NotTheFirst(f, t);
  }

  lemma NotTheFirst(f: Date, t: int)
    requires ValidDate(f) && InstantOf(f, t) >= 0 && t < DAY + 3600000
    ensures MonthOk(MonthOf(f) - 1)
  {
    hide DayNumber;
    MonthParts(f.y, f.m);
    if f.y == -4713 && f.m == 1 {
      DayLinear(-4713, 1, 1, f.d - 1);
      FirstOfAll();
    }
  }

  lemma FirstOfAll()
    ensures DayNumber(-4713, 1, 1) < -300
  {
  }

  /** An object with the fields as written. */
  method Given(w: Date, t: int) returns (p: DateTime)
    requires 0 <= t
    ensures fresh(p) && Date(p.Y, p.M, p.D) == w && TimeOfDay(p.h, p.m, p.s) == t
    ensures p.validYMD && p.validHMS && !p.validJD && !p.isError && p.tz == 0
  {
    p := new DateTime();
    p.Y, p.M, p.D := w.y, w.m, w.d;
    p.h, p.m, p.s := t / 3600000, t / 60000 % 60, t % 60000;
    ClockParts(t);
    p.validYMD, p.validHMS := true, true;
  }

  lemma ClockParts(t: int)
    requires 0 <= t
    ensures TimeOfDay(t / 3600000, t / 60000 % 60, t % 60000) == t
  {
    var m := t / 60000;
    assert t == m * 60000 + t % 60000;
    assert m == m / 60 * 60 + m % 60 && t / 3600000 == m / 60;
  }

  /** What r says about A and the instant d2 ends with.  Of a remainder from 31 days
      on, the days beyond the 31st are printed alone. */
  ghost predicate Describes(r: Shift, a: int, i: int, slack: int) {
    var rest := Signed(r, a - i);
    && 0 <= rest < 31 * DAY + slack && r.D == rest / DAY % 31
    && 0 <= r.h < 24 && 0 <= r.m < 60 && 0 <= r.s < 60000 && TimeOfDay(r.h, r.m, r.s) == rest % DAY
  }

  /** timediffFunc, for an A at instant `a` that is seen with the date fields
      `fields`, and a B written as w and t. */
  method TimeDiff(a: int, fields: Date, w: Date, t: int) returns (r: Shift)
    requires ValidDate(fields) && Near(a, fields) && IsWritten(w, t) && ValidJulianDay(InstantOf(w, t))
    ensures var b, f, kA := InstantOf(w, t), Seen(w, t), MonthOf(fields);
            var k := LandsIn(a, b, kA, MonthOf(f), f.d, t);
            && r.plus == (a >= b) && 0 <= r.M <= 11 && MonthOk(k) && Moved(MonthOf(f), r) == k
            && Describes(r, a, if kA == MonthOf(f) then b else At(k, f.d, t), Slack(kA, MonthOf(f), f.d, t))
            && (r.Y >= 0 <==> InOrder(a, kA, b, MonthOf(f), Late(w, t) * DAY))
  {
    hide DayNumber;
    hide MonthStart;
    hide FromDayNumber;
    hide DaysInMonth;
    hide At;
    hide InOrder;
    hide LandsIn;
    hide Describes;
    hide TimeOfDay;
    var d2 := ReadB(w, t);
    var b := d2.iJD;
    ghost var kB, d := MonthOf(Seen(w, t)), d2.D;
    SeenIsSeenAs(w, t);
    AlwaysComparable(a, fields, b, kB, d, t);
    assert At(kB, d, t) - b == Late(w, t) * DAY;
    var Y, M;
    ghost var k;
    Y, M, k := ShiftMonths(a, fields, d2, kB, d, t);
    var D, h, m, s := PrintRemainder(if a >= b then a - d2.iJD else d2.iJD - a);
    r := Shift(a >= b, Y, M, D, h, m, s);
    MovedBy(kB, r, k);
    RemainderPrinted(r, a, d2.iJD, Slack(MonthOf(fields), kB, d, t));
  }

  lemma RemainderPrinted(r: Shift, a: int, i: int, slack: int)
    requires 0 <= Signed(r, a - i) < 31 * DAY + slack && r.D == Signed(r, a - i) / DAY % 31
    requires 0 <= r.h < 24 && 0 <= r.m < 60 && 0 <= r.s < 60000
    requires TimeOfDay(r.h, r.m, r.s) == Signed(r, a - i) % DAY
    ensures Describes(r, a, i, slack)
  {
  }

  lemma MovedBy(kB: int, r: Shift, k: int)
    requires 12 * r.Y + r.M == if r.plus then k - kB else kB - k
    ensures Moved(kB, r) == k
  {
  }

  // ---------------------------------------------------------------- the modifier

  /** What the modifier's text may say; it starts with a sign, so no part of it
      can be negative. */
  predicate Readable(r: Shift) {
    && 0 <= r.Y <= 14712 && 0 <= r.M < 12 && 0 <= r.D < 31
    && 0 <= r.h <= 24 && 0 <= r.m <= 59 && 0 <= r.s < 60000
  }

  function Signed(r: Shift, x: int): int {
    if r.plus then x else -x
  }

  /** Month number k, moved by the years and months of r. */
  function Moved(k: int, r: Shift): int {
    k + Signed(r, 12 * r.Y + r.M)
  }

  /** What the modifier stands for. */
  ghost function Applied(k: int, d: int, t: int, r: Shift): Option<int> {
    if !MonthOk(Moved(k, r)) then None
    else
      var i := At(Moved(k, r), d, t) + Signed(r, r.D * DAY + TimeOfDay(r.h, r.m, r.s) % DAY);
      if ValidJulianDay(i) then Some(i) else None
  }

  /** Years and months are added to the fields, which are then brought back into
      range by a division that truncates towards zero. */
  method AddMonths(Y0: int, M0: int, r: Shift) returns (Y: int, M: int)
    requires 1 <= M0 <= 12 && Readable(r)
    ensures 1 <= M <= 12 && MonthIndex(Y, M) == Moved(MonthIndex(Y0, M0), r)
  {
    if !r.plus {
      Y, M := Y0 - r.Y, M0 - r.M;
    } else {
      Y, M := Y0 + r.Y, M0 + r.M;
    }
    var x := if M > 0 then (M - 1) / 12 else -((12 - M) / 12);
    Y := Y + x;
    M := M - x * 12;
  }

  lemma DropDays(t: int)
    ensures var i := Instant(2000, 1, 1) + t - HALF_DAY; i - i / DAY * DAY == t % DAY
  {
    assert DayNumber(2000, 1, 1) == 2451545;
  }

  /** The time part: hours past the end of the day are dropped. */
  method TimePart(r: Shift) returns (t: int)
    requires Readable(r)
    ensures t == Signed(r, TimeOfDay(r.h, r.m, r.s) % DAY)
  {
    hide DayNumber;
    var tx := new DateTime();
    tx.h, tx.m, tx.s := r.h, r.m, r.s;
    tx.validHMS := true;
    tx.ComputeJD();
    DropDays(TimeOfDay(r.h, r.m, r.s));
    tx.iJD := tx.iJD - HALF_DAY;
    var day := tx.iJD / DAY;
    tx.iJD := tx.iJD - day * DAY;
    t := if r.plus then tx.iJD else -tx.iJD;
  }

  /** Year and month moved, and the instant computed from the fields again. */
  method MoveFields(p: DateTime, r: Shift, ghost k: int, ghost d: int, ghost t: int)
    requires Shows(p, k, d, t, p.iJD) && Readable(r)
    modifies p
    ensures p.isError <==> !MonthOk(Moved(k, r))
    ensures !p.isError ==> p.iJD == At(Moved(k, r), d, t)
  {
    hide DayNumber;
    hide MonthStart;
    p.validJD := false;
    var Y, M := AddMonths(p.Y, p.M, r);
    p.Y, p.M := Y, M;
    MonthParts(Y, M);
    AtIsInstant(Y, M, d, t);
    p.ComputeJD();
  }

  /** Days and time of day are added to the instant, and isDate() checks the result. */
  method AddDays(p: DateTime, r: Shift, hasTime: bool, ghost start: int) returns (i: Option<int>)
    requires Readable(r) && (!p.isError ==> p.iJD == start) && (!hasTime ==> TimeOfDay(r.h, r.m, r.s) == 0)
    modifies p
    ensures var j := start + Signed(r, r.D * DAY + TimeOfDay(r.h, r.m, r.s) % DAY);
            i == if old(p.isError) || !ValidJulianDay(j) then None else Some(j)
  {
    p.validHMS, p.validYMD := false, false;
    var days := if r.plus then r.D else -r.D;
    p.iJD := p.iJD + days * DAY;
    if hasTime {
      var t := TimePart(r);
      p.iJD := p.iJD + t;
    }
    i := if p.isError || !ValidJulianDay(p.iJD) then None else Some(p.iJD);
  }

  /** The modifier applied to a date-time written as w and t, which is not normalised
      first.  The time part of the modifier may be missing. */
  method Apply(w: Date, t: int, r: Shift, hasTime: bool) returns (i: Option<int>)
    requires IsWritten(w, t) && (!hasTime ==> TimeOfDay(r.h, r.m, r.s) == 0)
    ensures i == if Readable(r) then Applied(MonthOf(w), w.d, t, r) else None
  {
    hide DayNumber;
    hide MonthStart;
    if !Readable(r) {
      return None;
    }
    var p := Given(w, t);
    p.ComputeJD();
    p.ComputeYMD();
    p.ComputeHMS();
    i := ApplyTo(p, r, hasTime, MonthOf(w), w.d, t);
  }

  method ApplyTo(p: DateTime, r: Shift, hasTime: bool, ghost k: int, ghost d: int, ghost t: int)
    returns (i: Option<int>)
    requires Shows(p, k, d, t, p.iJD) && Readable(r) && (!hasTime ==> TimeOfDay(r.h, r.m, r.s) == 0)
    modifies p
    ensures i == Applied(k, d, t, r)
  {
    hide MonthStart;
    MoveFields(p, r, k, d, t);
    i := AddDays(p, r, hasTime, At(Moved(k, r), d, t));
  }

  // --------------------------------------------------------------- the round trip

  /** Hours below 24 make less than a day. */
  lemma BelowOneDay(h: int, m: int, s: int)
    requires 0 <= h < 24 && 0 <= m < 60 && 0 <= s < 60000
    ensures 0 <= TimeOfDay(h, m, s) < DAY && TimeOfDay(h, m, s) % DAY == TimeOfDay(h, m, s)
  {
  }

  lemma InRange(r: Shift, k: int, kB: int)
    requires MonthOk(k) && MonthOk(kB) && k == Moved(kB, r) && 0 <= r.M <= 11
    ensures r.Y <= 14712
  {
    assert -4713 * 12 <= k < 10000 * 12 && -4713 * 12 <= kB < 10000 * 12;
  }

  /** B, moved like the day it is seen as, reaches the same day: that day is the one
      written, or the month moved to is shorter by the day that B is late, if any,
      than the month written. */
  predicate MovesAlike(w: Date, f: Date, late: int, moved: int) {
    if MonthOf(f) == MonthOf(w) then late == 0
    else MonthOk(moved) && MonthDays(moved) + late == MonthDays(MonthOf(w))
  }

  lemma SameDayReached(w: Date, f: Date, late: int, shift: int, t: int)
    requires 0 <= late <= 1 && IsDay(w, w.d + late, f)
    requires MonthOk(MonthOf(w)) && MonthOk(MonthOf(w) + shift)
    ensures var i, j := At(MonthOf(w) + shift, w.d, t), At(MonthOf(f) + shift, f.d, t);
            && (i == j <==> MovesAlike(w, f, late, MonthOf(w) + shift))
            && j - 5 * DAY < i < j + 5 * DAY
            && (MonthOf(f) == MonthOf(w) ==> i == j - late * DAY)
  {
    hide MonthStart;
    if MonthOf(f) != MonthOf(w) {
      NextMonth(MonthOf(w) + shift);
      NextMonth(MonthOf(w));
    }
  }

  /** Days and time of r, added to another instant than they were computed from. */
  lemma AddedElsewhere(r: Shift, a: int, i: int, j: int, slack: int)
    requires Describes(r, a, j, slack) && 0 <= slack <= 3600000 && j - 5 * DAY < i < j + 5 * DAY
    requires slack > 0 ==> i != j
    ensures i + Signed(r, r.D * DAY + TimeOfDay(r.h, r.m, r.s) % DAY) == a <==> i == j
  {
    hide TimeOfDay;
    BelowOneDay(r.h, r.m, r.s);
    DaysAndRest(Signed(r, a - j), r.D, TimeOfDay(r.h, r.m, r.s));
  }

  /** What is printed of a remainder, as days and time. */
  lemma DaysAndRest(rest: int, D: int, time: int)
    requires 0 <= rest < 31 * DAY + 3600000 && D == rest / DAY % 31 && time == rest % DAY
    ensures D * DAY + time == if rest < 31 * DAY then rest else rest - 31 * DAY
  {
    var n := rest / DAY;
    assert rest == n * DAY + rest % DAY;
    assert 0 <= n <= 31;
  }

  /** datetime(B, timediff(A,B)) is datetime(A) if and only if the months that A and B
      are seen with are in the order of the instants, else timediff() prints a text
      that is no modifier; and either these months are the same or B moves like the
      day it is seen as. */
  method RoundTrip(a: int, fields: Date, w: Date, t: int) returns (r: Shift, i: Option<int>)
    requires ValidJulianDay(a) && ValidDate(fields) && Near(a, fields)
    requires IsWritten(w, t) && ValidJulianDay(InstantOf(w, t))
    ensures var b, f, kA := InstantOf(w, t), Seen(w, t), MonthOf(fields);
            var ordered := InOrder(a, kA, b, MonthOf(f), Late(w, t) * DAY);
            var moved := MonthOf(w) + LandsIn(a, b, kA, MonthOf(f), f.d, t) - MonthOf(f);
            && (i == Some(a) <==> ordered && (kA == MonthOf(f) || MovesAlike(w, f, Late(w, t), moved)))
            && (!ordered ==> i == None)
  {
    hide DayNumber;
    hide MonthStart;
    hide FromDayNumber;
    hide DaysInMonth;
    r := TimeDiff(a, fields, w, t);
    SeenShows(w, t);
    SeenIsSeenAs(w, t);
    ghost var f := Seen(w, t);
    ghost var k := LandsIn(a, InstantOf(w, t), MonthOf(fields), MonthOf(f), f.d, t);
    Returns(r, a, MonthOf(fields), w, f, k, t);
    i := Apply(w, t, r, true);
  }

  lemma Returns(r: Shift, a: int, kA: int, w: Date, f: Date, k: int, t: int)
    requires IsWritten(w, t) && ValidJulianDay(a) && IsDay(w, w.d + Late(w, t), f) && MonthOk(MonthOf(f))
    requires k == Moved(MonthOf(f), r) && MonthOk(k) && 0 <= r.M <= 11 && (kA == MonthOf(f) ==> k == kA)
    requires Describes(r, a, if kA == MonthOf(f) then InstantOf(w, t) else At(k, f.d, t), Slack(kA, MonthOf(f), f.d, t))
    ensures Readable(r) <==> r.Y >= 0
    ensures Applied(MonthOf(w), w.d, t, r) == Some(a) <==>
            kA == MonthOf(f) || MovesAlike(w, f, Late(w, t), MonthOf(w) + k - MonthOf(f))
  {
    hide At;
    hide InstantOf;
    hide IsDay;
    hide MovesAlike;
    hide Applied;
    InRange(r, k, MonthOf(f));
    Printed(r, a, if kA == MonthOf(f) then InstantOf(w, t) else At(k, f.d, t), Slack(kA, MonthOf(f), f.d, t));
    if kA == MonthOf(f) {
      SameMonth(r, a, w, t);
    } else {
      OtherMonth(r, a, w, f, Late(w, t), k, t, Slack(kA, MonthOf(f), f.d, t));
    }
  }

  lemma Printed(r: Shift, a: int, i: int, slack: int)
    requires Describes(r, a, i, slack) && 0 <= r.M <= 11 && r.Y <= 14712
    ensures Readable(r) <==> r.Y >= 0
  {
  }

  lemma SameMonth(r: Shift, a: int, w: Date, t: int)
    requires IsWritten(w, t) && ValidJulianDay(a) && Moved(0, r) == 0
    requires Describes(r, a, InstantOf(w, t), 0)
    ensures Applied(MonthOf(w), w.d, t, r) == Some(a)
  {
    hide DayNumber;
    hide MonthStart;
    AtIsInstant(w.y, w.m, w.d, t);
    MonthParts(w.y, w.m);
    MovedNowhere(r, MonthOf(w));
    var i := InstantOf(w, t);
    hide At;
    hide InstantOf;
    AddedElsewhere(r, a, i, i, 0);
  }

  lemma MovedNowhere(r: Shift, k: int)
    requires Moved(0, r) == 0
    ensures Moved(k, r) == k
  {
  }

  lemma OtherMonth(r: Shift, a: int, w: Date, f: Date, late: int, k: int, t: int, slack: int)
    requires IsWritten(w, t) && ValidJulianDay(a) && late == Late(w, t) && IsDay(w, w.d + late, f)
    requires k == Moved(MonthOf(f), r) && MonthOk(k)
    requires slack == (if t >= DAY && f.d > 28 then 3600000 else 0) && Describes(r, a, At(k, f.d, t), slack)
    ensures Applied(MonthOf(w), w.d, t, r) == Some(a) <==> MovesAlike(w, f, late, Moved(MonthOf(w), r))
  {
    hide At;
    hide Describes;
    hide MonthDays;
    hide TimeOfDay;
    var m := Moved(MonthOf(w), r);
    if MonthOk(m) {
      DayReached(r, w, f, late, k, t, slack);
      hide IsDay;
      hide MovesAlike;
      AddedElsewhere(r, a, At(m, w.d, t), At(k, f.d, t), slack);
    }
  }

  lemma DayReached(r: Shift, w: Date, f: Date, late: int, k: int, t: int, slack: int)
    requires IsWritten(w, t) && late == Late(w, t) && IsDay(w, w.d + late, f)
    requires k == Moved(MonthOf(f), r) && MonthOk(Moved(MonthOf(w), r))
    requires slack == if t >= DAY && f.d > 28 then 3600000 else 0
    ensures var i, j := At(Moved(MonthOf(w), r), w.d, t), At(k, f.d, t);
            && (i == j <==> MovesAlike(w, f, late, Moved(MonthOf(w), r)))
            && j - 5 * DAY < i < j + 5 * DAY && (slack > 0 ==> i != j)
  {
    hide At;
    hide MonthDays;
    MonthParts(w.y, w.m);
    SameDayReached(w, f, late, Moved(MonthOf(w), r) - MonthOf(w), t);
  }

  lemma NearItself(a: int)
    requires ValidJulianDay(a)
    ensures ValidDate(DateAt(a)) && Near(a, DateAt(a))
  {
    InstantOfParts(a);
  }

  lemma BeforeInOrder(a: int, b: int)
    requires ValidJulianDay(a) && ValidJulianDay(b) && a < b
    ensures MonthOf(DateAt(a)) <= MonthOf(DateAt(b))
  {
    hide DayNumber;
    hide FromDayNumber;
    hide MonthStart;
    InstantOfParts(a);
    InstantOfParts(b);
    var f, t := DateAt(a), DateAt(b);
    AtIsInstant(f.y, f.m, f.d, MsOfDay(a));
    AtIsInstant(t.y, t.m, t.d, MsOfDay(b));
    MonthParts(f.y, f.m);
    MonthParts(t.y, t.m);
    if MonthOf(t) < MonthOf(f) {
      LaterMonth(MonthOf(t), t.d, MsOfDay(b), MonthOf(f), f.d, MsOfDay(a));
    }
  }

  /** For every A and B written with a day of their month and an hour below 24 the
      round trip is exact: the condition of RoundTrip holds. */
  lemma NormalisedReturns(a: int, b: int, moved: int)
    requires ValidJulianDay(a) && ValidJulianDay(b)
    ensures var f, w, t := DateAt(a), DateAt(b), MsOfDay(b);
            && ValidDate(f) && Near(a, f) && IsWritten(w, t) && InstantOf(w, t) == b && Seen(w, t) == w
            && Late(w, t) == 0 && InOrder(a, MonthOf(f), b, MonthOf(w), 0) && MovesAlike(w, w, 0, moved)
  {
    hide DayNumber;
    hide FromDayNumber;
    NearItself(a);
    InstantOfParts(b);
    if a < b {
      BeforeInOrder(a, b);
    } else if a > b {
      BeforeInOrder(b, a);
    }
  }

  // ------------------------------------------------------------- where it fails

  lemma FirstOfMarch()
    ensures DayNumber(2001, 3, 1) == 2451970 && DayNumber(2001, 2, 28) == 2451969
  {
  }

  /** timediff('2001-02-28 24:00', '2001-03-01') names year -1. */
  lemma EndOfFebruary()
    ensures var a := Instant(2001, 3, 1);
            && ValidJulianDay(a) && Near(a, Date(2001, 2, 28)) && ValidDate(Date(2001, 2, 28))
            && Seen(Date(2001, 3, 1), 0) == Date(2001, 3, 1) && InstantOf(Date(2001, 3, 1), 0) == a
            && !InOrder(a, MonthIndex(2001, 2), a, MonthIndex(2001, 3), 0)
  {
    hide DayNumber;
    FirstOfMarch();
  }

  lemma SpringDays()
    ensures DayNumber(2023, 2, 31) == 2460007 && DayNumber(2023, 3, 3) == 2460007
  {
  }

  lemma AprilDays()
    ensures DayNumber(2023, 3, 31) == 2460035 && DayNumber(2023, 4, 3) == 2460038
  {
  }

  /** timediff('2023-04-03', '2023-02-31') is one month, counted from the 3rd of March,
      which leads from the 31st of February to the 31st of March. */
  lemma ThirtyFirstOfFebruary()
    ensures var w, f, a := Date(2023, 2, 31), Date(2023, 3, 3), Instant(2023, 4, 3);
            && IsWritten(w, 0) && ValidJulianDay(InstantOf(w, 0)) && ValidJulianDay(a) && Near(a, Date(2023, 4, 3))
            && Seen(w, 0) == f && LandsIn(a, InstantOf(w, 0), MonthIndex(2023, 4), MonthOf(f), 3, 0) == MonthOf(f) + 1
            && !MovesAlike(w, f, 0, MonthOf(w) + 1)
  {
    hide DayNumber;
    hide FromDayNumber;
    hide MonthStart;
    SpringDays();
    AprilDays();
    PartsOfInstant(Date(2023, 3, 3), 0);
    AtIsInstant(2023, 4, 3, 0);
    MonthParts(2023, 2);
    MonthParts(2023, 3);
  }

  lemma LateDays()
    ensures DayNumber(2023, 3, 31) == 2460035 && DayNumber(2023, 3, 30) == 2460034
  {
  }

  /** timediff('2023-05-31', '2023-03-30 24:00') sees the 31st of March at 24:00, one
      day after the instant it stands for. */
  lemma LateOnThe30th()
    ensures var w := Date(2023, 3, 30);
            && IsWritten(w, DAY) && ValidJulianDay(InstantOf(w, DAY)) && Seen(w, DAY) == Date(2023, 3, 31)
            && Late(w, DAY) == 1 && (forall moved :: !MovesAlike(w, Seen(w, DAY), 1, moved))
  {
    hide DayNumber;
    hide FromDayNumber;
    LateDays();
    PartsOfInstant(Date(2023, 3, 31), 0);
  }
}
