/** Julian day numbers by closed formula, against a calendar that just counts. */
module Calendar {

  datatype Date = Date(y: int, m: int, d: int)

  // --------------------------------------------------- the Gregorian calendar itself

  predicate IsLeap(y: int) {
    y % 4 == 0 && (y % 100 != 0 || y % 400 == 0)
  }

  function DaysInMonth(y: int, m: int): int {
    if m == 2 then (if IsLeap(y) then 29 else 28)
    else if m == 4 || m == 6 || m == 9 || m == 11 then 30
    else 31
  }

  /** The years date.c works with. */
  predicate YearOk(y: int) {
    -4713 <= y <= 9999
  }

  predicate ValidDate(t: Date) {
    YearOk(t.y) && 1 <= t.m <= 12 && 1 <= t.d <= DaysInMonth(t.y, t.m)
  }

  function NextDay(t: Date): Date {
    if t.d < DaysInMonth(t.y, t.m) then t.(d := t.d + 1)
    else if t.m < 12 then Date(t.y, t.m + 1, 1)
    else Date(t.y + 1, 1, 1)
  }

  // ------------------------------------------------------------- computeJD's formula

  /** The Julian day number that begins at noon of the given day; the day of the
      month may lie outside the month. */
  function DayNumber(y: int, m: int, d: int): int {
    var Y := if m <= 2 then y - 1 else y;
    var M := if m <= 2 then m + 12 else m;
    var A := (Y + 4800) / 100;
    var B := 38 - A + A / 4;
    var X1 := 36525 * (Y + 4716) / 100;
    var X2 := 306001 * (M + 1) / 10000;
    X1 + X2 + d + B - 1524
  }

  /** The day number with the leap days the Gregorian centuries leave out put
      back.  (The reals in computeYMD are quotients of the integers used here.) */
  function Regular(Z: int): int {
    var alpha := (4 * Z + 128179) / 146097 - 52;      // (Z + 32044.75)/36524.25 - 52
    var A := Z + 1 + alpha - (alpha + 100) / 4 + 25;
    A + 1524
  }

  /** Year, month and day of a regular day number. */
  function Split(B: int): Date {
    var C := (20 * B - 2442) / 7305;                  // (B - 122.1)/365.25
    var D := 36525 * C / 100;
    var E := 10000 * (B - D) / 306001;                // (B - D)/30.6001
    var X1 := 306001 * E / 10000;                     // 30.6001*E
    var m := if E < 14 then E - 1 else E - 13;
    Date(if m > 2 then C - 4716 else C - 4715, m, B - D - X1)
  }

  /** computeYMD on the day number of an instant. */
  function FromDayNumber(Z: int): Date {
    Split(Regular(Z))
  }

  lemma DayLinear(y: int, m: int, d: int, e: int)
    ensures DayNumber(y, m, d + e) == DayNumber(y, m, d) + e
  {
  }

  /** The two terms that do not depend on the month: they advance by the length
      of the year from March to February. */
  function YearTerm(Y: int): int {
    36525 * (Y + 4716) / 100 + 38 - (Y + 4800) / 100 + (Y + 4800) / 100 / 4
  }

  lemma MarchYear(y: int)
    requires YearOk(y)
    ensures YearTerm(y) == YearTerm(y - 1) + if IsLeap(y) then 366 else 365
  {
    MarchTerms(y);
    MarchTerms(y - 1);
    QuotientStep(y + 4716, 4);
    QuotientStep(y + 4800, 100);
    QuotientStep((y + 4800) / 100, 4);
    LeapByCentury(y);
  }

  lemma MarchTerms(y: int)
    requires y >= -4716
    ensures YearTerm(y) == 365 * (y + 4716) + (y + 4716) / 4 + 38 - (y + 4800) / 100 + (y + 4800) / 100 / 4
  {
    FourthsOfYears(y + 4716);
  }

  lemma QuotientStep(x: int, d: int)
    requires d == 4 || d == 100
    ensures x / d == (x - 1) / d + if x % d == 0 then 1 else 0
  {
  }

  lemma LeapByCentury(y: int)
    ensures IsLeap(y) <==> (y + 4716) % 4 == 0 && ((y + 4800) % 100 != 0 || (y + 4800) / 100 % 4 == 0)
  {
    var q, r := y / 100, y % 100;
    assert (y + 4800) / 100 == q + 48 && (y + 4800) % 100 == r;
    assert y == 400 * (q / 4) + (100 * (q % 4) + r);
    assert y % 400 == 100 * (q % 4) + r;
  }

  lemma FourthsOfYears(n: int)
    requires n >= 0
    ensures 36525 * n / 100 == 365 * n + n / 4
  {
  }

  /** The formula gives every month its Gregorian length. */
  lemma MonthLength(y: int, m: int)
    requires YearOk(y) && 1 <= m <= 12
    ensures m < 12 ==> DayNumber(y, m + 1, 1) == DayNumber(y, m, 1) + DaysInMonth(y, m)
    ensures m == 12 ==> DayNumber(y + 1, 1, 1) == DayNumber(y, 12, 1) + 31
  {
    if m == 2 {
      FebruaryLength(y);
    } else if m == 12 {
      MonthTerms(12);
    } else {
      OtherLength(y, m);
    }
  }

  lemma FebruaryLength(y: int)
    requires YearOk(y)
    ensures DayNumber(y, 3, 1) == DayNumber(y, 2, 1) + if IsLeap(y) then 29 else 28
  {
    MarchYear(y);
    ByYearTerm(y, 2, 1);
    ByYearTerm(y, 3, 1);
  }

  lemma OtherLength(y: int, m: int)
    requires 1 <= m < 12 && m != 2
    ensures DayNumber(y, m + 1, 1) == DayNumber(y, m, 1) + if m == 4 || m == 6 || m == 9 || m == 11 then 30 else 31
  {
    MonthTerms(if m <= 2 then m + 12 else m);
  }

  /** The month terms advance by 31 and 30 days in the right order. */
  lemma MonthTerms(M: int)
    requires 3 <= M <= 13
    ensures 306001 * (M + 2) / 10000 == 306001 * (M + 1) / 10000
              + if M == 4 || M == 6 || M == 9 || M == 11 then 30 else 31
  {
  }

  lemma ByYearTerm(y: int, m: int, d: int)
    ensures DayNumber(y, m, d) == (if m <= 2 then YearTerm(y - 1) + 306001 * (m + 13) / 10000
                                   else YearTerm(y) + 306001 * (m + 1) / 10000) + d - 1524
  {
  }

  /** The next day has the next number. */
  lemma NextDayNumber(t: Date)
    requires ValidDate(t)
    ensures var u := NextDay(t); DayNumber(u.y, u.m, u.d) == DayNumber(t.y, t.m, t.d) + 1
  {
    hide DayNumber;
    if t.d < DaysInMonth(t.y, t.m) {
      DayLinear(t.y, t.m, t.d, 1);
    } else {
      MonthLength(t.y, t.m);
      DayLinear(t.y, t.m, 1, t.d - 1);
    }
  }

  // ------------------------------------------------------------- computeYMD's formula

  /** The year counted from March. */
  function MarchBased(t: Date): int {
    if t.m <= 2 then t.y - 1 else t.y
  }

  function MarchMonth(t: Date): int {
    if t.m <= 2 then t.m + 12 else t.m
  }

  /** The century of a day is found by one division.  `a` and `r` are the century
      and the year within it, `q` the day within the March-based year. */
  lemma Century(a: int, r: int, q: int)
    requires 0 <= a <= 150 && 0 <= r < 100 && 100 * a + r >= 84
    requires 123 <= q <= 487 || (q == 488 && (if r == 99 then (a + 1) % 4 == 0 else (r + 1) % 4 == 0))
    ensures var n := 100 * a + r - 84;
            (4 * (365 * n + n / 4 + 38 - a + a / 4 + q - 1524) + 128179) / 146097 == a
  {
  }

  /** The day within the March-based year, counted from 123. */
  function DayOfYear(t: Date): int {
    306001 * (MarchMonth(t) + 1) / 10000 + t.d
  }

  lemma DayOfYearRange(t: Date)
    requires ValidDate(t)
    ensures 123 <= DayOfYear(t) <= 488
    ensures DayOfYear(t) == 488 ==> IsLeap(MarchBased(t) + 1)
  {
  }

  /** With the century leap days put back, four-year cycles are regular. */
  lemma RegularFound(t: Date)
    requires ValidDate(t)
    ensures Regular(DayNumber(t.y, t.m, t.d)) == 36525 * (MarchBased(t) + 4716) / 100 + DayOfYear(t)
  {
    var n := MarchBased(t) + 4716;
    FourthsOfYears(n);
    ByYearTerm(t.y, t.m, t.d);
    RegularDay(t, DayNumber(t.y, t.m, t.d), n, DayOfYear(t));
  }

  lemma RegularDay(t: Date, Z: int, n: int, q: int)
    requires ValidDate(t) && n == MarchBased(t) + 4716 && q == DayOfYear(t)
    requires Z == 365 * n + n / 4 + q + 38 - (n + 84) / 100 + (n + 84) / 100 / 4 - 1524
    ensures Regular(Z) == 365 * n + n / 4 + q
  {
    var a, r := (n + 84) / 100, (n + 84) % 100;
    DayOfYearRange(t);
    if q == 488 {
      LeapWithinCentury(MarchBased(t), a, r);
    }
    Century(a, r, q);
    RegularOf(Z, a, 365 * n + n / 4 + q);
  }

  lemma LeapWithinCentury(Y: int, a: int, r: int)
    requires Y + 4800 == 100 * a + r && 0 <= r < 100 && IsLeap(Y + 1)
    ensures if r == 99 then (a + 1) % 4 == 0 else (r + 1) % 4 == 0
  {
  }

  lemma RegularOf(Z: int, a: int, x: int)
    requires (4 * Z + 128179) / 146097 == a && Z == x + 38 - a + a / 4 - 1524
    ensures Regular(Z) == x
  {
  }

  lemma YearFound(C: int, M: int, d: int, B: int)
    requires 0 <= C <= 15000 && 3 <= M <= 14 && 1 <= d <= 31 && (M == 14 ==> d <= 28 || (d == 29 && C % 4 == 3))
    requires B == 36525 * C / 100 + 306001 * (M + 1) / 10000 + d
    ensures (20 * B - 2442) / 7305 == C
  {
    FourthsOfYears(C);
  }

  lemma MonthFound(M: int, d: int)
    requires 3 <= M <= 14
    requires 1 <= d <= (if M == 14 then 29 else if M == 4 || M == 6 || M == 9 || M == 11 then 30 else 31)
    ensures 10000 * (306001 * (M + 1) / 10000 + d) / 306001 == M + 1
  {
  }

  /** computeYMD undoes computeJD on every valid date. */
  lemma DateFound(t: Date)
    requires ValidDate(t) && DayNumber(t.y, t.m, t.d) >= 0
    ensures FromDayNumber(DayNumber(t.y, t.m, t.d)) == t
  {
    RegularFound(t);
    SplitFound(t, MarchBased(t) + 4716);
  }

  lemma SplitFound(t: Date, C: int)
    requires ValidDate(t) && C == MarchBased(t) + 4716
    ensures Split(36525 * C / 100 + DayOfYear(t)) == t
  {
    if t.m == 2 {
      FebruaryDays(t);
    }
    SplitOf(C, MarchMonth(t), t.d);
  }

  lemma FebruaryDays(t: Date)
    requires ValidDate(t) && t.m == 2
    ensures t.d <= 28 || (t.d == 29 && (MarchBased(t) + 4716) % 4 == 3)
  {
  }

  lemma SplitOf(C: int, M: int, d: int)
    requires 0 <= C <= 15000 && 3 <= M <= 14
    requires 1 <= d <= (if M == 14 then 29 else if M == 4 || M == 6 || M == 9 || M == 11 then 30 else 31)
    requires M == 14 && d == 29 ==> C % 4 == 3
    ensures Split(36525 * C / 100 + (306001 * (M + 1) / 10000 + d))
              == if M > 12 then Date(C - 4715, M - 12, d) else Date(C - 4716, M, d)
  {
    YearFound(C, M, d, 36525 * C / 100 + (306001 * (M + 1) / 10000 + d));
    MonthFound(M, d);
  }

  // -------------------------------------------------------- counting from day zero

  const LAST_DAY := 5373484     // 9999-12-31

  /** Day Z after -4713-11-24, by turning the calendar page Z times. */
  ghost function DateOf(Z: nat): Date {
    if Z == 0 then Date(-4713, 11, 24) else NextDay(DateOf(Z - 1))
  }

  /** The formulas agree with the calendar on every day they are used for. */
  lemma {:induction false} FormulasAgree(Z: nat)
    requires Z <= LAST_DAY
    ensures ValidDate(DateOf(Z)) && DayNumber(DateOf(Z).y, DateOf(Z).m, DateOf(Z).d) == Z
    ensures FromDayNumber(Z) == DateOf(Z)
  {
    hide DayNumber;
    hide FromDayNumber;
    if Z > 0 {
      FormulasAgree(Z - 1);
      var t := DateOf(Z - 1);
      NextDayNumber(t);
      LastDay(t);
    }
    DayZero();
    DateFound(DateOf(Z));
  }

  lemma DayZero()
    ensures ValidDate(Date(-4713, 11, 24)) && DayNumber(-4713, 11, 24) == 0
  {
  }

  lemma LastDay(t: Date)
    requires ValidDate(t) && DayNumber(t.y, t.m, t.d) < LAST_DAY
    ensures ValidDate(NextDay(t))
  {
    if t.y == 9999 && t.m == 12 {
      DayLinear(9999, 12, 31, t.d - 31);
      assert DayNumber(9999, 12, 31) == LAST_DAY;
    }
  }

  // -------------------------------------------------------------- months in a row

  /** Months counted through: month m of year y is number 12*y + m - 1. */
  function MonthIndex(y: int, m: int): int {
    12 * y + m - 1
  }

  /** The day before the first of month number k. */
  function MonthStart(k: int): int {
    DayNumber(k / 12, k % 12 + 1, 0)
  }

  predicate MonthOk(k: int) {
    YearOk(k / 12)
  }

  lemma MonthParts(y: int, m: int)
    requires 1 <= m <= 12
    ensures MonthIndex(y, m) / 12 == y && MonthIndex(y, m) % 12 + 1 == m
  {
  }

  function MonthDays(k: int): int {
    DaysInMonth(k / 12, k % 12 + 1)
  }

  lemma DayInMonth(y: int, m: int, d: int)
    requires 1 <= m <= 12
    ensures DayNumber(y, m, d) == MonthStart(MonthIndex(y, m)) + d
  {
    hide DayNumber;
    MonthParts(y, m);
    DayLinear(y, m, 0, d);
  }

  lemma NextMonth(k: int)
    requires MonthOk(k)
    ensures MonthStart(k + 1) == MonthStart(k) + MonthDays(k) && 28 <= MonthDays(k) <= 31
  {
    hide DayNumber;
    FromDayZero(k / 12, k % 12 + 1);
    if k % 12 < 11 {
      SameYear(k);
    } else {
      NewYear(k);
    }
  }

  lemma FromDayZero(y: int, m: int)
    requires YearOk(y) && 1 <= m <= 12
    ensures m < 12 ==> DayNumber(y, m + 1, 0) == DayNumber(y, m, 0) + DaysInMonth(y, m)
    ensures m == 12 ==> DayNumber(y + 1, 1, 0) == DayNumber(y, 12, 0) + 31
  {
    hide DayNumber;
    MonthLength(y, m);
    DayLinear(y, m, 0, 1);
    if m < 12 {
      DayLinear(y, m + 1, 0, 1);
    } else {
      DayLinear(y + 1, 1, 0, 1);
    }
  }

  lemma SameYear(k: int)
    requires k % 12 < 11
    ensures (k + 1) / 12 == k / 12 && (k + 1) % 12 == k % 12 + 1
  {
  }

  lemma NewYear(k: int)
    requires k % 12 == 11
    ensures (k + 1) / 12 == k / 12 + 1 && (k + 1) % 12 == 0
  {
  }

  /** What grows by d(i) at every i has grown by d(j) at least after j. */
  lemma {:induction false} Climbs(f: int -> int, d: int -> int, j: int, k: int)
    requires j < k && forall i {:trigger d(i)} :: j <= i < k ==> f(i + 1) == f(i) + d(i) && d(i) >= 0
    ensures f(j) + d(j) <= f(k)
    decreases k - j
  {
    assert d(j) >= 0;
    if j + 1 < k {
      Climbs(f, d, j + 1, k);
      assert d(j + 1) >= 0;
    }
  }

  /** Later months start after earlier ones have ended. */
  lemma MonthsInOrder(j: int, k: int)
    requires MonthOk(j) && MonthOk(k) && j < k
    ensures MonthStart(j) + MonthDays(j) <= MonthStart(k)
  {
    forall i | j <= i < k
      ensures MonthStart(i + 1) == MonthStart(i) + MonthDays(i) && MonthDays(i) >= 0
    {
      NextMonth(i);
    }
    Climbs(MonthStart, MonthDays, j, k);
  }

  /** Calendar order. */
  ghost predicate Earlier(t: Date, u: Date) {
    t.y < u.y || (t.y == u.y && (t.m < u.m || (t.m == u.m && t.d < u.d)))
  }

  /** computeJD is strictly monotone on valid dates. */
  lemma Monotone(t: Date, u: Date)
    requires ValidDate(t) && ValidDate(u) && Earlier(t, u)
    ensures DayNumber(t.y, t.m, t.d) < DayNumber(u.y, u.m, u.d)
  {
    hide DayNumber;
    MonthParts(t.y, t.m);
    MonthParts(u.y, u.m);
    DayInMonth(t.y, t.m, t.d);
    DayInMonth(u.y, u.m, u.d);
    if MonthIndex(t.y, t.m) < MonthIndex(u.y, u.m) {
      MonthsInOrder(MonthIndex(t.y, t.m), MonthIndex(u.y, u.m));
    }
  }
}
