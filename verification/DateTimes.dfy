/** The DateTime object of date.c, with seconds counted in milliseconds. */
module DateTimes {
  import opened Calendar

  const DAY: int := 86400000
  const HALF_DAY: int := 43200000
  const LAST_INSTANT: int := 464269060799999

  predicate ValidJulianDay(iJD: int) {
    0 <= iJD <= LAST_INSTANT
  }

  /** Midnight at the start of a day, in milliseconds since day zero's noon. */
  function Instant(y: int, m: int, d: int): int {
    DayNumber(y, m, d) * DAY - HALF_DAY
  }

  function TimeOfDay(h: int, m: int, s: int): int {
    h * 3600000 + m * 60000 + s
  }

  /** The day an instant lies in. */
  function DayOf(iJD: int): int {
    (iJD + HALF_DAY) / DAY
  }

  function MsOfDay(iJD: int): int {
    (iJD + HALF_DAY) % DAY
  }

  /** The calendar date of an instant. */
  function DateAt(iJD: int): Date {
    FromDayNumber(DayOf(iJD))
  }

  /** The valid instants are those from noon of 24 November of the year -4713 to the
      last millisecond of 9999. */
  lemma FirstAndLast()
    ensures Instant(-4713, 11, 24) + 12 * 3600000 == 0
    ensures Instant(9999, 12, 31) + 24 * 3600000 - 1 == LAST_INSTANT
  {
    assert DayNumber(-4713, 11, 24) == 0 && DayNumber(9999, 12, 31) == 5373484;
  }

  /** Splitting an instant into date and time loses nothing. */
  lemma InstantOfParts(iJD: int)
    requires ValidJulianDay(iJD)
    ensures var t := DateAt(iJD); ValidDate(t) && Instant(t.y, t.m, t.d) + MsOfDay(iJD) == iJD
    ensures var ms := MsOfDay(iJD); TimeOfDay(ms / 60000 / 60, ms / 60000 % 60, ms % 60000) == ms
  {
    hide DayNumber;
    hide FromDayNumber;
    FormulasAgree(DayOf(iJD));
  }

  /** Joining a date and a time of day and splitting them again gives them back. */
  lemma PartsOfInstant(t: Date, ms: int)
    requires ValidDate(t) && DayNumber(t.y, t.m, t.d) >= 0 && 0 <= ms < DAY
    ensures DateAt(Instant(t.y, t.m, t.d) + ms) == t && MsOfDay(Instant(t.y, t.m, t.d) + ms) == ms
  {
    hide DayNumber;
    hide FromDayNumber;
    DateFound(t);
    SplitDay(DayNumber(t.y, t.m, t.d), ms);
  }

  lemma SplitDay(Z: int, ms: int)
    requires 0 <= ms < DAY
    ensures DayOf(Z * DAY - HALF_DAY + ms) == Z && MsOfDay(Z * DAY - HALF_DAY + ms) == ms
  {
  }

  /** The sum X1 + X2 + D + B of computeJD. */
  method DayTerms(year: int, month: int, d: int) returns (n: int)
    ensures n == DayNumber(year, month, d) + 1524
  {
    var y, mo := year, month;
    if mo <= 2 {
      y := y - 1;
      mo := mo + 12;
    }
    var A := (y + 4800) / 100;
    var B := 38 - A + A / 4;
    var X1 := 36525 * (y + 4716) / 100;
    var X2 := 306001 * (mo + 1) / 10000;
    n := X1 + X2 + d + B;
  }

  class DateTime {
    var iJD: int
    var Y: int
    var M: int
    var D: int
    var h: int
    var m: int
    var s: int          // milliseconds
    var tz: int         // minutes
    var validJD: bool
    var validYMD: bool
    var validHMS: bool
    var isError: bool

    constructor ()
      ensures !validJD && !validYMD && !validHMS && !isError && tz == 0
    {
      iJD, Y, M, D, h, m, s, tz := 0, 0, 0, 0, 0, 0, 0, 0;
      validJD, validYMD, validHMS, isError := false, false, false, false;
    }

    /** Year, month and day if known, else 2000-01-01. */
    function EffectiveDate(): Date
      reads this
    {
      if validYMD then Date(Y, M, D) else Date(2000, 1, 1)
    }

    function EffectiveTime(): int
      reads this
    {
      if validHMS then TimeOfDay(h, m, s) - tz * 60000 else 0
    }

    method SetError()
      modifies this
      ensures isError && !validJD && !validYMD && !validHMS && iJD == 0
    {
      iJD, Y, M, D, h, m, s, tz := 0, 0, 0, 0, 0, 0, 0, 0;
      validJD, validYMD, validHMS, isError := false, false, false, true;
    }

    method ComputeJD()
      modifies this
      ensures old(validJD) ==> unchanged(this)
      ensures !old(validJD) && !YearOk(old(EffectiveDate()).y) ==>
                isError && !validJD && !validYMD && !validHMS && iJD == 0
      ensures !old(validJD) && YearOk(old(EffectiveDate()).y) ==>
                var t := old(EffectiveDate());
                && validJD && iJD == Instant(t.y, t.m, t.d) + old(EffectiveTime()) && isError == old(isError)
                && Y == old(Y) && M == old(M) && D == old(D) && h == old(h) && m == old(m) && s == old(s)
                && if old(validHMS) && old(tz) != 0 then !validYMD && !validHMS && tz == 0
                   else validYMD == old(validYMD) && validHMS == old(validHMS) && tz == old(tz)
    {
      hide DayNumber;
      if validJD {
        return;
      }
      var y, mo, d := 2000, 1, 1;
      if validYMD {
        y, mo, d := Y, M, D;
      }
      if y < -4713 || y > 9999 {
        SetError();
        return;
      }
      var n := DayTerms(y, mo, d);
      // (X1 + X2 + D + B - 1524.5) * 86400000
      iJD := n * DAY - 131716800000;
      validJD := true;
      if validHMS {
        iJD := iJD + h * 3600000 + m * 60000 + s;
        if tz != 0 {
          iJD := iJD - tz * 60000;
          validYMD, validHMS, tz := false, false, 0;
        }
      }
    }

    method ComputeYMD()
      modifies this
      ensures old(validYMD) ==> unchanged(this)
      ensures !old(validYMD) && old(validJD) && !ValidJulianDay(old(iJD)) ==> isError
      ensures !old(validYMD) && !(old(validJD) && !ValidJulianDay(old(iJD))) ==>
                && validYMD
                && Date(Y, M, D) == (if old(validJD) then DateAt(old(iJD)) else Date(2000, 1, 1))
                && iJD == old(iJD) && validJD == old(validJD) && h == old(h) && m == old(m) && s == old(s)
                && tz == old(tz) && validHMS == old(validHMS) && isError == old(isError)
    {
      if validYMD {
        return;
      }
      if !validJD {
        Y, M, D := 2000, 1, 1;
      } else if !ValidJulianDay(iJD) {
        SetError();
        return;
      } else {
        var Z := (iJD + HALF_DAY) / DAY;
        var alpha := (4 * Z + 128179) / 146097 - 52;
        var A := Z + 1 + alpha - (alpha + 100) / 4 + 25;
        var B := A + 1524;
        assert B == Regular(Z);
        var C := (20 * B - 2442) / 7305;
        var D' := 36525 * C / 100;
        var E := 10000 * (B - D') / 306001;
        var X1 := 306001 * E / 10000;
        D := B - D' - X1;
        M := if E < 14 then E - 1 else E - 13;
        Y := if M > 2 then C - 4716 else C - 4715;
        assert Date(Y, M, D) == Split(B);
      }
      validYMD := true;
    }

    /** The remainders truncate towards zero, which shows only for instants before
        the first one that is valid. */
    method ComputeHMS()
      modifies this
      ensures old(validHMS) ==> unchanged(this)
      ensures !old(validHMS) ==> validHMS
      ensures !old(validHMS) && old(validJD) ==>
                && iJD == old(iJD) && validJD && validYMD == old(validYMD) && tz == old(tz)
                && Y == old(Y) && M == old(M) && D == old(D) && isError == old(isError)
      ensures !old(validHMS) && !old(validJD) ==>
                var t := old(EffectiveDate());
                if YearOk(t.y) then validJD && iJD == Instant(t.y, t.m, t.d) && isError == old(isError)
                else isError && !validJD && !validYMD && iJD == 0
      ensures !old(validHMS) && iJD + HALF_DAY >= 0 ==>
                0 <= h < 24 && 0 <= m < 60 && 0 <= s < 60000 && TimeOfDay(h, m, s) == MsOfDay(iJD)
    {
      hide DayNumber;
      if validHMS {
        return;
      }
      ComputeJD();
      var dayMs := Remainder(iJD + HALF_DAY, DAY);
      s := Remainder(dayMs, 60000);
      var dayMin := Quotient(dayMs, 60000);
      m := Remainder(dayMin, 60);
      h := Quotient(dayMin, 60);
      validHMS := true;
    }
  }

  /** A time with zone tz is the instant tz minutes before the same time without one,
      and is shown as the date and time of that instant. */
  method ToUtc(w: Date, h: int, m: int, s: int, tz: int) returns (utc: Date, ms: int)
    requires YearOk(w.y) && ValidJulianDay(Instant(w.y, w.m, w.d) + TimeOfDay(h, m, s) - tz * 60000)
    ensures Instant(utc.y, utc.m, utc.d) + ms == Instant(w.y, w.m, w.d) + TimeOfDay(h, m, s) - tz * 60000
    ensures tz != 0 ==> ValidDate(utc) && 0 <= ms < DAY
    ensures tz == 0 ==> utc == w
  {
    hide DayNumber;
    hide FromDayNumber;
    var p := new DateTime();
    p.Y, p.M, p.D, p.h, p.m, p.s, p.tz := w.y, w.m, w.d, h, m, s, tz;
    p.validYMD, p.validHMS := true, true;
    p.ComputeJD();
    if tz != 0 {
      InstantOfParts(p.iJD);
    }
    p.ComputeYMD();
    p.ComputeHMS();
    utc, ms := Date(p.Y, p.M, p.D), TimeOfDay(p.h, p.m, p.s);
  }

  /** C's division and remainder. */
  function Quotient(x: int, d: int): int
    requires d > 0
  {
    if x >= 0 then x / d else -(-x / d)
  }

  function Remainder(x: int, d: int): int
    requires d > 0
  {
    if x >= 0 then x % d else -(-x % d)
  }
}
