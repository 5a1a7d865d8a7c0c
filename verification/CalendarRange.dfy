/** Ranges of calendar dates, and the days and the runs of days in a range that satisfy a constraint. */
module CalendarRange {
  import opened Calendar
  import opened Common

  /** Both ends packed into 64 bits: the years, then the months, then the days. */
  function NewRange(from: int, until: int): int {
    Year(from) * 0x1_0000_0000_0000 + Year(until) * 0x1_0000_0000 + Month(from) * 0x100_0000 + Month(until) * 0x1_0000
    + Day(from) * 0x100 + Day(until)
  }

  function FromDate(cdr: int): int {
    NewCalendarDate(cdr / 0x1_0000_0000_0000, cdr / 0x100_0000 % 0x100, cdr / 0x100 % 0x100)
  }

  function UntilDate(cdr: int): int {
    NewCalendarDate(cdr / 0x1_0000_0000, cdr / 0x1_0000 % 0x100, cdr % 0x100)
  }

  /** February 29 of a year that is not a leap year stands for February 28. */
  function InYear(cd: int): int {
    if Month(cd) == 2 && Day(cd) == 29 && !IsLeap(Year(cd)) then NewCalendarDate(Year(cd), 2, 28) else cd
  }

  function From(cdr: int): int {
    InYear(FromDate(cdr))
  }

  function Until(cdr: int): int {
    InYear(UntilDate(cdr))
  }

  lemma SplitBytes(ya: int, yb: int, ma: int, mb: int, da: int, db: int)
    requires 0 <= ya < 0x10000 && 0 <= yb < 0x10000 && 0 <= ma < 0x100 && 0 <= mb < 0x100 && 0 <= da < 0x100 && 0 <= db < 0x100
    ensures var r := ya * 0x1_0000_0000_0000 + yb * 0x1_0000_0000 + ma * 0x100_0000 + mb * 0x1_0000 + da * 0x100 + db;
            && r / 0x1_0000_0000_0000 == ya && r / 0x1_0000_0000 % 0x10000 == yb
            && r / 0x100_0000 % 0x100 == ma && r / 0x1_0000 % 0x100 == mb && r / 0x100 % 0x100 == da && r % 0x100 == db
  {
    var r := ya * 0x1_0000_0000_0000 + yb * 0x1_0000_0000 + ma * 0x100_0000 + mb * 0x1_0000 + da * 0x100 + db;
    var r4 := ya * 0x1_0000 + yb;
    var r3 := r4 * 0x100 + ma;
    var r2 := r3 * 0x100 + mb;
    var r1 := r2 * 0x100 + da;
    LastByte(r1, db);
    LastByte(r2, da);
    LastByte(r3, mb);
    LastByte(r4, ma);
    assert r == r1 * 0x100 + db;
    Shifted(r);
    assert r4 / 0x1_0000 == ya && r4 % 0x1_0000 == yb;
  }

  /** A date that some year has stands for itself in the years that have it, and for February 28 in the others. */
  lemma InYearIsValid(cd: int)
    requires Packed(cd) && 1 <= Month(cd) <= 12 && 1 <= Day(cd) <= MonthDays(true, Month(cd))
    ensures Valid(InYear(cd)) && (Valid(cd) ==> InYear(cd) == cd)
    ensures !Valid(cd) ==> InYear(cd) == NewCalendarDate(Year(cd), 2, 28)
  {
    hide IsLeap, NewCalendarDate, Year, Month, Day;
    FromFields(cd);
    if !Valid(cd) {
      assert MonthDays(IsLeap(Year(cd)), Month(cd)) < MonthDays(true, Month(cd));
      OrdinalOf(Year(cd), 2, 28);
    }
  }

  lemma LastByte(x: int, d: int)
    requires 0 <= d < 0x100
    ensures (x * 0x100 + d) / 0x100 == x && (x * 0x100 + d) % 0x100 == d
  {
  }

  lemma Shifted(r: int)
    ensures r / 0x1_0000 == r / 0x100 / 0x100
    ensures r / 0x100_0000 == r / 0x100 / 0x100 / 0x100
    ensures r / 0x1_0000_0000 == r / 0x100 / 0x100 / 0x100 / 0x100
    ensures r / 0x1_0000_0000_0000 == r / 0x1_0000_0000 / 0x1_0000
  {
  }

  /** A range gives back its ends. */
  lemma RangeEnds(from: int, until: int)
    requires Packed(from) && Packed(until)
    ensures FromDate(NewRange(from, until)) == from && UntilDate(NewRange(from, until)) == until
    ensures Valid(from) ==> From(NewRange(from, until)) == from
    ensures Valid(until) ==> Until(NewRange(from, until)) == until
  {
    hide Year, Month, Day, IsLeap;
    FromFields(from);
    FromFields(until);
    SplitBytes(Year(from), Year(until), Month(from), Month(until), Day(from), Day(until));
  }

  predicate Includes(cdr: int, cd: int) {
    FromDate(cdr) <= cd <= UntilDate(cdr)
  }

  /** The part of a range within another; 0 when there is none. */
  function Bound(cdr: int, bound: int): int {
    var from, until := Max(FromDate(cdr), FromDate(bound)), Min(UntilDate(cdr), UntilDate(bound));
    if from > until then 0 else NewRange(from, until)
  }

  lemma EndsArePacked(cdr: int)
    requires 0 <= cdr
    ensures Packed(FromDate(cdr)) && Packed(UntilDate(cdr))
  {
    FieldsOf(cdr / 0x1_0000_0000_0000, cdr / 0x100_0000 % 0x100, cdr / 0x100 % 0x100);
    FieldsOf(cdr / 0x1_0000_0000, cdr / 0x1_0000 % 0x100, cdr % 0x100);
  }

  /** Bounding is intersection. */
  lemma BoundIsIntersection(cdr: int, bound: int, cd: int)
    requires 0 <= cdr && 0 <= bound && Valid(cd)
    ensures Includes(Bound(cdr, bound), cd) <==> Includes(cdr, cd) && Includes(bound, cd)
  {
    assert cd > 0 && FromDate(0) == UntilDate(0) == 0;
    hide NewRange, FromDate, UntilDate, Year, Month, Day;
    EndsArePacked(cdr);
    EndsArePacked(bound);
    RangeEnds(Max(FromDate(cdr), FromDate(bound)), Min(UntilDate(cdr), UntilDate(bound)));
  }

  // ---------- one day after another ----------

  /** Nothing lies between a day and the next. */
  lemma TomorrowIsAdjacent(td: int, cd: int)
    requires Valid(td) && Valid(cd) && td < LAST
    ensures Valid(Tomorrow(td)) && Ordinal(Tomorrow(td)) == Ordinal(td) + 1
    ensures cd < Tomorrow(td) <==> cd <= td
  {
    hide Tomorrow, Ordinal, IsLeap, MonthDays, Year, Month, Day;
    TomorrowIsNext(td);
    OrdinalOrder(cd, Tomorrow(td));
    OrdinalOrder(cd, td);
  }

  function DayAfter(cd: int, n: nat): (r: int)
    requires Valid(cd)
    ensures Valid(r)
  {
    if n == 0 then cd
    else
      TomorrowIsNext(DayAfter(cd, n - 1));
      Tomorrow(DayAfter(cd, n - 1))
  }

  /** Stepping from day to day passes `until` if and only if that is not the last day there is. */
  lemma PassesIff(cd: int, until: int)
    requires Valid(cd) && Valid(until)
    ensures (exists n: nat :: DayAfter(cd, n) > until) <==> until < LAST
  {
    hide IsLeap, MonthDays, Year, Month, Day, Ordinal, Tomorrow, LAST;
    if until < LAST {
      var n := Passes(cd, until, 0);
    } else {
      forall n: nat
        ensures DayAfter(cd, n) <= until
      {
        TomorrowIsNext(DayAfter(cd, n));
      }
    }
  }

  lemma {:induction false} Passes(cd: int, until: int, k: nat) returns (n: nat)
    requires Valid(cd) && Valid(until) && until < LAST
    ensures DayAfter(cd, n) > until
    decreases Ordinal(until) - Ordinal(DayAfter(cd, k))
  {
    hide IsLeap, MonthDays, Year, Month, Day, Ordinal, Tomorrow;
    if DayAfter(cd, k) > until {
      n := k;
    } else {
      TomorrowIsAdjacent(DayAfter(cd, k), until);
      OrdinalOrder(until, DayAfter(cd, k));
      n := Passes(cd, until, k + 1);
    }
  }

  // ---------- the days that satisfy a constraint ----------

  ghost predicate Within(lo: int, hi: int, cd: int) {
    Valid(cd) && lo <= cd < hi
  }

  /** A range includes the days that stepping through it visits. */
  lemma IncludedIsVisited(cdr: int, cd: int)
    requires 0 <= cdr && Valid(FromDate(cdr)) && Valid(UntilDate(cdr)) && Valid(cd)
    ensures Includes(cdr, cd) <==> Within(From(cdr), Until(cdr) + 1, cd)
  {
  }

  /** `dates` are the included days from `lo` up to but without `hi`, in order. */
  ghost predicate DatesOf(dates: seq<int>, wanted: int -> bool, lo: int, hi: int) {
    && (forall i, j :: 0 <= i < j < |dates| ==> dates[i] < dates[j])
    && (forall cd :: cd in dates <==> Within(lo, hi, cd) && wanted(cd))
  }

  lemma DatesNext(dates: seq<int>, wanted: int -> bool, lo: int, td: int)
    requires DatesOf(dates, wanted, lo, td) && Valid(td) && lo <= td < LAST
    ensures DatesOf(if wanted(td) then dates + [td] else dates, wanted, lo, Tomorrow(td))
  {
    hide IsLeap, MonthDays, Year, Month, Day, Ordinal, Tomorrow;
    forall cd | Valid(cd)
      ensures Within(lo, Tomorrow(td), cd) <==> Within(lo, td, cd) || cd == td
    {
      TomorrowIsAdjacent(td, cd);
    }
    assert forall i | 0 <= i < |dates| :: dates[i] in dates;
  }

  /** The included days of a range. */
  method DatesConstrained(cdr: int, wanted: int -> bool) returns (dates: seq<int>)
    requires Valid(From(cdr)) && Valid(Until(cdr)) && Until(cdr) < LAST
    ensures DatesOf(dates, wanted, From(cdr), Until(cdr) + 1)
  {
    hide IsLeap, MonthDays, Year, Month, Day, Ordinal, Tomorrow, From, Until, DatesOf;
    dates := [];
    var until := Until(cdr);
    var td := From(cdr);
    NoDates(wanted, td, td);
    while td <= until
      invariant Valid(td) && From(cdr) <= td
      invariant DatesOf(dates, wanted, From(cdr), td)
      invariant forall cd | Valid(cd) && From(cdr) <= cd < td :: cd <= until
      decreases Ordinal(until) - Ordinal(td)
    {
      DatesNext(dates, wanted, From(cdr), td);
      forall cd | Valid(cd)
        ensures cd < Tomorrow(td) <==> cd <= td
      {
        TomorrowIsAdjacent(td, cd);
      }
      TomorrowIsNext(td);
      OrdinalOrder(until, td);
      OrdinalOrder(Tomorrow(td), td);
      if wanted(td) {
        dates := dates + [td];
      }
      td := Tomorrow(td);
    }
    SameDates(dates, wanted, From(cdr), td, until + 1);
  }

  lemma NoDates(wanted: int -> bool, lo: int, hi: int)
    requires hi <= lo
    ensures DatesOf([], wanted, lo, hi)
  {
  }

  lemma SameDates(dates: seq<int>, wanted: int -> bool, lo: int, hi: int, end: int)
    requires DatesOf(dates, wanted, lo, hi)
    requires forall cd | Valid(cd) && lo <= cd :: cd < hi <==> cd < end
    ensures DatesOf(dates, wanted, lo, end)
  {
    hide Valid;
  }

  // ---------- the runs of days that satisfy a constraint ----------

  datatype Run = Run(start: int, stop: int)

  ghost predicate InSome(runs: seq<Run>, cd: int) {
    exists i :: 0 <= i < |runs| && runs[i].start <= cd <= runs[i].stop
  }

  ghost predicate ProperRun(r: Run, lo: int, hi: int) {
    Valid(r.start) && Valid(r.stop) && lo <= r.start <= r.stop < hi
  }

  /** At least a day lies between. */
  ghost predicate Apart(r: Run, start: int)
    requires Valid(r.stop)
  {
    Tomorrow(r.stop) < start
  }

  /** `runs` are the included days from `lo` up to but without `hi`, in order, as runs that do not touch. */
  ghost predicate RunsOf(runs: seq<Run>, wanted: int -> bool, lo: int, hi: int) {
    && (forall i :: 0 <= i < |runs| ==> ProperRun(runs[i], lo, hi))
    && (forall i, j :: 0 <= i < j < |runs| ==> Apart(runs[i], runs[j].start))
    && (forall cd | Within(lo, hi, cd) :: wanted(cd) <==> InSome(runs, cd))
  }

  ghost predicate AllApart(runs: seq<Run>, lo: int, hi: int, start: int) {
    forall i | 0 <= i < |runs| :: ProperRun(runs[i], lo, hi) && Apart(runs[i], start)
  }

  lemma WithinTomorrow(lo: int, td: int)
    requires Valid(td) && lo <= td < LAST
    ensures Valid(Tomorrow(td)) && td < Tomorrow(td)
    ensures forall cd :: Within(lo, Tomorrow(td), cd) <==> Within(lo, td, cd) || cd == td
  {
    hide IsLeap, MonthDays, Year, Month, Day, Ordinal, Tomorrow;
    TomorrowIsAdjacent(td, td);
    forall cd | Valid(cd)
      ensures Within(lo, Tomorrow(td), cd) <==> Within(lo, td, cd) || cd == td
    {
      TomorrowIsAdjacent(td, cd);
    }
  }

  lemma RunsWithout(runs: seq<Run>, wanted: int -> bool, lo: int, td: int)
    requires RunsOf(runs, wanted, lo, td) && Valid(td) && lo <= td < LAST && !wanted(td)
    ensures RunsOf(runs, wanted, lo, Tomorrow(td))
  {
    hide IsLeap, MonthDays, Year, Month, Day, Ordinal, Tomorrow;
    WithinTomorrow(lo, td);
  }

  lemma RunsStart(runs: seq<Run>, wanted: int -> bool, lo: int, td: int)
    requires RunsOf(runs, wanted, lo, td) && Valid(td) && lo <= td < LAST && wanted(td)
    requires AllApart(runs, lo, td, td)
    ensures RunsOf(runs + [Run(td, td)], wanted, lo, Tomorrow(td))
  {
    hide IsLeap, MonthDays, Year, Month, Day, Ordinal, Tomorrow;
    WithinTomorrow(lo, td);
    var more := runs + [Run(td, td)];
    forall cd | Within(lo, Tomorrow(td), cd)
      ensures wanted(cd) <==> InSome(more, cd)
    {
      if cd == td {
        assert more[|runs|].start <= cd <= more[|runs|].stop;
      } else if InSome(runs, cd) {
        var i :| 0 <= i < |runs| && runs[i].start <= cd <= runs[i].stop;
        assert more[i] == runs[i];
      }
    }
  }

  lemma RunsExtend(runs: seq<Run>, start: int, stop: int, wanted: int -> bool, lo: int, td: int)
    requires RunsOf(runs + [Run(start, stop)], wanted, lo, td) && Valid(td) && lo <= td < LAST && wanted(td)
    requires Valid(stop) && stop < td && Tomorrow(stop) == td
    ensures RunsOf(runs + [Run(start, td)], wanted, lo, Tomorrow(td))
  {
    hide IsLeap, MonthDays, Year, Month, Day, Ordinal, Tomorrow;
    WithinTomorrow(lo, td);
    var was, now := runs + [Run(start, stop)], runs + [Run(start, td)];
    assert was[|runs|] == Run(start, stop) && now[|runs|] == Run(start, td);
    assert forall i | 0 <= i < |runs| :: was[i] == runs[i] == now[i];
    forall cd | Within(lo, Tomorrow(td), cd)
      ensures wanted(cd) <==> InSome(now, cd)
    {
      TomorrowIsAdjacent(stop, cd);
      if cd == td {
        assert now[|runs|].start <= cd <= now[|runs|].stop;
      } else {
        SameOtherwise(runs, start, stop, td, cd);
      }
    }
  }

  lemma SameOtherwise(runs: seq<Run>, start: int, stop: int, td: int, cd: int)
    requires stop < td && (cd <= td ==> cd == td || cd <= stop) && cd < td
    ensures InSome(runs + [Run(start, stop)], cd) <==> InSome(runs + [Run(start, td)], cd)
  {
    var was, now := runs + [Run(start, stop)], runs + [Run(start, td)];
    if InSome(was, cd) {
      var i :| 0 <= i < |was| && was[i].start <= cd <= was[i].stop;
      assert now[i].start <= cd <= now[i].stop;
    }
    if InSome(now, cd) {
      var i :| 0 <= i < |now| && now[i].start <= cd <= now[i].stop;
      assert was[i].start <= cd <= was[i].stop;
    }
  }

  /** What the loop over the days knows at `td`. */
  ghost predicate Scanned(runs: seq<Run>, wanted: int -> bool, lo: int, td: int, inrange: bool, start: int, stop: int) {
    if td == lo then
      runs == [] && start == lo && inrange == wanted(lo)
    else if inrange then
      Valid(stop) && stop < td && Tomorrow(stop) == td && RunsOf(runs + [Run(start, stop)], wanted, lo, td)
    else
      RunsOf(runs, wanted, lo, td) && AllApart(runs, lo, td, td)
  }

  lemma ScanExcluded(runs: seq<Run>, wanted: int -> bool, lo: int, td: int, inrange: bool, start: int, stop: int)
    requires Valid(lo) && Valid(td) && lo <= td < LAST && Scanned(runs, wanted, lo, td, inrange, start, stop) && !wanted(td)
    ensures Scanned(if inrange then runs + [Run(start, stop)] else runs, wanted, lo, Tomorrow(td), false, start, stop)
  {
    hide IsLeap, MonthDays, Year, Month, Day, Ordinal, Tomorrow, InSome;
    WithinTomorrow(lo, td);
    if td == lo {
      NoRuns(wanted, lo);
      RunsWithout([], wanted, lo, td);
    } else if inrange {
      var more := runs + [Run(start, stop)];
      RunsWithout(more, wanted, lo, td);
      forall i | 0 <= i < |more|
        ensures Apart(more[i], Tomorrow(td))
      {
        if i < |runs| {
          assert Apart(more[i], more[|runs|].start) && ProperRun(more[|runs|], lo, td);
        }
      }
    } else {
      RunsWithout(runs, wanted, lo, td);
    }
  }

  lemma ScanIncluded(runs: seq<Run>, wanted: int -> bool, lo: int, td: int, inrange: bool, start: int, stop: int)
    requires Valid(lo) && Valid(td) && lo <= td < LAST && Scanned(runs, wanted, lo, td, inrange, start, stop) && wanted(td)
    ensures Scanned(runs, wanted, lo, Tomorrow(td), true, if inrange then start else td, td)
  {
    hide IsLeap, MonthDays, Year, Month, Day, Ordinal, Tomorrow, InSome;
    WithinTomorrow(lo, td);
    if td == lo {
      NoRuns(wanted, lo);
      RunsStart([], wanted, lo, td);
    } else if inrange {
      RunsExtend(runs, start, stop, wanted, lo, td);
    } else {
      RunsStart(runs, wanted, lo, td);
    }
  }

  lemma NoRuns(wanted: int -> bool, lo: int)
    ensures RunsOf([], wanted, lo, lo)
  {
  }

  lemma RunsUpTo(runs: seq<Run>, wanted: int -> bool, lo: int, hi: int, end: int)
    requires RunsOf(runs, wanted, lo, hi)
    requires forall cd | Valid(cd) && lo <= cd :: cd < hi <==> cd < end
    ensures RunsOf(runs, wanted, lo, end)
  {
    hide IsLeap, MonthDays, Year, Month, Day, Tomorrow, InSome;
  }

  /** The runs that packed ranges stand for. */
  function Unpacked(ranges: seq<int>): (runs: seq<Run>)
    ensures |runs| == |ranges|
    ensures forall i | 0 <= i < |runs| :: runs[i] == Run(FromDate(ranges[i]), UntilDate(ranges[i]))
  {
    seq(|ranges|, i requires 0 <= i < |ranges| => Run(FromDate(ranges[i]), UntilDate(ranges[i])))
  }

  lemma UnpackedNext(ranges: seq<int>, runs: seq<Run>, start: int, stop: int)
    requires Unpacked(ranges) == runs && Packed(start) && Packed(stop)
    ensures Unpacked(ranges + [NewRange(start, stop)]) == runs + [Run(start, stop)]
  {
    hide NewRange, FromDate, UntilDate;
    RangeEnds(start, stop);
  }

  /** The runs of included days of a range. A range that ends before it starts is returned as it is
      if its first day is included. */
  method RangesConstrained(cdr: int, wanted: int -> bool) returns (ranges: seq<int>)
    requires Valid(From(cdr)) && Valid(Until(cdr)) && Until(cdr) < LAST
    ensures From(cdr) <= Until(cdr) ==> RunsOf(Unpacked(ranges), wanted, From(cdr), Until(cdr) + 1)
    ensures From(cdr) > Until(cdr) ==> Unpacked(ranges) == if wanted(From(cdr)) then [Run(From(cdr), Until(cdr))] else []
  {
    hide IsLeap, MonthDays, Year, Month, Day, Ordinal, Tomorrow, From, Until, NewRange, Unpacked, RunsOf, Scanned;
    ranges := [];
    ghost var runs: seq<Run> := [];
    var start, stop := From(cdr), Until(cdr);
    var until := stop;
    var inrange := wanted(start);
    var td := From(cdr);
    ScanStart(wanted, td, stop);
    while td <= until
      invariant Valid(td) && From(cdr) <= td && (td > From(cdr) ==> From(cdr) <= until)
      invariant Packed(start) && Packed(stop)
      invariant Unpacked(ranges) == runs && Scanned(runs, wanted, From(cdr), td, inrange, start, stop)
      invariant td == From(cdr) ==> stop == until
      invariant forall cd | Within(From(cdr), td, cd) :: cd <= until
      decreases Ordinal(until) - Ordinal(td)
    {
      TomorrowIsNext(td);
      OrdinalOrder(until, td);
      WithinTomorrow(From(cdr), td);
      if !wanted(td) {
        ScanExcluded(runs, wanted, From(cdr), td, inrange, start, stop);
        if inrange {
          UnpackedNext(ranges, runs, start, stop);
          ranges, runs := ranges + [NewRange(start, stop)], runs + [Run(start, stop)];
        }
        inrange := false;
        td := Tomorrow(td);
        continue;
      }
      ScanIncluded(runs, wanted, From(cdr), td, inrange, start, stop);
      if !inrange {
        start := td;
        inrange := true;
      }
      stop := td;
      td := Tomorrow(td);
    }
    ScanEnd(runs, wanted, From(cdr), td, inrange, start, stop, until);
    if inrange {
      UnpackedNext(ranges, runs, start, stop);
      ranges, runs := ranges + [NewRange(start, stop)], runs + [Run(start, stop)];
    }
  }

  lemma ScanStart(wanted: int -> bool, lo: int, stop: int)
    ensures Scanned([], wanted, lo, lo, wanted(lo), lo, stop)
  {
  }

  lemma ScanEnd(runs: seq<Run>, wanted: int -> bool, lo: int, td: int, inrange: bool, start: int, stop: int, until: int)
    requires Valid(lo) && lo <= td && until < td && Scanned(runs, wanted, lo, td, inrange, start, stop)
    requires forall cd | Within(lo, td, cd) :: cd <= until
    ensures td == lo ==> runs == [] && start == lo && inrange == wanted(lo)
    ensures td > lo ==> RunsOf(if inrange then runs + [Run(start, stop)] else runs, wanted, lo, until + 1)
  {
    hide IsLeap, MonthDays, Year, Month, Day, Tomorrow, RunsOf;
    if td > lo {
      assert forall cd | Valid(cd) && lo <= cd < td :: Within(lo, td, cd);
      RunsUpTo(if inrange then runs + [Run(start, stop)] else runs, wanted, lo, td, until + 1);
    }
  }

  // ---------- what the runs are ----------

  /** The runs hold the days that the list of included days holds. */
  lemma SameDays(runs: seq<Run>, dates: seq<int>, wanted: int -> bool, lo: int, hi: int)
    requires RunsOf(runs, wanted, lo, hi) && DatesOf(dates, wanted, lo, hi)
    ensures forall cd | Valid(cd) :: cd in dates <==> InSome(runs, cd)
  {
    hide IsLeap, MonthDays, Year, Month, Day, Tomorrow;
    forall cd | Valid(cd) && InSome(runs, cd)
      ensures Within(lo, hi, cd)
    {
      var i :| 0 <= i < |runs| && runs[i].start <= cd <= runs[i].stop;
      assert ProperRun(runs[i], lo, hi);
    }
  }

  lemma StartsInOrder(runs: seq<Run>, wanted: int -> bool, lo: int, hi: int, i: int)
    requires RunsOf(runs, wanted, lo, hi) && hi <= LAST && 0 < i < |runs|
    ensures runs[0].stop < Tomorrow(runs[0].stop) < runs[i].start
  {
    hide IsLeap, MonthDays, Year, Month, Day, Tomorrow, InSome;
    assert ProperRun(runs[0], lo, hi) && Apart(runs[0], runs[i].start);
    WithinTomorrow(lo, runs[0].stop);
  }

  lemma FirstStart(runs: seq<Run>, other: seq<Run>, wanted: int -> bool, lo: int, hi: int)
    requires RunsOf(runs, wanted, lo, hi) && RunsOf(other, wanted, lo, hi) && hi <= LAST && runs != []
    ensures other != [] && other[0].start <= runs[0].start
  {
    hide IsLeap, MonthDays, Year, Month, Day, Tomorrow;
    var cd := runs[0].start;
    assert ProperRun(runs[0], lo, hi) && InSome(runs, cd);
    assert Within(lo, hi, cd);
    var i :| 0 <= i < |other| && other[i].start <= cd <= other[i].stop;
    if i > 0 {
      StartsInOrder(other, wanted, lo, hi, i);
      assert ProperRun(other[0], lo, hi);
    }
  }

  lemma FirstStop(runs: seq<Run>, other: seq<Run>, wanted: int -> bool, lo: int, hi: int)
    requires RunsOf(runs, wanted, lo, hi) && RunsOf(other, wanted, lo, hi) && hi <= LAST && runs != [] && other != []
    requires runs[0].start == other[0].start
    ensures runs[0].stop >= other[0].stop
  {
    hide IsLeap, MonthDays, Year, Month, Day, Tomorrow, Ordinal;
    assert ProperRun(runs[0], lo, hi) && ProperRun(other[0], lo, hi);
    if runs[0].stop < other[0].stop {
      TomorrowIsAdjacent(runs[0].stop, other[0].stop);
      WithinTomorrow(lo, runs[0].stop);
      var cd := Tomorrow(runs[0].stop);
      assert other[0].start <= cd <= other[0].stop;
      assert InSome(other, cd);
      assert Within(lo, hi, cd);
      var i :| 0 <= i < |runs| && runs[i].start <= cd <= runs[i].stop;
      if i > 0 {
        StartsInOrder(runs, wanted, lo, hi, i);
      }
    }
  }

  lemma RestOfRuns(runs: seq<Run>, wanted: int -> bool, lo: int, hi: int)
    requires RunsOf(runs, wanted, lo, hi) && hi <= LAST && runs != []
    ensures RunsOf(runs[1..], wanted, runs[0].stop + 1, hi)
  {
    hide IsLeap, MonthDays, Year, Month, Day, Tomorrow;
    var rest := runs[1..];
    assert ProperRun(runs[0], lo, hi);
    forall i | 0 <= i < |rest|
      ensures ProperRun(rest[i], runs[0].stop + 1, hi)
    {
      StartsInOrder(runs, wanted, lo, hi, i + 1);
      assert ProperRun(runs[i + 1], lo, hi);
    }
    forall cd | Within(runs[0].stop + 1, hi, cd)
      ensures wanted(cd) <==> InSome(rest, cd)
    {
      assert Within(lo, hi, cd);
      if InSome(runs, cd) {
        var i :| 0 <= i < |runs| && runs[i].start <= cd <= runs[i].stop;
        assert rest[i - 1] == runs[i];
      }
      if InSome(rest, cd) {
        var i :| 0 <= i < |rest| && rest[i].start <= cd <= rest[i].stop;
        assert runs[i + 1] == rest[i];
      }
    }
  }

  /** There is one way only to cut the included days into runs that do not touch: the maximal runs. */
  lemma {:induction false} RunsAreUnique(runs: seq<Run>, other: seq<Run>, wanted: int -> bool, lo: int, hi: int)
    requires RunsOf(runs, wanted, lo, hi) && RunsOf(other, wanted, lo, hi) && hi <= LAST
    ensures runs == other
    decreases |runs|
  {
    hide IsLeap, MonthDays, Year, Month, Day, Tomorrow, RunsOf;
    if runs != [] {
      FirstStart(runs, other, wanted, lo, hi);
      FirstStart(other, runs, wanted, lo, hi);
      FirstStop(runs, other, wanted, lo, hi);
      FirstStop(other, runs, wanted, lo, hi);
      RestOfRuns(runs, wanted, lo, hi);
      RestOfRuns(other, wanted, lo, hi);
      RunsAreUnique(runs[1..], other[1..], wanted, runs[0].stop + 1, hi);
    } else if other != [] {
      FirstStart(other, runs, wanted, lo, hi);
    }
  }
}
