/** What `generate_schedule` of auto_scheduling.py writes into the day cells
    of one doctor's row, as functions: the weekday baseline, the duty pass
    (one step per day, in ascending order, later writes replacing earlier
    ones), the clinic overlay, and the whole row. The lemmas say what the
    passes achieve: which label every day ends up with. */
module ShiftLabels {
  import Calendar
  import opened MonthGrid
  import opened DoctorRecords

  const Working := "正常工作"

  const Workday := "日"
  const Rest := "休"
  const OnDuty := "值"
  const PostDuty := "/"
  const SaturdayComp := "周六调休"
  const SundayComp := "周日调休"

  const ClinicMark := "/门"
  const WorkdayClinic := "日/门"
  const DutyClinic := "值/门"
  const ExtraClinic := "加/门"
  const RestClinic := "休/门"

  const Saturday := 5
  const Sunday := 6

  /** The labels the baseline and the duty pass can write. */
  predicate IsRotationLabel(cell: string) {
    cell == Workday || cell == Rest || cell == OnDuty || cell == PostDuty
    || cell == SaturdayComp || cell == SundayComp
  }

  /** A working doctor's duty rotation laid over one month: the anchor
      `next_shift_date` as a day ordinal and the interval in days. */
  datatype DutyMonth = DutyMonth(year: int, month: int, anchor: int, interval: int) {
    predicate Valid() {
      Calendar.IsMonth(month) && interval > 0
    }

    function Length(): int
      requires Valid()
    {
      Calendar.DaysInMonth(year, month)
    }

    function WeekdayOf(day: int): int
      requires Valid()
    {
      Calendar.DayOfWeek(year, month, day)
    }

    /** Day `day` is a duty day when the interval divides its distance from
        the anchor. Python's `%` with a positive divisor is the floor modulo,
        as Dafny's is, so days before the anchor stay on the cycle. */
    predicate IsDuty(day: int)
      requires Valid()
    {
      (Calendar.DaysFromCivil(year, month, day) - anchor) % interval == 0
    }
  }

  /** Pass 2: Monday to Friday is a workday, Saturday and Sunday are rest. */
  function Baseline(dm: DutyMonth): (cells: seq<string>)
    requires dm.Valid()
    ensures |cells| == dm.Length()
    ensures forall i :: 0 <= i < |cells| ==> (cells[i] == Workday <==> dm.WeekdayOf(i + 1) < Saturday)
    ensures forall i :: 0 <= i < |cells| ==> (cells[i] == Rest <==> dm.WeekdayOf(i + 1) >= Saturday)
  {
    seq(dm.Length(), i requires 0 <= i < dm.Length() => if dm.WeekdayOf(i + 1) < Saturday then Workday else Rest)
  }

  /** One iteration of the duty loop, for day `day` (cells are indexed from
      day 1 at index 0): a duty day gets "值", the next day "/", and a
      Saturday or Sunday duty puts its compensatory rest two or three days
      later, each only when that day is inside the month. */
  function DutyStep(dm: DutyMonth, cells: seq<string>, day: int): (r: seq<string>)
    requires dm.Valid() && |cells| == dm.Length() && 1 <= day <= dm.Length()
    ensures |r| == |cells|
  {
    var n := dm.Length();
    if !dm.IsDuty(day) then cells
    else
      var marked := cells[day - 1 := OnDuty];
      var rested := if day < n then marked[day := PostDuty] else marked;
      if dm.WeekdayOf(day) == Saturday then
        (if day + 2 <= n then rested[day + 1 := SaturdayComp] else rested)
      else if dm.WeekdayOf(day) == Sunday then
        (if day + 3 <= n then rested[day + 2 := SundayComp] else rested)
      else rested
  }

  /** The duty loop after its iterations for days 1..k. */
  function DutyPass(dm: DutyMonth, cells: seq<string>, k: int): (r: seq<string>)
    requires dm.Valid() && |cells| == dm.Length() && 0 <= k <= dm.Length()
    ensures |r| == |cells|
    decreases k
  {
    if k == 0 then cells else DutyStep(dm, DutyPass(dm, cells, k - 1), k)
  }

  /** Reference definition of the duty loop's effect on one day, without
      running it: the last of the iterations 1..k that writes day `day`
      decides its label. Iteration `day` writes "值", iteration `day - 1`
      writes "/", iteration `day - 2` writes "周六调休" when it falls on a
      Saturday, iteration `day - 3` writes "周日调休" when it falls on a
      Sunday; a day nobody writes keeps its `base` label. */
  function LastWrite(dm: DutyMonth, base: seq<string>, k: int, day: int): string
    requires dm.Valid() && |base| == dm.Length() && 1 <= day <= dm.Length()
  {
    if day <= k && dm.IsDuty(day) then OnDuty
    else if 1 <= day - 1 <= k && dm.IsDuty(day - 1) then PostDuty
    else if 1 <= day - 2 <= k && dm.IsDuty(day - 2) && dm.WeekdayOf(day - 2) == Saturday then SaturdayComp
    else if 1 <= day - 3 <= k && dm.IsDuty(day - 3) && dm.WeekdayOf(day - 3) == Sunday then SundayComp
    else base[day - 1]
  }

  /** The duty loop computes the reference definition: running iterations
      1..k in ascending order leaves every day with the label of the last
      iteration that writes it. */
  lemma {:induction false} DutyPassIsLastWrite(dm: DutyMonth, base: seq<string>, k: int)
    requires dm.Valid() && |base| == dm.Length() && 0 <= k <= dm.Length()
    ensures forall day :: 1 <= day <= dm.Length() ==> DutyPass(dm, base, k)[day - 1] == LastWrite(dm, base, k, day)
  {
    if k > 0 {
      DutyPassIsLastWrite(dm, base, k - 1);
      var before := DutyPass(dm, base, k - 1);
      var after := DutyStep(dm, before, k);
      forall day | 1 <= day <= dm.Length()
        ensures after[day - 1] == LastWrite(dm, base, k, day)
      {
        assert before[day - 1] == LastWrite(dm, base, k - 1, day);
      }
    }
  }

  /** After the whole duty loop: every duty day holds "值" and no other day
      does (given a baseline without "值"); a non-duty day after a duty day
      holds "/"; a Saturday duty's day + 2 and a Sunday duty's day + 3 hold
      their compensatory rest unless a later duty write reaches them; a day
      no duty write reaches keeps its baseline label. */
  lemma DutyPassLabels(dm: DutyMonth, base: seq<string>, day: int)
    requires dm.Valid() && |base| == dm.Length() && 1 <= day <= dm.Length()
    ensures var c := DutyPass(dm, base, dm.Length())[day - 1];
      && (dm.IsDuty(day) ==> c == OnDuty)
      && (base[day - 1] != OnDuty ==> (c == OnDuty <==> dm.IsDuty(day)))
      && (!dm.IsDuty(day) && day >= 2 && dm.IsDuty(day - 1) ==> c == PostDuty)
      && ((!dm.IsDuty(day) && !dm.IsDuty(day - 1) && day >= 3 && dm.IsDuty(day - 2)
           && dm.WeekdayOf(day - 2) == Saturday) ==> c == SaturdayComp)
      && ((!dm.IsDuty(day) && !dm.IsDuty(day - 1) && day >= 4 && dm.IsDuty(day - 3)
           && dm.WeekdayOf(day - 3) == Sunday) ==> c == SundayComp)
      && ((!dm.IsDuty(day) && !(day >= 2 && dm.IsDuty(day - 1))
           && !(day >= 3 && dm.IsDuty(day - 2) && dm.WeekdayOf(day - 2) == Saturday)
           && !(day >= 4 && dm.IsDuty(day - 3) && dm.WeekdayOf(day - 3) == Sunday))
          ==> c == base[day - 1])
  {
    DutyPassIsLastWrite(dm, base, dm.Length());
    assert DutyPass(dm, base, dm.Length())[day - 1] == LastWrite(dm, base, dm.Length(), day);
    LastWriteLabels(dm, base, day);
  }

  /** The labels of `DutyPassLabels`, read off the reference definition. */
  lemma LastWriteLabels(dm: DutyMonth, base: seq<string>, day: int)
    requires dm.Valid() && |base| == dm.Length() && 1 <= day <= dm.Length()
    ensures var c := LastWrite(dm, base, dm.Length(), day);
      && (dm.IsDuty(day) ==> c == OnDuty)
      && (base[day - 1] != OnDuty ==> (c == OnDuty <==> dm.IsDuty(day)))
      && (!dm.IsDuty(day) && day >= 2 && dm.IsDuty(day - 1) ==> c == PostDuty)
      && ((!dm.IsDuty(day) && !dm.IsDuty(day - 1) && day >= 3 && dm.IsDuty(day - 2)
           && dm.WeekdayOf(day - 2) == Saturday) ==> c == SaturdayComp)
      && ((!dm.IsDuty(day) && !dm.IsDuty(day - 1) && day >= 4 && dm.IsDuty(day - 3)
           && dm.WeekdayOf(day - 3) == Sunday) ==> c == SundayComp)
      && ((!dm.IsDuty(day) && !(day >= 2 && dm.IsDuty(day - 1))
           && !(day >= 3 && dm.IsDuty(day - 2) && dm.WeekdayOf(day - 2) == Saturday)
           && !(day >= 4 && dm.IsDuty(day - 3) && dm.WeekdayOf(day - 3) == Sunday))
          ==> c == base[day - 1])
  {
    LabelsDistinct();
  }

  /** The rotation labels are six different strings. */
  lemma LabelsDistinct()
    ensures OnDuty != PostDuty && OnDuty != SaturdayComp && OnDuty != SundayComp
    ensures OnDuty != Workday && OnDuty != Rest && SaturdayComp != SundayComp
  {
    assert OnDuty[0] != PostDuty[0] && OnDuty[0] != Workday[0] && OnDuty[0] != Rest[0];
    assert |OnDuty| != |SaturdayComp| && |OnDuty| != |SundayComp|;
    assert SaturdayComp[1] != SundayComp[1];
  }

  /** Starting from the baseline, the duty loop only ever leaves one of the
      six rotation labels in a cell. */
  lemma DutyPassRotationLabels(dm: DutyMonth, day: int)
    requires dm.Valid() && 1 <= day <= dm.Length()
    ensures IsRotationLabel(DutyPass(dm, Baseline(dm), dm.Length())[day - 1])
  {
    DutyPassIsLastWrite(dm, Baseline(dm), dm.Length());
    var base := Baseline(dm);
    assert base[day - 1] == Workday || base[day - 1] == Rest;
    assert DutyPass(dm, base, dm.Length())[day - 1] == LastWrite(dm, base, dm.Length(), day);
  }

  /** Pass 4's rewrite of a cell on the doctor's clinic weekday. A
      compensatory rest collapses to a clinic workday. */
  function ClinicRewrite(cell: string): string {
    if cell == Workday then WorkdayClinic
    else if cell == OnDuty then DutyClinic
    else if cell == PostDuty then ExtraClinic
    else if cell == Rest then RestClinic
    else if cell == SaturdayComp || cell == SundayComp then WorkdayClinic
    else cell + ClinicMark
  }

  /** Every rewritten cell ends in the clinic mark "/门"; a rotation label
      becomes one of the four combined labels, and only a cell outside the
      six rotation labels takes the fallback of appending the mark. */
  lemma ClinicRewriteMarks(cell: string)
    ensures var r := ClinicRewrite(cell);
      && |r| >= 2 && r[|r| - 2..] == ClinicMark
      && (IsRotationLabel(cell) ==> r == WorkdayClinic || r == DutyClinic || r == ExtraClinic || r == RestClinic)
      && (!IsRotationLabel(cell) ==> r == cell + ClinicMark)
  {
    var r := ClinicRewrite(cell);
    if !IsRotationLabel(cell) {
      assert r == cell + ClinicMark;
      assert r[|r| - 2..] == ClinicMark;
    }
  }

  /** The doctor's clinic weekday is the weekday of `day`. A clinic day of
      "" matches no day. */
  predicate IsClinicDay(dm: DutyMonth, clinicDay: string, day: int)
    requires dm.Valid()
  {
    WeekdayName(dm.year, dm.month, day) == clinicDay
  }

  /** Pass 4 over all days: each cell on a clinic day is rewritten, every
      other cell is kept. */
  function ClinicPass(dm: DutyMonth, clinicDay: string, cells: seq<string>): (r: seq<string>)
    requires dm.Valid() && |cells| == dm.Length()
    ensures |r| == |cells|
  {
    seq(|cells|, i requires 0 <= i < |cells| =>
      if IsClinicDay(dm, clinicDay, i + 1) then ClinicRewrite(cells[i]) else cells[i])
  }

  /** The clinic overlay changes only the cells of clinic days, and on a
      rotation row it never takes its fallback: the cell it rewrites is
      always one of the six rotation labels, so it becomes one of the four
      combined labels. */
  lemma ClinicPassOnRotation(dm: DutyMonth, clinicDay: string, day: int)
    requires dm.Valid() && 1 <= day <= dm.Length()
    ensures var cells := DutyPass(dm, Baseline(dm), dm.Length());
      var c := ClinicPass(dm, clinicDay, cells)[day - 1];
      && (!IsClinicDay(dm, clinicDay, day) ==> c == cells[day - 1])
      && (IsClinicDay(dm, clinicDay, day) ==>
            IsRotationLabel(cells[day - 1])
            && (c == WorkdayClinic || c == DutyClinic || c == ExtraClinic || c == RestClinic))
  {
    var cells := DutyPass(dm, Baseline(dm), dm.Length());
    DutyPassRotationLabels(dm, day);
    ClinicRewriteMarks(cells[day - 1]);
  }

  predicate HasRotation(doc: Doctor) {
    doc.nextShiftDate.Some? && doc.shiftInterval > 0
  }

  function RotationOf(doc: Doctor, year: int, month: int): (dm: DutyMonth)
    requires Calendar.IsMonth(month) && HasRotation(doc)
    ensures dm.Valid()
  {
    DutyMonth(year, month, doc.nextShiftDate.value, doc.shiftInterval)
  }

  /** The day cells of one doctor's row, after all four passes. A doctor
      who is not working gets the status text on every day; a working
      doctor without a usable rotation gets blank cells and no clinic
      overlay; otherwise the baseline, duty and clinic passes apply. */
  function DayCells(doc: Doctor, year: int, month: int): (cells: seq<string>)
    requires Calendar.IsMonth(month)
    ensures |cells| == Calendar.DaysInMonth(year, month)
  {
    var n := Calendar.DaysInMonth(year, month);
    if doc.status != Working then seq(n, _ => doc.status)
    else if HasRotation(doc) then
      var dm := RotationOf(doc, year, month);
      ClinicPass(dm, doc.clinicDay, DutyPass(dm, Baseline(dm), n))
    else seq(n, _ => "")
  }

  /** The label of every day of a doctor's row, case by case: the status
      text for a doctor who is not working, whatever the other fields hold;
      "" without a rotation, so no "值" and no clinic mark; with a rotation,
      a cell holds "值" or "值/门" exactly on the duty days, and it carries
      the clinic mark "/门" exactly on the clinic weekday. */
  lemma DayCellsLabels(doc: Doctor, year: int, month: int, day: int)
    requires Calendar.IsMonth(month) && 1 <= day <= Calendar.DaysInMonth(year, month)
    ensures var c := DayCells(doc, year, month)[day - 1];
      && (doc.status != Working ==> c == doc.status)
      && (doc.status == Working && !HasRotation(doc) ==> c == "")
      && (doc.status == Working && HasRotation(doc) ==>
            var dm := RotationOf(doc, year, month);
            && ((c == OnDuty || c == DutyClinic) <==> dm.IsDuty(day))
            && ((|c| >= 2 && c[|c| - 2..] == ClinicMark) <==> IsClinicDay(dm, doc.clinicDay, day)))
  {
    if doc.status == Working && HasRotation(doc) {
      var dm := RotationOf(doc, year, month);
      var base := Baseline(dm);
      var cells := DutyPass(dm, base, dm.Length());
      DutyPassLabels(dm, base, day);
      DutyPassRotationLabels(dm, day);
      ClinicPassOnRotation(dm, doc.clinicDay, day);
      ClinicRewriteMarks(cells[day - 1]);
      assert base[day - 1] != OnDuty;
      var c := DayCells(doc, year, month)[day - 1];
      if !IsClinicDay(dm, doc.clinicDay, day) {
        assert c == cells[day - 1];
        assert IsRotationLabel(c);
        assert |c| >= 2 ==> c[|c| - 2..] != ClinicMark;
      }
    }
  }

  /** With the anchor on the first of the month, day `day` is a duty day
      exactly when `interval` divides `day - 1`. */
  lemma DutyFromFirstOfMonth(dm: DutyMonth, day: int)
    requires dm.Valid() && dm.anchor == Calendar.DaysFromCivil(dm.year, dm.month, 1)
    ensures dm.IsDuty(day) <==> (day - 1) % dm.interval == 0
  {
    Calendar.DayOffset(dm.year, dm.month, day);
  }

  /** Duty every third day from the first of the month: the duty days are
      1, 4, 7, ... and each day after a duty day is a post-duty rest. */
  lemma EveryThirdDayFromFirstOfMonth(dm: DutyMonth, day: int)
    requires dm.Valid() && dm.anchor == Calendar.DaysFromCivil(dm.year, dm.month, 1) && dm.interval == 3
    requires 1 <= day <= dm.Length()
    ensures (day - 1) % 3 == 0 ==> DutyPass(dm, Baseline(dm), dm.Length())[day - 1] == OnDuty
    ensures (day - 1) % 3 == 1 ==> DutyPass(dm, Baseline(dm), dm.Length())[day - 1] == PostDuty
  {
    var base := Baseline(dm);
    var n := dm.Length();
    DutyPassIsLastWrite(dm, base, n);
    assert DutyPass(dm, base, n)[day - 1] == LastWrite(dm, base, n, day);
    EveryThirdDayLastWrite(dm, base, day);
  }

  lemma EveryThirdDayLastWrite(dm: DutyMonth, base: seq<string>, day: int)
    requires dm.Valid() && dm.anchor == Calendar.DaysFromCivil(dm.year, dm.month, 1) && dm.interval == 3
    requires |base| == dm.Length() && 1 <= day <= dm.Length()
    ensures (day - 1) % 3 == 0 ==> LastWrite(dm, base, dm.Length(), day) == OnDuty
    ensures (day - 1) % 3 == 1 ==> LastWrite(dm, base, dm.Length(), day) == PostDuty
  {
    DutyFromFirstOfMonth(dm, day);
    DutyFromFirstOfMonth(dm, day - 1);
  }

  /** A weekly Saturday duty from 2024-01-06 (a Saturday) puts the Saturday
      compensatory rest on Monday the 8th, after the post-duty rest on the 7th. */
  lemma SaturdayDutyOnJanuary6th2024()
    ensures var dm := DutyMonth(2024, 1, Calendar.DaysFromCivil(2024, 1, 6), 7);
      var cells := DutyPass(dm, Baseline(dm), dm.Length());
      cells[5] == OnDuty && cells[6] == PostDuty && cells[7] == SaturdayComp
  {
    var dm := DutyMonth(2024, 1, Calendar.DaysFromCivil(2024, 1, 6), 7);
    var base := Baseline(dm);
    assert Calendar.DaysFromCivil(2024, 1, 6) == 19728;
    assert dm.IsDuty(6) && !dm.IsDuty(7) && !dm.IsDuty(8) && dm.WeekdayOf(6) == Saturday;
    DutyPassIsLastWrite(dm, base, dm.Length());
    assert DutyPass(dm, base, dm.Length())[7] == LastWrite(dm, base, dm.Length(), 8);
    assert DutyPass(dm, base, dm.Length())[6] == LastWrite(dm, base, dm.Length(), 7);
    assert DutyPass(dm, base, dm.Length())[5] == LastWrite(dm, base, dm.Length(), 6);
  }
}
