/** `generate_schedule` of auto_scheduling.py: the two header rows, then one
    row per doctor whose day cells are filled in a row buffer by ascending
    loops over the days. */
module AutoSchedule {
  import Calendar
  import opened MonthGrid
  import opened DoctorRecords
  import opened ShiftLabels

  /** One doctor's row: name, the two holiday balances copied unchanged, then
      the day cells. */
  function DoctorRow(doc: Doctor, year: int, month: int): (row: seq<Cell>)
    requires Calendar.IsMonth(month)
    ensures |row| == 3 + Calendar.DaysInMonth(year, month)
    ensures row[..3] == [Text(doc.name), Number(doc.publicHoliday), Number(doc.accumulatedHoliday)]
    ensures forall i :: 0 <= i < Calendar.DaysInMonth(year, month) ==>
      row[3 + i] == Text(DayCells(doc, year, month)[i])
  {
    var cells := DayCells(doc, year, month);
    [Text(doc.name), Number(doc.publicHoliday), Number(doc.accumulatedHoliday)]
      + seq(|cells|, i requires 0 <= i < |cells| => Text(cells[i]))
  }

  /** Pass 1: a doctor who is not working gets the status text on every day. */
  method FillStatus(row: array<string>, status: string)
    modifies row
    ensures row[..] == seq(row.Length, _ => status)
  {
    for day := 1 to row.Length + 1
      invariant forall i :: 0 <= i < day - 1 ==> row[i] == status
    {
      row[day - 1] := status;
    }
  }

  /** Pass 2: every day becomes a workday or, on Saturday and Sunday, rest. */
  method FillBaseline(row: array<string>, dm: DutyMonth)
    requires dm.Valid() && row.Length == dm.Length()
    modifies row
    ensures row[..] == Baseline(dm)
  {
    for day := 1 to row.Length + 1
      invariant forall i :: 0 <= i < day - 1 ==> row[i] == Baseline(dm)[i]
    {
      var current := Calendar.DaysFromCivil(dm.year, dm.month, day);
      if Calendar.Weekday(current) < Saturday {
        row[day - 1] := Workday;
      } else {
        row[day - 1] := Rest;
      }
    }
  }

  /** Pass 3: the duty loop, days in ascending order. */
  method MarkDuty(row: array<string>, dm: DutyMonth)
    requires dm.Valid() && row.Length == dm.Length()
    modifies row
    ensures row[..] == DutyPass(dm, old(row[..]), dm.Length())
  {
    var n := row.Length;
    for day := 1 to n + 1
      invariant row[..] == DutyPass(dm, old(row[..]), day - 1)
    {
      ghost var before := row[..];
      var current := Calendar.DaysFromCivil(dm.year, dm.month, day);
      if (current - dm.anchor) % dm.interval == 0 {
        row[day - 1] := OnDuty;
        if day < n {
          row[day] := PostDuty;
        }
        if Calendar.Weekday(current) == Saturday {
          if day + 2 <= n {
            row[day + 1] := SaturdayComp;
          }
        } else if Calendar.Weekday(current) == Sunday {
          if day + 3 <= n {
            row[day + 2] := SundayComp;
          }
        }
      }
      assert row[..] == DutyStep(dm, before, day);
    }
  }

  /** Pass 4: the clinic weekday's rewrite, days in ascending order. */
  method OverlayClinic(row: array<string>, dm: DutyMonth, clinicDay: string)
    requires dm.Valid() && row.Length == dm.Length()
    modifies row
    ensures row[..] == ClinicPass(dm, clinicDay, old(row[..]))
  {
    ghost var target := ClinicPass(dm, clinicDay, row[..]);
    for day := 1 to row.Length + 1
      invariant forall i :: 0 <= i < day - 1 ==> row[i] == target[i]
      invariant forall i :: day - 1 <= i < row.Length ==> row[i] == old(row[i])
    {
      assert target[day - 1] == if IsClinicDay(dm, clinicDay, day) then ClinicRewrite(row[day - 1]) else row[day - 1];
      if clinicDay == WeekdayName(dm.year, dm.month, day) {
        row[day - 1] := ClinicRewrite(row[day - 1]);
      }
    }
    assert row[..] == target;
  }

  /** The body of the per-doctor loop: a buffer of blank day cells (day d at
      index d - 1) that the passes overwrite in order. */
  method BuildDayCells(doc: Doctor, year: int, month: int) returns (cells: seq<string>)
    requires Calendar.IsMonth(month)
    ensures cells == DayCells(doc, year, month)
    ensures |cells| == Calendar.DaysInMonth(year, month)
    ensures doc.status != Working ==> forall i :: 0 <= i < |cells| ==> cells[i] == doc.status
    ensures doc.status == Working && !HasRotation(doc) ==> forall i :: 0 <= i < |cells| ==> cells[i] == ""
  {
    var n := Calendar.DaysInMonth(year, month);
    var row := new string[n](_ => "");
    if doc.status != Working {
      FillStatus(row, doc.status);
    } else if doc.nextShiftDate.Some? && doc.shiftInterval > 0 {
      var dm := DutyMonth(year, month, doc.nextShiftDate.value, doc.shiftInterval);
      FillBaseline(row, dm);
      MarkDuty(row, dm);
      OverlayClinic(row, dm, doc.clinicDay);
    }
    cells := row[..];
  }

  /** The whole grid: the day-number header, the weekday header, then one
      row per doctor in roster order. */
  method GenerateSchedule(roster: seq<Doctor>, year: int, month: int) returns (data: seq<seq<Cell>>)
    requires Calendar.IsMonth(month)
    ensures |data| == 2 + |roster|
    ensures data[0] == DayHeaderRow(year, month) && data[1] == WeekdayHeaderRow(year, month)
    ensures forall i :: 0 <= i < |roster| ==> data[2 + i] == DoctorRow(roster[i], year, month)
  {
    data := [DayHeaderRow(year, month), WeekdayHeaderRow(year, month)];
    for i := 0 to |roster|
      invariant |data| == 2 + i
      invariant data[0] == DayHeaderRow(year, month) && data[1] == WeekdayHeaderRow(year, month)
      invariant forall j :: 0 <= j < i ==> data[2 + j] == DoctorRow(roster[j], year, month)
    {
      var doc := roster[i];
      var cells := BuildDayCells(doc, year, month);
      var row := [Text(doc.name), Number(doc.publicHoliday), Number(doc.accumulatedHoliday)]
        + seq(|cells|, k requires 0 <= k < |cells| => Text(cells[k]));
      data := data + [row];
    }
  }
}
