/** 1-paiban.py, the earlier variant of the tool: a roster of four-field
    records edited with duplicate-name checks, and a schedule that is only a
    blank grid under the two header rows. */
module Paiban {
  import Calendar
  import Names
  import opened MonthGrid

  datatype Doctor = Doctor(name: string, status: string, publicHoliday: int, accumulatedHoliday: int)

  /** What a button press did; each rejection has its own message. */
  datatype Outcome = Saved | NoSelection | EmptyName | DuplicateName

  /** The names of the roster in order. This is `DoctorRecords.NamesOf`
      again, over this variant's four-field record. */
  function NamesOf(doctors: seq<Doctor>): (names: seq<string>)
    ensures |names| == |doctors|
    ensures forall i :: 0 <= i < |doctors| ==> names[i] == doctors[i].name
  {
    seq(|doctors|, i requires 0 <= i < |doctors| => doctors[i].name)
  }

  /** The in-memory roster, `doctor_data`. */
  class Roster {
    var doctors: seq<Doctor>

    constructor (initial: seq<Doctor>)
      ensures doctors == initial
    {
      doctors := initial;
    }

    /** `add_doctor`: an empty stripped name is refused; otherwise the roster
        is scanned in order and the first record with the same name stops
        the call; a name nobody holds is appended as a new record. */
    method AddDoctor(entry: string, status: string, publicHoliday: int, accumulatedHoliday: int)
      returns (outcome: Outcome)
      modifies this
      ensures var name := Names.Strip(entry);
        outcome == (if name == "" then EmptyName
                    else if name in NamesOf(old(doctors)) then DuplicateName
                    else Saved)
      ensures outcome == Saved ==>
        doctors == old(doctors) + [Doctor(Names.Strip(entry), status, publicHoliday, accumulatedHoliday)]
      ensures outcome != Saved ==> doctors == old(doctors)
      ensures Names.Unique(NamesOf(old(doctors))) ==> Names.Unique(NamesOf(doctors))
    {
      var name := Names.Strip(entry);
      if name == "" {
        return EmptyName;
      }
      for i := 0 to |doctors|
        invariant forall j :: 0 <= j < i ==> doctors[j].name != name
      {
        if doctors[i].name == name {
          assert NamesOf(doctors)[i] == name;
          return DuplicateName;
        }
      }
      ghost var before := NamesOf(doctors);
      assert name !in before;
      if Names.Unique(before) {
        Names.AppendKeepsUnique(before, name);
      }
      doctors := doctors + [Doctor(name, status, publicHoliday, accumulatedHoliday)];
      assert NamesOf(doctors) == before + [name];
      outcome := Saved;
    }

    /** `modify_doctor`: without a selection nothing happens; an empty
        stripped name is refused; a name held by any other record is refused
        by the scan; otherwise the selected record is replaced. */
    method ModifyDoctor(selection: seq<nat>, entry: string, status: string, publicHoliday: int,
                        accumulatedHoliday: int)
      returns (outcome: Outcome)
      requires |selection| > 0 ==> selection[0] < |doctors|
      modifies this
      ensures |selection| == 0 ==> outcome == NoSelection
      ensures |selection| > 0 ==> var name := Names.Strip(entry);
        outcome == (if name == "" then EmptyName
                    else if Names.HeldElsewhere(NamesOf(old(doctors)), selection[0], name) then DuplicateName
                    else Saved)
      ensures outcome == Saved ==>
        doctors == old(doctors)[selection[0] := Doctor(Names.Strip(entry), status, publicHoliday, accumulatedHoliday)]
      ensures outcome != Saved ==> doctors == old(doctors)
      ensures Names.Unique(NamesOf(old(doctors))) ==> Names.Unique(NamesOf(doctors))
    {
      if |selection| == 0 {
        return NoSelection;
      }
      var index := selection[0];
      var name := Names.Strip(entry);
      if name == "" {
        return EmptyName;
      }
      for i := 0 to |doctors|
        invariant forall j :: 0 <= j < i && j != index ==> doctors[j].name != name
      {
        if doctors[i].name == name && i != index {
          assert NamesOf(doctors)[i] == name;
          return DuplicateName;
        }
      }
      ghost var before := NamesOf(doctors);
      assert !Names.HeldElsewhere(before, index, name);
      if Names.Unique(before) {
        Names.ReplaceKeepsUnique(before, index, name);
      }
      doctors := doctors[index := Doctor(name, status, publicHoliday, accumulatedHoliday)];
      assert NamesOf(doctors) == before[index := name];
      outcome := Saved;
    }
  }

  /** A doctor's row of the blank grid: the name, then blanks up to the
      header's width; the holiday balances are not copied. */
  function BlankRow(doc: Doctor, width: nat): (row: seq<Cell>)
    requires width >= 1
    ensures |row| == width && row[0] == Text(doc.name)
    ensures forall k :: 1 <= k < width ==> row[k] == Text("")
  {
    [Text(doc.name)] + seq(width - 1, _ => Text(""))
  }

  /** The table handed to the spreadsheet writer: a column header row and
      the data rows below it. */
  datatype Table = Table(header: seq<Cell>, rows: seq<seq<Cell>>)

  datatype ScheduleResult = Generated(table: Table) | MissingYearOrMonth

  /** `generate_schedule`: a year or month of 0 is refused; otherwise the
      column header is the day-number row, and the data are the weekday row
      followed by one blank row per doctor, in roster order. */
  method GenerateSchedule(roster: seq<Doctor>, year: int, month: int) returns (result: ScheduleResult)
    requires year == 0 || month == 0 || Calendar.IsMonth(month)
    ensures result.MissingYearOrMonth? <==> year == 0 || month == 0
    ensures result.Generated? ==> Calendar.IsMonth(month) && result.table.header == DayHeaderRow(year, month)
    ensures result.Generated? ==> |result.table.rows| == 1 + |roster|
    ensures result.Generated? ==> result.table.rows[0] == WeekdayHeaderRow(year, month)
    ensures result.Generated? ==> |result.table.header| >= 1 && forall i :: 0 <= i < |roster| ==>
      result.table.rows[1 + i] == BlankRow(roster[i], |result.table.header|)
  {
    if year == 0 || month == 0 {
      return MissingYearOrMonth;
    }
    var headers := DayHeaderRow(year, month);
    assert |headers| >= 1;
    var data := [WeekdayHeaderRow(year, month)];
    for i := 0 to |roster|
      invariant |data| == 1 + i
      invariant data[0] == WeekdayHeaderRow(year, month)
      invariant forall j :: 0 <= j < i ==> data[1 + j] == BlankRow(roster[j], |headers|)
    {
      var row := [Text(roster[i].name)] + seq(|headers| - 1, _ => Text(""));
      assert row == BlankRow(roster[i], |headers|);
      data := data + [row];
    }
    result := Generated(Table(headers, data));
  }

  /** February 2024 has 29 day columns, February 2023 has 28. */
  lemma FebruaryWidths()
    ensures |DayHeaderRow(2024, 2)| == 3 + 29
    ensures |DayHeaderRow(2023, 2)| == 3 + 28
  {
  }
}
