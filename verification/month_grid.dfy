/** The table both generators produce: cells of text or numbers, and the two
    header rows (day numbers, Monday-first weekday names) they share. */
module MonthGrid {
  import Calendar

  /** A spreadsheet cell: the source mixes strings and integers in its rows. */
  datatype Cell = Text(text: string) | Number(value: int)

  /** Weekday names, Monday first, indexed by `Calendar.Weekday`. */
  const WeekdayNames: seq<string> := ["一", "二", "三", "四", "五", "六", "日"]

  /** Name of the weekday of day `day` of the month. */
  function WeekdayName(year: int, month: int, day: int): (name: string)
    requires Calendar.IsMonth(month)
    ensures name in WeekdayNames
  {
    WeekdayNames[Calendar.DayOfWeek(year, month, day)]
  }

  /** `["", "公休", "积休"] + days`, with `days` the list 1..N. */
  function DayHeaderRow(year: int, month: int): (row: seq<Cell>)
    requires Calendar.IsMonth(month)
    ensures |row| == 3 + Calendar.DaysInMonth(year, month)
    ensures row[..3] == [Text(""), Text("公休"), Text("积休")]
    ensures forall day :: 1 <= day <= Calendar.DaysInMonth(year, month) ==> row[2 + day] == Number(day)
  {
    var n := Calendar.DaysInMonth(year, month);
    [Text(""), Text("公休"), Text("积休")] + seq(n, i requires 0 <= i < n => Number(i + 1))
  }

  /** `["", "", ""] + weekday_headers`: the weekday name of each day. */
  function WeekdayHeaderRow(year: int, month: int): (row: seq<Cell>)
    requires Calendar.IsMonth(month)
    ensures |row| == 3 + Calendar.DaysInMonth(year, month)
    ensures row[..3] == [Text(""), Text(""), Text("")]
    ensures forall day :: 1 <= day <= Calendar.DaysInMonth(year, month) ==>
      row[2 + day] == Text(WeekdayName(year, month, day))
  {
    var n := Calendar.DaysInMonth(year, month);
    [Text(""), Text(""), Text("")] + seq(n, i requires 0 <= i < n => Text(WeekdayName(year, month, i + 1)))
  }

  /** Along the weekday header the names cycle in order: the day after a
      day named `WeekdayNames[w]` is named `WeekdayNames[(w + 1) % 7]`, and
      this continues into the next month. */
  lemma WeekdayNamesCycle(year: int, month: int, day: int)
    requires Calendar.IsMonth(month) && 1 <= day <= Calendar.DaysInMonth(year, month)
    ensures var w := Calendar.DayOfWeek(year, month, day);
      if day < Calendar.DaysInMonth(year, month) then
        WeekdayName(year, month, day + 1) == WeekdayNames[(w + 1) % 7]
      else
        var (y', m') := Calendar.NextMonth(year, month);
        WeekdayName(y', m', 1) == WeekdayNames[(w + 1) % 7]
  {
    var ord := Calendar.DaysFromCivil(year, month, day);
    Calendar.WeekdaySuccessor(ord);
    if day < Calendar.DaysInMonth(year, month) {
      Calendar.DayOffset(year, month, day);
      Calendar.DayOffset(year, month, day + 1);
    } else {
      Calendar.NextDayAcrossMonth(year, month);
    }
  }
}
