/** The roster edits of auto_scheduling.py: `add_doctor` and `modify_doctor`
    on the global `doctor_data` list, which keep doctor names unique. */
module AutoRoster {
  import Names
  import opened DoctorRecords

  /** What a button press did. Both rejections show the same message in the
      source, "name empty or already present", so they share one value. */
  datatype Outcome = Saved | NoSelection | InvalidName

  /** The guard of `add_doctor`: a non-empty name no record carries. */
  predicate CanAdd(doctors: seq<Doctor>, name: string) {
    name != "" && !NameTaken(doctors, name)
  }

  /** The guard of `modify_doctor`: a non-empty name that is either the
      selected record's own name or carried by no record at all. */
  predicate CanRename(doctors: seq<Doctor>, index: nat, name: string)
    requires index < |doctors|
  {
    name != "" && (name == doctors[index].name || !NameTaken(doctors, name))
  }

  /** Appending under the `add_doctor` guard keeps the names unique. */
  lemma AddKeepsNamesUnique(doctors: seq<Doctor>, d: Doctor)
    requires NamesUnique(doctors) && CanAdd(doctors, d.name)
    ensures NamesUnique(doctors + [d])
  {
    assert d.name !in NamesOf(doctors);
    Names.AppendKeepsUnique(NamesOf(doctors), d.name);
    assert NamesOf(doctors + [d]) == NamesOf(doctors) + [d.name];
  }

  /** Replacing one record under the `modify_doctor` guard keeps the names
      unique. */
  lemma ModifyKeepsNamesUnique(doctors: seq<Doctor>, index: nat, d: Doctor)
    requires index < |doctors|
    requires NamesUnique(doctors) && CanRename(doctors, index, d.name)
    ensures NamesUnique(doctors[index := d])
  {
    RenameGuardMatchesScan(doctors, index, d.name);
    Names.ReplaceKeepsUnique(NamesOf(doctors), index, d.name);
    assert NamesOf(doctors[index := d]) == NamesOf(doctors)[index := d.name];
  }

  /** On a roster with unique names, the `modify_doctor` guard of this file
      agrees with the scan of 1-paiban.py: a name is refused exactly when
      some other record holds it. */
  lemma RenameGuardMatchesScan(doctors: seq<Doctor>, index: nat, name: string)
    requires index < |doctors| && NamesUnique(doctors)
    ensures CanRename(doctors, index, name) <==>
      name != "" && !Names.HeldElsewhere(NamesOf(doctors), index, name)
  {
    var names := NamesOf(doctors);
    if name != "" && NameTaken(doctors, name) && name != doctors[index].name {
      var i :| 0 <= i < |doctors| && doctors[i].name == name;
      assert names[i] == name;
    }
  }

  /** Without unique names the two guards differ: when two records share a
      name, keeping that name on one of them passes this file's guard but
      not the scan of 1-paiban.py. */
  lemma RenameGuardsDifferOnDuplicates(d: Doctor)
    requires d.name != ""
    ensures CanRename([d, d], 0, d.name)
    ensures Names.HeldElsewhere(NamesOf([d, d]), 0, d.name)
  {
    assert NamesOf([d, d])[1] == d.name;
  }

  /** The in-memory roster, `doctor_data`. */
  class Roster {
    var doctors: seq<Doctor>

    constructor (initial: seq<Doctor>)
      ensures doctors == initial
    {
      doctors := initial;
    }

    /** `add_doctor`: the entry text is stripped; the record, whose next
        shift date always comes from the date picker, is appended when the
        name passes the guard. */
    method AddDoctor(entry: string, status: string, publicHoliday: int, accumulatedHoliday: int,
                     nextShiftDate: int, shiftInterval: int, clinicDay: string)
      returns (outcome: Outcome)
      modifies this
      ensures outcome == (if CanAdd(old(doctors), Names.Strip(entry)) then Saved else InvalidName)
      ensures outcome == Saved ==>
        doctors == old(doctors) + [Doctor(Names.Strip(entry), status, publicHoliday, accumulatedHoliday,
                                          Some(nextShiftDate), shiftInterval, clinicDay)]
      ensures outcome != Saved ==> doctors == old(doctors)
      ensures NamesUnique(old(doctors)) ==> NamesUnique(doctors)
    {
      var name := Names.Strip(entry);
      if name != "" && !(exists i :: 0 <= i < |doctors| && doctors[i].name == name) {
        var d := Doctor(name, status, publicHoliday, accumulatedHoliday, Some(nextShiftDate), shiftInterval, clinicDay);
        if NamesUnique(doctors) {
          AddKeepsNamesUnique(doctors, d);
        }
        doctors := doctors + [d];
        outcome := Saved;
      } else {
        outcome := InvalidName;
      }
    }

    /** `modify_doctor`: without a selection nothing happens; otherwise the
        first selected record is replaced when the stripped name passes the
        guard. The list box mirrors `doctor_data`, so a selected index is
        always in range. */
    method ModifyDoctor(selection: seq<nat>, entry: string, status: string, publicHoliday: int,
                        accumulatedHoliday: int, nextShiftDate: int, shiftInterval: int, clinicDay: string)
      returns (outcome: Outcome)
      requires |selection| > 0 ==> selection[0] < |doctors|
      modifies this
      ensures |selection| == 0 ==> outcome == NoSelection
      ensures |selection| > 0 ==>
        outcome == (if CanRename(old(doctors), selection[0], Names.Strip(entry)) then Saved else InvalidName)
      ensures outcome == Saved ==>
        doctors == old(doctors)[selection[0] := Doctor(Names.Strip(entry), status, publicHoliday, accumulatedHoliday,
                                                       Some(nextShiftDate), shiftInterval, clinicDay)]
      ensures outcome != Saved ==> doctors == old(doctors)
      ensures NamesUnique(old(doctors)) ==> NamesUnique(doctors)
    {
      if |selection| == 0 {
        return NoSelection;
      }
      var index := selection[0];
      var name := Names.Strip(entry);
      if name != "" && (name == doctors[index].name || !(exists i :: 0 <= i < |doctors| && doctors[i].name == name)) {
        var d := Doctor(name, status, publicHoliday, accumulatedHoliday, Some(nextShiftDate), shiftInterval, clinicDay);
        if NamesUnique(doctors) {
          ModifyKeepsNamesUnique(doctors, index, d);
        }
        doctors := doctors[index := d];
        outcome := Saved;
      } else {
        outcome := InvalidName;
      }
    }
  }
}
