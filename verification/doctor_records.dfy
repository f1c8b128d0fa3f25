/** The doctor record of auto_scheduling.py, as kept in its `doctor_data`
    list and in the configuration file, and the defaulting of missing fields
    that `load_config` applies to stored records. */
module DoctorRecords {
  import Names

  datatype Option<T> = None | Some(value: T)

  /** One roster entry. `nextShiftDate` is a day ordinal (see the Calendar
      module); `clinicDay` is one of the weekday names, or "" for none. */
  datatype Doctor = Doctor(
    name: string,
    status: string,
    publicHoliday: int,
    accumulatedHoliday: int,
    nextShiftDate: Option<int>,
    shiftInterval: int,
    clinicDay: string)

  /** The roster's names, in roster order. */
  function NamesOf(doctors: seq<Doctor>): (names: seq<string>)
    ensures |names| == |doctors|
    ensures forall i :: 0 <= i < |doctors| ==> names[i] == doctors[i].name
  {
    seq(|doctors|, i requires 0 <= i < |doctors| => doctors[i].name)
  }

  predicate NamesUnique(doctors: seq<Doctor>) {
    Names.Unique(NamesOf(doctors))
  }

  /** Some record already carries `name`. */
  predicate NameTaken(doctors: seq<Doctor>, name: string) {
    exists i :: 0 <= i < |doctors| && doctors[i].name == name
  }

  /** A key of a stored record that may be absent. */
  datatype Field<T> = Missing | Present(value: T)

  /** A record as read from the configuration file, written by an older
      version that may lack the later fields. The date field holds an
      optional date, since the file may store `null` for it. */
  datatype StoredDoctor = StoredDoctor(
    name: string,
    status: string,
    publicHoliday: Field<int>,
    accumulatedHoliday: Field<int>,
    nextShiftDate: Field<Option<int>>,
    shiftInterval: Field<int>,
    clinicDay: Field<string>)

  function ValueOr<T>(f: Field<T>, default: T): T {
    match f
    case Present(v) => v
    case Missing => default
  }

  /** `load_config`'s fix-up of one record: a missing holiday balance or
      interval becomes 0, a missing date becomes `None` and a missing clinic
      day becomes "". Keys that are present keep their values. */
  function WithDefaults(stored: StoredDoctor): (d: Doctor)
    ensures d.name == stored.name && d.status == stored.status
    ensures d.publicHoliday == (if stored.publicHoliday.Present? then stored.publicHoliday.value else 0)
    ensures d.accumulatedHoliday == (if stored.accumulatedHoliday.Present? then stored.accumulatedHoliday.value else 0)
    ensures d.nextShiftDate == (if stored.nextShiftDate.Present? then stored.nextShiftDate.value else None)
    ensures d.shiftInterval == (if stored.shiftInterval.Present? then stored.shiftInterval.value else 0)
    ensures d.clinicDay == (if stored.clinicDay.Present? then stored.clinicDay.value else "")
  {
    Doctor(
      stored.name,
      stored.status,
      ValueOr(stored.publicHoliday, 0),
      ValueOr(stored.accumulatedHoliday, 0),
      ValueOr(stored.nextShiftDate, None),
      ValueOr(stored.shiftInterval, 0),
      ValueOr(stored.clinicDay, ""))
  }

  /** The record `save_config` writes for a doctor: every key present. */
  function Stored(d: Doctor): StoredDoctor {
    StoredDoctor(d.name, d.status, Present(d.publicHoliday), Present(d.accumulatedHoliday),
                 Present(d.nextShiftDate), Present(d.shiftInterval), Present(d.clinicDay))
  }

  /** `load_config`'s loop over the stored records: each one is completed
      with the defaults, in file order. */
  method LoadDoctors(stored: seq<StoredDoctor>) returns (doctors: seq<Doctor>)
    ensures |doctors| == |stored|
    ensures forall i :: 0 <= i < |stored| ==> doctors[i] == WithDefaults(stored[i])
    ensures NamesOf(doctors) == seq(|stored|, i requires 0 <= i < |stored| => stored[i].name)
  {
    doctors := [];
    for i := 0 to |stored|
      invariant |doctors| == i
      invariant forall j :: 0 <= j < i ==> doctors[j] == WithDefaults(stored[j])
    {
      doctors := doctors + [WithDefaults(stored[i])];
    }
  }

  /** Saving a roster and loading it back gives the same roster: the
      defaults never replace a value that was saved. */
  lemma {:induction false} SaveLoadRoundTrip(doctors: seq<Doctor>)
    ensures forall i :: 0 <= i < |doctors| ==> WithDefaults(Stored(doctors[i])) == doctors[i]
  {
    forall i | 0 <= i < |doctors|
      ensures WithDefaults(Stored(doctors[i])) == doctors[i]
    {
      var d := doctors[i];
      assert WithDefaults(Stored(d)) == Doctor(d.name, d.status, d.publicHoliday, d.accumulatedHoliday,
                                               d.nextShiftDate, d.shiftInterval, d.clinicDay);
    }
  }

  /** Defaulting is idempotent: completing an already complete record
      changes nothing. */
  lemma DefaultsIdempotent(stored: StoredDoctor)
    ensures WithDefaults(Stored(WithDefaults(stored))) == WithDefaults(stored)
  {
    SaveLoadRoundTrip([WithDefaults(stored)]);
  }
}
