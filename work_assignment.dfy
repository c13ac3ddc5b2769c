/**
 * Batch month assignment (src/pages/WorkAssignment.tsx): once a pharmacist
 * and a shift template are chosen, visit every day of the month and give
 * that shift to the pharmacist on each day the pharmacist is not on leave,
 * counting the days assigned.
 */
module WorkAssignmentPage {
  import opened Types
  import opened Dates
  import opened Roster

  /** `!selectedId` is true for null and for the empty string: both count as "not chosen". */
  predicate IsSelected(o: Option<Id>) {
    o.Some? && o.value != ""
  }

  /** The page's answer: the error toast, or the success toast with the number of days assigned. */
  datatype Outcome = NotSelected | Assigned(count: nat)

  /** The "YYYY-MM-DD" keys of the days of a month, first to last: the `dateStr` of each turn of the loop. */
  function MonthKeys(year: nat, month: nat): (keys: seq<DateStr>)
    requires 1 <= month <= 12
    ensures |keys| == DaysInMonth(year, month)
  {
    var days := MonthDays(year, month);
    seq(|days|, i requires 0 <= i < |days| => Format(days[i]))
  }

  /** The key of turn `i` is the formatted day `i + 1` of the month. */
  lemma MonthKeyAt(year: nat, month: nat, i: nat)
    requires 1 <= month <= 12 && i < DaysInMonth(year, month)
    ensures MonthKeys(year, month)[i] == Format(Date(year, month, i + 1))
  {
    var days := MonthDays(year, month);
    assert days[i] == Date(year, month, i + 1);
  }

  /** The keys are exactly those of the valid days of the month. */
  lemma MonthKeysOfMonth(year: nat, month: nat, date: DateStr)
    requires 1 <= month <= 12
    ensures date in MonthKeys(year, month) <==> exists d | Valid(d) && d.year == year && d.month == month :: Format(d) == date
  {
    if date in MonthKeys(year, month) {
      KeyIsFormattedDay(year, month, date);
    }
    if exists d | Valid(d) && d.year == year && d.month == month :: Format(d) == date {
      var d :| Valid(d) && d.year == year && d.month == month && Format(d) == date;
      FormattedDayIsKey(d);
    }
  }

  /** Each key is the formatted form of a valid day of the month. */
  lemma KeyIsFormattedDay(year: nat, month: nat, date: DateStr)
    requires 1 <= month <= 12 && date in MonthKeys(year, month)
    ensures exists d | Valid(d) && d.year == year && d.month == month :: Format(d) == date
  {
    var keys := MonthKeys(year, month);
    var i :| 0 <= i < |keys| && keys[i] == date;
    MonthKeyAt(year, month, i);
    var d := Date(year, month, i + 1);
    assert MonthDays(year, month)[i] == d;
    assert Valid(d) && Format(d) == date;
  }

  /** Each valid day's formatted form is a key of its month. */
  lemma FormattedDayIsKey(d: Date)
    requires Valid(d)
    ensures Format(d) in MonthKeys(d.year, d.month)
  {
    MonthKeyAt(d.year, d.month, d.day - 1);
  }

  /** One turn of the loop: skip a leave day, otherwise `assignShift(dateStr, shiftId, p)`. */
  function AssignStep(schedule: MonthlySchedule, leave: seq<LeaveRecord>, p: Id, shiftId: Id, date: DateStr): (r: MonthlySchedule)
    ensures OnLeave(leave, p, date) ==> r == schedule
    ensures !OnLeave(leave, p, date) ==> r == AssignShiftOp(schedule, date, shiftId, p)
  {
    if OnLeave(leave, p, date) then schedule else AssignShiftOp(schedule, date, shiftId, p)
  }

  /** The schedule after the loop has visited `dates`, in order. */
  function AssignDays(schedule: MonthlySchedule, leave: seq<LeaveRecord>, p: Id, shiftId: Id, dates: seq<DateStr>): MonthlySchedule
    decreases |dates|
  {
    if dates == [] then schedule
    else AssignStep(AssignDays(schedule, leave, p, shiftId, dates[..|dates| - 1]), leave, p, shiftId, dates[|dates| - 1])
  }

  /** The visited dates on which the pharmacist is not on leave, in order: the days `assignmentCount` counts. */
  function WorkingDays(leave: seq<LeaveRecord>, p: Id, dates: seq<DateStr>): (r: seq<DateStr>)
    ensures |r| <= |dates|
    ensures forall d :: d in r <==> d in dates && !OnLeave(leave, p, d)
    decreases |dates|
  {
    if dates == [] then []
    else
      var rest := WorkingDays(leave, p, dates[..|dates| - 1]);
      var last := dates[|dates| - 1];
      assert forall d :: d in dates <==> d in dates[..|dates| - 1] || d == last;
      if OnLeave(leave, p, last) then rest else rest + [last]
  }

  /**
   * `handleAssignMonth` on values: with a pharmacist and a shift chosen,
   * only the schedule changes, to the result of the month loop.
   */
  function AssignMonthOp(r: Roster, year: nat, month: nat, selected: Option<Id>, shift: Option<Id>): (res: (Roster, Outcome))
    requires 1 <= month <= 12
    ensures !IsSelected(selected) || !IsSelected(shift) ==> res == (r, NotSelected)
    ensures res.0.pharmacists == r.pharmacists && res.0.shifts == r.shifts && res.0.leave == r.leave
    ensures res.1.Assigned? ==> res.1.count <= DaysInMonth(year, month)
  {
    if !IsSelected(selected) || !IsSelected(shift) then (r, NotSelected)
    else
      var keys := MonthKeys(year, month);
      (r.(schedule := AssignDays(r.schedule, r.leave, selected.value, shift.value, keys)),
       Assigned(|WorkingDays(r.leave, selected.value, keys)|))
  }

  /**
   * On every visited date the pharmacist is not on leave, the chosen shift
   * ends up held by the pharmacist, whoever held it before (cleared
   * instead, should the pharmacist's id be "unassign"). The weekday plays no
   * part: Sundays are assigned like any other day.
   */
  lemma {:induction false} AssignedOnWorkingDays(schedule: MonthlySchedule, leave: seq<LeaveRecord>, p: Id, shiftId: Id,
                                                 dates: seq<DateStr>, date: DateStr)
    requires date in dates && !OnLeave(leave, p, date)
    ensures var r := AssignDays(schedule, leave, p, shiftId, dates);
      date in r
      && (p != Unassign ==> shiftId in r[date] && r[date][shiftId] == p)
      && (p == Unassign ==> shiftId !in r[date])
    decreases |dates|
  {
    var init := dates[..|dates| - 1];
    var last := dates[|dates| - 1];
    var prev := AssignDays(schedule, leave, p, shiftId, init);
    assert AssignDays(schedule, leave, p, shiftId, dates) == AssignStep(prev, leave, p, shiftId, last);
    if last != date {
      assert dates == init + [last];
      assert date in init;
      AssignedOnWorkingDays(schedule, leave, p, shiftId, init, date);
    }
  }

  /**
   * A date that is not visited, or that is one of the pharmacist's leave
   * days, keeps its entry or its absence.
   */
  lemma {:induction false} UnvisitedDateKept(schedule: MonthlySchedule, leave: seq<LeaveRecord>, p: Id, shiftId: Id,
                                             dates: seq<DateStr>, date: DateStr)
    requires date !in dates || OnLeave(leave, p, date)
    ensures var r := AssignDays(schedule, leave, p, shiftId, dates);
      (date in r <==> date in schedule) && (date in schedule ==> r[date] == schedule[date])
    decreases |dates|
  {
    if dates != [] {
      var init := dates[..|dates| - 1];
      var last := dates[|dates| - 1];
      var prev := AssignDays(schedule, leave, p, shiftId, init);
      assert AssignDays(schedule, leave, p, shiftId, dates) == AssignStep(prev, leave, p, shiftId, last);
      assert dates == init + [last];
      UnvisitedDateKept(schedule, leave, p, shiftId, init, date);
    }
  }

  /** On the pharmacist's leave days the day entry, the chosen shift's included, is untouched. */
  lemma LeaveDayKept(schedule: MonthlySchedule, leave: seq<LeaveRecord>, p: Id, shiftId: Id, year: nat, month: nat, date: DateStr)
    requires 1 <= month <= 12 && OnLeave(leave, p, date)
    ensures var r := AssignDays(schedule, leave, p, shiftId, MonthKeys(year, month));
      (date in r <==> date in schedule) && (date in schedule ==> r[date] == schedule[date])
  {
    UnvisitedDateKept(schedule, leave, p, shiftId, MonthKeys(year, month), date);
  }

  /** Dates outside the month are untouched. */
  lemma OutsideMonthKept(schedule: MonthlySchedule, leave: seq<LeaveRecord>, p: Id, shiftId: Id,
                         year: nat, month: nat, date: DateStr)
    requires 1 <= month <= 12
    requires forall d | Valid(d) && d.year == year && d.month == month :: Format(d) != date
    ensures var r := AssignDays(schedule, leave, p, shiftId, MonthKeys(year, month));
      (date in r <==> date in schedule) && (date in schedule ==> r[date] == schedule[date])
  {
    MonthKeysOfMonth(year, month, date);
    UnvisitedDateKept(schedule, leave, p, shiftId, MonthKeys(year, month), date);
  }

  /** Day entries are created for the working days and nowhere else. */
  lemma NewEntriesAreWorkingDays(schedule: MonthlySchedule, leave: seq<LeaveRecord>, p: Id, shiftId: Id,
                                 dates: seq<DateStr>, date: DateStr)
    ensures date in AssignDays(schedule, leave, p, shiftId, dates)
        <==> date in schedule || date in WorkingDays(leave, p, dates)
  {
    if date in dates && !OnLeave(leave, p, date) {
      AssignedOnWorkingDays(schedule, leave, p, shiftId, dates, date);
    } else {
      UnvisitedDateKept(schedule, leave, p, shiftId, dates, date);
    }
  }

  /** Shifts other than the chosen one keep their holder, or their absence, on every date. */
  lemma {:induction false} OtherShiftsKept(schedule: MonthlySchedule, leave: seq<LeaveRecord>, p: Id, shiftId: Id,
                                           dates: seq<DateStr>, date: DateStr, other: Id)
    requires other != shiftId
    ensures var r := DayOf(AssignDays(schedule, leave, p, shiftId, dates), date);
      (other in r <==> other in DayOf(schedule, date))
      && (other in r ==> r[other] == DayOf(schedule, date)[other])
    decreases |dates|
  {
    if dates != [] {
      var init := dates[..|dates| - 1];
      var prev := AssignDays(schedule, leave, p, shiftId, init);
      assert AssignDays(schedule, leave, p, shiftId, dates) == AssignStep(prev, leave, p, shiftId, dates[|dates| - 1]);
      OtherShiftsKept(schedule, leave, p, shiftId, init, date, other);
    }
  }

  /** The day numbers 1 to `last` on which `free` holds. */
  function DaysWhere(free: nat -> bool, last: nat): set<nat>
  {
    set day: nat | 1 <= day <= last && free(day)
  }

  /** Day `k` joins the days where `free` holds exactly when `free(k)`, and it is new. */
  lemma DaysWhereStep(free: nat -> bool, k: nat)
    requires k >= 1
    ensures |DaysWhere(free, k)| == |DaysWhere(free, k - 1)| + if free(k) then 1 else 0
  {
    var before, after := DaysWhere(free, k - 1), DaysWhere(free, k);
    var added: set<nat> := if free(k) then {k} else {};
    forall day: nat
      ensures day in after <==> day in before || day in added
    {
    }
    assert after == before + added;
    assert before !! added;
  }

  /** Whether the pharmacist is free, not on leave, on a day of the month. */
  function FreeOn(leave: seq<LeaveRecord>, p: Id, year: nat, month: nat): nat -> bool
  {
    (day: nat) => !OnLeave(leave, p, Format(Date(year, month, day)))
  }

  /** The day numbers 1 to `last` of the month on which the pharmacist is not on leave. */
  function DaysNotOnLeave(leave: seq<LeaveRecord>, p: Id, year: nat, month: nat, last: nat): set<nat>
  {
    DaysWhere(FreeOn(leave, p, year, month), last)
  }

  /** Day `k` adds one to the days not on leave exactly when the pharmacist is not on leave then. */
  lemma DaysNotOnLeaveStep(leave: seq<LeaveRecord>, p: Id, year: nat, month: nat, k: nat)
    requires k >= 1
    ensures |DaysNotOnLeave(leave, p, year, month, k)|
         == |DaysNotOnLeave(leave, p, year, month, k - 1)| + if OnLeave(leave, p, Format(Date(year, month, k))) then 0 else 1
  {
    DaysWhereStep(FreeOn(leave, p, year, month), k);
  }

  /** The keys of the days from the first of the month on: turn `i` is day `i + 1`. */
  predicate KeysFromFirst(keys: seq<DateStr>, year: nat, month: nat) {
    forall i | 0 <= i < |keys| :: keys[i] == Format(Date(year, month, i + 1))
  }

  /** Over the first `k` days of the month, the working days are the days not on leave, one each. */
  lemma {:induction false} WorkingDaysOfPrefix(leave: seq<LeaveRecord>, p: Id, year: nat, month: nat, keys: seq<DateStr>, k: nat)
    requires KeysFromFirst(keys, year, month) && k <= |keys|
    ensures |WorkingDays(leave, p, keys[..k])| == |DaysNotOnLeave(leave, p, year, month, k)|
  {
    if k == 0 {
      NoDaysYet(leave, p, year, month, keys);
    } else {
      WorkingDaysOfPrefix(leave, p, year, month, keys, k - 1);
      BothCountsStep(leave, p, year, month, keys, k);
    }
  }

  /** Before the first day of the month there is nothing to count on either side. */
  lemma NoDaysYet(leave: seq<LeaveRecord>, p: Id, year: nat, month: nat, keys: seq<DateStr>)
    ensures |WorkingDays(leave, p, keys[..0])| == |DaysNotOnLeave(leave, p, year, month, 0)| == 0
  {
    assert keys[..0] == [];
    assert DaysNotOnLeave(leave, p, year, month, 0) == {};
  }

  /** Day `k` adds the same to both counts: one when the pharmacist is not on leave then, else nothing. */
  lemma BothCountsStep(leave: seq<LeaveRecord>, p: Id, year: nat, month: nat, keys: seq<DateStr>, k: nat)
    requires KeysFromFirst(keys, year, month) && 1 <= k <= |keys|
    ensures |WorkingDays(leave, p, keys[..k])| - |DaysNotOnLeave(leave, p, year, month, k)|
         == |WorkingDays(leave, p, keys[..k - 1])| - |DaysNotOnLeave(leave, p, year, month, k - 1)|
  {
    assert keys[k - 1] == Format(Date(year, month, k));
    assert |WorkingDays(leave, p, keys[..k])|
        == |WorkingDays(leave, p, keys[..k - 1])| + if OnLeave(leave, p, keys[k - 1]) then 0 else 1 by {
      assert keys[..k][..k - 1] == keys[..k - 1];
    }
    DaysNotOnLeaveStep(leave, p, year, month, k);
  }

  /**
   * The count is the number of days of the month the pharmacist is not on
   * leave: the working days are exactly those keys of the month, one per
   * day not on leave, so there are at most as many as the month has days.
   */
  lemma MonthCountIsWorkingDays(leave: seq<LeaveRecord>, p: Id, year: nat, month: nat, date: DateStr)
    requires 1 <= month <= 12
    ensures var w := WorkingDays(leave, p, MonthKeys(year, month));
      |w| == |DaysNotOnLeave(leave, p, year, month, DaysInMonth(year, month))|
      && |w| <= DaysInMonth(year, month)
      && (date in w <==> !OnLeave(leave, p, date)
                         && exists d | Valid(d) && d.year == year && d.month == month :: Format(d) == date)
  {
    MonthKeysOfMonth(year, month, date);
    var keys := MonthKeys(year, month);
    assert keys[..|keys|] == keys;
    assert KeysFromFirst(keys, year, month) by {
      forall i | 0 <= i < |keys| {
        MonthKeyAt(year, month, i);
      }
    }
    WorkingDaysOfPrefix(leave, p, year, month, keys, |keys|);
  }

  lemma StepOfPrefix(schedule: MonthlySchedule, leave: seq<LeaveRecord>, p: Id, shiftId: Id, keys: seq<DateStr>, k: nat)
    requires k < |keys|
    ensures AssignDays(schedule, leave, p, shiftId, keys[..k + 1])
        == AssignStep(AssignDays(schedule, leave, p, shiftId, keys[..k]), leave, p, shiftId, keys[k])
    ensures |WorkingDays(leave, p, keys[..k + 1])|
        == |WorkingDays(leave, p, keys[..k])| + if OnLeave(leave, p, keys[k]) then 0 else 1
  {
    assert keys[..k + 1][..k] == keys[..k];
  }

  /**
   * `handleAssignMonth`: the selection guard, then the month loop.
   */
  method AssignMonth(store: RosterStore, year: nat, month: nat, selected: Option<Id>, shift: Option<Id>)
    returns (outcome: Outcome)
    requires 1 <= month <= 12
    modifies store
    ensures (store.State(), outcome) == AssignMonthOp(old(store.State()), year, month, selected, shift)
  {
    if !IsSelected(selected) || !IsSelected(shift) {
      return NotSelected;
    }
    var count := VisitMonth(store, year, month, selected.value, shift.value);
    outcome := Assigned(count);
  }

  /** One turn of the loop: assign the shift on `dateStr` unless the pharmacist is on leave then. */
  method VisitDay(store: RosterStore, p: Id, shiftId: Id, dateStr: DateStr) returns (visited: bool)
    modifies store
    ensures store.pharmacists == old(store.pharmacists) && store.shifts == old(store.shifts)
    ensures store.leave == old(store.leave)
    ensures store.schedule == AssignStep(old(store.schedule), store.leave, p, shiftId, dateStr)
    ensures visited <==> !OnLeave(store.leave, p, dateStr)
  {
    visited := !store.IsPharmacistOnLeave(p, dateStr);
    if visited {
      store.AssignShift(dateStr, shiftId, p);
    }
  }

  /**
   * The `while` loop of `handleAssignMonth`: for each day from the first to
   * the last of the month, as `DaysOfMonth` walks them, consult
   * `isPharmacistOnLeave`, call `assignShift` and increment
   * `assignmentCount`.
   */
  method VisitMonth(store: RosterStore, year: nat, month: nat, p: Id, shiftId: Id) returns (count: nat)
    requires 1 <= month <= 12
    modifies store
    ensures store.pharmacists == old(store.pharmacists) && store.shifts == old(store.shifts)
    ensures store.leave == old(store.leave)
    ensures store.schedule == AssignDays(old(store.schedule), old(store.leave), p, shiftId, MonthKeys(year, month))
    ensures count == |WorkingDays(old(store.leave), p, MonthKeys(year, month))|
  {
    ghost var schedule0, leave0 := store.schedule, store.leave;
    ghost var keys := MonthKeys(year, month);
    var days := DaysOfMonth(year, month);
    count := 0;
    var i := 0;
    assert keys[..i] == [];
    while i < |days|
      invariant i <= |days| == |keys|
      invariant store.pharmacists == old(store.pharmacists) && store.shifts == old(store.shifts)
      invariant store.leave == leave0
      invariant store.schedule == AssignDays(schedule0, leave0, p, shiftId, keys[..i])
      invariant count == |WorkingDays(leave0, p, keys[..i])|
    {
      var dateStr := Format(days[i]);
      MonthKeyAt(year, month, i);
      StepOfPrefix(schedule0, leave0, p, shiftId, keys, i);
      assert keys[i] == dateStr;
      ghost var before := store.schedule;
      var visited := VisitDay(store, p, shiftId, dateStr);
      assert store.schedule == AssignStep(before, leave0, p, shiftId, keys[i]);
      if visited {
        count := count + 1;
      }
      i := i + 1;
    }
    assert keys[..i] == keys;
  }
}
