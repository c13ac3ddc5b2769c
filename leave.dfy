/**
 * The leave page (src/pages/Leave.tsx): pick a pharmacist, then click days
 * of a calendar to put them on leave or take the leave back. Sundays are
 * disabled in the calendar.
 */
module LeavePage {
  import opened Types
  import opened Dates
  import opened Roster

  /**
   * The dates the calendar marks as selected: the dates of the leave records
   * of the chosen pharmacist, in the order of the records. With nobody
   * chosen the comparison is with `undefined` and matches no record.
   */
  function PharmacistLeaveDates(leave: seq<LeaveRecord>, selected: Option<Pharmacist>): (r: seq<DateStr>)
    ensures |r| <= |leave|
    ensures selected.None? ==> r == []
    ensures forall d :: d in r <==> selected.Some? && OnLeave(leave, selected.value.id, d)
  {
    if leave == [] then []
    else
      var rest := PharmacistLeaveDates(leave[1..], selected);
      assert forall i | 0 <= i < |leave| - 1 :: leave[1..][i] == leave[i + 1];
      assert forall d | selected.Some? && OnLeave(leave, selected.value.id, d) && !Matches(leave[0], selected.value.id, d) ::
        OnLeave(leave[1..], selected.value.id, d) by {
        forall d | selected.Some? && OnLeave(leave, selected.value.id, d) && !Matches(leave[0], selected.value.id, d)
          ensures OnLeave(leave[1..], selected.value.id, d)
        {
          var i :| 0 <= i < |leave| && Matches(leave[i], selected.value.id, d);
          assert leave[1..][i - 1] == leave[i];
        }
      }
      if selected.Some? && leave[0].pharmacistId == selected.value.id then [leave[0].date] + rest else rest
  }

  /**
   * `handleDayClick`: nothing without a chosen pharmacist; otherwise the
   * clicked day's leave is taken back if the calendar shows it, and added
   * (with `newId` as the generated id) if it does not.
   */
  function DayClickOp(r: Roster, selected: Option<Pharmacist>, day: Date, newId: Id): (res: Roster)
  {
    if selected.None? then r
    else if Format(day) in PharmacistLeaveDates(r.leave, selected) then DeleteLeaveOp(r, selected.value.id, Format(day))
    else AddLeaveOp(r, selected.value.id, Format(day), newId)
  }

  /** The calendar passes a click on to the handler only for days other than Sunday. */
  function CalendarClickOp(r: Roster, selected: Option<Pharmacist>, day: Date, newId: Id): (res: Roster)
    requires Valid(day)
    ensures Weekday(day) == 0 ==> res == r
    ensures Weekday(day) != 0 ==> res == DayClickOp(r, selected, day, newId)
  {
    if Weekday(day) == 0 then r else DayClickOp(r, selected, day, newId)
  }

  /**
   * With a pharmacist chosen, a click leaves the store as it was exactly on
   * a Sunday: on every other day it changes that pharmacist's leave.
   */
  lemma CalendarIgnoresOnlySundays(r: Roster, p: Pharmacist, day: Date, newId: Id)
    requires Valid(day)
    ensures CalendarClickOp(r, Some(p), day, newId) == r <==> Weekday(day) == 0
  {
    if Weekday(day) != 0 {
      DayClickToggles(r, p, day, newId);
    }
  }

  /** Of any seven consecutive days on the calendar, clicking changes nothing on exactly one. */
  lemma CalendarClicksInSevenDays(r: Roster, p: Pharmacist, d: Date, i: nat, newId: Id)
    requires Valid(d) && i < 7
    ensures CalendarClickOp(r, Some(p), DaysAfter(d, i), newId) == r <==> i == (7 - Weekday(d)) % 7
  {
    var day := DaysAfter(d, i);
    assert Weekday(day) == 0 <==> i == (7 - Weekday(d)) % 7 by {
      WeekdayOnceInSevenDays(d, i, 0);
    }
    assert CalendarClickOp(r, Some(p), day, newId) == r <==> Weekday(day) == 0 by {
      CalendarIgnoresOnlySundays(r, p, day, newId);
    }
  }

  /** Delete the pair's leave if it is on leave, add it otherwise. */
  function Toggle(r: Roster, p: Id, date: DateStr, newId: Id): Roster
  {
    if OnLeave(r.leave, p, date) then DeleteLeaveOp(r, p, date) else AddLeaveOp(r, p, date, newId)
  }

  /** With a pharmacist chosen, a click toggles that pharmacist's leave on the formatted day. */
  lemma DayClickIsToggle(r: Roster, p: Pharmacist, day: Date, newId: Id)
    ensures DayClickOp(r, Some(p), day, newId) == Toggle(r, p.id, Format(day), newId)
  {
  }

  /** A click flips whether the chosen pharmacist is on leave that day. */
  lemma DayClickToggles(r: Roster, p: Pharmacist, day: Date, newId: Id)
    ensures OnLeave(DayClickOp(r, Some(p), day, newId).leave, p.id, Format(day)) <==> !OnLeave(r.leave, p.id, Format(day))
  {
    DayClickIsToggle(r, p, day, newId);
    ToggleFlips(r, p.id, Format(day), newId);
  }

  lemma ToggleFlips(r: Roster, p: Id, date: DateStr, newId: Id)
    ensures OnLeave(Toggle(r, p, date, newId).leave, p, date) <==> !OnLeave(r.leave, p, date)
  {
    if OnLeave(r.leave, p, date) {
      DeleteLeaveRemoves(r, p, date);
    } else {
      AddLeaveFresh(r, p, date, newId);
    }
  }

  /** A click leaves every other (pharmacist, date) pair's leave as it was. */
  lemma DayClickKeepsOthers(r: Roster, p: Pharmacist, day: Date, newId: Id, q: Id, d: DateStr)
    requires q != p.id || d != Format(day)
    ensures OnLeave(DayClickOp(r, Some(p), day, newId).leave, q, d) <==> OnLeave(r.leave, q, d)
  {
    DayClickIsToggle(r, p, day, newId);
    LeaveOpsKeepOtherPairs(r, p.id, Format(day), newId, q, d);
  }

  /**
   * Clicking a day that was not on leave twice gives the leave list back,
   * but not the shifts the first click cleared.
   */
  lemma DayClickTwice(r: Roster, p: Pharmacist, day: Date, id1: Id, id2: Id)
    requires !OnLeave(r.leave, p.id, Format(day))
    ensures DayClickOp(DayClickOp(r, Some(p), day, id1), Some(p), day, id2).leave == r.leave
    ensures DayClickOp(DayClickOp(r, Some(p), day, id1), Some(p), day, id2).schedule == ClearForLeave(r.schedule, p.id, Format(day))
  {
    var r1 := DayClickOp(r, Some(p), day, id1);
    DayClickIsToggle(r, p, day, id1);
    DayClickIsToggle(r1, p, day, id2);
    ToggleTwice(r, p.id, Format(day), id1, id2);
  }

  lemma ToggleTwice(r: Roster, p: Id, date: DateStr, id1: Id, id2: Id)
    requires !OnLeave(r.leave, p, date)
    ensures Toggle(Toggle(r, p, date, id1), p, date, id2).leave == r.leave
    ensures Toggle(Toggle(r, p, date, id1), p, date, id2).schedule == ClearForLeave(r.schedule, p, date)
  {
    AddLeaveFresh(r, p, date, id1);
    AddThenDeleteLeave(r, p, date, id1);
  }

  /** A click keeps the store consistent. */
  lemma DayClickKeepsConsistent(r: Roster, selected: Option<Pharmacist>, day: Date, newId: Id)
    requires Consistent(r)
    ensures Consistent(DayClickOp(r, selected, day, newId))
  {
    if selected.Some? {
      var date := Format(day);
      AddLeaveKeepsNoDuplicates(r, selected.value.id, date, newId);
      WithoutLeaveKeepsNoDuplicates(r.leave, selected.value.id, date);
    }
  }

  /** The handler on the store: format the day, look it up among the marked dates, then delete or add. */
  method DayClick(store: RosterStore, selected: Option<Pharmacist>, day: Date, newId: Id)
    modifies store
    ensures store.State() == DayClickOp(old(store.State()), selected, day, newId)
  {
    if selected.None? {
      return;
    }
    var dateStr := Format(day);
    var isOnLeave := dateStr in PharmacistLeaveDates(store.leave, selected);
    if isOnLeave {
      store.DeleteLeave(selected.value.id, dateStr);
    } else {
      store.AddLeave(selected.value.id, dateStr, newId);
    }
  }
}
