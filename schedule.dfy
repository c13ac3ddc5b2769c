/**
 * The schedule page (src/pages/Schedule.tsx): reading "HH:MM" times,
 * matching shift templates to the page's three time slots by half-open
 * interval overlap, listing the days of a month, the Saturday staffing
 * warning, the leave-conflict flag and the pharmacists the assignment
 * dialog offers.
 */
module SchedulePage {
  import opened Types
  import opened Numerals
  import opened Dates
  import opened Seqs
  import opened Roster

  datatype Slot = Slot(name: string, start: string, end: string)

  /** The page's columns: 早班 (morning), 午班 (afternoon), 晚班 (evening). */
  const TimeSlots: seq<Slot> := [
    Slot("早班", "08:30", "12:00"),
    Slot("午班", "13:00", "17:30"),
    Slot("晚班", "18:00", "22:00")
  ]

  const MinutesPerDay: int := 24 * 60

  // ---------------------------------------------------------------------
  // Times
  // ---------------------------------------------------------------------

  /** `s.split(':')`. */
  function SplitColon(s: string): (parts: seq<string>)
    ensures |parts| >= 1
  {
    if s == [] then [""]
    else
      var rest := SplitColon(s[1..]);
      if s[0] == ':' then [""] + rest else [[s[0]] + rest[0]] + rest[1..]
  }

  lemma {:induction false} SplitNoColon(s: string)
    requires forall i | 0 <= i < |s| :: s[i] != ':'
    ensures SplitColon(s) == [s]
  {
    if s != [] {
      SplitNoColon(s[1..]);
      assert [s[0]] + s[1..] == s;
    }
  }

  lemma {:induction false} SplitAtColon(a: string, b: string)
    requires forall i | 0 <= i < |a| :: a[i] != ':'
    ensures SplitColon(a + ":" + b) == [a] + SplitColon(b)
  {
    if a == [] {
      assert a + ":" + b == [':'] + b;
      assert ([':'] + b)[1..] == b;
    } else {
      var s := a + ":" + b;
      assert s[0] == a[0] && s[1..] == a[1..] + ":" + b;
      SplitAtColon(a[1..], b);
      assert [a[0]] + a[1..] == a;
    }
  }

  /**
   * `toMinutes`: `const [h, m] = s.split(':').map(Number); return h * 60 + m`.
   * NaN (a part that is not a number, or no minutes part) is `None`.
   */
  function ToMinutes(s: string): Option<int>
  {
    MinutesOfParts(SplitColon(s))
  }

  /** The destructuring and the arithmetic of `toMinutes`, on the parts of the split. */
  function MinutesOfParts(parts: seq<string>): Option<int>
    requires |parts| >= 1
  {
    var h := JsNumber(parts[0]);
    var m := if |parts| >= 2 then JsNumber(parts[1]) else None;
    if h.Some? && m.Some? then Some(h.value * 60 + m.value) else None
  }

  /** Two numbers as the parts read as hours and minutes. */
  lemma MinutesOfTwoNumbers(hh: string, mm: string)
    requires AllDigits(hh) && AllDigits(mm)
    ensures MinutesOfParts([hh, mm]) == Some(DigitsValue(hh) * 60 + DigitsValue(mm))
  {
  }

  lemma DigitsHaveNoColon(s: string)
    requires AllDigits(s)
    ensures forall i | 0 <= i < |s| :: s[i] != ':'
  {
    forall i | 0 <= i < |s| ensures s[i] != ':' { assert IsDigit(s[i]); }
  }

  /** `toMinutes("HH:MM")` is HH * 60 + MM, for any two digit strings. */
  lemma ToMinutesOfDigits(hh: string, mm: string)
    requires AllDigits(hh) && AllDigits(mm)
    ensures ToMinutes(hh + ":" + mm) == Some(DigitsValue(hh) * 60 + DigitsValue(mm))
  {
    DigitsHaveNoColon(hh);
    DigitsHaveNoColon(mm);
    SplitAtColon(hh, mm);
    SplitNoColon(mm);
    assert SplitColon(hh + ":" + mm) == [hh] + [mm];
    assert [hh] + [mm] == [hh, mm];
    MinutesOfTwoNumbers(hh, mm);
  }

  /** The same for a time rendered as two zero-padded fields. */
  lemma ToMinutesOfClock(h: nat, m: nat)
    ensures ToMinutes(PadStart(Decimal(h), 2) + ":" + PadStart(Decimal(m), 2)) == Some(h * 60 + m)
  {
    var hh := PadStart(Decimal(h), 2);
    var mm := PadStart(Decimal(m), 2);
    PadStartValue(Decimal(h), 2);
    PadStartValue(Decimal(m), 2);
    DecimalValue(h);
    DecimalValue(m);
    assert DigitsValue(hh) == h && DigitsValue(mm) == m;
    ToMinutesOfDigits(hh, mm);
  }

  /** A time without a colon has no minutes part and reads as NaN. */
  lemma ToMinutesWithoutColon(s: string)
    requires forall i | 0 <= i < |s| :: s[i] != ':'
    ensures ToMinutes(s) == None
  {
    SplitNoColon(s);
  }

  /** A shift ending at 00:00 ends at midnight, 1440 minutes; no other end is altered. */
  function EffectiveEnd(end: int): (e: int)
    ensures end == 0 ==> e == MinutesPerDay
    ensures end != 0 ==> e == end
  {
    if end == 0 then MinutesPerDay else end
  }

  /** `shiftStart < slotEnd && effectiveShiftEnd > slotStart`, on minutes. */
  predicate IntervalsOverlap(shiftStart: int, shiftEnd: int, slotStart: int, slotEnd: int) {
    shiftStart < slotEnd && EffectiveEnd(shiftEnd) > slotStart
  }

  /**
   * `doTimesOverlap`. A NaN time makes every comparison false, so a shift or
   * slot with an unreadable time overlaps nothing.
   */
  predicate DoTimesOverlap(shift: Shift, slot: Slot) {
    var a, b, c, d := ToMinutes(shift.startTime), ToMinutes(shift.endTime), ToMinutes(slot.start), ToMinutes(slot.end);
    a.Some? && b.Some? && c.Some? && d.Some? && IntervalsOverlap(a.value, b.value, c.value, d.value)
  }

  predicate Covers(start: int, end: int, t: int) {
    start <= t < end
  }

  /**
   * For non-empty intervals the test is exactly "some minute lies in both":
   * the shift covers [start, effective end), the slot [slot start, slot end).
   */
  lemma OverlapIffCommonMinute(shiftStart: int, shiftEnd: int, slotStart: int, slotEnd: int)
    requires shiftStart < EffectiveEnd(shiftEnd) && slotStart < slotEnd
    ensures IntervalsOverlap(shiftStart, shiftEnd, slotStart, slotEnd)
        <==> exists t :: Covers(shiftStart, EffectiveEnd(shiftEnd), t) && Covers(slotStart, slotEnd, t)
  {
    if IntervalsOverlap(shiftStart, shiftEnd, slotStart, slotEnd) {
      var t := if shiftStart < slotStart then slotStart else shiftStart;
      assert Covers(shiftStart, EffectiveEnd(shiftEnd), t) && Covers(slotStart, slotEnd, t);
    }
  }

  /** Half-open: a shift that ends when the slot starts, or starts when it ends, does not overlap it. */
  lemma TouchingIsNotOverlap(shiftStart: int, shiftEnd: int, slotStart: int, slotEnd: int)
    requires EffectiveEnd(shiftEnd) == slotStart || shiftStart == slotEnd
    ensures !IntervalsOverlap(shiftStart, shiftEnd, slotStart, slotEnd)
  {
  }

  /**
   * A shift written as ending at "00:00" runs to the end of the day: it
   * overlaps a slot exactly when it starts before the slot ends and the
   * slot starts before midnight.
   */
  lemma MidnightEndRunsToEndOfDay(shift: Shift, slot: Slot, start: int, slotStart: int, slotEnd: int)
    requires shift.endTime == "00:00"
    requires ToMinutes(shift.startTime) == Some(start)
    requires ToMinutes(slot.start) == Some(slotStart) && ToMinutes(slot.end) == Some(slotEnd)
    ensures DoTimesOverlap(shift, slot) <==> start < slotEnd && slotStart < MinutesPerDay
  {
    ToMinutesOfDigits("00", "00");
    assert "00" + ":" + "00" == "00:00";
  }

  /**
   * A night shift from "18:00" to "00:00" falls in the evening slot only;
   * without the midnight rule it would overlap no slot at all.
   */
  lemma NightShiftInEveningOnly(id: Id, name: string)
    ensures var night := Shift(id, name, "18:00", "00:00");
      ShiftsForSlot([night], TimeSlots[2]) == [night]
      && ShiftsForSlot([night], TimeSlots[0]) == []
      && ShiftsForSlot([night], TimeSlots[1]) == []
  {
    var night := Shift(id, name, "18:00", "00:00");
    assert !DoTimesOverlap(night, TimeSlots[0]) by {
      MorningSlotMinutes();
      EveningSlotMinutes();
      MidnightEndRunsToEndOfDay(night, TimeSlots[0], 1080, 510, 720);
    }
    assert !DoTimesOverlap(night, TimeSlots[1]) by {
      AfternoonSlotMinutes();
      EveningSlotMinutes();
      MidnightEndRunsToEndOfDay(night, TimeSlots[1], 1080, 780, 1050);
    }
    assert DoTimesOverlap(night, TimeSlots[2]) by {
      EveningSlotMinutes();
      MidnightEndRunsToEndOfDay(night, TimeSlots[2], 1080, 1080, 1320);
    }
  }

  /** The morning slot runs from minute 510 to minute 720. */
  lemma MorningSlotMinutes()
    ensures ToMinutes("08:30") == Some(510)
    ensures ToMinutes("12:00") == Some(720)
  {
    EightThirtyMinutes();
    NoonMinutes();
  }

  lemma EightThirtyMinutes()
    ensures ToMinutes("08:30") == Some(510)
  {
    assert "08" + ":" + "30" == "08:30";
    assert "08"[0] == '0' && "08"[1] == '8' && "30"[0] == '3' && "30"[1] == '0';
    ReadClock("08", "30");
  }

  lemma NoonMinutes()
    ensures ToMinutes("12:00") == Some(720)
  {
    assert "12" + ":" + "00" == "12:00";
    assert "12"[0] == '1' && "12"[1] == '2' && "00"[0] == '0' && "00"[1] == '0';
    ReadClock("12", "00");
  }

  /** The afternoon slot runs from minute 780 to minute 1050. */
  lemma AfternoonSlotMinutes()
    ensures ToMinutes("13:00") == Some(780)
    ensures ToMinutes("17:30") == Some(1050)
  {
    OnePmMinutes();
    FiveThirtyPmMinutes();
  }

  lemma OnePmMinutes()
    ensures ToMinutes("13:00") == Some(780)
  {
    assert "13" + ":" + "00" == "13:00";
    assert "13"[0] == '1' && "13"[1] == '3' && "00"[0] == '0' && "00"[1] == '0';
    ReadClock("13", "00");
  }

  lemma FiveThirtyPmMinutes()
    ensures ToMinutes("17:30") == Some(1050)
  {
    assert "17" + ":" + "30" == "17:30";
    assert "17"[0] == '1' && "17"[1] == '7' && "30"[0] == '3' && "30"[1] == '0';
    ReadClock("17", "30");
  }

  /** The evening slot runs from minute 1080 to minute 1320. */
  lemma EveningSlotMinutes()
    ensures ToMinutes("18:00") == Some(1080)
    ensures ToMinutes("22:00") == Some(1320)
  {
    SixPmMinutes();
    TenPmMinutes();
  }

  lemma SixPmMinutes()
    ensures ToMinutes("18:00") == Some(1080)
  {
    assert "18" + ":" + "00" == "18:00";
    assert "18"[0] == '1' && "18"[1] == '8' && "00"[0] == '0' && "00"[1] == '0';
    ReadClock("18", "00");
  }

  lemma TenPmMinutes()
    ensures ToMinutes("22:00") == Some(1320)
  {
    assert "22" + ":" + "00" == "22:00";
    assert "22"[0] == '2' && "22"[1] == '2' && "00"[0] == '0' && "00"[1] == '0';
    ReadClock("22", "00");
  }

  /** A literal "HH:MM" of two two-digit fields reads as its minute of the day. */
  lemma ReadClock(hh: string, mm: string)
    requires |hh| == 2 && |mm| == 2 && AllDigits(hh) && AllDigits(mm)
    ensures ToMinutes(hh + ":" + mm) == Some((DigitValue(hh[0]) * 10 + DigitValue(hh[1])) * 60 + DigitValue(mm[0]) * 10 + DigitValue(mm[1]))
  {
    ToMinutesOfDigits(hh, mm);
    assert hh[..1][..0] == [] && mm[..1][..0] == [];
    assert hh[..|hh| - 1] == hh[..1] && mm[..|mm| - 1] == mm[..1];
    assert DigitsValue(hh[..1]) == DigitValue(hh[0]) && DigitsValue(mm[..1]) == DigitValue(mm[0]);
  }

  /** `shifts.filter(shift => doTimesOverlap(shift, slot))`. */
  function ShiftsForSlot(shifts: seq<Shift>, slot: Slot): (r: seq<Shift>)
    ensures forall x :: x in r <==> x in shifts && DoTimesOverlap(x, slot)
    ensures IsSubsequence(r, shifts)
    ensures forall x :: multiset(r)[x] == if DoTimesOverlap(x, slot) then multiset(shifts)[x] else 0
  {
    if shifts == [] then []
    else
      var rest := ShiftsForSlot(shifts[1..], slot);
      assert shifts == [shifts[0]] + shifts[1..];
      if DoTimesOverlap(shifts[0], slot) then
        assert ([shifts[0]] + rest)[1..] == rest;
        [shifts[0]] + rest
      else
        SubsequenceSkip(rest, shifts);
        rest
  }

  // ---------------------------------------------------------------------
  // Per-day checks
  // ---------------------------------------------------------------------

  /** `Object.values(dailySchedule).filter(Boolean).length`: assignments with a non-empty id. */
  function AssignedShifts(day: DaySchedule): set<Id>
  {
    set s | s in day && day[s] != ""
  }

  function AssignedCount(day: DaySchedule): nat
  {
    |AssignedShifts(day)|
  }

  /** On a Saturday, the warning "排班人數不足 (應為3人)" appears when fewer than 3 shifts are assigned. */
  predicate SaturdayWarning(date: Date, day: DaySchedule)
    requires Valid(date)
  {
    Weekday(date) == 6 && AssignedCount(day) < 3
  }

  /** Assigning somebody to a shift that had nobody raises the count by one. */
  lemma AssignRaisesCount(schedule: MonthlySchedule, date: DateStr, shiftId: Id, p: Id)
    requires p != Unassign && p != "" && shiftId !in AssignedShifts(DayOf(schedule, date))
    ensures AssignedCount(AssignShiftOp(schedule, date, shiftId, p)[date]) == AssignedCount(DayOf(schedule, date)) + 1
  {
    var before := AssignedShifts(DayOf(schedule, date));
    var after := AssignedShifts(AssignShiftOp(schedule, date, shiftId, p)[date]);
    assert after == before + {shiftId};
  }

  /**
   * With two pharmacists on a Saturday the warning shows; assigning a third
   * to a free shift clears it.
   */
  lemma ThirdAssignmentClearsWarning(date: Date, schedule: MonthlySchedule, shiftId: Id, p: Id)
    requires Valid(date) && Weekday(date) == 6
    requires AssignedCount(DayOf(schedule, Format(date))) == 2
    requires p != Unassign && p != "" && shiftId !in AssignedShifts(DayOf(schedule, Format(date)))
    ensures SaturdayWarning(date, DayOf(schedule, Format(date)))
    ensures !SaturdayWarning(date, DayOf(AssignShiftOp(schedule, Format(date), shiftId, p), Format(date)))
  {
    AssignRaisesCount(schedule, Format(date), shiftId, p);
  }

  /** `!!pharmacistId && isPharmacistOnLeave(pharmacistId, dateStr)` for the entry of one shift. */
  predicate HasLeaveConflict(leave: seq<LeaveRecord>, day: DaySchedule, shiftId: Id, date: DateStr) {
    shiftId in day && day[shiftId] != "" && OnLeave(leave, day[shiftId], date)
  }

  /** `pharmacists.filter(p => !isPharmacistOnLeave(p.id, dateStr))`. */
  function AvailablePharmacists(pharmacists: seq<Pharmacist>, leave: seq<LeaveRecord>, date: DateStr): (r: seq<Pharmacist>)
    ensures forall p :: p in r <==> p in pharmacists && !OnLeave(leave, p.id, date)
    ensures IsSubsequence(r, pharmacists)
  {
    if pharmacists == [] then []
    else
      var rest := AvailablePharmacists(pharmacists[1..], leave, date);
      if !OnLeave(leave, pharmacists[0].id, date) then
        assert ([pharmacists[0]] + rest)[1..] == rest;
        [pharmacists[0]] + rest
      else
        SubsequenceSkip(rest, pharmacists);
        rest
  }

  /** The filter keeps every pharmacist not on leave as often as the roster lists them. */
  lemma {:induction false} AvailableKeepsMultiplicity(pharmacists: seq<Pharmacist>, leave: seq<LeaveRecord>, date: DateStr, p: Pharmacist)
    ensures multiset(AvailablePharmacists(pharmacists, leave, date))[p]
         == if OnLeave(leave, p.id, date) then 0 else multiset(pharmacists)[p]
  {
    if pharmacists != [] {
      AvailableKeepsMultiplicity(pharmacists[1..], leave, date, p);
      assert pharmacists == [pharmacists[0]] + pharmacists[1..];
    }
  }

  /** `pharmacists.filter(p => isPharmacistOnLeave(p.id, dateStr))`: the names shown as 休假 on the day. */
  function PharmacistsOnLeave(pharmacists: seq<Pharmacist>, leave: seq<LeaveRecord>, date: DateStr): (r: seq<Pharmacist>)
    ensures forall p :: p in r <==> p in pharmacists && OnLeave(leave, p.id, date)
    ensures IsSubsequence(r, pharmacists)
  {
    if pharmacists == [] then []
    else
      var rest := PharmacistsOnLeave(pharmacists[1..], leave, date);
      if OnLeave(leave, pharmacists[0].id, date) then
        assert ([pharmacists[0]] + rest)[1..] == rest;
        [pharmacists[0]] + rest
      else
        SubsequenceSkip(rest, pharmacists);
        rest
  }

  /** The filter lists every pharmacist on leave as often as the roster does, and nobody else. */
  lemma {:induction false} OnLeaveKeepsMultiplicity(pharmacists: seq<Pharmacist>, leave: seq<LeaveRecord>, date: DateStr, p: Pharmacist)
    ensures multiset(PharmacistsOnLeave(pharmacists, leave, date))[p]
         == if OnLeave(leave, p.id, date) then multiset(pharmacists)[p] else 0
  {
    if pharmacists != [] {
      OnLeaveKeepsMultiplicity(pharmacists[1..], leave, date, p);
      assert pharmacists == [pharmacists[0]] + pharmacists[1..];
    }
  }

  /** Every pharmacist is either offered or shown on leave, never both. */
  lemma {:induction false} AvailableAndOnLeavePartition(pharmacists: seq<Pharmacist>, leave: seq<LeaveRecord>, date: DateStr)
    ensures |AvailablePharmacists(pharmacists, leave, date)| + |PharmacistsOnLeave(pharmacists, leave, date)| == |pharmacists|
  {
    if pharmacists != [] {
      AvailableAndOnLeavePartition(pharmacists[1..], leave, date);
    }
  }

  function Ids(ps: seq<Pharmacist>): (r: seq<Id>)
    ensures |r| == |ps| && forall i | 0 <= i < |ps| :: r[i] == ps[i].id
  {
    if ps == [] then [] else [ps[0].id] + Ids(ps[1..])
  }

  /** The select's values: "unassign" (取消指派) first, then the ids of the available pharmacists. */
  function AssignOptions(pharmacists: seq<Pharmacist>, leave: seq<LeaveRecord>, date: DateStr): seq<Id>
  {
    [Unassign] + Ids(AvailablePharmacists(pharmacists, leave, date))
  }

  /** The dialog offers exactly "unassign" and the pharmacists not on leave that date. */
  lemma AssignOptionsExactly(pharmacists: seq<Pharmacist>, leave: seq<LeaveRecord>, date: DateStr, o: Id)
    ensures o in AssignOptions(pharmacists, leave, date)
        <==> o == Unassign || exists p | p in pharmacists :: p.id == o && !OnLeave(leave, o, date)
  {
    var avail := AvailablePharmacists(pharmacists, leave, date);
    var opts := AssignOptions(pharmacists, leave, date);
    if o in opts && o != Unassign {
      var k :| 0 <= k < |opts| && opts[k] == o;
      assert opts[k] == avail[k - 1].id;
      assert avail[k - 1] in avail;
    }
    if o != Unassign && exists p | p in pharmacists :: p.id == o && !OnLeave(leave, o, date) {
      var p :| p in pharmacists && p.id == o && !OnLeave(leave, o, date);
      assert p in avail;
      var k :| 0 <= k < |avail| && avail[k] == p;
      assert opts[k + 1] == o;
    }
  }

  /** Whatever the dialog offers, choosing it for a shift leaves that shift without a leave conflict. */
  lemma OfferedChoiceHasNoConflict(pharmacists: seq<Pharmacist>, leave: seq<LeaveRecord>, schedule: MonthlySchedule,
                                   date: DateStr, shiftId: Id, o: Id)
    requires o in AssignOptions(pharmacists, leave, date)
    ensures !HasLeaveConflict(leave, AssignShiftOp(schedule, date, shiftId, o)[date], shiftId, date)
  {
    AssignOptionsExactly(pharmacists, leave, date, o);
  }

  /**
   * Which slots have an assignment cell: none on a Sunday (週日公休), no
   * evening slot on a Saturday (無夜班), all three otherwise.
   */
  function SlotsWithCells(date: Date): (r: seq<Slot>)
    requires Valid(date)
    ensures Weekday(date) == 0 ==> r == []
    ensures Weekday(date) == 6 ==> r == [TimeSlots[0], TimeSlots[1]]
    ensures Weekday(date) != 0 && Weekday(date) != 6 ==> r == TimeSlots
  {
    if Weekday(date) == 0 then []
    else if Weekday(date) == 6 then TimeSlots[..2]
    else TimeSlots
  }

  /**
   * Across a weekend: the Saturday lacks only the evening cell, the Sunday
   * after it has no cell, and the Monday after that has all three.
   */
  lemma WeekendCells(d: Date)
    requires Valid(d) && Weekday(d) == 6
    ensures SlotsWithCells(d) == [TimeSlots[0], TimeSlots[1]]
    ensures SlotsWithCells(NextDay(d)) == []
    ensures SlotsWithCells(NextDay(NextDay(d))) == TimeSlots
  {
    var sunday := NextDay(d);
    var monday := NextDay(sunday);
    assert Weekday(sunday) == 0 by {
      NextDayWeekday(d);
    }
    assert Weekday(monday) == 1 by {
      NextDayWeekday(sunday);
    }
  }

  /**
   * In any seven consecutive days exactly one day, the Sunday, has no
   * cell, exactly one, the Saturday, has two, and the other five have all
   * three.
   */
  lemma CellsInSevenDays(d: Date, i: nat)
    requires Valid(d) && i < 7
    ensures SlotsWithCells(DaysAfter(d, i)) == [] <==> i == (7 - Weekday(d)) % 7
    ensures |SlotsWithCells(DaysAfter(d, i))| == 2 <==> i == (13 - Weekday(d)) % 7
    ensures |SlotsWithCells(DaysAfter(d, i))| == 3 <==> i != (7 - Weekday(d)) % 7 && i != (13 - Weekday(d)) % 7
  {
    WeekdayOnceInSevenDays(d, i, 0);
    WeekdayOnceInSevenDays(d, i, 6);
  }

  /** The cell's name: the assigned pharmacist's name, or 未指派 when nobody, or nobody on the list, holds the shift. */
  function AssigneeLabel(pharmacists: seq<Pharmacist>, day: DaySchedule, shiftId: Id): (r: string)
    ensures shiftId !in day ==> r == "未指派"
    ensures r == "未指派" || (shiftId in day && exists p | p in pharmacists :: p.id == day[shiftId] && p.name == r)
    ensures shiftId in day && (exists p | p in pharmacists :: p.id == day[shiftId])
            ==> exists i | 0 <= i < |pharmacists| :: pharmacists[i].id == day[shiftId] && r == pharmacists[i].name
                  && forall j | 0 <= j < i :: pharmacists[j].id != day[shiftId]
  {
    if shiftId !in day then "未指派"
    else
      var found := FindPharmacist(pharmacists, day[shiftId]);
      if found.Some? then found.value.name else "未指派"
  }

  /** `pharmacists.find(p => p.id === id)`. */
  function FindPharmacist(pharmacists: seq<Pharmacist>, id: Id): (r: Option<Pharmacist>)
    ensures r.Some? ==> r.value in pharmacists && r.value.id == id
    ensures r.None? ==> forall p | p in pharmacists :: p.id != id
    ensures r.Some? ==> exists i | 0 <= i < |pharmacists| :: pharmacists[i] == r.value
                          && forall j | 0 <= j < i :: pharmacists[j].id != id
  {
    if pharmacists == [] then None
    else if pharmacists[0].id == id then Some(pharmacists[0])
    else
      var r := FindPharmacist(pharmacists[1..], id);
      if r.Some? then
        var i :| 0 <= i < |pharmacists| - 1 && pharmacists[1..][i] == r.value
                 && forall j | 0 <= j < i :: pharmacists[1..][j].id != id;
        assert pharmacists[i + 1] == r.value;
        assert forall j | 0 <= j < i + 1 :: pharmacists[j].id != id by {
          forall j | 0 <= j < i + 1
            ensures pharmacists[j].id != id
          {
            if j > 0 {
              assert pharmacists[j] == pharmacists[1..][j - 1];
            }
          }
        }
        r
      else
        r
  }

  /** With ids unique on the roster, the cell shows the name of the pharmacist it is assigned to. */
  lemma ListedAssigneeShowsName(pharmacists: seq<Pharmacist>, day: DaySchedule, shiftId: Id, p: Pharmacist)
    requires shiftId in day && p in pharmacists && p.id == day[shiftId]
    requires forall q | q in pharmacists && q.id == p.id :: q == p
    ensures AssigneeLabel(pharmacists, day, shiftId) == p.name
  {
  }

  /**
   * After a pharmacist is deleted, a shift still assigned to the id shows
   * 未指派, yet it still counts towards the Saturday head count.
   */
  lemma DeletedAssigneeShowsUnassigned(pharmacists: seq<Pharmacist>, day: DaySchedule, shiftId: Id)
    requires shiftId in day && day[shiftId] != ""
    ensures AssigneeLabel(RemoveById(pharmacists, PharmacistKey, day[shiftId]), day, shiftId) == "未指派"
    ensures shiftId in AssignedShifts(day)
  {
  }
}
