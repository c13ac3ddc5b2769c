/**
 * The roster store (src/contexts/AppContext.tsx): the pharmacist and
 * shift-template lists with id-keyed create/update/delete, the flat
 * schedule date -> (shift id -> pharmacist id) with `assignShift`, and the
 * leave records with `addLeave`, `deleteLeave` and `isPharmacistOnLeave`.
 *
 * Each operation is first defined on values (a `Roster`), with lemmas that
 * state what it promises; the class `RosterStore` holds the same state in
 * fields that its methods update, each method proved to leave exactly the
 * state the value-level operation describes.
 */
module Roster {
  import opened Types
  import opened Seqs

  // ---------------------------------------------------------------------
  // Id-keyed lists
  // ---------------------------------------------------------------------

  function PharmacistKey(p: Pharmacist): Id { p.id }

  function ShiftKey(s: Shift): Id { s.id }

  predicate HasId<T>(xs: seq<T>, key: T -> Id, id: Id) {
    exists i | 0 <= i < |xs| :: key(xs[i]) == id
  }

  predicate UniqueIds<T>(xs: seq<T>, key: T -> Id) {
    forall i, j | 0 <= i < j < |xs| :: key(xs[i]) != key(xs[j])
  }

  /** `xs.map(y => y.id === x.id ? x : y)`. */
  function ReplaceById<T>(xs: seq<T>, key: T -> Id, x: T): (r: seq<T>)
    ensures |r| == |xs|
    ensures forall i | 0 <= i < |xs| :: r[i] == if key(xs[i]) == key(x) then x else xs[i]
  {
    if xs == [] then []
    else [if key(xs[0]) == key(x) then x else xs[0]] + ReplaceById(xs[1..], key, x)
  }

  /** `xs.filter(y => y.id !== id)`. */
  function RemoveById<T>(xs: seq<T>, key: T -> Id, id: Id): (r: seq<T>)
    ensures |r| <= |xs|
    ensures forall i | 0 <= i < |r| :: r[i] in xs && key(r[i]) != id
    ensures forall i | 0 <= i < |xs| && key(xs[i]) != id :: xs[i] in r
  {
    if xs == [] then []
    else if key(xs[0]) == id then RemoveById(xs[1..], key, id)
    else [xs[0]] + RemoveById(xs[1..], key, id)
  }

  /**
   * The delete is exactly `filter`: the survivors keep their order, and each
   * element with another id survives as often as it occurs.
   */
  lemma {:induction false} RemoveByIdIsFilter<T>(xs: seq<T>, key: T -> Id, id: Id)
    ensures IsSubsequence(RemoveById(xs, key, id), xs)
    ensures forall x | x in xs :: multiset(RemoveById(xs, key, id))[x] == if key(x) == id then 0 else multiset(xs)[x]
  {
    if xs != [] {
      var rest := RemoveById(xs[1..], key, id);
      RemoveByIdIsFilter(xs[1..], key, id);
      assert xs == [xs[0]] + xs[1..];
      if key(xs[0]) == id {
        SubsequenceSkip(rest, xs);
      } else {
        assert ([xs[0]] + rest)[1..] == rest;
      }
    }
  }

  /** Updating with an id no element has changes nothing. */
  lemma ReplaceUnknownIsNoOp<T>(xs: seq<T>, key: T -> Id, x: T)
    requires !HasId(xs, key, key(x))
    ensures ReplaceById(xs, key, x) == xs
  {
  }

  /** With unique ids, an update replaces exactly the element carrying that id, in place. */
  lemma ReplaceKnownAt<T>(xs: seq<T>, key: T -> Id, x: T, i: int)
    requires UniqueIds(xs, key) && 0 <= i < |xs| && key(xs[i]) == key(x)
    ensures ReplaceById(xs, key, x) == xs[i := x]
  {
  }

  /** An update keeps every element's id, so ids stay unique. */
  lemma ReplaceKeepsUniqueIds<T>(xs: seq<T>, key: T -> Id, x: T)
    requires UniqueIds(xs, key)
    ensures UniqueIds(ReplaceById(xs, key, x), key)
  {
    var r := ReplaceById(xs, key, x);
    assert forall i | 0 <= i < |xs| :: key(r[i]) == key(xs[i]);
  }

  /** Deleting an id no element has changes nothing. */
  lemma {:induction false} RemoveAbsentIsNoOp<T>(xs: seq<T>, key: T -> Id, id: Id)
    requires !HasId(xs, key, id)
    ensures RemoveById(xs, key, id) == xs
  {
    if xs != [] {
      assert !HasId(xs[1..], key, id) by {
        forall i | 0 <= i < |xs| - 1 ensures key(xs[1..][i]) != id {
          assert xs[1..][i] == xs[i + 1];
        }
      }
      RemoveAbsentIsNoOp(xs[1..], key, id);
    }
  }

  /** Deleting a present id from a list with unique ids removes exactly one element. */
  lemma {:induction false} RemoveKnownLength<T>(xs: seq<T>, key: T -> Id, id: Id)
    requires UniqueIds(xs, key) && HasId(xs, key, id)
    ensures |RemoveById(xs, key, id)| == |xs| - 1
  {
    var tail := xs[1..];
    assert UniqueIds(tail, key) by {
      forall i, j | 0 <= i < j < |tail| ensures key(tail[i]) != key(tail[j]) {
        assert tail[i] == xs[i + 1] && tail[j] == xs[j + 1];
      }
    }
    if key(xs[0]) == id {
      assert !HasId(tail, key, id) by {
        forall i | 0 <= i < |tail| ensures key(tail[i]) != id {
          assert tail[i] == xs[i + 1];
        }
      }
      RemoveAbsentIsNoOp(tail, key, id);
    } else {
      var k :| 0 <= k < |xs| && key(xs[k]) == id;
      assert tail[k - 1] == xs[k];
      RemoveKnownLength(tail, key, id);
    }
  }

  /** Deleting by id keeps unique ids unique. */
  lemma {:induction false} RemoveKeepsUniqueIds<T>(xs: seq<T>, key: T -> Id, id: Id)
    requires UniqueIds(xs, key)
    ensures UniqueIds(RemoveById(xs, key, id), key)
  {
    if xs != [] {
      var tail := xs[1..];
      assert UniqueIds(tail, key) by {
        forall i, j | 0 <= i < j < |tail| ensures key(tail[i]) != key(tail[j]) {
          assert tail[i] == xs[i + 1] && tail[j] == xs[j + 1];
        }
      }
      RemoveKeepsUniqueIds(tail, key, id);
      var rest := RemoveById(tail, key, id);
      if key(xs[0]) != id {
        forall j | 0 <= j < |rest| ensures key(rest[j]) != key(xs[0]) {
          assert rest[j] in tail;
          var k :| 0 <= k < |tail| && tail[k] == rest[j];
          assert tail[k] == xs[k + 1];
        }
        var r := [xs[0]] + rest;
        forall i, j | 0 <= i < j < |r| ensures key(r[i]) != key(r[j]) {
          if i > 0 {
            assert r[i] == rest[i - 1] && r[j] == rest[j - 1];
          } else {
            assert r[j] == rest[j - 1];
          }
        }
      }
    }
  }

  /** Adding an element under a fresh id and then deleting that id gives back the list. */
  lemma {:induction false} RemoveAfterAppend<T>(xs: seq<T>, key: T -> Id, x: T)
    requires !HasId(xs, key, key(x))
    ensures RemoveById(xs + [x], key, key(x)) == xs
  {
    if xs == [] {
      assert [x][1..] == [];
    } else {
      assert (xs + [x])[1..] == xs[1..] + [x];
      assert !HasId(xs[1..], key, key(x)) by {
        forall i | 0 <= i < |xs| - 1 ensures key(xs[1..][i]) != key(x) {
          assert xs[1..][i] == xs[i + 1];
        }
      }
      RemoveAfterAppend(xs[1..], key, x);
    }
  }

  /** Adding under a fresh id keeps ids unique. */
  lemma AppendFreshKeepsUniqueIds<T>(xs: seq<T>, key: T -> Id, x: T)
    requires UniqueIds(xs, key) && !HasId(xs, key, key(x))
    ensures UniqueIds(xs + [x], key)
  {
    var r := xs + [x];
    forall i, j | 0 <= i < j < |r| ensures key(r[i]) != key(r[j]) {
      assert r[i] == xs[i];
    }
  }

  // ---------------------------------------------------------------------
  // The schedule
  // ---------------------------------------------------------------------

  /** `schedule[date] || {}`. */
  function DayOf(schedule: MonthlySchedule, date: DateStr): DaySchedule {
    if date in schedule then schedule[date] else map[]
  }

  /**
   * `assignShift`: the day entry is created when absent; "unassign" deletes
   * the shift's key, any other value is stored under it.
   */
  function AssignShiftOp(schedule: MonthlySchedule, date: DateStr, shiftId: Id, pharmacistId: Id): (r: MonthlySchedule)
    ensures date in r && r.Keys == schedule.Keys + {date}
    ensures pharmacistId == Unassign ==> shiftId !in r[date]
    ensures pharmacistId != Unassign ==> shiftId in r[date] && r[date][shiftId] == pharmacistId
    ensures forall s | s != shiftId :: (s in r[date] <==> s in DayOf(schedule, date))
    ensures forall s | s != shiftId && s in r[date] :: r[date][s] == DayOf(schedule, date)[s]
    ensures forall d | d != date && d in schedule :: r[d] == schedule[d]
  {
    var day := DayOf(schedule, date);
    schedule[date := if pharmacistId == Unassign then day - {shiftId} else day[shiftId := pharmacistId]]
  }

  /** Unassigning keeps the day entry, even when it is left empty. */
  lemma UnassignKeepsDay(schedule: MonthlySchedule, date: DateStr, shiftId: Id)
    requires date in schedule && schedule[date].Keys == {shiftId}
    ensures date in AssignShiftOp(schedule, date, shiftId, Unassign)
    ensures AssignShiftOp(schedule, date, shiftId, Unassign)[date] == map[]
  {
  }

  /** The last assignment to a slot wins: assigning and then unassigning equals unassigning. */
  lemma AssignThenUnassign(schedule: MonthlySchedule, date: DateStr, shiftId: Id, pharmacistId: Id)
    ensures AssignShiftOp(AssignShiftOp(schedule, date, shiftId, pharmacistId), date, shiftId, Unassign)
         == AssignShiftOp(schedule, date, shiftId, Unassign)
  {
    var a := AssignShiftOp(AssignShiftOp(schedule, date, shiftId, pharmacistId), date, shiftId, Unassign);
    var b := AssignShiftOp(schedule, date, shiftId, Unassign);
    assert a[date] == b[date];
  }

  /** A day's shifts without those held by pharmacist `p`. */
  function WithoutPharmacist(day: DaySchedule, p: Id): (r: DaySchedule)
    ensures r.Keys <= day.Keys
    ensures forall s | s in day :: s in r <==> day[s] != p
    ensures forall s | s in r :: r[s] == day[s]
  {
    map s | s in day && day[s] != p :: day[s]
  }

  /**
   * The schedule after `addLeave(p, date)` clears `p`'s shifts on `date`:
   * an entry that loses a shift and is left empty is deleted; an entry that
   * does not change is kept as it is.
   */
  function ClearForLeave(schedule: MonthlySchedule, p: Id, date: DateStr): (r: MonthlySchedule)
    ensures forall d | d != date :: (d in r <==> d in schedule) && (d in r ==> r[d] == schedule[d])
    ensures date in r ==> date in schedule && r[date] == WithoutPharmacist(schedule[date], p)
    ensures date in schedule && date !in r ==> p in schedule[date].Values && WithoutPharmacist(schedule[date], p) == map[]
    ensures date in schedule && p !in schedule[date].Values ==> r == schedule
  {
    if date !in schedule || p !in schedule[date].Values then schedule
    else
      var cleared := WithoutPharmacist(schedule[date], p);
      if |cleared| == 0 then schedule - {date} else schedule[date := cleared]
  }

  /** Unchanged entries are never deleted: a day without `p` survives, even when it is empty. */
  lemma ClearForLeaveKeepsUntouchedDay(schedule: MonthlySchedule, p: Id, date: DateStr)
    requires date in schedule && p !in schedule[date].Values
    ensures date in ClearForLeave(schedule, p, date)
  {
  }

  /** A day entry survives clearing exactly when it had no shift of `p` or keeps a shift of someone else. */
  lemma ClearForLeaveDeletesOnlyEmptied(schedule: MonthlySchedule, p: Id, date: DateStr)
    requires date in schedule
    ensures date !in ClearForLeave(schedule, p, date)
        <==> p in schedule[date].Values && forall s | s in schedule[date] :: schedule[date][s] == p
  {
    var day := schedule[date];
    if p in day.Values && forall s | s in day :: day[s] == p {
      assert WithoutPharmacist(day, p).Keys == {};
    }
    if date !in ClearForLeave(schedule, p, date) {
      forall s | s in day ensures day[s] == p {
        assert s !in WithoutPharmacist(day, p);
      }
    }
  }

  // ---------------------------------------------------------------------
  // Leave records
  // ---------------------------------------------------------------------

  /** `leave.some(l => l.pharmacistId === p && l.date === date)`. */
  predicate OnLeave(leave: seq<LeaveRecord>, p: Id, date: DateStr) {
    exists i | 0 <= i < |leave| :: leave[i].pharmacistId == p && leave[i].date == date
  }

  predicate Matches(l: LeaveRecord, p: Id, date: DateStr) {
    l.pharmacistId == p && l.date == date
  }

  /** `leave.filter(l => !(l.pharmacistId === p && l.date === date))`. */
  function WithoutLeave(leave: seq<LeaveRecord>, p: Id, date: DateStr): (r: seq<LeaveRecord>)
    ensures forall l :: l in r <==> l in leave && !Matches(l, p, date)
    ensures !OnLeave(r, p, date)
  {
    if leave == [] then []
    else if Matches(leave[0], p, date) then WithoutLeave(leave[1..], p, date)
    else [leave[0]] + WithoutLeave(leave[1..], p, date)
  }

  /** Removing the (p, date) records keeps the other records in their order: it distributes over concatenation. */
  lemma {:induction false} WithoutLeaveAppend(a: seq<LeaveRecord>, b: seq<LeaveRecord>, p: Id, date: DateStr)
    ensures WithoutLeave(a + b, p, date) == WithoutLeave(a, p, date) + WithoutLeave(b, p, date)
  {
    if a == [] {
      assert a + b == b;
    } else {
      assert (a + b)[1..] == a[1..] + b;
      WithoutLeaveAppend(a[1..], b, p, date);
    }
  }

  /** With no (p, date) record present, removing them changes nothing. */
  lemma {:induction false} WithoutLeaveAbsent(leave: seq<LeaveRecord>, p: Id, date: DateStr)
    requires !OnLeave(leave, p, date)
    ensures WithoutLeave(leave, p, date) == leave
  {
    if leave != [] {
      assert !OnLeave(leave[1..], p, date) by {
        forall i | 0 <= i < |leave| - 1 ensures !Matches(leave[1..][i], p, date) {
          assert leave[1..][i] == leave[i + 1];
        }
      }
      WithoutLeaveAbsent(leave[1..], p, date);
    }
  }

  /** At most one record per (pharmacist, date). */
  predicate NoDuplicateLeave(leave: seq<LeaveRecord>) {
    forall i, j | 0 <= i < j < |leave| ::
      !(leave[i].pharmacistId == leave[j].pharmacistId && leave[i].date == leave[j].date)
  }

  // ---------------------------------------------------------------------
  // The whole store, on values
  // ---------------------------------------------------------------------

  datatype Roster = Roster(
    pharmacists: seq<Pharmacist>,
    shifts: seq<Shift>,
    schedule: MonthlySchedule,
    leave: seq<LeaveRecord>)

  /** What every operation keeps, given fresh ids: unique ids and no duplicate leave. */
  predicate Consistent(r: Roster) {
    UniqueIds(r.pharmacists, PharmacistKey) && UniqueIds(r.shifts, ShiftKey) && NoDuplicateLeave(r.leave)
  }

  /** `addLeave(p, date)` with `newId` standing for the generated uuid. */
  function AddLeaveOp(r: Roster, p: Id, date: DateStr, newId: Id): Roster
  {
    if OnLeave(r.leave, p, date) then r
    else r.(leave := r.leave + [LeaveRecord(newId, p, date)], schedule := ClearForLeave(r.schedule, p, date))
  }

  /** `deleteLeave(p, date)`. */
  function DeleteLeaveOp(r: Roster, p: Id, date: DateStr): Roster
  {
    r.(leave := WithoutLeave(r.leave, p, date))
  }

  /** `addLeave` is idempotent: for a pair already on leave nothing changes, and a second call does nothing. */
  lemma AddLeaveIdempotent(r: Roster, p: Id, date: DateStr, id1: Id, id2: Id)
    ensures OnLeave(r.leave, p, date) ==> AddLeaveOp(r, p, date, id1) == r
    ensures AddLeaveOp(AddLeaveOp(r, p, date, id1), p, date, id2) == AddLeaveOp(r, p, date, id1)
  {
    var r1 := AddLeaveOp(r, p, date, id1);
    if !OnLeave(r.leave, p, date) {
      assert r1.leave[|r.leave|] == LeaveRecord(id1, p, date);
    }
  }

  /** On a fresh pair `addLeave` appends exactly one record, and the pharmacist is then on leave. */
  lemma AddLeaveFresh(r: Roster, p: Id, date: DateStr, newId: Id)
    requires !OnLeave(r.leave, p, date)
    ensures AddLeaveOp(r, p, date, newId).leave == r.leave + [LeaveRecord(newId, p, date)]
    ensures OnLeave(AddLeaveOp(r, p, date, newId).leave, p, date)
    ensures AddLeaveOp(r, p, date, newId).pharmacists == r.pharmacists
    ensures AddLeaveOp(r, p, date, newId).shifts == r.shifts
  {
    var l := AddLeaveOp(r, p, date, newId).leave;
    assert l[|r.leave|] == LeaveRecord(newId, p, date);
  }

  /**
   * After `addLeave(p, date)` pharmacist `p` holds no shift on `date`,
   * everybody else keeps theirs, and every other date is untouched.
   */
  lemma AddLeaveClearsShifts(r: Roster, p: Id, date: DateStr, newId: Id)
    requires !OnLeave(r.leave, p, date)
    ensures var s := AddLeaveOp(r, p, date, newId).schedule;
      && (date in s ==> forall k | k in s[date] :: s[date][k] != p)
      && (forall k | date in r.schedule && k in r.schedule[date] && r.schedule[date][k] != p ::
            date in s && k in s[date] && s[date][k] == r.schedule[date][k])
      && (forall d | d != date :: (d in s <==> d in r.schedule) && (d in s ==> s[d] == r.schedule[d]))
  {
  }

  /** `deleteLeave` removes every (p, date) record, keeps the rest, and touches nothing else. */
  lemma DeleteLeaveRemoves(r: Roster, p: Id, date: DateStr)
    ensures !OnLeave(DeleteLeaveOp(r, p, date).leave, p, date)
    ensures forall l | l in r.leave && !Matches(l, p, date) :: l in DeleteLeaveOp(r, p, date).leave
    ensures DeleteLeaveOp(r, p, date).schedule == r.schedule
    ensures DeleteLeaveOp(r, p, date).pharmacists == r.pharmacists
  {
  }

  /** Adding leave on a fresh pair and deleting it again restores the leave list exactly (not the cleared shifts). */
  lemma AddThenDeleteLeave(r: Roster, p: Id, date: DateStr, newId: Id)
    requires !OnLeave(r.leave, p, date)
    ensures DeleteLeaveOp(AddLeaveOp(r, p, date, newId), p, date).leave == r.leave
    ensures DeleteLeaveOp(AddLeaveOp(r, p, date, newId), p, date).schedule == ClearForLeave(r.schedule, p, date)
  {
    var rec := LeaveRecord(newId, p, date);
    WithoutLeaveAppend(r.leave, [rec], p, date);
    WithoutLeaveAbsent(r.leave, p, date);
    assert WithoutLeave([rec], p, date) == [];
  }

  /** Adding or deleting the leave of one (pharmacist, date) pair leaves whether any other pair is on leave as it was. */
  lemma LeaveOpsKeepOtherPairs(r: Roster, p: Id, date: DateStr, newId: Id, q: Id, d: DateStr)
    requires q != p || d != date
    ensures OnLeave(AddLeaveOp(r, p, date, newId).leave, q, d) <==> OnLeave(r.leave, q, d)
    ensures OnLeave(DeleteLeaveOp(r, p, date).leave, q, d) <==> OnLeave(r.leave, q, d)
  {
    var kept := WithoutLeave(r.leave, p, date);
    if !OnLeave(r.leave, p, date) {
      var added := r.leave + [LeaveRecord(newId, p, date)];
      assert AddLeaveOp(r, p, date, newId).leave == added;
      if OnLeave(added, q, d) {
        var j :| 0 <= j < |added| && added[j].pharmacistId == q && added[j].date == d;
        assert j < |r.leave| && added[j] == r.leave[j];
      }
      if OnLeave(r.leave, q, d) {
        var i :| 0 <= i < |r.leave| && r.leave[i].pharmacistId == q && r.leave[i].date == d;
        assert added[i] == r.leave[i];
      }
    }
    if OnLeave(r.leave, q, d) {
      var i :| 0 <= i < |r.leave| && r.leave[i].pharmacistId == q && r.leave[i].date == d;
      assert r.leave[i] in r.leave && !Matches(r.leave[i], p, date);
      assert r.leave[i] in kept;
      var j :| 0 <= j < |kept| && kept[j] == r.leave[i];
    }
    if OnLeave(kept, q, d) {
      var j :| 0 <= j < |kept| && kept[j].pharmacistId == q && kept[j].date == d;
      assert kept[j] in r.leave;
      var i :| 0 <= i < |r.leave| && r.leave[i] == kept[j];
    }
  }

  /** `addLeave` keeps at most one record per pair. */
  lemma AddLeaveKeepsNoDuplicates(r: Roster, p: Id, date: DateStr, newId: Id)
    requires NoDuplicateLeave(r.leave)
    ensures NoDuplicateLeave(AddLeaveOp(r, p, date, newId).leave)
  {
    if !OnLeave(r.leave, p, date) {
      var l := r.leave + [LeaveRecord(newId, p, date)];
      forall i, j | 0 <= i < j < |l|
        ensures !(l[i].pharmacistId == l[j].pharmacistId && l[i].date == l[j].date)
      {
        assert l[i] == r.leave[i];
        if j == |r.leave| {
          assert !Matches(r.leave[i], p, date);
        }
      }
    }
  }

  /** A sub-sequence of a list without duplicates has none. */
  lemma {:induction false} WithoutLeaveKeepsNoDuplicates(leave: seq<LeaveRecord>, p: Id, date: DateStr)
    requires NoDuplicateLeave(leave)
    ensures NoDuplicateLeave(WithoutLeave(leave, p, date))
  {
    if leave != [] {
      var tail := leave[1..];
      assert NoDuplicateLeave(tail) by {
        forall i, j | 0 <= i < j < |tail|
          ensures !(tail[i].pharmacistId == tail[j].pharmacistId && tail[i].date == tail[j].date)
        {
          assert tail[i] == leave[i + 1] && tail[j] == leave[j + 1];
        }
      }
      WithoutLeaveKeepsNoDuplicates(tail, p, date);
      var rest := WithoutLeave(tail, p, date);
      if !Matches(leave[0], p, date) {
        var x := leave[0];
        forall j | 0 <= j < |rest| ensures !(x.pharmacistId == rest[j].pharmacistId && x.date == rest[j].date) {
          assert rest[j] in rest;
          var k :| 0 <= k < |tail| && tail[k] == rest[j];
          assert tail[k] == leave[k + 1];
        }
        var w := [x] + rest;
        forall i, j | 0 <= i < j < |w|
          ensures !(w[i].pharmacistId == w[j].pharmacistId && w[i].date == w[j].date)
        {
          assert w[j] == rest[j - 1];
          if i > 0 { assert w[i] == rest[i - 1]; }
        }
      }
    }
  }

  // ---------------------------------------------------------------------
  // The store object
  // ---------------------------------------------------------------------

  /**
   * The provider's state. Each method is one of the context's operations;
   * `newId` stands for the uuid the source generates.
   */
  class RosterStore {
    var pharmacists: seq<Pharmacist>
    var shifts: seq<Shift>
    var schedule: MonthlySchedule
    var leave: seq<LeaveRecord>

    function State(): Roster
      reads this
    {
      Roster(pharmacists, shifts, schedule, leave)
    }

    /** The state before anything is loaded: every collection empty. */
    constructor ()
      ensures State() == Roster([], [], map[], [])
    {
      pharmacists, shifts, schedule, leave := [], [], map[], [];
    }

    method AddPharmacist(name: string, position: Position, newId: Id)
      modifies this
      ensures State() == old(State()).(pharmacists := old(pharmacists) + [Pharmacist(newId, name, position)])
      ensures Consistent(old(State())) && !HasId(old(pharmacists), PharmacistKey, newId) ==> Consistent(State())
    {
      if Consistent(State()) && !HasId(pharmacists, PharmacistKey, newId) {
        AppendFreshKeepsUniqueIds(pharmacists, PharmacistKey, Pharmacist(newId, name, position));
      }
      pharmacists := pharmacists + [Pharmacist(newId, name, position)];
    }

    method UpdatePharmacist(p: Pharmacist)
      modifies this
      ensures State() == old(State()).(pharmacists := ReplaceById(old(pharmacists), PharmacistKey, p))
      ensures Consistent(old(State())) ==> Consistent(State())
    {
      if Consistent(State()) {
        ReplaceKeepsUniqueIds(pharmacists, PharmacistKey, p);
      }
      pharmacists := ReplaceById(pharmacists, PharmacistKey, p);
    }

    /** Removes the pharmacist only: the schedule and the leave records keep any reference to the id. */
    method DeletePharmacist(id: Id)
      modifies this
      ensures State() == old(State()).(pharmacists := RemoveById(old(pharmacists), PharmacistKey, id))
      ensures Consistent(old(State())) ==> Consistent(State())
    {
      if Consistent(State()) {
        RemoveKeepsUniqueIds(pharmacists, PharmacistKey, id);
      }
      pharmacists := RemoveById(pharmacists, PharmacistKey, id);
    }

    method AddShift(name: string, startTime: string, endTime: string, newId: Id)
      modifies this
      ensures State() == old(State()).(shifts := old(shifts) + [Shift(newId, name, startTime, endTime)])
      ensures Consistent(old(State())) && !HasId(old(shifts), ShiftKey, newId) ==> Consistent(State())
    {
      if Consistent(State()) && !HasId(shifts, ShiftKey, newId) {
        AppendFreshKeepsUniqueIds(shifts, ShiftKey, Shift(newId, name, startTime, endTime));
      }
      shifts := shifts + [Shift(newId, name, startTime, endTime)];
    }

    method UpdateShift(s: Shift)
      modifies this
      ensures State() == old(State()).(shifts := ReplaceById(old(shifts), ShiftKey, s))
      ensures Consistent(old(State())) ==> Consistent(State())
    {
      if Consistent(State()) {
        ReplaceKeepsUniqueIds(shifts, ShiftKey, s);
      }
      shifts := ReplaceById(shifts, ShiftKey, s);
    }

    /** Removes the template only: assignments under its id stay in the schedule. */
    method DeleteShift(id: Id)
      modifies this
      ensures State() == old(State()).(shifts := RemoveById(old(shifts), ShiftKey, id))
      ensures Consistent(old(State())) ==> Consistent(State())
    {
      if Consistent(State()) {
        RemoveKeepsUniqueIds(shifts, ShiftKey, id);
      }
      shifts := RemoveById(shifts, ShiftKey, id);
    }

    /** Copies the schedule, creates the day entry if needed, then deletes or writes the shift's key. */
    method AssignShift(date: DateStr, shiftId: Id, pharmacistId: Id)
      modifies this
      ensures State() == old(State()).(schedule := AssignShiftOp(old(schedule), date, shiftId, pharmacistId))
    {
      var newSchedule := schedule;
      if date !in newSchedule {
        newSchedule := newSchedule[date := map[]];
      }
      if pharmacistId == Unassign {
        newSchedule := newSchedule[date := newSchedule[date] - {shiftId}];
      } else {
        newSchedule := newSchedule[date := newSchedule[date][shiftId := pharmacistId]];
      }
      schedule := newSchedule;
    }

    /** Returns early when the pair is already on leave; otherwise appends a record and clears the day. */
    method AddLeave(p: Id, date: DateStr, newId: Id)
      modifies this
      ensures State() == AddLeaveOp(old(State()), p, date, newId)
      ensures Consistent(old(State())) ==> Consistent(State())
    {
      if Consistent(State()) {
        AddLeaveKeepsNoDuplicates(State(), p, date, newId);
      }
      if OnLeave(leave, p, date) {
        return;
      }
      leave := leave + [LeaveRecord(newId, p, date)];
      var newSchedule := schedule;
      if date in newSchedule {
        var daily, changed := ClearShiftsOf(newSchedule[date], p);
        if changed {
          if |daily| == 0 {
            newSchedule := newSchedule - {date};
          } else {
            newSchedule := newSchedule[date := daily];
          }
        }
      }
      schedule := newSchedule;
    }

    method DeleteLeave(p: Id, date: DateStr)
      modifies this
      ensures State() == DeleteLeaveOp(old(State()), p, date)
      ensures Consistent(old(State())) ==> Consistent(State())
    {
      if Consistent(State()) {
        WithoutLeaveKeepsNoDuplicates(leave, p, date);
      }
      leave := WithoutLeave(leave, p, date);
    }

    predicate IsPharmacistOnLeave(p: Id, date: DateStr)
      reads this
    {
      OnLeave(leave, p, date)
    }
  }

  /**
   * The `forEach` in `addLeave`: deletes, one key at a time, every shift of
   * the day held by `p`, and reports whether it deleted any.
   */
  method ClearShiftsOf(day: DaySchedule, p: Id) returns (cleared: DaySchedule, changed: bool)
    ensures cleared == WithoutPharmacist(day, p)
    ensures changed <==> p in day.Values
  {
    cleared := day;
    changed := false;
    var keys := day.Keys;
    while keys != {}
      invariant keys <= day.Keys
      invariant cleared.Keys <= day.Keys
      invariant forall s | s in day :: s in cleared <==> s in keys || day[s] != p
      invariant forall s | s in cleared :: cleared[s] == day[s]
      invariant changed <==> exists s | s in day.Keys - keys :: day[s] == p
      decreases keys
    {
      var s :| s in keys;
      if cleared[s] == p {
        cleared := cleared - {s};
        changed := true;
      }
      keys := keys - {s};
    }
    assert forall s | s in day :: s in cleared <==> day[s] != p;
  }
}
