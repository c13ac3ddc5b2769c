/**
 * The support-staff page (src/pages/Support.tsx): a table of number inputs,
 * one per weekday (Monday to Friday) and time slot, each showing the stored
 * need and sending a parsed, clamped count to the store when edited. The
 * store's list of needs and its update function are inputs here.
 */
module SupportPage {
  import opened Types
  import opened Numerals

  /** The column headings 週一 … 週五. */
  const Weekdays: seq<string> := ["一", "二", "三", "四", "五"]

  /**
   * `handleCountChange`: the update it asks the store for, if any. The input
   * is read with `parseInt(value, 10)`; NaN asks for nothing, a negative
   * count is replaced by 0.
   */
  function CountChange(dayOfWeek: int, timeSlot: TimeSlot, value: string): (r: Option<SupportNeed>)
    ensures r.None? <==> ParseInt(value).None?
    ensures r.Some? ==> r.value.dayOfWeek == dayOfWeek && r.value.timeSlot == timeSlot && r.value.count >= 0
    ensures r.Some? ==> r.value.count == if ParseInt(value).value >= 0 then ParseInt(value).value else 0
  {
    match ParseInt(value)
    case None => None
    case Some(count) => Some(SupportNeed(dayOfWeek, timeSlot, if count >= 0 then count else 0))
  }

  /** Typing a number (possibly followed by other characters) sends that number. */
  lemma CountOfDecimal(dayOfWeek: int, timeSlot: TimeSlot, n: nat, rest: string)
    requires rest == [] || !IsDigit(rest[0])
    ensures CountChange(dayOfWeek, timeSlot, Decimal(n) + rest) == Some(SupportNeed(dayOfWeek, timeSlot, n))
  {
    ParseIntDecimal(n, rest);
  }

  /** Typing a negative number sends 0. */
  lemma CountOfNegative(dayOfWeek: int, timeSlot: TimeSlot, n: nat, rest: string)
    requires rest == [] || !IsDigit(rest[0])
    ensures CountChange(dayOfWeek, timeSlot, ['-'] + (Decimal(n) + rest)) == Some(SupportNeed(dayOfWeek, timeSlot, 0))
  {
    ParseIntNegativeDecimal(n, rest);
  }

  /** Clearing the input, or typing only a sign or letters, sends nothing. */
  lemma CountOfNoDigits(dayOfWeek: int, timeSlot: TimeSlot, value: string)
    requires forall i | 0 <= i < |value| :: !IsDigit(value[i])
    ensures CountChange(dayOfWeek, timeSlot, value) == None
  {
    var t := TrimStart(value);
    var u := SignStripped(t);
    assert u == value[|value| - |u|..];
    assert u == [] || !IsDigit(u[0]) by {
      if u != [] {
        assert u[0] == value[|value| - |u|];
      }
    }
  }

  predicate IsNeedFor(n: SupportNeed, dayOfWeek: int, timeSlot: TimeSlot) {
    n.dayOfWeek == dayOfWeek && n.timeSlot == timeSlot
  }

  /** `supportNeeds.find(...)`: the position of the first need for the cell, if any. */
  function FindNeed(needs: seq<SupportNeed>, dayOfWeek: int, timeSlot: TimeSlot): (r: Option<nat>)
    ensures r.None? ==> forall i | 0 <= i < |needs| :: !IsNeedFor(needs[i], dayOfWeek, timeSlot)
    ensures r.Some? ==> r.value < |needs| && IsNeedFor(needs[r.value], dayOfWeek, timeSlot)
    ensures r.Some? ==> forall i | 0 <= i < r.value :: !IsNeedFor(needs[i], dayOfWeek, timeSlot)
  {
    if needs == [] then None
    else if IsNeedFor(needs[0], dayOfWeek, timeSlot) then Some(0)
    else
      match FindNeed(needs[1..], dayOfWeek, timeSlot)
      case None => None
      case Some(k) => Some(k + 1)
  }

  /** `getNeed`: the count of the first need for the cell, or 0 when there is none. */
  function GetNeed(needs: seq<SupportNeed>, dayOfWeek: int, timeSlot: TimeSlot): (c: int)
    ensures (forall i | 0 <= i < |needs| :: !IsNeedFor(needs[i], dayOfWeek, timeSlot)) ==> c == 0
    ensures c != 0 ==> exists i | 0 <= i < |needs| :: IsNeedFor(needs[i], dayOfWeek, timeSlot) && needs[i].count == c
  {
    match FindNeed(needs, dayOfWeek, timeSlot)
    case None => 0
    case Some(i) => needs[i].count
  }

  /** At most one need per cell. */
  predicate OneNeedPerCell(needs: seq<SupportNeed>) {
    forall i, j | 0 <= i < j < |needs| :: !(needs[i].dayOfWeek == needs[j].dayOfWeek && needs[i].timeSlot == needs[j].timeSlot)
  }

  /** With one need per cell, the input shows that need's count; with none, it shows 0. */
  lemma GetNeedShows(needs: seq<SupportNeed>, dayOfWeek: int, timeSlot: TimeSlot)
    requires OneNeedPerCell(needs)
    ensures forall i | 0 <= i < |needs| && IsNeedFor(needs[i], dayOfWeek, timeSlot) :: GetNeed(needs, dayOfWeek, timeSlot) == needs[i].count
    ensures (forall i | 0 <= i < |needs| :: !IsNeedFor(needs[i], dayOfWeek, timeSlot)) ==> GetNeed(needs, dayOfWeek, timeSlot) == 0
  {
    match FindNeed(needs, dayOfWeek, timeSlot)
    case None =>
    case Some(k) =>
      forall i | 0 <= i < |needs| && IsNeedFor(needs[i], dayOfWeek, timeSlot)
        ensures GetNeed(needs, dayOfWeek, timeSlot) == needs[i].count
      {
        assert IsNeedFor(needs[k], dayOfWeek, timeSlot);
        assert i == k;
      }
  }

  /** Re-entering the shown count, when the stored count is not negative, asks the store to keep it. */
  lemma ShownCountRoundTrip(needs: seq<SupportNeed>, dayOfWeek: int, timeSlot: TimeSlot)
    requires GetNeed(needs, dayOfWeek, timeSlot) >= 0
    ensures CountChange(dayOfWeek, timeSlot, Decimal(GetNeed(needs, dayOfWeek, timeSlot))) == Some(SupportNeed(dayOfWeek, timeSlot, GetNeed(needs, dayOfWeek, timeSlot)))
  {
    var n: nat := GetNeed(needs, dayOfWeek, timeSlot);
    CountOfDecimal(dayOfWeek, timeSlot, n, []);
    assert Decimal(n) + [] == Decimal(n);
  }

  /** The table's inputs: the morning row, then the afternoon row, each for `dayOfWeek` 1 to 5. */
  function EditableCells(): (cells: seq<(int, TimeSlot)>)
    ensures |cells| == 2 * |Weekdays|
  {
    seq(|Weekdays|, index requires 0 <= index < |Weekdays| => (index + 1, Morning))
    + seq(|Weekdays|, index requires 0 <= index < |Weekdays| => (index + 1, Afternoon))
  }

  /** The inputs are exactly Monday to Friday in both slots, each once. */
  lemma EditableCellsExactly()
    ensures forall day: int, slot: TimeSlot :: (day, slot) in EditableCells() <==> 1 <= day <= 5
    ensures forall i, j | 0 <= i < j < |EditableCells()| :: EditableCells()[i] != EditableCells()[j]
  {
    var cells := EditableCells();
    forall day: int, slot: TimeSlot | 1 <= day <= 5 ensures (day, slot) in cells {
      if slot == Morning {
        assert cells[day - 1] == (day, slot);
      } else {
        assert cells[5 + day - 1] == (day, slot);
      }
    }
  }
}
