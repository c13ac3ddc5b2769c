/**
 * The roster's entities (src/lib/types.ts), with the schedule in the flat
 * shape the operating code uses: a date string maps to a dictionary from
 * shift-template id to pharmacist id.
 */
module Types {

  datatype Option<+T> = None | Some(value: T)

  /** Ids are the uuid strings the store generates. */
  type Id = string

  /** A calendar day written as "YYYY-MM-DD". */
  type DateStr = string

  /** 正職 (full time), 兼職 (part time), OPD支援 (outpatient support). */
  datatype Position = FullTime | PartTime | OpdSupport

  datatype Pharmacist = Pharmacist(id: Id, name: string, position: Position)

  /** A shift template; start and end are wall-clock "HH:MM" strings. */
  datatype Shift = Shift(id: Id, name: string, startTime: string, endTime: string)

  /** One day of the roster: shift-template id to pharmacist id. */
  type DaySchedule = map<Id, Id>

  /** The whole roster, sparse: a missing date means nothing is scheduled. */
  type MonthlySchedule = map<DateStr, DaySchedule>

  datatype LeaveRecord = LeaveRecord(id: Id, pharmacistId: Id, date: DateStr)

  datatype TimeSlot = Morning | Afternoon

  /** How many support pharmacists a weekday (1..5, Monday to Friday) needs in a time slot. */
  datatype SupportNeed = SupportNeed(dayOfWeek: int, timeSlot: TimeSlot, count: int)

  datatype IssueType = Understaffed | Conflict | NoAssignment

  datatype Severity = High | Medium | Low

  datatype ScheduleIssue = ScheduleIssue(date: DateStr, kind: IssueType, description: string, severity: Severity)

  /** The select value that clears an assignment instead of naming a pharmacist. */
  const Unassign: Id := "unassign"

  function PositionLabel(p: Position): (r: string)
    ensures PositionOfLabel(r) == Some(p)
  {
    match p
    case FullTime => "正職"
    case PartTime => "兼職"
    case OpdSupport => "OPD支援"
  }

  /** The position a stored label denotes, if it is one of the three. */
  function PositionOfLabel(s: string): Option<Position>
  {
    if s == "正職" then Some(FullTime)
    else if s == "兼職" then Some(PartTime)
    else if s == "OPD支援" then Some(OpdSupport)
    else None
  }
}
