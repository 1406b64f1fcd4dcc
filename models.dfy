/** The records the scheduler works on (scheduler/models.py). */
module Models {

  /** A time of day written "HH:MM", as the number of minutes since midnight.
      The parse of the text is not modelled: a value of this type is what it yields. */
  type Time = m: nat | m < 1440

  /** A visit (shift) that needs one caregiver. */
  datatype Visit = Visit(
    id: string,
    day: string,
    start: Time,
    end: Time,
    customer: string,
    requiredSkill: string,
    neighborhood: string)

  /** One availability window of a caregiver on a weekday. */
  datatype Availability = Availability(day: string, start: Time, end: Time)

  /** A caregiver; the availability windows are kept in the order they were given. */
  datatype Caregiver = Caregiver(
    id: string,
    name: string,
    maxHours: int,
    availability: seq<Availability>,
    skills: seq<string>)

  /** The assignment of a caregiver to a visit, by identifiers. */
  datatype Assignment = Assignment(visitId: string, caregiverId: string)

  function VisitId(v: Visit): string { v.id }

  function CaregiverId(c: Caregiver): string { c.id }
}
