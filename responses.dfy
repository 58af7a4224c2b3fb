/**
 * The payload records the client reads (src/response_types.rs and the
 * fields display.rs uses). Only the fields the core reads are kept. Floating
 * point numbers are carried as opaque bit patterns; times and dates arrive as
 * comparable keys (the instant, or the day number), since chrono's parsing
 * is not modelled.
 */
module Responses {
  import opened Wrappers

  /** An `f32` the client never computes with: only its bits are kept. */
  datatype Float32 = Float32(bits: bv32)

  datatype Grade = Grade(
    subjectDesc: string,
    evtDate: string,
    decimalValue: Float32,
    componentDesc: string,
    weightFactor: Float32)

  datatype Grades = Grades(grades: seq<Grade>)

  datatype Absence = Absence(
    evtCode: string,
    evtDate: string,
    isJustified: bool,
    justifReasonCode: Option<string>,
    justifReasonDesc: Option<string>)

  datatype Absences = Absences(events: seq<Absence>)

  /** `evtDatetimeBegin` as the instant it denotes. */
  datatype Agenda = Agenda(evtCode: string, evtDatetimeBegin: int, notes: string, authorName: string)

  datatype Agendas = Agendas(agenda: seq<Agenda>)

  /** `evtDate` as the day number it denotes. */
  datatype Lesson = Lesson(evtDate: int, lessonArg: string, authorName: string, evtCode: string)

  datatype Lessons = Lessons(lessons: seq<Lesson>)
}
