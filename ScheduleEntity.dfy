/** A timetable row as the schedule store keeps it (`schedule.Schedule`). */
module ScheduleEntity {

  /**
   * One class occurrence of a group. Ids are `uint64` in the store and are modelled
   * as unbounded naturals; `CreatedAt` comes from the clock and is not modelled.
   */
  datatype Entry = Entry(
    groupId: nat,
    buildingsId: nat,
    typeOfSubjectId: nat,
    subjectName: string,
    teacher: string,
    room: string,
    isEven: bool,
    dayOfWeek: int,
    startTime: string,
    endTime: string)
}
