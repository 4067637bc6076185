/**
 * The domain errors the group engine reports. The first nine are declared in the
 * domain's error list; `WrongGroupCode`, `ThisGroupDoesNotBelongToYou` and
 * `YouArentMember` are used by the group service but missing from that list and are
 * added here. `Internal` stands for a store error wrapped with context, and
 * `MemberInsertFailed` for the membership store refusing a second row for one user.
 */
module DomainErrors {

  datatype Error =
    | GroupNotFound
    | GroupAlreadyExists
    | ProgramNotFound
    | FacultyNotFound
    | TypeOfSubjectNotFound
    | FacultyProgramIdMismatch
    | AlreadyInGroup
    | GroupAlreadyHasSchedule
    | MemberNotFound
    | WrongGroupCode
    | ThisGroupDoesNotBelongToYou
    | YouArentMember
    | MemberInsertFailed
    | Internal(message: string)
}
