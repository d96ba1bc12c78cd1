/** The access module's error values. */
module AccessErrors {

  datatype AccessError =
    | InvalidPermissionCode
    | InvalidPermissionType
    | InvalidPermissionStatus
    | EmptyPermissionName
    | ButtonRequiresCode
    | InvalidPolicyActor
    | EmptyRole
    | SelfInheritance
    | RoleInheritanceCycle
    | UnknownPermissionCode
    | ConcurrentModification
    | PermissionNotFound
    | PermissionCycle
    | PermissionHasChildren
    | PermissionCodeDuplicated
    | StorageFailure
}
