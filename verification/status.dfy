/** The account statuses both variants store in `users.status`. */
module Status {
  const ACTIVE: string := "active"
  const INACTIVE: string := "inactive"
  const BLOCKED: string := "blocked"
}
