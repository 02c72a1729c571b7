/** What a route handler sends: a status with a body, or a status with an error message. */
module Http {
  import opened Wrappers

  datatype Response<+T> = Success(status: int, body: T) | Failure(status: int, message: string)

  const NotAuthenticated := "Not authenticated"
  const StatementIdsRequired := "Statement IDs are required"

  /**
   * `ids && Array.isArray(ids) && ids.length > 0`; a missing field and a value
   * that is not an array are both `None`.
   */
  predicate NonEmptyList<T>(ids: Option<seq<T>>)
  {
    ids.Some? && |ids.value| > 0
  }
}
