/** Values shared by every part of the model: optional results, identifiers,
    the tweet snapshot that cached pages hold, and the clock constants. */
module Common {

  datatype Option<+T> = None | Some(value: T)

  /** 16 to the power w: the number of values that w hexadecimal digits can spell. */
  function Pow16(w: nat): (r: nat)
    ensures r >= 1
  {
    if w == 0 then 1 else 16 * Pow16(w - 1)
  }

  /** A GUID is a 128-bit value, that is, 32 hexadecimal digits. */
  newtype Guid = x: int | 0 <= x < Pow16(32)

  /** Guid.Empty, the all-zero identifier. */
  const EmptyGuid: Guid := 0

  /** The denormalised tweet snapshot stored in cached timeline pages
      (TweetViewDto). `createdAt` is a point in time counted in ticks. */
  datatype TweetView = TweetView(
    id: Guid,
    userId: Guid,
    content: string,
    createdAt: int,
    userName: Option<string>)

  /** One finding of a DTO's Validate: a message and the members it concerns. */
  datatype ValidationResult = ValidationResult(errorMessage: string, memberNames: seq<string>)

  const RequiredMessage: string := "Campo obligatorio."

  /** The result both validators give for an empty UserId. */
  const MissingUserId: ValidationResult := ValidationResult(RequiredMessage, ["UserId"])

  /** Times are counted in ticks of 100 nanoseconds, as DateTimeOffset does. */
  const TicksPerMinute: int := 600_000_000

  /** Every cache entry lives five minutes from the moment it is written. */
  const Ttl: int := 5 * TicksPerMinute

  /** A page is sorted newest first when createdAt never increases along it. */
  predicate SortedDesc(page: seq<TweetView>)
  {
    forall i, j :: 0 <= i < j < |page| ==> page[i].createdAt >= page[j].createdAt
  }
}
