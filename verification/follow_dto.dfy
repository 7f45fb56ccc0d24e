/** FollowDto.Validate: the checks on a follow request beyond the
    framework's attributes. */
module FollowDtoValidation {
  import opened Common

  const SelfFollowMessage: string := "Un Usuario no puede seguirse a sí mismo."

  const MissingFollowerId: ValidationResult := ValidationResult(RequiredMessage, ["UserFollowerId"])
  const SelfFollow: ValidationResult := ValidationResult(SelfFollowMessage, ["UserFollowerId"])

  /** The results the three independent checks yield, in their order. */
  function Validate(userId: Guid, userFollowerId: Guid): (r: seq<ValidationResult>)
    ensures MissingUserId in r <==> userId == EmptyGuid
    ensures MissingFollowerId in r <==> userFollowerId == EmptyGuid
    ensures SelfFollow in r <==> userId == userFollowerId
    ensures userId == EmptyGuid ==> r[0] == MissingUserId
    ensures SelfFollow in r ==> r[|r| - 1] == SelfFollow
    ensures r == [] <==> userId != EmptyGuid && userFollowerId != EmptyGuid && userId != userFollowerId
    ensures userId == EmptyGuid && userFollowerId == EmptyGuid ==> r == [MissingUserId, MissingFollowerId, SelfFollow]
    ensures forall x :: x in r ==> x == MissingUserId || x == MissingFollowerId || x == SelfFollow
    ensures forall i, j :: 0 <= i < j < |r| ==> r[i] != r[j]
    ensures |r| <= 3
  {
    (if userId == EmptyGuid then [MissingUserId] else [])
    + (if userFollowerId == EmptyGuid then [MissingFollowerId] else [])
    + (if userId == userFollowerId then [SelfFollow] else [])
  }
}
