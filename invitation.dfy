// Invitation (Desktop/Tempest.Social/Invitation.cs): an answer to an invitation
// into a group. Its three properties have private setters, so after the
// constructor's checks an invitation is a value.

module Invitations {
  import opened Common
  import opened People
  import opened Groups

  /** InvitationResponse, an enum derived from byte. */
  const ResponseError: Byte := 0
  const ResponseAccepted: Byte := 1
  const ResponseRejected: Byte := 2
  const ResponseOffline: Byte := 3

  /** Enum.IsDefined (typeof (InvitationResponse), response). */
  predicate IsDefinedResponse(response: Byte) {
    response in {ResponseError, ResponseAccepted, ResponseRejected, ResponseOffline}
  }

  datatype Invitation = Invitation(group: Group, person: Person, response: Byte)

  /** `new Invitation (group, person, response)`. */
  function NewInvitation(group: Group?, person: Option<Person>, response: Byte): (r: Result<Invitation>)
    ensures group == null ==> r == Err(ArgumentNull("group"))
    ensures group != null && person.None? ==> r == Err(ArgumentNull("person"))
    ensures group != null && person.Some? && !IsDefinedResponse(response) ==> r == Err(ArgumentInvalid("response"))
    ensures r.Ok? <==> group != null && person.Some? && response <= 3
    ensures r.Ok? ==> r.value == Invitation(group, person.value, response)
  {
    if group == null then Err(ArgumentNull("group"))
    else if person.None? then Err(ArgumentNull("person"))
    else if !IsDefinedResponse(response) then Err(ArgumentInvalid("response"))
    else Ok(Invitation(group, person.value, response))
  }
}
