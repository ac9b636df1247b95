/** The invitations collection (src/database/InvitationDatabase.ts). */
module InvitationDatabase {
  import opened Common
  import opened Store
  import opened UserDatabase

  datatype Status = Pending | Accepted | Rejected | Cancelled

  /** The fields of an invitation record besides its id and timestamps. */
  datatype InvitationBody = InvitationBody(
    email: string, role: Role, token: string, ownerId: string, status: Status, expiresAt: int)

  type Invitation = Doc<InvitationBody>

  function HasInvitationToken(token: string): Raw<InvitationBody> -> bool
  {
    (r: Raw<InvitationBody>) => r.body.token == token
  }

  function OwnedBy(ownerId: string): Raw<InvitationBody> -> bool
  {
    (r: Raw<InvitationBody>) => r.body.ownerId == ownerId
  }

  /** `getInvitationByToken`: the first invitation carrying the token, or nothing. */
  function InvitationByToken(invitations: seq<Invitation>, token: string): (r: Option<Invitation>)
    ensures r.Some? ==> r.value in invitations && r.value.raw.body.token == token
    ensures r.Some? ==> r.value == invitations[FirstIndex(invitations, HasInvitationToken(token))]
    ensures r.None? <==> forall i | i in invitations :: i.raw.body.token != token
  {
    First(invitations, HasInvitationToken(token))
  }

  /** `getInvitationById`: the first invitation with that id, or nothing. */
  function InvitationById(invitations: seq<Invitation>, id: string): (r: Option<Invitation>)
    ensures r.Some? ==> r.value in invitations && r.value.raw.id == id
    ensures r.Some? ==> r.value == invitations[FirstIndex(invitations, HasId(id))]
    ensures r.None? <==> forall i | i in invitations :: i.raw.id != id
  {
    First(invitations, HasId(id))
  }
}
