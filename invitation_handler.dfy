/** The invitation requests (src/handlers/InvitationHandler.ts): listing the
    caller's invitations, creating one, showing one, and cancelling one. The
    email delivery is the boolean `sent` (whether the mail service accepted
    the message); the URL pattern from the environment is the parameter
    `pattern`. */
module InvitationHandler {
  import opened Common
  import opened Store
  import opened UserDatabase
  import opened SessionDatabase
  import opened InvitationDatabase
  import opened Invitations
  import opened SessionHandler

  /** One entry of `getMyInvitations`. */
  datatype Summary = Summary(id: string, expires: int, email: string, role: Role)

  function SummaryOf(invitation: Invitation): Summary
  {
    Summary(invitation.raw.id, invitation.raw.body.expiresAt, invitation.raw.body.email, invitation.raw.body.role)
  }

  function Summaries(invitations: seq<Invitation>): (r: seq<Summary>)
    ensures |r| == |invitations|
    ensures forall k | 0 <= k < |r| :: r[k] == SummaryOf(invitations[k])
  {
    if invitations == [] then [] else [SummaryOf(invitations[0])] + Summaries(invitations[1..])
  }

  /** The summaries of the invitations an owner owns are exactly the
      summaries of the stored invitations with that owner. */
  lemma OwnedSummaries(invitations: seq<Invitation>, owner: string)
    ensures var r := Summaries(Select(invitations, OwnedBy(owner)));
            (forall i | i in invitations && i.raw.body.ownerId == owner :: SummaryOf(i) in r) &&
            (forall k | 0 <= k < |r| :: exists i | i in invitations :: i.raw.body.ownerId == owner && r[k] == SummaryOf(i))
  {
    var owned := Select(invitations, OwnedBy(owner));
    var r := Summaries(owned);
    forall i | i in invitations && i.raw.body.ownerId == owner
      ensures SummaryOf(i) in r
    {
      assert OwnedBy(owner)(i.raw);
      var k :| 0 <= k < |owned| && owned[k] == i;
      assert r[k] == SummaryOf(i);
    }
    forall k | 0 <= k < |r|
      ensures exists i | i in invitations :: i.raw.body.ownerId == owner && r[k] == SummaryOf(i)
    {
      assert owned[k] in owned;
    }
  }

  /** The summaries `getMyInvitations` lists for an owner: one per stored
      invitation with that owner, in store order, and no other. */
  function OwnerSummaries(invitations: seq<Invitation>, owner: string): (r: seq<Summary>)
    ensures forall i | i in invitations && i.raw.body.ownerId == owner :: SummaryOf(i) in r
    ensures forall k | 0 <= k < |r| :: exists i | i in invitations :: i.raw.body.ownerId == owner && r[k] == SummaryOf(i)
    ensures var owned := Select(invitations, OwnedBy(owner));
            |r| == |owned| && forall k | 0 <= k < |owned| :: r[k] == SummaryOf(owned[k])
  {
    OwnedSummaries(invitations, owner);
    Summaries(Select(invitations, OwnedBy(owner)))
  }

  /** `getMyInvitations`: an unauthenticated request is refused; otherwise
      the summaries of the caller's invitations, which `OwnerSummaries`
      states are every invitation the caller owns, in store order, and
      nothing else. */
  function MyInvitations(users: seq<User>, sessions: seq<Session>, invitations: seq<Invitation>,
                         query: Param, header: Param, now: int): (r: Result<seq<Summary>, string>)
    ensures r.Err? <==> GetAuth(users, sessions, query, header, now).None?
    ensures r.Err? ==> r.error == "Unauthorized"
    ensures r.Ok? ==> r.value == OwnerSummaries(invitations, GetAuth(users, sessions, query, header, now).value.user.raw.id)
  {
    match GetAuth(users, sessions, query, header, now)
    case None => Err("Unauthorized")
    case Some(auth) => Ok(OwnerSummaries(invitations, auth.user.raw.id))
  }

  /** What `createInvitation` replies, and what an authenticated caller of
      `getInvitation` sees besides `can_use`. */
  datatype Details = Details(id: string, expires: int, url: string, token: string, email: string, role: Role)

  function DetailsOf(invitation: Invitation, pattern: string): Details
  {
    Details(invitation.raw.id, invitation.raw.body.expiresAt, BestInvitationUrl(pattern, invitation),
            invitation.raw.body.token, invitation.raw.body.email, invitation.raw.body.role)
  }

  /** The record `createInvitation` writes: pending, owned by the caller,
      expiring two days from now. */
  function NewInvitation(email: string, role: Role, token: string, ownerId: string, now: int): InvitationBody
  {
    InvitationBody(email, role, token, ownerId, Pending, now + InvitationLifetime)
  }

  /** The caller may create invitations: authenticated as an admin. */
  predicate MayInvite(auth: Option<Auth>)
  {
    auth.Some? && auth.value.user.raw.body.role == Admin
  }

  /** `createInvitation`: only an admin may invite; email and role must be
      strings and the role one of the three. The invitation is upserted, then
      the mail is sent; when sending fails the record is deleted again. */
  method CreateInvitation(users: Collection<UserBody>, sessions: Collection<SessionBody>,
                          invitations: Collection<InvitationBody>, query: Param, header: Param, now: int,
                          email: Param, role: Param, invitationId: string, token: string, freshKey: Key,
                          sent: bool, pattern: string)
    returns (r: Result<Details, string>)
    requires invitations.Valid()
    modifies invitations
    ensures invitations.Valid()
    ensures var auth := GetAuth(users.docs, sessions.docs, query, header, now);
            if !MayInvite(auth) then r == Err("Unauthorized") && invitations.docs == old(invitations.docs)
            else if !(email.Text? && role.Text?) then r == Err("Invalid request") && invitations.docs == old(invitations.docs)
            else if ParseRole(role.s).None? then r == Err("Invalid role") && invitations.docs == old(invitations.docs)
            else
              var body := NewInvitation(email.s, ParseRole(role.s).value, token, auth.value.user.raw.id, now);
              var created := Stamped(old(invitations.docs), invitationId, body, now, freshKey);
              var after := Upserted(old(invitations.docs), invitationId, body, now, freshKey);
              if sent then r == Ok(DetailsOf(created, pattern)) && invitations.docs == after
              else r == Err("Failed to send invitation") && invitations.docs == Drop(after, {created.key})
  {
    var auth := GetAuth(users.docs, sessions.docs, query, header, now);
    if !MayInvite(auth) {
      return Err("Unauthorized");
    }
    if !(email.Text? && role.Text?) {
      return Err("Invalid request");
    }
    var parsed := ParseRole(role.s);
    if parsed.None? {
      return Err("Invalid role");
    }
    var body := NewInvitation(email.s, parsed.value, token, auth.value.user.raw.id, now);
    var created := invitations.Upsert(invitationId, body, now, freshKey);
    assert auth == GetAuth(users.docs, sessions.docs, query, header, now);
    if !sent {
      KeysOfOne(created);
      invitations.Remove([created]);
      return Err("Failed to send invitation");
    }
    r := Ok(DetailsOf(created, pattern));
  }

  /** A failed send undoes the creation exactly, when the drawn id and storage
      key are new to the collection. */
  lemma CreateRollbackRestores(invitations: seq<Invitation>, id: string, body: InvitationBody, now: int, freshKey: Key)
    requires forall i | i in invitations :: i.raw.id != id && i.key != freshKey
    ensures var created := Stamped(invitations, id, body, now, freshKey);
            Drop(Upserted(invitations, id, body, now, freshKey), {created.key}) == invitations
  {
    UpsertedFresh(invitations, id, body, now, freshKey);
    DropAppended(invitations, Doc(freshKey, Raw(id, body, now, now)));
  }

  /** A created invitation can be used right away: its token finds it and it
      stays valid until two days have passed, when no other invitation carries
      that token. */
  lemma CreatedInvitationUsable(invitations: seq<Invitation>, id: string, email: string, role: Role, token: string,
                                ownerId: string, now: int, freshKey: Key, later: int)
    requires UniqueKeys(invitations)
    requires forall i | i in invitations :: i.raw.body.token != token
    ensures var body := NewInvitation(email, role, token, ownerId, now);
            var created := Stamped(invitations, id, body, now, freshKey);
            InvitationByToken(Upserted(invitations, id, body, now, freshKey), token) == Some(created) &&
            (InvitationValid(created, later) <==> later < now + InvitationLifetime)
  {
    var body := NewInvitation(email, role, token, ownerId, now);
    var created := Stamped(invitations, id, body, now, freshKey);
    var after := Upserted(invitations, id, body, now, freshKey);
    UpsertedMembers(invitations, id, body, now, freshKey);
    assert forall i | i in after && i.raw.body.token == token :: i == created;
  }

  /** The reply of `getInvitation`: an authenticated caller sees the details;
      anyone else sees only the id, the role and whether it can be used. */
  datatype InvitationView =
    | Full(details: Details, canUse: bool)
    | Limited(id: string, canUse: bool, role: Role)

  /** `getInvitation`: the first invitation with the requested id. */
  function GetInvitation(users: seq<User>, sessions: seq<Session>, invitations: seq<Invitation>, id: string,
                         query: Param, header: Param, now: int, pattern: string): (r: Result<InvitationView, string>)
    ensures r.Err? <==> InvitationById(invitations, id).None?
    ensures r.Err? ==> r.error == "Invitation not found"
    ensures r.Ok? ==> var invitation := InvitationById(invitations, id).value;
            r.value.canUse == InvitationValid(invitation, now) &&
            (r.value.Full? <==> GetAuth(users, sessions, query, header, now).Some?) &&
            (r.value.Full? ==> r.value.details == DetailsOf(invitation, pattern)) &&
            (r.value.Limited? ==> r.value.id == id && r.value.role == invitation.raw.body.role)
  {
    match InvitationById(invitations, id)
    case None => Err("Invitation not found")
    case Some(invitation) =>
      var canUse := InvitationValid(invitation, now);
      if GetAuth(users, sessions, query, header, now).Some? then Ok(Full(DetailsOf(invitation, pattern), canUse))
      else Ok(Limited(invitation.raw.id, canUse, invitation.raw.body.role))
  }

  /** The token of an invitation is never shown to an unauthenticated caller. */
  lemma TokenOnlyWhenAuthenticated(users: seq<User>, sessions: seq<Session>, invitations: seq<Invitation>, id: string,
                                   query: Param, header: Param, now: int, pattern: string)
    requires GetAuth(users, sessions, query, header, now).None?
    ensures var r := GetInvitation(users, sessions, invitations, id, query, header, now, pattern);
            r.Ok? ==> r.value.Limited?
  {
  }

  /** What `cancelInvitation` replies. */
  datatype CancelReply = CancelReply(id: string, expires: int, url: string, email: string, role: Role)

  /** The invitation as a cancellation writes it back: cancelled, whatever its
      status was. */
  function Cancel(invitation: Invitation): InvitationBody
  {
    invitation.raw.body.(status := Cancelled)
  }

  /** `cancelInvitation`: only the owner may cancel; the first invitation with
      the id is written back as cancelled. An accepted or expired invitation
      is cancelled too. */
  method CancelInvitation(users: Collection<UserBody>, sessions: Collection<SessionBody>,
                          invitations: Collection<InvitationBody>, query: Param, header: Param, now: int,
                          id: string, freshKey: Key, pattern: string)
    returns (r: Result<CancelReply, string>)
    requires invitations.Valid()
    modifies invitations
    ensures invitations.Valid()
    ensures var auth := GetAuth(users.docs, sessions.docs, query, header, now);
            var found := InvitationById(old(invitations.docs), id);
            if auth.None? then r == Err("Unauthorized") && invitations.docs == old(invitations.docs)
            else if found.None? then r == Err("Invitation not found") && invitations.docs == old(invitations.docs)
            else if found.value.raw.body.ownerId != auth.value.user.raw.id then
              r == Err("Unauthorized") && invitations.docs == old(invitations.docs)
            else
              var written := Stamped(old(invitations.docs), id, Cancel(found.value), now, freshKey);
              invitations.docs == Upserted(old(invitations.docs), id, Cancel(found.value), now, freshKey) &&
              written.key == found.value.key &&
              r == Ok(CancelReply(id, written.raw.body.expiresAt, BestInvitationUrl(pattern, written),
                                  written.raw.body.email, written.raw.body.role))
  {
    var auth := GetAuth(users.docs, sessions.docs, query, header, now);
    if auth.None? {
      return Err("Unauthorized");
    }
    var found := InvitationById(invitations.docs, id);
    if found.None? {
      return Err("Invitation not found");
    }
    var invitation := found.value;
    if invitation.raw.body.ownerId != auth.value.user.raw.id {
      return Err("Unauthorized");
    }
    var written := invitations.Upsert(invitation.raw.id, Cancel(invitation), now, freshKey);
    r := Ok(CancelReply(written.raw.id, written.raw.body.expiresAt, BestInvitationUrl(pattern, written),
                        written.raw.body.email, written.raw.body.role));
  }

  /** After a cancellation the invitation can no longer be used to register,
      when invitation ids and tokens are unique. */
  lemma CancelRetires(users: seq<User>, invitations: seq<Invitation>, invitation: Invitation, now: int,
                      freshKey: Key, form: RegisterForm, later: int)
    requires UniqueKeys(invitations) && UniqueIds(invitations) && invitation in invitations
    requires forall i | i in invitations && i.raw.body.token == invitation.raw.body.token :: i == invitation
    requires form.invitation == Text(invitation.raw.body.token)
    ensures var after := Upserted(invitations, invitation.raw.id, Cancel(invitation), now, freshKey);
            RegisterCheck(users, after, form, later).Err?
  {
    RetiredInvitation(invitations, invitation, Cancel(invitation), now, freshKey);
  }
}
