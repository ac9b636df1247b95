/** Sessions and accounts (src/handlers/SessionHandler.ts): who a request is
    authenticated as, logging in and out, and registering with an invitation.
    The clock is the parameter `now`; the random ids, tokens and salts the
    handler draws, and the storage keys the store picks for new records, are
    parameters too. */
module SessionHandler {
  import opened Common
  import opened Store
  import opened UserDatabase
  import opened SessionDatabase
  import opened InvitationDatabase
  import opened Invitations
  import opened Password

  /** How long a new session lasts: two weeks, in milliseconds. */
  const SessionLifetime: int := 1000 * 60 * 60 * 24 * 7 * 2

  /** `isValid`: the session expires strictly after now. */
  predicate SessionValid(session: Session, now: int)
  {
    session.raw.body.expiresAt > now
  }

  /** The token a request presents: the `authtoken` query field or, when that
      is falsy, the `Authorization` header; only a non-empty string counts. */
  function RequestToken(query: Param, header: Param): (r: Option<string>)
    ensures Truthy(query) ==> (r.Some? <==> query.Text?) && (query.Text? ==> r == Some(query.s))
    ensures !Truthy(query) ==> (r.Some? <==> header.Text? && header.s != "") && (r.Some? ==> r == Some(header.s))
    ensures r.Some? ==> r.value != ""
  {
    match Or(query, header)
    case Text(s) => if s != "" then Some(s) else None
    case _ => None
  }

  /** The user and session a request is authenticated as. */
  datatype Auth = Auth(user: User, session: Session)

  /** `getAuth`: the first session carrying the request's token, if it is still
      valid, together with the first user whose id the session names. */
  function GetAuth(users: seq<User>, sessions: seq<Session>, query: Param, header: Param, now: int): (r: Option<Auth>)
    ensures r.Some? ==> RequestToken(query, header) == Some(r.value.session.raw.body.token)
    ensures r.Some? ==> r.value.session in sessions && SessionValid(r.value.session, now)
    ensures r.Some? ==> r.value.user in users && r.value.user.raw.id == r.value.session.raw.body.userId
    ensures r.Some? ==> r.value.session == SessionByToken(sessions, r.value.session.raw.body.token).value
    ensures r.Some? ==> r.value.user == UserById(users, r.value.session.raw.body.userId).value
    ensures r.None? <==>
              RequestToken(query, header).None? ||
              SessionByToken(sessions, RequestToken(query, header).value).None? ||
              !SessionValid(SessionByToken(sessions, RequestToken(query, header).value).value, now) ||
              UserById(users, SessionByToken(sessions, RequestToken(query, header).value).value.raw.body.userId).None?
  {
    match RequestToken(query, header)
    case None => None
    case Some(token) =>
      match SessionByToken(sessions, token)
      case None => None
      case Some(session) =>
        if !SessionValid(session, now) then None
        else
          match UserById(users, session.raw.body.userId)
          case None => None
          case Some(user) => Some(Auth(user, session))
  }

  /** The account `login` picks: the first user whose email or name is the
      identifier, provided the password verifies against that user's stored
      credential. A later user with the same identifier is never tried. */
  function LoginUser(users: seq<User>, identifier: string, password: string, kdf: Kdf): (r: Option<User>)
    ensures r.Some? ==> r.value in users
    ensures r.Some? ==> r.value.raw.body.email == identifier || r.value.raw.body.name == identifier
    ensures r.Some? ==> VerifyPassword(password, r.value.raw.body.password, kdf)
    ensures r.Some? ==> r.value == users[FirstIndex(users, NamedOrMailed(identifier, identifier))]
    ensures r.None? <==>
              (forall u | u in users :: u.raw.body.email != identifier && u.raw.body.name != identifier) ||
              !VerifyPassword(password, users[FirstIndex(users, NamedOrMailed(identifier, identifier))].raw.body.password, kdf)
  {
    match First(users, NamedOrMailed(identifier, identifier))
    case None => None
    case Some(user) => if VerifyPassword(password, user.raw.body.password, kdf) then Some(user) else None
  }

  /** The first account under an identifier logs in with the password it was
      hashed from. */
  lemma LoginWithOwnPassword(users: seq<User>, identifier: string, password: string, salt: seq<Byte>, kdf: Kdf, user: User)
    requires First(users, NamedOrMailed(identifier, identifier)) == Some(user)
    requires user.raw.body.password == HashPassword(password, salt, kdf)
    ensures LoginUser(users, identifier, password, kdf) == Some(user)
  {
    VerifyHashed(password, salt, kdf);
  }

  /** Another password logs in only if the key derivation cannot tell it from
      the real one under that salt. */
  lemma LoginWithOtherPassword(users: seq<User>, identifier: string, password: string, candidate: string,
                               salt: seq<Byte>, kdf: Kdf, user: User)
    requires First(users, NamedOrMailed(identifier, identifier)) == Some(user)
    requires user.raw.body.password == HashPassword(password, salt, kdf)
    ensures LoginUser(users, identifier, candidate, kdf).Some? <==> kdf(candidate, Hex(salt)) == kdf(password, Hex(salt))
  {
    VerifyOther(password, candidate, salt, kdf);
  }

  /** The session record `login` and `apiRegister` create for a user. */
  function NewSession(token: string, now: int, userId: string): SessionBody
  {
    SessionBody(token, now + SessionLifetime, userId)
  }

  /** `login`: on success, upserts a session for the user, expiring two weeks
      from now, and returns it; on failure nothing is written. */
  method Login(users: Collection<UserBody>, sessions: Collection<SessionBody>, identifier: string, password: string,
               kdf: Kdf, now: int, sessionId: string, token: string, freshKey: Key)
    returns (r: Option<Session>)
    requires sessions.Valid()
    modifies sessions
    ensures sessions.Valid()
    ensures match LoginUser(users.docs, identifier, password, kdf)
            case None => r.None? && sessions.docs == old(sessions.docs)
            case Some(user) =>
              var body := NewSession(token, now, user.raw.id);
              r == Some(Stamped(old(sessions.docs), sessionId, body, now, freshKey)) &&
              sessions.docs == Upserted(old(sessions.docs), sessionId, body, now, freshKey)
  {
    var user := LoginUser(users.docs, identifier, password, kdf);
    if user.None? {
      return None;
    }
    var session := sessions.Upsert(sessionId, NewSession(token, now, user.value.raw.id), now, freshKey);
    r := Some(session);
  }

  /** What `getAuth` finds when each of its lookups succeeds. */
  lemma AuthOf(users: seq<User>, sessions: seq<Session>, query: Param, header: Param, now: int,
               token: string, session: Session, user: User)
    requires RequestToken(query, header) == Some(token)
    requires SessionByToken(sessions, token) == Some(session) && SessionValid(session, now)
    requires UserById(users, session.raw.body.userId) == Some(user)
    ensures GetAuth(users, sessions, query, header, now) == Some(Auth(user, session))
  {
  }

  /** The session a login creates authenticates its token right away, as the
      user who logged in, provided no other session already carried that token
      and user ids are unique. */
  lemma LoginAuthenticates(users: seq<User>, sessions: seq<Session>, user: User, sessionId: string,
                           token: string, now: int, freshKey: Key, header: Param)
    requires UniqueIds(users) && user in users
    requires UniqueKeys(sessions)
    requires token != ""
    requires forall s | s in sessions :: s.raw.body.token != token
    ensures var body := NewSession(token, now, user.raw.id);
            GetAuth(users, Upserted(sessions, sessionId, body, now, freshKey), Text(token), header, now)
            == Some(Auth(user, Stamped(sessions, sessionId, body, now, freshKey)))
  {
    var body := NewSession(token, now, user.raw.id);
    var d := Stamped(sessions, sessionId, body, now, freshKey);
    var after := Upserted(sessions, sessionId, body, now, freshKey);
    assert SessionByToken(after, token) == Some(d) by {
      UpsertedMembers(sessions, sessionId, body, now, freshKey);
      assert forall s | s in after && HasToken(token)(s.raw) :: s == d;
      FirstOnly(after, HasToken(token), d);
    }
    assert UserById(users, user.raw.id) == Some(user) by {
      FirstUniqueId(users, user);
    }
    AuthOf(users, after, Text(token), header, now, token, d, user);
  }

  /** `logout`: deletes the document under the session's storage key. */
  method Logout(sessions: Collection<SessionBody>, session: Session)
    requires sessions.Valid()
    modifies sessions
    ensures sessions.Valid()
    ensures sessions.docs == Drop(old(sessions.docs), {session.key})
  {
    KeysOfOne(session);
    sessions.Remove([session]);
  }

  /** After logout the session's token no longer authenticates anyone, as long
      as no session under another storage key carries the same token. */
  lemma LogoutRevokes(users: seq<User>, sessions: seq<Session>, session: Session, header: Param, now: int)
    requires session.raw.body.token != ""
    requires forall s | s in sessions && s.raw.body.token == session.raw.body.token :: s.key == session.key
    ensures SessionByToken(Drop(sessions, {session.key}), session.raw.body.token).None?
    ensures GetAuth(users, Drop(sessions, {session.key}), Text(session.raw.body.token), header, now).None?
  {
    var after := Drop(sessions, {session.key});
    DropMembers(sessions, {session.key});
    assert forall s | s in after :: s.raw.body.token != session.raw.body.token;
    assert SessionByToken(after, session.raw.body.token).None?;
    assert RequestToken(Text(session.raw.body.token), header) == Some(session.raw.body.token);
  }

  /** `apiLogout`: an unauthenticated request is refused and changes nothing;
      otherwise the request's session is deleted. */
  method ApiLogout(users: Collection<UserBody>, sessions: Collection<SessionBody>, query: Param, header: Param, now: int)
    returns (r: Result<bool, string>)
    requires sessions.Valid()
    modifies sessions
    ensures sessions.Valid()
    ensures match GetAuth(users.docs, old(sessions.docs), query, header, now)
            case None => r == Err("Unauthorized") && sessions.docs == old(sessions.docs)
            case Some(auth) => r == Ok(true) && sessions.docs == Drop(old(sessions.docs), {auth.session.key})
  {
    var auth := GetAuth(users.docs, sessions.docs, query, header, now);
    if auth.None? {
      return Err("Unauthorized");
    }
    Logout(sessions, auth.value.session);
    r := Ok(true);
  }

  /** The user fields a login or registration reply shows. */
  datatype UserView = UserView(id: string, name: string, display: string, email: string, role: Role)

  /** The body of a successful login or registration reply. */
  datatype SessionReply = SessionReply(token: string, expiresAt: int, user: UserView)

  function ViewOf(user: User): UserView
  {
    UserView(user.raw.id, user.raw.body.name, user.raw.body.displayName, user.raw.body.email, user.raw.body.role)
  }

  /** `apiLogin`: both fields must be strings; then `login`; the reply shows the
      new session and the user it belongs to. */
  method ApiLogin(users: Collection<UserBody>, sessions: Collection<SessionBody>, identifier: Param, password: Param,
                  kdf: Kdf, now: int, sessionId: string, token: string, freshKey: Key)
    returns (r: Result<SessionReply, string>)
    requires sessions.Valid()
    modifies sessions
    ensures sessions.Valid()
    ensures !(identifier.Text? && password.Text?) ==> r == Err("Invalid request") && sessions.docs == old(sessions.docs)
    ensures identifier.Text? && password.Text? ==>
              match LoginUser(users.docs, identifier.s, password.s, kdf)
              case None => r == Err("Invalid credentials") && sessions.docs == old(sessions.docs)
              case Some(user) =>
                var body := NewSession(token, now, user.raw.id);
                sessions.docs == Upserted(old(sessions.docs), sessionId, body, now, freshKey) &&
                r == Ok(SessionReply(token, now + SessionLifetime, ViewOf(UserById(users.docs, user.raw.id).value)))
  {
    if !(identifier.Text? && password.Text?) {
      return Err("Invalid request");
    }
    var session := Login(users, sessions, identifier.s, password.s, kdf, now, sessionId, token, freshKey);
    if session.None? {
      return Err("Invalid credentials");
    }
    // The user that logged in is stored under the id the session names, so
    // the lookup by id always finds a user and the "Invalid user" reply
    // cannot happen.
    var user := UserById(users.docs, session.value.raw.body.userId);
    r := Ok(SessionReply(session.value.raw.body.token, session.value.raw.body.expiresAt, ViewOf(user.value)));
  }

  /** Name and display name: 3 to 24 characters from `[a-zA-Z0-9_.-]`. */
  predicate NameOk(s: string)
  {
    3 <= |s| <= 24 &&
    forall i | 0 <= i < |s| :: 'a' <= s[i] <= 'z' || 'A' <= s[i] <= 'Z' || '0' <= s[i] <= '9' || s[i] in "_.-"
  }

  /** The email pattern `^[^@]+@[^@]+\.[^@]+$`: exactly one `@`, not first,
      followed later by a `.` that is neither right after the `@` nor last. */
  predicate EmailOk(s: string)
  {
    exists at, dot | 0 < at && at + 1 < dot < |s| - 1 ::
      s[at] == '@' && s[dot] == '.' && forall j | 0 <= j < |s| && j != at :: s[j] != '@'
  }

  /** The request fields of `apiRegister`. */
  datatype RegisterForm = RegisterForm(name: Param, display: Param, email: Param, password: Param, invitation: Param)

  predicate AllText(form: RegisterForm)
  {
    form.name.Text? && form.display.Text? && form.email.Text? && form.password.Text? && form.invitation.Text?
  }

  /** Why a registration fails: a reply with an error message, or the
      exception thrown when no invitation carries the token (the validity test
      reads a field of null). */
  datatype RegisterError = Refused(message: string) | NullInvitation

  /** The first two checks of `apiRegister` pass: every field is a string and
      the token names an invitation that is still valid. */
  predicate InvitationAccepted(invitations: seq<Invitation>, form: RegisterForm, now: int)
  {
    AllText(form) &&
    InvitationByToken(invitations, form.invitation.s).Some? &&
    InvitationValid(InvitationByToken(invitations, form.invitation.s).value, now)
  }

  /** The form checks of `apiRegister` pass: the invitation, then the name,
      the display name and the email. */
  predicate FormAccepted(invitations: seq<Invitation>, form: RegisterForm, now: int)
  {
    InvitationAccepted(invitations, form, now) &&
    NameOk(form.name.s) && NameOk(form.display.s) && EmailOk(form.email.s)
  }

  /** The checks of `apiRegister`, in order: field types, the invitation,
      name, display name, email, and that no user has the email or the name.
      Each refusal happens exactly when the checks before it pass and its own
      fails. On success, the invitation the token names. */
  function RegisterCheck(users: seq<User>, invitations: seq<Invitation>, form: RegisterForm, now: int)
    : (r: Result<Invitation, RegisterError>)
    ensures r == Err(Refused("Invalid request")) <==> !AllText(form)
    ensures r == Err(NullInvitation) <==> AllText(form) && InvitationByToken(invitations, form.invitation.s).None?
    ensures r == Err(Refused("Invalid invitation")) <==>
              AllText(form) && InvitationByToken(invitations, form.invitation.s).Some? &&
              !InvitationValid(InvitationByToken(invitations, form.invitation.s).value, now)
    ensures r == Err(Refused("Invalid name")) <==>
              InvitationAccepted(invitations, form, now) && !NameOk(form.name.s)
    ensures r == Err(Refused("Invalid display")) <==>
              InvitationAccepted(invitations, form, now) && NameOk(form.name.s) && !NameOk(form.display.s)
    ensures r == Err(Refused("Invalid email")) <==>
              InvitationAccepted(invitations, form, now) && NameOk(form.name.s) && NameOk(form.display.s) &&
              !EmailOk(form.email.s)
    ensures r == Err(Refused("User already exists")) <==>
              FormAccepted(invitations, form, now) &&
              exists u | u in users :: u.raw.body.email == form.email.s || u.raw.body.name == form.name.s
    ensures r.Ok? <==>
              FormAccepted(invitations, form, now) &&
              forall u | u in users :: u.raw.body.email != form.email.s && u.raw.body.name != form.name.s
    ensures r.Ok? ==> r == Ok(InvitationByToken(invitations, form.invitation.s).value)
  {
    if !AllText(form) then Err(Refused("Invalid request"))
    else match InvitationByToken(invitations, form.invitation.s)
      case None => Err(NullInvitation)
      case Some(invitation) =>
        if !InvitationValid(invitation, now) then Err(Refused("Invalid invitation"))
        else if !NameOk(form.name.s) then Err(Refused("Invalid name"))
        else if !NameOk(form.display.s) then Err(Refused("Invalid display"))
        else if !EmailOk(form.email.s) then Err(Refused("Invalid email"))
        else
          var existing := Select(users, NamedOrMailed(form.email.s, form.name.s));
          if existing != [] then
            assert existing[0] in existing;
            Err(Refused("User already exists"))
          else Ok(invitation)
  }

  /** The user record a registration stores: the form's fields, the password
      hashed with the drawn salt, and the invitation's role. */
  function NewUser(form: RegisterForm, invitation: Invitation, salt: seq<Byte>, kdf: Kdf): UserBody
    requires AllText(form)
  {
    UserBody(form.name.s, form.display.s, form.email.s, HashPassword(form.password.s, salt, kdf), invitation.raw.body.role)
  }

  /** The invitation as a registration writes it back: accepted. */
  function Accept(invitation: Invitation): InvitationBody
  {
    invitation.raw.body.(status := Accepted)
  }

  /** `apiRegister`: after the checks, upserts the new user, writes the
      invitation back as accepted, and upserts a session for the user. The
      reply shows the user as `createOrUpdateUser` returns it, so its name and
      display name are the email. A failed check writes nothing. */
  method Register(users: Collection<UserBody>, invitations: Collection<InvitationBody>, sessions: Collection<SessionBody>,
                  form: RegisterForm, now: int, kdf: Kdf, userId: string, salt: seq<Byte>, userKey: Key,
                  invitationKey: Key, sessionId: string, token: string, sessionKey: Key)
    returns (r: Result<SessionReply, RegisterError>)
    requires users.Valid() && invitations.Valid() && sessions.Valid()
    modifies users, invitations, sessions
    ensures users.Valid() && invitations.Valid() && sessions.Valid()
    ensures match RegisterCheck(old(users.docs), old(invitations.docs), form, now)
            case Err(e) =>
              r == Err(e) && users.docs == old(users.docs) && invitations.docs == old(invitations.docs) &&
              sessions.docs == old(sessions.docs)
            case Ok(invitation) =>
              users.docs == Upserted(old(users.docs), userId, NewUser(form, invitation, salt, kdf), now, userKey) &&
              invitations.docs == Upserted(old(invitations.docs), invitation.raw.id, Accept(invitation), now, invitationKey) &&
              sessions.docs == Upserted(old(sessions.docs), sessionId, NewSession(token, now, userId), now, sessionKey) &&
              r == Ok(SessionReply(token, now + SessionLifetime,
                                   UserView(userId, form.email.s, form.email.s, form.email.s, invitation.raw.body.role)))
  {
    var check := RegisterCheck(users.docs, invitations.docs, form, now);
    if check.Err? {
      return Err(check.error);
    }
    var invitation := check.value;
    assert AllText(form);
    ghost var invitations0, sessions0 := invitations.docs, sessions.docs;
    var user := CreateOrUpdateUser(users, userId, NewUser(form, invitation, salt, kdf), now, userKey);
    assert invitations.docs == invitations0 && sessions.docs == sessions0;
    ghost var users1 := users.docs;
    var _ := invitations.Upsert(invitation.raw.id, Accept(invitation), now, invitationKey);
    assert users.docs == users1 && sessions.docs == sessions0;
    ghost var invitations1 := invitations.docs;
    var session := sessions.Upsert(sessionId, NewSession(token, now, user.raw.id), now, sessionKey);
    assert users.docs == users1 && invitations.docs == invitations1;
    r := Ok(SessionReply(session.raw.body.token, session.raw.body.expiresAt, ViewOf(user)));
  }

  /** An invitation is used once: after a registration writes it back as
      accepted, any later registration presenting the same token fails, as long
      as invitation ids and tokens are unique. */
  lemma RegisterConsumesInvitation(users: seq<User>, invitations: seq<Invitation>, form: RegisterForm, now: int,
                                   invitationKey: Key, laterUsers: seq<User>, later: RegisterForm, laterNow: int)
    requires UniqueKeys(invitations) && UniqueIds(invitations)
    requires RegisterCheck(users, invitations, form, now).Ok?
    requires var invitation := RegisterCheck(users, invitations, form, now).value;
             forall i | i in invitations && i.raw.body.token == invitation.raw.body.token :: i == invitation
    requires later.invitation == form.invitation
    ensures var invitation := RegisterCheck(users, invitations, form, now).value;
            var after := Upserted(invitations, invitation.raw.id, Accept(invitation), now, invitationKey);
            RegisterCheck(laterUsers, after, later, laterNow).Err? &&
            (AllText(later) ==> RegisterCheck(laterUsers, after, later, laterNow) == Err(Refused("Invalid invitation")))
  {
    var invitation := RegisterCheck(users, invitations, form, now).value;
    RetiredInvitation(invitations, invitation, Accept(invitation), now, invitationKey);
  }

  /** A newly registered user can log in with their email and password, as
      long as no stored name contains an `@`. */
  lemma RegisterThenLogin(users: seq<User>, invitations: seq<Invitation>, form: RegisterForm, now: int,
                          kdf: Kdf, userId: string, salt: seq<Byte>, userKey: Key)
    requires UniqueKeys(users)
    requires forall u | u in users :: '@' !in u.raw.body.name
    requires RegisterCheck(users, invitations, form, now).Ok?
    ensures var body := NewUser(form, RegisterCheck(users, invitations, form, now).value, salt, kdf);
            LoginUser(Upserted(users, userId, body, now, userKey), form.email.s, form.password.s, kdf)
            == Some(Stamped(users, userId, body, now, userKey))
  {
    var body := NewUser(form, RegisterCheck(users, invitations, form, now).value, salt, kdf);
    var d := Stamped(users, userId, body, now, userKey);
    var after := Upserted(users, userId, body, now, userKey);
    var email := form.email.s;
    UpsertedMembers(users, userId, body, now, userKey);
    var at, dot :| 0 < at && at + 1 < dot < |email| - 1 && email[at] == '@' && email[dot] == '.' &&
                   forall j | 0 <= j < |email| && j != at :: email[j] != '@';
    assert '@' in email;
    assert forall x | x in after && NamedOrMailed(email, email)(x.raw) :: x == d;
    FirstOnly(after, NamedOrMailed(email, email), d);
    VerifyHashed(form.password.s, salt, kdf);
  }
}
