/** The sessions collection (src/database/SessionDatabase.ts). */
module SessionDatabase {
  import opened Common
  import opened Store

  /** The fields of a session record besides its id and timestamps; `expiresAt`
      is in milliseconds since the epoch. */
  datatype SessionBody = SessionBody(token: string, expiresAt: int, userId: string)

  type Session = Doc<SessionBody>

  function HasToken(token: string): Raw<SessionBody> -> bool
  {
    (r: Raw<SessionBody>) => r.body.token == token
  }

  /** `getSessionByToken`: the first session carrying the token, or nothing. */
  function SessionByToken(sessions: seq<Session>, token: string): (r: Option<Session>)
    ensures r.Some? ==> r.value in sessions && r.value.raw.body.token == token
    ensures r.Some? ==> r.value == sessions[FirstIndex(sessions, HasToken(token))]
    ensures r.None? <==> forall s | s in sessions :: s.raw.body.token != token
  {
    First(sessions, HasToken(token))
  }

  /** `getSessionById`: the first session with that id, or nothing. */
  function SessionById(sessions: seq<Session>, id: string): (r: Option<Session>)
    ensures r.Some? ==> r.value in sessions && r.value.raw.id == id
    ensures r.Some? ==> r.value == sessions[FirstIndex(sessions, HasId(id))]
    ensures r.None? <==> forall s | s in sessions :: s.raw.id != id
  {
    First(sessions, HasId(id))
  }
}
