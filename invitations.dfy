/** The pure part of src/handlers/InvitationHandler.ts: when an invitation can
    be used, and how the invitation link is built from a URL pattern with
    `{id}`, `{token}`, `{email}` and `{role}` placeholders. The session and
    registration handlers use the validity test, so it lives apart from the
    request handlers of module `InvitationHandler`. */
module Invitations {
  import opened Common
  import opened Store
  import opened UserDatabase
  import opened InvitationDatabase

  /** How long a new invitation stays usable: two days, in milliseconds. */
  const InvitationLifetime: int := 1000 * 60 * 60 * 24 * 2

  /** `isValid`: pending and not yet expired (strictly before its expiry). */
  predicate InvitationValid(inv: Invitation, now: int)
  {
    inv.raw.body.status == Pending && inv.raw.body.expiresAt > now
  }

  /** Validity is exactly "pending and now before expiry": any other status,
      or the expiry instant itself, makes an invitation unusable. */
  lemma InvitationValidity(inv: Invitation, now: int)
    ensures inv.raw.body.status != Pending ==> !InvitationValid(inv, now)
    ensures inv.raw.body.expiresAt <= now ==> !InvitationValid(inv, now)
    ensures inv.raw.body.status == Pending && now < inv.raw.body.expiresAt ==> InvitationValid(inv, now)
  {
  }

  /** Writing an invitation back under its own id with a status other than
      pending, token unchanged, retires its token for good: a lookup by that
      token finds the rewritten record, which is never valid again. This needs
      unique ids and no other invitation carrying the same token. */
  lemma RetiredInvitation(invitations: seq<Invitation>, invitation: Invitation, body: InvitationBody, now: int, freshKey: Key)
    requires UniqueKeys(invitations) && UniqueIds(invitations) && invitation in invitations
    requires forall i | i in invitations && i.raw.body.token == invitation.raw.body.token :: i == invitation
    requires body.token == invitation.raw.body.token && body.status != Pending
    ensures var after := Upserted(invitations, invitation.raw.id, body, now, freshKey);
            var written := Stamped(invitations, invitation.raw.id, body, now, freshKey);
            written.key == invitation.key &&
            InvitationByToken(after, invitation.raw.body.token) == Some(written) &&
            forall later :: !InvitationValid(written, later)
  {
    var after := Upserted(invitations, invitation.raw.id, body, now, freshKey);
    var written := Stamped(invitations, invitation.raw.id, body, now, freshKey);
    UpsertedMembers(invitations, invitation.raw.id, body, now, freshKey);
    FirstUniqueId(invitations, invitation);
    assert written.key == invitation.key;
    assert forall i | i in after && i.raw.body.token == invitation.raw.body.token :: i == written;
  }

  /** `text.replace(/pat/g, rep)` for a literal pattern: every occurrence,
      scanning left to right and resuming after each replaced occurrence. */
  function ReplaceAll(text: string, pat: string, rep: string): string
    requires |pat| > 0
    decreases |text|
  {
    if |text| < |pat| then text
    else if text[..|pat|] == pat then rep + ReplaceAll(text[|pat|..], pat, rep)
    else [text[0]] + ReplaceAll(text[1..], pat, rep)
  }

  /** The pattern starts at position `i` of the text. */
  predicate OccursAt(text: string, pat: string, i: int)
  {
    0 <= i && i + |pat| <= |text| && text[i..i + |pat|] == pat
  }

  /** Text in which the pattern does not occur comes through unchanged. */
  lemma {:induction false} ReplaceAbsent(text: string, pat: string, rep: string)
    requires |pat| > 0
    requires forall i :: !OccursAt(text, pat, i)
    ensures ReplaceAll(text, pat, rep) == text
  {
    if |text| >= |pat| {
      assert !OccursAt(text, pat, 0);
      var tail := text[1..];
      forall i ensures !OccursAt(tail, pat, i)
      {
        assert !OccursAt(text, pat, i + 1);
        if 0 <= i && i + |pat| <= |tail| {
          assert tail[i..i + |pat|] == text[i + 1..i + 1 + |pat|];
        }
      }
      ReplaceAbsent(tail, pat, rep);
      assert text == [text[0]] + tail;
    }
  }

  function Placeholder(name: string): string
  {
    "{" + name + "}"
  }

  predicate BraceFree(s: string)
  {
    '{' !in s && '}' !in s
  }

  lemma ReplaceShort(t: string, pat: string, rep: string)
    requires |pat| > 0 && |t| < |pat|
    ensures ReplaceAll(t, pat, rep) == t
  {
  }

  /** Replacing a brace-opened pattern passes over a prefix without `{`. */
  lemma {:induction false} ReplaceOverPlainPrefix(a: string, t: string, pat: string, rep: string)
    requires |pat| > 0 && pat[0] == '{' && '{' !in a
    ensures ReplaceAll(a + t, pat, rep) == a + ReplaceAll(t, pat, rep)
  {
    if a == [] {
      assert a + t == t;
    } else if |a + t| < |pat| {
      ReplaceShort(t, pat, rep);
    } else {
      assert a[0] in a;
      assert (a + t)[..|pat|][0] == a[0];
      assert (a + t)[1..] == a[1..] + t;
      ReplaceOverPlainPrefix(a[1..], t, pat, rep);
      calc {
        ReplaceAll(a + t, pat, rep);
        [a[0]] + ReplaceAll(a[1..] + t, pat, rep);
        [a[0]] + (a[1..] + ReplaceAll(t, pat, rep));
        { assert [a[0]] + a[1..] == a; }
        a + ReplaceAll(t, pat, rep);
      }
    }
  }

  /** A placeholder never begins with another placeholder's text. */
  lemma PlaceholderNotPrefix(other: string, t: string, name: string)
    requires BraceFree(other) && BraceFree(name) && other != name
    requires |Placeholder(other) + t| >= |Placeholder(name)|
    ensures (Placeholder(other) + t)[..|Placeholder(name)|] != Placeholder(name)
  {
    var text := Placeholder(other) + t;
    var pat := Placeholder(name);
    var j: int;
    if |other| > |name| {
      j := |name| + 1;
      assert text[j] == other[|name|] && other[|name|] in other;
    } else if |other| < |name| {
      j := |other| + 1;
      assert pat[j] == name[|other|] && name[|other|] in name;
    } else {
      var k :| 0 <= k < |other| && other[k] != name[k];
      j := k + 1;
      assert text[j] == other[k] && pat[j] == name[k];
    }
    assert text[..|pat|][j] != pat[j];
  }

  /** A placeholder with another name is not an occurrence of this one. */
  lemma ReplaceOverOtherPlaceholder(other: string, t: string, name: string, rep: string)
    requires BraceFree(other) && BraceFree(name) && other != name
    ensures ReplaceAll(Placeholder(other) + t, Placeholder(name), rep)
            == Placeholder(other) + ReplaceAll(t, Placeholder(name), rep)
  {
    var text := Placeholder(other) + t;
    var pat := Placeholder(name);
    var close := other + "}";
    assert Placeholder(other) == ['{'] + close;
    assert '{' !in close;
    if |text| >= |pat| {
      PlaceholderNotPrefix(other, t, name);
      assert text[1..] == close + t;
      ReplaceOverPlainPrefix(close, t, pat, rep);
      calc {
        ReplaceAll(text, pat, rep);
        [text[0]] + ReplaceAll(text[1..], pat, rep);
        ['{'] + (close + ReplaceAll(t, pat, rep));
        Placeholder(other) + ReplaceAll(t, pat, rep);
      }
    } else {
      ReplaceShort(t, pat, rep);
    }
  }

  /** A URL pattern read as literal text and placeholders. */
  datatype Piece = Literal(text: string) | Hole(name: string)

  function PieceText(p: Piece): string
  {
    match p
    case Literal(text) => text
    case Hole(name) => Placeholder(name)
  }

  /** The pattern string a list of pieces spells. */
  function Render(pieces: seq<Piece>): string
  {
    if pieces == [] then "" else PieceText(pieces[0]) + Render(pieces[1..])
  }

  /** Literal text without an opening brace and placeholder names without
      braces: every `{` of the pattern opens a placeholder. */
  predicate WellFormed(pieces: seq<Piece>)
  {
    forall i | 0 <= i < |pieces| ::
      match pieces[i]
      case Literal(text) => '{' !in text
      case Hole(name) => BraceFree(name)
  }

  /** Every placeholder named `name` turned into the literal `value`. */
  function Fill(pieces: seq<Piece>, name: string, value: string): (r: seq<Piece>)
    requires '{' !in value
    ensures |r| == |pieces|
    ensures WellFormed(pieces) ==> WellFormed(r)
    ensures forall i | 0 <= i < |r| :: r[i] == if pieces[i] == Hole(name) then Literal(value) else pieces[i]
  {
    if pieces == [] then []
    else [if pieces[0] == Hole(name) then Literal(value) else pieces[0]] + Fill(pieces[1..], name, value)
  }

  /** One `replace` call on a rendered pattern fills that placeholder
      everywhere and touches nothing else. */
  lemma {:induction false} ReplaceFills(pieces: seq<Piece>, name: string, value: string)
    requires WellFormed(pieces) && BraceFree(name) && '{' !in value
    ensures ReplaceAll(Render(pieces), Placeholder(name), value) == Render(Fill(pieces, name, value))
  {
    if pieces != [] {
      var pat := Placeholder(name);
      var rest := pieces[1..];
      assert WellFormed(rest) by {
        forall i | 0 <= i < |rest| ensures pieces[i + 1] == rest[i] { }
      }
      ReplaceFills(rest, name, value);
      assert Fill(pieces, name, value)[1..] == Fill(rest, name, value);
      match pieces[0]
      case Literal(text) =>
        assert '{' !in text by { assert pieces[0] == Literal(text); }
        ReplaceOverPlainPrefix(text, Render(rest), pat, value);
      case Hole(other) =>
        assert BraceFree(other) by { assert pieces[0] == Hole(other); }
        if other == name {
          var text := pat + Render(rest);
          assert text[..|pat|] == pat;
          assert text[|pat|..] == Render(rest);
        } else {
          ReplaceOverOtherPlaceholder(other, Render(rest), name, value);
        }
    }
  }

  /** The value a placeholder of the invitation link stands for, if any. */
  function FieldValue(inv: Invitation, name: string): Option<string>
  {
    if name == "id" then Some(inv.raw.id)
    else if name == "token" then Some(inv.raw.body.token)
    else if name == "email" then Some(inv.raw.body.email)
    else if name == "role" then Some(RoleName(inv.raw.body.role))
    else None
  }

  /** The text one piece of the pattern should give in the link. */
  function Expanded(p: Piece, inv: Invitation): string
  {
    match p
    case Literal(text) => text
    case Hole(name) => if FieldValue(inv, name).Some? then FieldValue(inv, name).value else Placeholder(name)
  }

  /** The link a pattern should give: each known placeholder replaced by its
      field, unknown placeholders and literal text left as they are. */
  function Expand(pieces: seq<Piece>, inv: Invitation): string
  {
    if pieces == [] then "" else Expanded(pieces[0], inv) + Expand(pieces[1..], inv)
  }

  /** `getBestInvitationUrl`: the pattern with `{id}`, then `{token}`, then
      `{email}`, then `{role}` replaced by the invitation's fields. */
  function BestInvitationUrl(pattern: string, inv: Invitation): string
  {
    var withId := ReplaceAll(pattern, Placeholder("id"), inv.raw.id);
    var withToken := ReplaceAll(withId, Placeholder("token"), inv.raw.body.token);
    var withEmail := ReplaceAll(withToken, Placeholder("email"), inv.raw.body.email);
    ReplaceAll(withEmail, Placeholder("role"), RoleName(inv.raw.body.role))
  }

  lemma RoleNameBraceFree(role: Role)
    ensures BraceFree(RoleName(role))
  {
  }

  /** The four placeholders of the link filled, in the order the link is built. */
  function FillAll(pieces: seq<Piece>, inv: Invitation): seq<Piece>
    requires '{' !in inv.raw.id && '{' !in inv.raw.body.token && '{' !in inv.raw.body.email
  {
    RoleNameBraceFree(inv.raw.body.role);
    Fill(Fill(Fill(Fill(pieces, "id", inv.raw.id), "token", inv.raw.body.token),
              "email", inv.raw.body.email), "role", RoleName(inv.raw.body.role))
  }

  /** What the four fills make of one piece. */
  function FillPiece(p: Piece, inv: Invitation): Piece
  {
    var p1 := if p == Hole("id") then Literal(inv.raw.id) else p;
    var p2 := if p1 == Hole("token") then Literal(inv.raw.body.token) else p1;
    var p3 := if p2 == Hole("email") then Literal(inv.raw.body.email) else p2;
    if p3 == Hole("role") then Literal(RoleName(inv.raw.body.role)) else p3
  }

  lemma FillAllAt(pieces: seq<Piece>, inv: Invitation, i: int)
    requires '{' !in inv.raw.id && '{' !in inv.raw.body.token && '{' !in inv.raw.body.email
    requires 0 <= i < |pieces|
    ensures |FillAll(pieces, inv)| == |pieces|
    ensures FillAll(pieces, inv)[i] == FillPiece(pieces[i], inv)
  {
  }

  /** Filling one piece gives the text its expansion calls for. */
  lemma FillPieceText(p: Piece, inv: Invitation)
    ensures PieceText(FillPiece(p, inv)) == Expanded(p, inv)
  {
    match p
    case Literal(_) =>
    case Hole(name) =>
      if name == "id" {
      } else if name == "token" {
      } else if name == "email" {
      } else if name == "role" {
      } else {
        assert FillPiece(p, inv) == p;
      }
  }

  /** Four fills in a row give the expansion. */
  lemma {:induction false} FillsExpand(pieces: seq<Piece>, inv: Invitation)
    requires '{' !in inv.raw.id && '{' !in inv.raw.body.token && '{' !in inv.raw.body.email
    ensures Render(FillAll(pieces, inv)) == Expand(pieces, inv)
  {
    if pieces != [] {
      var filled := FillAll(pieces, inv);
      var filledRest := FillAll(pieces[1..], inv);
      assert filled[1..] == filledRest;
      FillsExpand(pieces[1..], inv);
      FillAllAt(pieces, inv, 0);
      FillPieceText(pieces[0], inv);
      assert filled == [filled[0]] + filledRest;
    }
  }

  /** For a well-formed pattern and field values without `{`, the link is the
      pattern with every known placeholder replaced by its field and all other
      text unchanged. */
  lemma UrlFromPattern(pieces: seq<Piece>, inv: Invitation)
    requires WellFormed(pieces)
    requires '{' !in inv.raw.id && '{' !in inv.raw.body.token && '{' !in inv.raw.body.email
    ensures BestInvitationUrl(Render(pieces), inv) == Expand(pieces, inv)
  {
    RoleNameBraceFree(inv.raw.body.role);
    var p1 := Fill(pieces, "id", inv.raw.id);
    var p2 := Fill(p1, "token", inv.raw.body.token);
    var p3 := Fill(p2, "email", inv.raw.body.email);
    ReplaceFills(pieces, "id", inv.raw.id);
    ReplaceFills(p1, "token", inv.raw.body.token);
    ReplaceFills(p2, "email", inv.raw.body.email);
    ReplaceFills(p3, "role", RoleName(inv.raw.body.role));
    FillsExpand(pieces, inv);
  }
}
