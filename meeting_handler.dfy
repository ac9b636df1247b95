/** The meeting listing (src/handlers/MettingHandler.ts). `getMeetings`
    collects the participant ids of every meeting, loads the users with those
    ids, and lists each meeting whose owner is among the loaded users, with its
    participants found among them. The owner is looked up only among users
    that take part in some meeting. */
module MeetingHandler {
  import opened Common
  import opened Store
  import opened UserDatabase
  import opened SessionDatabase
  import opened MeetingDatabase
  import opened SessionHandler

  /** The participant ids of the meetings, meeting after meeting. */
  function Flat(meetings: seq<Meeting>): seq<string>
  {
    if meetings == [] then []
    else Flat(meetings[..|meetings| - 1]) + meetings[|meetings| - 1].raw.body.participantIds
  }

  lemma FlatMembers(meetings: seq<Meeting>, id: string)
    ensures id in Flat(meetings) <==> exists m | m in meetings :: id in m.raw.body.participantIds
  {
    if meetings != [] {
      var init := meetings[..|meetings| - 1];
      FlatMembers(init, id);
      assert forall m | m in meetings :: m in init || m == meetings[|meetings| - 1];
      assert forall m | m in init :: m in meetings;
    }
  }

  predicate NoDuplicates(xs: seq<string>)
  {
    forall i, j | 0 <= i < j < |xs| :: xs[i] != xs[j]
  }

  /** The values in order of first appearance: what pushing each value unless
      the list already includes it builds. */
  function Dedup(xs: seq<string>): (r: seq<string>)
    ensures NoDuplicates(r)
    ensures forall x | x in r :: x in xs
    ensures forall x | x in xs :: x in r
  {
    if xs == [] then []
    else
      var acc := Dedup(xs[..|xs| - 1]);
      var x := xs[|xs| - 1];
      assert forall y | y in xs :: y in xs[..|xs| - 1] || y == x by {
        assert xs == xs[..|xs| - 1] + [x];
      }
      if x in acc then acc else acc + [x]
  }

  /** The position of the first occurrence of a value. */
  function FirstPos(xs: seq<string>, x: string): (k: nat)
    requires x in xs
    ensures k < |xs| && xs[k] == x
    ensures forall j | 0 <= j < k :: xs[j] != x
  {
    if xs[0] == x then 0 else 1 + FirstPos(xs[1..], x)
  }

  /** A value already in a prefix first occurs where it first occurs in that
      prefix; a new last value first occurs at the end. */
  lemma FirstPosSnoc(xs: seq<string>, y: string, x: string)
    requires x in xs + [y]
    ensures x in xs ==> FirstPos(xs + [y], x) == FirstPos(xs, x)
    ensures x !in xs ==> FirstPos(xs + [y], x) == |xs|
  {
    var k := FirstPos(xs + [y], x);
    if x in xs {
      var k0 := FirstPos(xs, x);
      assert (xs + [y])[k0] == x;
    }
  }

  /** Dedup keeps the order of first appearance: the values of the result
      first occur in the input in increasing positions. */
  lemma {:induction false} DedupOrder(xs: seq<string>)
    ensures forall i, j | 0 <= i < j < |Dedup(xs)| ::
              Dedup(xs)[i] in xs && Dedup(xs)[j] in xs &&
              FirstPos(xs, Dedup(xs)[i]) < FirstPos(xs, Dedup(xs)[j])
  {
    if xs != [] {
      var init := xs[..|xs| - 1];
      var x := xs[|xs| - 1];
      assert xs == init + [x];
      DedupOrder(init);
      var acc := Dedup(init);
      forall a | a in acc
        ensures a in init && FirstPos(xs, a) == FirstPos(init, a)
      {
        FirstPosSnoc(init, x, a);
      }
      if x !in acc {
        FirstPosSnoc(init, x, x);
        assert Dedup(xs) == acc + [x];
        forall i, j | 0 <= i < j < |Dedup(xs)|
          ensures FirstPos(xs, Dedup(xs)[i]) < FirstPos(xs, Dedup(xs)[j])
        {
          assert Dedup(xs)[i] == acc[i];
          if j < |acc| {
            assert Dedup(xs)[j] == acc[j];
          }
        }
      }
    }
  }

  lemma DedupSnoc(xs: seq<string>, x: string)
    ensures Dedup(xs + [x]) == if x in Dedup(xs) then Dedup(xs) else Dedup(xs) + [x]
  {
    assert (xs + [x])[..|xs + [x]| - 1] == xs;
  }

  lemma FlatSnoc(meetings: seq<Meeting>, i: int)
    requires 0 <= i < |meetings|
    ensures Flat(meetings[..i + 1]) == Flat(meetings[..i]) + meetings[i].raw.body.participantIds
  {
    assert meetings[..i + 1][..i] == meetings[..i];
  }

  /** Every id that takes part in some meeting, each once. */
  function AllParticipants(meetings: seq<Meeting>): seq<string>
  {
    Dedup(Flat(meetings))
  }

  /** The filter `user => userIds.includes(user._id)` on raw user records. */
  function IdIn(ids: seq<string>): Raw<UserBody> -> bool
  {
    (r: Raw<UserBody>) => r.id in ids
  }

  /** The users `getMeetings` loads: those taking part in some meeting. */
  function Known(users: seq<User>, meetings: seq<Meeting>): seq<User>
  {
    Select(users, IdIn(AllParticipants(meetings)))
  }

  predicate HasUserId(people: seq<User>, id: string)
  {
    exists k | 0 <= k < |people| :: people[k].raw.id == id
  }

  /** One step of listing a meeting's participants: the first loaded user
      with the id joins the list, unless a user with that id is already on it. */
  function Admit(acc: seq<User>, known: seq<User>, id: string): seq<User>
  {
    match First(known, HasId(id))
    case None => acc
    case Some(u) => if HasUserId(acc, u.raw.id) then acc else acc + [u]
  }

  lemma AdmitKeeps(acc: seq<User>, known: seq<User>, id: string, x: string)
    requires HasUserId(acc, x)
    ensures HasUserId(Admit(acc, known, id), x)
  {
    if First(known, HasId(id)).Some? {
      HasUserIdSnoc(acc, First(known, HasId(id)).value, x);
    }
  }

  lemma AdmitAdds(acc: seq<User>, known: seq<User>, id: string, w: User)
    requires w in known && w.raw.id == id
    ensures HasUserId(Admit(acc, known, id), id)
  {
    assert HasId(id)(w.raw);
    HasUserIdSnoc(acc, First(known, HasId(id)).value, id);
  }

  /** The participants of a meeting: for each participant id, the first loaded
      user with that id, unless a user with that id is already listed. */
  function People(known: seq<User>, ids: seq<string>): (r: seq<User>)
    ensures forall p | p in r :: p in known && p.raw.id in ids
    ensures forall p | p in r :: First(known, HasId(p.raw.id)) == Some(p)
    ensures forall i, j | 0 <= i < j < |r| :: r[i].raw.id != r[j].raw.id
  {
    if ids == [] then []
    else
      var init := ids[..|ids| - 1];
      var id := ids[|ids| - 1];
      var acc := People(known, init);
      assert ids == init + [id];
      Admit(acc, known, id)
  }

  lemma HasUserIdSnoc(people: seq<User>, u: User, id: string)
    ensures HasUserId(people + [u], id) <==> HasUserId(people, id) || u.raw.id == id
  {
    if HasUserId(people, id) {
      var k :| 0 <= k < |people| && people[k].raw.id == id;
      assert (people + [u])[k] == people[k];
    }
    if u.raw.id == id {
      assert (people + [u])[|people|] == u;
    }
  }

  /** Every participant id that some loaded user has is listed. */
  lemma {:induction false} PeopleCovers(known: seq<User>, ids: seq<string>, id: string)
    requires id in ids && exists u | u in known :: u.raw.id == id
    ensures HasUserId(People(known, ids), id)
  {
    var init := ids[..|ids| - 1];
    var last := ids[|ids| - 1];
    assert ids == init + [last];
    if id in init {
      PeopleCovers(known, init, id);
      AdmitKeeps(People(known, init), known, last, id);
    } else {
      var w :| w in known && w.raw.id == id;
      AdmitAdds(People(known, init), known, last, w);
    }
  }

  /** The users appear in the order their ids first appear in `ids`. */
  predicate InFirstSeenOrder(people: seq<User>, ids: seq<string>)
  {
    forall i, j | 0 <= i < j < |people| ::
      people[i].raw.id in ids && people[j].raw.id in ids &&
      FirstPos(ids, people[i].raw.id) < FirstPos(ids, people[j].raw.id)
  }

  /** A later id changes no earlier first position. */
  lemma OrderExtend(people: seq<User>, ids: seq<string>, id: string)
    requires InFirstSeenOrder(people, ids)
    ensures InFirstSeenOrder(people, ids + [id])
  {
    forall p | p in people && p.raw.id in ids
      ensures FirstPos(ids + [id], p.raw.id) == FirstPos(ids, p.raw.id)
    {
      FirstPosSnoc(ids, id, p.raw.id);
    }
    forall i, j | 0 <= i < j < |people|
      ensures people[i].raw.id in ids + [id] && people[j].raw.id in ids + [id] &&
              FirstPos(ids + [id], people[i].raw.id) < FirstPos(ids + [id], people[j].raw.id)
    {
      assert people[i] in people && people[j] in people;
    }
  }

  /** A user whose id is new in `ids` may join at the end. */
  lemma OrderSnoc(people: seq<User>, ids: seq<string>, u: User)
    requires InFirstSeenOrder(people, ids)
    requires forall p | p in people :: p.raw.id in ids
    requires u.raw.id !in ids
    ensures InFirstSeenOrder(people + [u], ids + [u.raw.id])
  {
    var r := people + [u];
    OrderExtend(people, ids, u.raw.id);
    FirstPosSnoc(ids, u.raw.id, u.raw.id);
    forall i, j | 0 <= i < j < |r|
      ensures FirstPos(ids + [u.raw.id], r[i].raw.id) < FirstPos(ids + [u.raw.id], r[j].raw.id)
    {
      assert r[i] == people[i] && people[i] in people;
      if j < |people| {
        assert r[j] == people[j];
      }
    }
  }

  /** The participants are listed in the order their ids first appear among
      the meeting's participant ids. */
  lemma {:induction false} PeopleOrder(known: seq<User>, ids: seq<string>)
    ensures InFirstSeenOrder(People(known, ids), ids)
  {
    if ids != [] {
      var init := ids[..|ids| - 1];
      var id := ids[|ids| - 1];
      assert ids == init + [id];
      PeopleOrder(known, init);
      var acc := People(known, init);
      if People(known, ids) == acc {
        OrderExtend(acc, init, id);
      } else {
        var u := First(known, HasId(id)).value;
        assert id !in init by {
          if id in init {
            PeopleCovers(known, init, id);
          }
        }
        OrderSnoc(acc, init, u);
      }
    }
  }

  /** A user as a meeting view shows it. */
  datatype Person = Person(id: string, display: string)

  function PersonOf(user: User): Person
  {
    Person(user.raw.id, user.raw.body.displayName)
  }

  function PersonsOf(users: seq<User>): (r: seq<Person>)
    ensures |r| == |users|
    ensures forall k | 0 <= k < |r| :: r[k] == PersonOf(users[k])
  {
    if users == [] then [] else [PersonOf(users[0])] + PersonsOf(users[1..])
  }

  /** One entry of the `getMeetings` reply. */
  datatype MeetingView = MeetingView(
    id: string, title: string, description: string, start: int, end: Option<int>,
    location: string, owner: Person, participants: seq<Person>)

  /** The meeting is listed: its owner is among the loaded users. */
  predicate Listed(known: seq<User>, meeting: Meeting)
  {
    First(known, HasId(meeting.raw.body.ownerId)).Some?
  }

  function View(known: seq<User>, meeting: Meeting): MeetingView
    requires Listed(known, meeting)
  {
    var body := meeting.raw.body;
    MeetingView(meeting.raw.id, body.title, body.description, body.startDate, body.endDate, body.location,
                PersonOf(First(known, HasId(body.ownerId)).value), PersonsOf(People(known, body.participantIds)))
  }

  /** The reply: one view per listed meeting, in store order; the meetings
      whose owner was not loaded are skipped. `ViewsAppend` and `ViewsOne`
      state this. */
  function Views(known: seq<User>, meetings: seq<Meeting>): (r: seq<MeetingView>)
    ensures |r| <= |meetings|
  {
    if meetings == [] then []
    else
      var m := meetings[|meetings| - 1];
      var acc := Views(known, meetings[..|meetings| - 1]);
      if Listed(known, m) then acc + [View(known, m)] else acc
  }

  /** The reply keeps store order: the views of two stretches of the store
      are the views of the first followed by the views of the second. */
  lemma {:induction false} ViewsAppend(known: seq<User>, a: seq<Meeting>, b: seq<Meeting>)
    ensures Views(known, a + b) == Views(known, a) + Views(known, b)
  {
    if b == [] {
      assert a + b == a;
    } else {
      var init := b[..|b| - 1];
      var m := b[|b| - 1];
      assert (a + b)[..|a + b| - 1] == a + init;
      assert (a + b)[|a + b| - 1] == m;
      ViewsAppend(known, a, init);
      var tail := if Listed(known, m) then [View(known, m)] else [];
      calc {
        Views(known, a + b);
        Views(known, a + init) + tail;
        (Views(known, a) + Views(known, init)) + tail;
        Views(known, a) + (Views(known, init) + tail);
      }
    }
  }

  /** A single meeting gives its view exactly when its owner was loaded. */
  lemma ViewsOne(known: seq<User>, m: Meeting)
    ensures Views(known, [m]) == if Listed(known, m) then [View(known, m)] else []
  {
    assert [m][..0] == [];
  }

  /** Every listed meeting has its view in the reply. */
  lemma {:induction false} ViewsComplete(known: seq<User>, meetings: seq<Meeting>, m: Meeting)
    requires m in meetings && Listed(known, m)
    ensures View(known, m) in Views(known, meetings)
  {
    var init := meetings[..|meetings| - 1];
    var last := meetings[|meetings| - 1];
    assert meetings == init + [last];
    if m != last {
      assert m in init;
      ViewsComplete(known, init, m);
    }
  }

  /** Every view in the reply is the view of a listed meeting. */
  lemma {:induction false} ViewsSound(known: seq<User>, meetings: seq<Meeting>, v: MeetingView)
    requires v in Views(known, meetings)
    ensures exists m | m in meetings :: Listed(known, m) && v == View(known, m)
  {
    var init := meetings[..|meetings| - 1];
    var last := meetings[|meetings| - 1];
    assert meetings == init + [last];
    if v in Views(known, init) {
      ViewsSound(known, init, v);
      var m :| m in init && Listed(known, m) && v == View(known, m);
      assert m in meetings;
    } else {
      assert last in meetings;
    }
  }

  /** A meeting is listed exactly when its owner takes part in some meeting
      and a user with the owner's id exists. */
  lemma OwnerFoundIff(users: seq<User>, meetings: seq<Meeting>, meeting: Meeting)
    ensures Listed(Known(users, meetings), meeting) <==>
              (exists m | m in meetings :: meeting.raw.body.ownerId in m.raw.body.participantIds) &&
              (exists u | u in users :: u.raw.id == meeting.raw.body.ownerId)
  {
    var owner := meeting.raw.body.ownerId;
    var known := Known(users, meetings);
    FlatMembers(meetings, owner);
    if Listed(known, meeting) {
      var u := First(known, HasId(owner)).value;
      assert u in users && u.raw.id in AllParticipants(meetings);
    } else {
      assert forall d | d in known :: d.raw.id != owner;
      assert owner in AllParticipants(meetings) ==> forall u | u in users :: u.raw.id != owner;
    }
  }

  /** The inner loop of the first loop of `getMeetings`: pushes each id of one
      meeting that is not yet in the list. */
  method PushNew(userIds: seq<string>, ghost seen: seq<string>, ids: seq<string>) returns (result: seq<string>)
    requires userIds == Dedup(seen)
    ensures result == Dedup(seen + ids)
  {
    result := userIds;
    ghost var pushed := seen;
    var j := 0;
    while j < |ids|
      invariant 0 <= j <= |ids|
      invariant pushed == seen + ids[..j]
      invariant result == Dedup(pushed)
    {
      DedupSnoc(pushed, ids[j]);
      if ids[j] !in result {
        result := result + [ids[j]];
      }
      pushed := pushed + [ids[j]];
      assert ids[..j + 1] == ids[..j] + [ids[j]];
      j := j + 1;
    }
    assert ids[..j] == ids;
  }

  /** The first loop of `getMeetings`: every participant id, each once, in
      order of first appearance. */
  method CollectParticipants(all: seq<Meeting>) returns (userIds: seq<string>)
    ensures userIds == AllParticipants(all)
  {
    userIds := [];
    var i := 0;
    while i < |all|
      invariant 0 <= i <= |all|
      invariant userIds == Dedup(Flat(all[..i]))
    {
      userIds := PushNew(userIds, Flat(all[..i]), all[i].raw.body.participantIds);
      FlatSnoc(all, i);
      i := i + 1;
    }
    assert all[..i] == all;
  }

  /** The participant loop of `getMeetings` for one meeting. */
  method CollectPeople(known: seq<User>, ids: seq<string>) returns (participants: seq<User>)
    ensures participants == People(known, ids)
  {
    participants := [];
    var j := 0;
    while j < |ids|
      invariant 0 <= j <= |ids|
      invariant participants == People(known, ids[..j])
    {
      assert ids[..j + 1][..j] == ids[..j];
      var participant := First(known, HasId(ids[j]));
      if participant.Some? && !HasUserId(participants, participant.value.raw.id) {
        participants := participants + [participant.value];
      }
      j := j + 1;
    }
    assert ids[..j] == ids;
  }

  /** The second loop of `getMeetings`: the views of the listed meetings. */
  method CollectViews(known: seq<User>, all: seq<Meeting>) returns (results: seq<MeetingView>)
    ensures results == Views(known, all)
  {
    results := [];
    var i := 0;
    while i < |all|
      invariant 0 <= i <= |all|
      invariant results == Views(known, all[..i])
    {
      var meeting := all[i];
      assert all[..i + 1][..i] == all[..i];
      var owner := First(known, HasId(meeting.raw.body.ownerId));
      if owner.Some? {
        var participants := CollectPeople(known, meeting.raw.body.participantIds);
        var body := meeting.raw.body;
        results := results + [MeetingView(meeting.raw.id, body.title, body.description, body.startDate, body.endDate,
                                          body.location, PersonOf(owner.value), PersonsOf(participants))];
      }
      i := i + 1;
    }
    assert all[..i] == all;
  }

  /** `getMeetings`: an unauthenticated request is refused; otherwise the
      views of all meetings, read back from the store. */
  method GetMeetings(users: Collection<UserBody>, sessions: Collection<SessionBody>, meetings: Collection<MeetingBody>,
                     query: Param, header: Param, now: int)
    returns (r: Result<seq<MeetingView>, string>)
    ensures GetAuth(users.docs, sessions.docs, query, header, now).None? ==> r == Err("Unauthorized")
    ensures GetAuth(users.docs, sessions.docs, query, header, now).Some? ==>
              var all := ReadMeetings(meetings.docs);
              r == Ok(Views(Known(users.docs, all), all))
  {
    var auth := GetAuth(users.docs, sessions.docs, query, header, now);
    if auth.None? {
      return Err("Unauthorized");
    }
    SelectEverything(meetings.docs);
    var all := MeetingsByFilter(meetings.docs, Everything());
    assert all == ReadMeetings(meetings.docs);
    var userIds := CollectParticipants(all);
    var known := Select(users.docs, IdIn(userIds));
    var results := CollectViews(known, all);
    r := Ok(results);
  }
}
