/** The meetings collection (src/database/MeetingDatabase.ts). A meeting's end
    date is optional; it is read back through a truthiness test, so a stored
    end date of 0 reads back as no end date. */
module MeetingDatabase {
  import opened Common
  import opened Store

  /** The fields of a meeting record besides its id and timestamps. */
  datatype MeetingBody = MeetingBody(
    title: string, description: string, startDate: int, endDate: Option<int>,
    location: string, ownerId: string, participantIds: seq<string>)

  type Meeting = Doc<MeetingBody>

  /** `meeting.endDate ? new Date(meeting.endDate) : null` on a stored end date. */
  function ReadEndDate(stored: Option<int>): (r: Option<int>)
    ensures r.None? <==> stored.None? || stored == Some(0)
    ensures r.Some? ==> r == stored
  {
    match stored
    case Some(t) => if t != 0 then Some(t) else None
    case None => None
  }

  /** A stored meeting as the read path returns it. */
  function ReadMeeting(d: Meeting): (m: Meeting)
    ensures m.key == d.key && m.raw.id == d.raw.id
    ensures m.raw.createdAt == d.raw.createdAt && m.raw.updatedAt == d.raw.updatedAt
    ensures m.raw.body.endDate == ReadEndDate(d.raw.body.endDate)
    ensures m.raw.body.(endDate := d.raw.body.endDate) == d.raw.body
  {
    d.(raw := d.raw.(body := d.raw.body.(endDate := ReadEndDate(d.raw.body.endDate))))
  }

  /** The read mapping applied to a list of stored meetings, in order. */
  function ReadMeetings(ds: seq<Meeting>): (ms: seq<Meeting>)
    ensures |ms| == |ds|
    ensures forall i | 0 <= i < |ds| :: ms[i] == ReadMeeting(ds[i])
  {
    if ds == [] then [] else [ReadMeeting(ds[0])] + ReadMeetings(ds[1..])
  }

  /** `getMeetingsByFilter`: the meetings whose stored record satisfies the
      filter, in store order, with end dates read back. */
  function MeetingsByFilter(meetings: seq<Meeting>, f: Raw<MeetingBody> -> bool): (r: seq<Meeting>)
    ensures |r| == |Select(meetings, f)|
    ensures forall i | 0 <= i < |r| :: r[i] == ReadMeeting(Select(meetings, f)[i])
  {
    ReadMeetings(Select(meetings, f))
  }

  /** `getMeetingById`: the first meeting with that id, read back, or nothing. */
  function MeetingById(meetings: seq<Meeting>, id: string): (r: Option<Meeting>)
    ensures r.None? <==> forall m | m in meetings :: m.raw.id != id
    ensures r.Some? ==> r.value == ReadMeeting(meetings[FirstIndex(meetings, HasId(id))])
  {
    match First(meetings, HasId(id))
    case Some(m) => Some(ReadMeeting(m))
    case None => None
  }

  /** `createOrUpdateMeeting`: upserts the meeting as given (a given end date,
      0 included, is stored as is) and returns the stored record read back. */
  method CreateOrUpdateMeeting(meetings: Collection<MeetingBody>, id: string, body: MeetingBody, now: int, freshKey: Key)
    returns (m: Meeting)
    requires meetings.Valid()
    modifies meetings
    ensures meetings.Valid()
    ensures meetings.docs == Upserted(old(meetings.docs), id, body, now, freshKey)
    ensures var stored := Stamped(old(meetings.docs), id, body, now, freshKey);
            stored in meetings.docs && stored.raw.body.endDate == body.endDate && m == ReadMeeting(stored)
  {
    UpsertedMembers(meetings.docs, id, body, now, freshKey);
    var stored := meetings.Upsert(id, body, now, freshKey);
    m := ReadMeeting(stored);
  }

  /** An end date survives a write and a read unless it is 0. */
  lemma EndDateRoundTrip(meetings: seq<Meeting>, id: string, body: MeetingBody, now: int, freshKey: Key)
    requires UniqueKeys(meetings) && UniqueIds(meetings)
    ensures var m := MeetingById(Upserted(meetings, id, body, now, freshKey), id);
            m.Some? && (m.value.raw.body.endDate.None? <==> body.endDate.None? || body.endDate == Some(0))
  {
    UpsertedKeepsIdsUnique(meetings, id, body, now, freshKey);
  }
}
