/**
 * The meeting action over the `meeting` table. The table is meant to hold one
 * row, but the schema does not enforce it: `updateMeeting` reads the table
 * and updates a row it finds, or inserts one when it finds none, and that
 * alone keeps the table at one row under sequential calls.
 */
module MeetingActions {
  import opened Wrappers
  import opened Schema
  import opened Types
  import opened Forms
  import opened Auth
  import opened Actions

  /** The pages revalidated after a successful meeting update. */
  const MeetingPaths: seq<string> := ["/", "/admin"]

  const MissingMeetingFields := "Title, datetime, and location are required"

  /** The required-field check: `title`, `datetime` and `location` are not blank. */
  predicate MeetingFieldsPresent(form: FormData) {
    !Blank(Get(form, "title")) && !Blank(Get(form, "datetime")) && !Blank(Get(form, "location"))
  }

  /**
   * The row as either branch leaves it: blank `details` and `rsvpLink` become
   * null, the date is the form's text taken as a timestamp, and `updatedAt` is
   * the time of the call (set explicitly on update, by the column default on insert).
   */
  function MeetingFromForm(id: int, form: FormData, now: Timestamp): (m: Meeting)
    requires MeetingFieldsPresent(form)
    ensures StoredMeeting(m)
    ensures m.id == id && m.title == form["title"] && m.datetime.text == form["datetime"] && m.location == form["location"]
    ensures NullOrField(m.details, Get(form, "details")) && NullOrField(m.rsvpLink, Get(form, "rsvpLink"))
    ensures m.updatedAt == now
  {
    Meeting(
      id := id,
      title := form["title"],
      datetime := Timestamp(form["datetime"]),
      location := form["location"],
      details := OrNull(Get(form, "details")),
      rsvpLink := OrNull(Get(form, "rsvpLink")),
      updatedAt := now)
  }

  /** What the action keeps true of the stored meeting. */
  predicate StoredMeeting(m: Meeting) {
    m.title != "" && m.datetime.text != "" && m.location != "" && Normalised(m.details) && Normalised(m.rsvpLink)
  }

  class MeetingTable {
    var rows: map<int, Meeting>
    /** The next value of the `serial` id sequence. */
    var nextId: int
    /** The paths passed to `revalidatePath`, oldest first. */
    ghost var invalidated: seq<string>

    /** Rows are stored under their own ids; nothing here bounds how many there are. */
    ghost predicate Valid()
      reads this
    {
      && FirstSerial <= nextId
      && forall id :: id in rows ==> rows[id].id == id && FirstSerial <= id < nextId && StoredMeeting(rows[id])
    }

    constructor ()
      ensures Valid() && rows == map[] && nextId == FirstSerial && invalidated == []
    {
      rows := map[];
      nextId := FirstSerial;
      invalidated := [];
    }

    /**
     * `updateMeeting`: after the admin and field checks, selects one row
     * (which one, when there are several, is the store's choice); if there is
     * one it is overwritten in place, otherwise one row is inserted.
     */
    method Update(caller: Caller, env: Option<string>, form: FormData, now: Timestamp) returns (r: ActionResult)
      requires Valid()
      modifies this
      ensures Valid()
      ensures r == Outcome(caller, env, MeetingFieldsPresent(form), MissingMeetingFields, "Meeting updated successfully")
      ensures !r.success ==> rows == old(rows) && nextId == old(nextId) && invalidated == old(invalidated)
      ensures r.success && |old(rows)| > 0 ==>
        && nextId == old(nextId)
        && exists id :: id in old(rows) && rows == old(rows)[id := MeetingFromForm(id, form, now)]
      ensures r.success && |old(rows)| == 0 ==>
        rows == map[old(nextId) := MeetingFromForm(old(nextId), form, now)] && nextId == old(nextId) + 1
      ensures r.success ==> invalidated == old(invalidated) + MeetingPaths
      ensures |old(rows)| <= 1 ==> |rows| <= 1
      ensures r.success ==> |rows| == if |old(rows)| == 0 then 1 else |old(rows)|
    {
      if !IsAdmin(caller, env) {
        return AuthFailure(caller, env);
      }
      if !MeetingFieldsPresent(form) {
        return Failed(MissingMeetingFields);
      }
      Upsert(form, now);
      invalidated := invalidated + MeetingPaths;
      r := Succeeded("Meeting updated successfully");
    }

    /**
     * The read-then-branch: overwrite a row if the select found one, insert
     * otherwise. The scan finds the lowest id; the contract promises only
     * some existing row, as the store does.
     */
    method Upsert(form: FormData, now: Timestamp)
      requires Valid() && MeetingFieldsPresent(form)
      modifies this`rows, this`nextId
      ensures Valid()
      ensures |old(rows)| > 0 ==>
        && nextId == old(nextId)
        && exists id :: id in old(rows) && rows == old(rows)[id := MeetingFromForm(id, form, now)]
      ensures |old(rows)| == 0 ==>
        rows == map[old(nextId) := MeetingFromForm(old(nextId), form, now)] && nextId == old(nextId) + 1
      ensures |rows| == if |old(rows)| == 0 then 1 else |old(rows)|
    {
      // `select().from(meeting).limit(1)`: scan the id range for a stored row.
      var id := FirstSerial;
      while id < nextId && id !in rows
        invariant FirstSerial <= id <= nextId
        invariant forall k :: FirstSerial <= k < id ==> k !in rows
        decreases nextId - id
      {
        id := id + 1;
      }
      if id < nextId {
        rows := rows[id := MeetingFromForm(id, form, now)];
        assert rows.Keys == old(rows).Keys;
      } else {
        assert rows == map[];
        rows := map[nextId := MeetingFromForm(nextId, form, now)];
        nextId := nextId + 1;
      }
    }
  }

  /**
   * The intended behaviour under sequential calls: from an empty table, a
   * first successful update creates one row and a second one overwrites that
   * same row, so the table ends with exactly one row holding the second form.
   */
  method TwoUpdatesKeepOneRow(table: MeetingTable, caller: Caller, env: Option<string>,
                              first: FormData, second: FormData, t1: Timestamp, t2: Timestamp)
    requires table.Valid() && table.rows == map[]
    requires IsAdmin(caller, env) && MeetingFieldsPresent(first) && MeetingFieldsPresent(second)
    modifies table
    ensures |table.rows| == 1
    ensures exists id :: table.rows == map[id := MeetingFromForm(id, second, t2)]
  {
    var r1 := table.Update(caller, env, first, t1);
    ghost var id :| table.rows == map[id := MeetingFromForm(id, first, t1)];
    var r2 := table.Update(caller, env, second, t2);
    assert table.rows == map[id := MeetingFromForm(id, second, t2)];
  }
}
