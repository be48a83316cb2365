/**
 * The board-member actions over the `board_members` table: create, update,
 * delete (which also removes the member's photo from the blob store) and
 * reorder.
 */
module BoardActions {
  import opened Wrappers
  import opened Schema
  import opened Types
  import opened Forms
  import opened Auth
  import opened Actions
  import opened Ordering
  import Upload

  /** The pages revalidated after a successful board mutation. */
  const BoardPaths: seq<string> := ["/board", "/admin"]

  const MissingNameOrRole := "Name and role are required"

  /** The required-field check of create and update: `name` and `role` are not blank. */
  predicate BoardFieldsPresent(form: FormData) {
    !Blank(Get(form, "name")) && !Blank(Get(form, "role"))
  }

  /** The row written by create and update: blank optional fields become null, sortOrder is parsed or 0. */
  function MemberFromForm(id: int, form: FormData): (m: BoardMember)
    requires BoardFieldsPresent(form)
    ensures StoredMember(m)
    ensures m.id == id && m.name == form["name"] && m.role == form["role"]
    ensures NullOrField(m.bio, Get(form, "bio")) && NullOrField(m.photoUrl, Get(form, "photoUrl"))
    ensures NullOrField(m.linkedinUrl, Get(form, "linkedinUrl")) && NullOrField(m.githubUrl, Get(form, "githubUrl"))
    ensures ParsedOrZero(m.sortOrder, Get(form, "sortOrder"))
    ensures m.isActive <==> "isActive" in form && form["isActive"] == "true"
  {
    BoardMember(
      id := id,
      name := form["name"],
      role := form["role"],
      bio := OrNull(Get(form, "bio")),
      photoUrl := OrNull(Get(form, "photoUrl")),
      linkedinUrl := OrNull(Get(form, "linkedinUrl")),
      githubUrl := OrNull(Get(form, "githubUrl")),
      sortOrder := IntOrZero(Get(form, "sortOrder")),
      isActive := IsTrueText(Get(form, "isActive")))
  }

  /** What the actions keep true of every stored member: required text non-empty, optional text null or non-empty. */
  predicate StoredMember(m: BoardMember) {
    m.name != "" && m.role != ""
    && Normalised(m.bio) && Normalised(m.photoUrl) && Normalised(m.linkedinUrl) && Normalised(m.githubUrl)
  }

  /** `if (member.photoUrl)`: a photo URL that is neither null nor empty. */
  predicate HasPhoto(m: BoardMember) {
    m.photoUrl.Some? && m.photoUrl.value != ""
  }

  /** For a stored member, the truthiness test on photoUrl is just "not null". */
  lemma HasPhotoIsNonNull(m: BoardMember)
    requires StoredMember(m)
    ensures HasPhoto(m) <==> m.photoUrl.Some?
  {
  }

  class BoardTable {
    var rows: map<int, BoardMember>
    /** The next value of the `serial` id sequence. */
    var nextId: int
    /** The paths passed to `revalidatePath`, oldest first. */
    ghost var invalidated: seq<string>

    /** Each row is stored under its own id, below the sequence's next value, and is a valid stored member. */
    ghost predicate Valid()
      reads this
    {
      && FirstSerial <= nextId
      && forall id :: id in rows ==> rows[id].id == id && FirstSerial <= id < nextId && StoredMember(rows[id])
    }

    /** The sortOrder column, by row id. */
    function SortOrders(): map<int, int>
      reads this
    {
      map id | id in rows :: rows[id].sortOrder
    }

    constructor ()
      ensures Valid() && rows == map[] && nextId == FirstSerial && invalidated == []
    {
      rows := map[];
      nextId := FirstSerial;
      invalidated := [];
    }

    /** `createBoardMember`: inserts one row under a fresh id. */
    method Create(caller: Caller, env: Option<string>, form: FormData) returns (r: ActionResult)
      requires Valid()
      modifies this
      ensures Valid()
      ensures r == Outcome(caller, env, BoardFieldsPresent(form), MissingNameOrRole, "Board member created successfully")
      ensures r.success ==>
        && old(nextId) !in old(rows)
        && rows == old(rows)[old(nextId) := MemberFromForm(old(nextId), form)]
        && nextId == old(nextId) + 1
        && invalidated == old(invalidated) + BoardPaths
      ensures !r.success ==> rows == old(rows) && nextId == old(nextId) && invalidated == old(invalidated)
    {
      if !IsAdmin(caller, env) {
        return AuthFailure(caller, env);
      }
      if !BoardFieldsPresent(form) {
        return Failed(MissingNameOrRole);
      }
      Insert(form);
      invalidated := invalidated + BoardPaths;
      r := Succeeded("Board member created successfully");
    }

    /**
     * `updateBoardMember`: replaces all eight fields of the row with that id;
     * no other row changes, and it reports success even when no row has that id.
     */
    method Update(caller: Caller, env: Option<string>, id: int, form: FormData) returns (r: ActionResult)
      requires Valid()
      modifies this
      ensures Valid() && nextId == old(nextId)
      ensures r == Outcome(caller, env, BoardFieldsPresent(form), MissingNameOrRole, "Board member updated successfully")
      ensures r.success ==>
        && rows == (if id in old(rows) then old(rows)[id := MemberFromForm(id, form)] else old(rows))
        && invalidated == old(invalidated) + BoardPaths
      ensures !r.success ==> rows == old(rows) && invalidated == old(invalidated)
    {
      if !IsAdmin(caller, env) {
        return AuthFailure(caller, env);
      }
      if !BoardFieldsPresent(form) {
        return Failed(MissingNameOrRole);
      }
      Replace(id, form);
      invalidated := invalidated + BoardPaths;
      r := Succeeded("Board member updated successfully");
    }

    /** `db.insert(boardMembers).values(...)`: one row under the next value of the id sequence. */
    method Insert(form: FormData)
      requires Valid() && BoardFieldsPresent(form)
      modifies this`rows, this`nextId
      ensures Valid()
      ensures old(nextId) !in old(rows)
      ensures rows == old(rows)[old(nextId) := MemberFromForm(old(nextId), form)]
      ensures nextId == old(nextId) + 1
    {
      var row := MemberFromForm(nextId, form);
      rows := rows[nextId := row];
      nextId := nextId + 1;
    }

    /** `db.update(boardMembers).set(...).where(eq(boardMembers.id, id))`: rewrites the row with that id, if there is one. */
    method Replace(id: int, form: FormData)
      requires Valid() && BoardFieldsPresent(form)
      modifies this`rows
      ensures Valid()
      ensures rows == if id in old(rows) then old(rows)[id := MemberFromForm(id, form)] else old(rows)
    {
      if id in rows {
        var row := MemberFromForm(id, form);
        rows := rows[id := row];
      }
    }

    /**
     * `deleteBoardMember`: an absent id is reported as not found; otherwise the
     * row is removed and then, if it had a photo, `deleteImage` is called on it.
     * That call's result is ignored, so the action succeeds either way.
     */
    method Delete(caller: Caller, env: Option<string>, id: int, store: Upload.BlobStore, del: Upload.DelOutcome)
      returns (r: ActionResult)
      requires Valid()
      modifies this, store
      ensures Valid() && nextId == old(nextId)
      ensures !IsAdmin(caller, env) ==>
        r == AuthFailure(caller, env) && rows == old(rows) && store.urls == old(store.urls)
      ensures IsAdmin(caller, env) && id !in old(rows) ==>
        r == Failed("Board member not found") && rows == old(rows) && store.urls == old(store.urls)
      ensures IsAdmin(caller, env) && id in old(rows) ==>
        && r == Succeeded("Board member deleted successfully")
        && rows == old(rows) - {id}
        && store.urls == (if HasPhoto(old(rows)[id]) && del.Removed?
                          then old(store.urls) - {old(rows)[id].photoUrl.value}
                          else old(store.urls))
      ensures invalidated == if r.success then old(invalidated) + BoardPaths else old(invalidated)
    {
      if !IsAdmin(caller, env) {
        return AuthFailure(caller, env);
      }
      if id !in rows {
        return Failed("Board member not found");
      }
      var member := rows[id];
      rows := rows - {id};
      if HasPhoto(member) {
        var ignored := store.DeleteImage(caller, env, member.photoUrl.value, del);
      }
      invalidated := invalidated + BoardPaths;
      r := Succeeded("Board member deleted successfully");
    }

    /**
     * `reorderBoardMembers`: writes position i into the sortOrder of
     * `orderedIds[i]`, in list order; the list is not checked.
     */
    method Reorder(caller: Caller, env: Option<string>, orderedIds: seq<int>) returns (r: ActionResult)
      requires Valid()
      modifies this
      ensures Valid() && nextId == old(nextId)
      ensures r == Outcome(caller, env, true, "", "Board members reordered successfully")
      ensures rows.Keys == old(rows).Keys
      ensures forall id :: id in rows ==> rows[id] == old(rows)[id].(sortOrder := rows[id].sortOrder)
      ensures SortOrders() == if r.success then Reordered(old(SortOrders()), orderedIds) else old(SortOrders())
      ensures invalidated == if r.success then old(invalidated) + BoardPaths else old(invalidated)
    {
      if !IsAdmin(caller, env) {
        return AuthFailure(caller, env);
      }
      WritePositions(orderedIds);
      invalidated := invalidated + BoardPaths;
      r := Succeeded("Board members reordered successfully");
    }

    /** The loop of the reorder action: one sortOrder write per list position, in order. */
    method WritePositions(orderedIds: seq<int>)
      requires Valid()
      modifies this`rows
      ensures Valid()
      ensures rows.Keys == old(rows).Keys
      ensures forall id :: id in rows ==> rows[id] == old(rows)[id].(sortOrder := rows[id].sortOrder)
      ensures SortOrders() == Reordered(old(SortOrders()), orderedIds)
    {
      for i := 0 to |orderedIds|
        invariant rows.Keys == old(rows).Keys
        invariant forall id :: id in rows ==> rows[id] == old(rows)[id].(sortOrder := rows[id].sortOrder)
        invariant forall id :: id in rows ==> rows[id].sortOrder == SortAfter(orderedIds[..i], id, old(rows)[id].sortOrder)
      {
        var id := orderedIds[i];
        if id in rows {
          rows := rows[id := rows[id].(sortOrder := i)];
        }
        forall other | other in rows
          ensures rows[other].sortOrder == SortAfter(orderedIds[..i + 1], other, old(rows)[other].sortOrder)
        {
          SortAfterStep(orderedIds, i, other, old(rows)[other].sortOrder);
        }
      }
      assert orderedIds[..|orderedIds|] == orderedIds;
    }
  }
}
