/** The tutorial actions over the `tutorials` table: create, update, delete and reorder. */
module TutorialActions {
  import opened Wrappers
  import opened Schema
  import opened Types
  import opened Forms
  import opened Auth
  import opened Actions
  import opened Ordering

  /** The pages revalidated after a successful tutorial mutation. */
  const TutorialPaths: seq<string> := ["/tutorials", "/admin"]

  const MissingTitleUrlOrCategory := "Title, URL, and category are required"

  /** The required-field check of create and update: `title`, `url` and `category` are not blank. */
  predicate TutorialFieldsPresent(form: FormData) {
    !Blank(Get(form, "title")) && !Blank(Get(form, "url")) && !Blank(Get(form, "category"))
  }

  /** The row written by create (and, keeping `createdAt`, by update). */
  function TutorialFromForm(id: int, form: FormData, createdAt: Timestamp): (t: Tutorial)
    requires TutorialFieldsPresent(form)
    ensures StoredTutorial(t)
    ensures t.id == id && t.title == form["title"] && t.url == form["url"] && t.category == form["category"]
    ensures t.createdAt == createdAt && ParsedOrZero(t.sortOrder, Get(form, "sortOrder"))
  {
    Tutorial(
      id := id,
      title := form["title"],
      url := form["url"],
      category := form["category"],
      sortOrder := IntOrZero(Get(form, "sortOrder")),
      createdAt := createdAt)
  }

  /** What the actions keep true of every stored tutorial: its three text columns are non-empty. */
  predicate StoredTutorial(t: Tutorial) {
    t.title != "" && t.url != "" && t.category != ""
  }

  class TutorialTable {
    var rows: map<int, Tutorial>
    /** The next value of the `serial` id sequence. */
    var nextId: int
    /** The paths passed to `revalidatePath`, oldest first. */
    ghost var invalidated: seq<string>

    ghost predicate Valid()
      reads this
    {
      && FirstSerial <= nextId
      && forall id :: id in rows ==> rows[id].id == id && FirstSerial <= id < nextId && StoredTutorial(rows[id])
    }

    /** The sortOrder column, by row id. */
    function SortOrders(): map<int, int>
      reads this
    {
      map id | id in rows :: rows[id].sortOrder
    }

    constructor ()
      ensures Valid() && rows == map[] && nextId == FirstSerial && invalidated == []
    {
      rows := map[];
      nextId := FirstSerial;
      invalidated := [];
    }

    /** `createTutorial`: inserts one row under a fresh id, created `now`. */
    method Create(caller: Caller, env: Option<string>, form: FormData, now: Timestamp) returns (r: ActionResult)
      requires Valid()
      modifies this
      ensures Valid()
      ensures r == Outcome(caller, env, TutorialFieldsPresent(form), MissingTitleUrlOrCategory, "Tutorial created successfully")
      ensures r.success ==>
        && old(nextId) !in old(rows)
        && rows == old(rows)[old(nextId) := TutorialFromForm(old(nextId), form, now)]
        && nextId == old(nextId) + 1
        && invalidated == old(invalidated) + TutorialPaths
      ensures !r.success ==> rows == old(rows) && nextId == old(nextId) && invalidated == old(invalidated)
    {
      if !IsAdmin(caller, env) {
        return AuthFailure(caller, env);
      }
      if !TutorialFieldsPresent(form) {
        return Failed(MissingTitleUrlOrCategory);
      }
      Insert(form, now);
      invalidated := invalidated + TutorialPaths;
      r := Succeeded("Tutorial created successfully");
    }

    /**
     * `updateTutorial`: replaces title, url, category and sortOrder of the row
     * with that id; no other row changes, and it succeeds even when no row has
     * that id.
     */
    method Update(caller: Caller, env: Option<string>, id: int, form: FormData) returns (r: ActionResult)
      requires Valid()
      modifies this
      ensures Valid() && nextId == old(nextId)
      ensures r == Outcome(caller, env, TutorialFieldsPresent(form), MissingTitleUrlOrCategory, "Tutorial updated successfully")
      ensures r.success ==>
        && rows == (if id in old(rows) then old(rows)[id := TutorialFromForm(id, form, old(rows)[id].createdAt)] else old(rows))
        && invalidated == old(invalidated) + TutorialPaths
      ensures !r.success ==> rows == old(rows) && invalidated == old(invalidated)
    {
      if !IsAdmin(caller, env) {
        return AuthFailure(caller, env);
      }
      if !TutorialFieldsPresent(form) {
        return Failed(MissingTitleUrlOrCategory);
      }
      Replace(id, form);
      invalidated := invalidated + TutorialPaths;
      r := Succeeded("Tutorial updated successfully");
    }

    /** `db.insert(tutorials).values(...)`: one row under the next value of the id sequence. */
    method Insert(form: FormData, now: Timestamp)
      requires Valid() && TutorialFieldsPresent(form)
      modifies this`rows, this`nextId
      ensures Valid()
      ensures old(nextId) !in old(rows)
      ensures rows == old(rows)[old(nextId) := TutorialFromForm(old(nextId), form, now)]
      ensures nextId == old(nextId) + 1
    {
      var row := TutorialFromForm(nextId, form, now);
      rows := rows[nextId := row];
      nextId := nextId + 1;
    }

    /** `db.update(tutorials).set(...).where(eq(tutorials.id, id))`: rewrites the row with that id, if there is one. */
    method Replace(id: int, form: FormData)
      requires Valid() && TutorialFieldsPresent(form)
      modifies this`rows
      ensures Valid()
      ensures rows == if id in old(rows) then old(rows)[id := TutorialFromForm(id, form, old(rows)[id].createdAt)] else old(rows)
    {
      if id in rows {
        var row := TutorialFromForm(id, form, rows[id].createdAt);
        rows := rows[id := row];
      }
    }

    /** `deleteTutorial`: removes the row with that id if there is one, and succeeds either way. */
    method Delete(caller: Caller, env: Option<string>, id: int) returns (r: ActionResult)
      requires Valid()
      modifies this
      ensures Valid() && nextId == old(nextId)
      ensures r == Outcome(caller, env, true, "", "Tutorial deleted successfully")
      ensures rows == if r.success then old(rows) - {id} else old(rows)
      ensures invalidated == if r.success then old(invalidated) + TutorialPaths else old(invalidated)
    {
      if !IsAdmin(caller, env) {
        return AuthFailure(caller, env);
      }
      rows := rows - {id};
      invalidated := invalidated + TutorialPaths;
      r := Succeeded("Tutorial deleted successfully");
    }

    /** `reorderTutorials`: writes position i into the sortOrder of `orderedIds[i]`, in list order. */
    method Reorder(caller: Caller, env: Option<string>, orderedIds: seq<int>) returns (r: ActionResult)
      requires Valid()
      modifies this
      ensures Valid() && nextId == old(nextId)
      ensures r == Outcome(caller, env, true, "", "Tutorials reordered successfully")
      ensures rows.Keys == old(rows).Keys
      ensures forall id :: id in rows ==> rows[id] == old(rows)[id].(sortOrder := rows[id].sortOrder)
      ensures SortOrders() == if r.success then Reordered(old(SortOrders()), orderedIds) else old(SortOrders())
      ensures invalidated == if r.success then old(invalidated) + TutorialPaths else old(invalidated)
    {
      if !IsAdmin(caller, env) {
        return AuthFailure(caller, env);
      }
      WritePositions(orderedIds);
      invalidated := invalidated + TutorialPaths;
      r := Succeeded("Tutorials reordered successfully");
    }

    /** The loop of the reorder action: one sortOrder write per list position, in order. */
    method WritePositions(orderedIds: seq<int>)
      requires Valid()
      modifies this`rows
      ensures Valid()
      ensures rows.Keys == old(rows).Keys
      ensures forall id :: id in rows ==> rows[id] == old(rows)[id].(sortOrder := rows[id].sortOrder)
      ensures SortOrders() == Reordered(old(SortOrders()), orderedIds)
    {
      for i := 0 to |orderedIds|
        invariant rows.Keys == old(rows).Keys
        invariant forall id :: id in rows ==> rows[id] == old(rows)[id].(sortOrder := rows[id].sortOrder)
        invariant forall id :: id in rows ==> rows[id].sortOrder == SortAfter(orderedIds[..i], id, old(rows)[id].sortOrder)
      {
        var id := orderedIds[i];
        if id in rows {
          rows := rows[id := rows[id].(sortOrder := i)];
        }
        forall other | other in rows
          ensures rows[other].sortOrder == SortAfter(orderedIds[..i + 1], other, old(rows)[other].sortOrder)
        {
          SortAfterStep(orderedIds, i, other, old(rows)[other].sortOrder);
        }
      }
      assert orderedIds[..|orderedIds|] == orderedIds;
    }
  }
}
