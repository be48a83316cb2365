/** The project actions over the `projects` table: create, update, delete and reorder. */
module ProjectActions {
  import opened Wrappers
  import opened Schema
  import opened Types
  import opened Forms
  import opened Auth
  import opened Actions
  import opened Ordering

  /** The pages revalidated after a successful project mutation. */
  const ProjectPaths: seq<string> := ["/projects", "/admin"]

  const MissingTitleOrCategory := "Title and category are required"

  /** The required-field check of create and update: `title` and `category` are not blank. */
  predicate ProjectFieldsPresent(form: FormData) {
    !Blank(Get(form, "title")) && !Blank(Get(form, "category"))
  }

  /** The row written by create (and, keeping `createdAt`, by update). */
  function ProjectFromForm(id: int, form: FormData, createdAt: Timestamp): (p: Project)
    requires ProjectFieldsPresent(form)
    ensures StoredProject(p)
    ensures p.id == id && p.title == form["title"] && p.category == form["category"] && p.createdAt == createdAt
    ensures NullOrField(p.description, Get(form, "description"))
    ensures NullOrField(p.githubUrl, Get(form, "githubUrl")) && NullOrField(p.demoUrl, Get(form, "demoUrl"))
    ensures ParsedOrZero(p.sortOrder, Get(form, "sortOrder"))
  {
    Project(
      id := id,
      title := form["title"],
      description := OrNull(Get(form, "description")),
      githubUrl := OrNull(Get(form, "githubUrl")),
      demoUrl := OrNull(Get(form, "demoUrl")),
      category := form["category"],
      sortOrder := IntOrZero(Get(form, "sortOrder")),
      createdAt := createdAt)
  }

  /** What the actions keep true of every stored project. */
  predicate StoredProject(p: Project) {
    p.title != "" && p.category != ""
    && Normalised(p.description) && Normalised(p.githubUrl) && Normalised(p.demoUrl)
  }

  class ProjectTable {
    var rows: map<int, Project>
    /** The next value of the `serial` id sequence. */
    var nextId: int
    /** The paths passed to `revalidatePath`, oldest first. */
    ghost var invalidated: seq<string>

    ghost predicate Valid()
      reads this
    {
      && FirstSerial <= nextId
      && forall id :: id in rows ==> rows[id].id == id && FirstSerial <= id < nextId && StoredProject(rows[id])
    }

    /** The sortOrder column, by row id. */
    function SortOrders(): map<int, int>
      reads this
    {
      map id | id in rows :: rows[id].sortOrder
    }

    constructor ()
      ensures Valid() && rows == map[] && nextId == FirstSerial && invalidated == []
    {
      rows := map[];
      nextId := FirstSerial;
      invalidated := [];
    }

    /** `createProject`: inserts one row under a fresh id, created `now`. */
    method Create(caller: Caller, env: Option<string>, form: FormData, now: Timestamp) returns (r: ActionResult)
      requires Valid()
      modifies this
      ensures Valid()
      ensures r == Outcome(caller, env, ProjectFieldsPresent(form), MissingTitleOrCategory, "Project created successfully")
      ensures r.success ==>
        && old(nextId) !in old(rows)
        && rows == old(rows)[old(nextId) := ProjectFromForm(old(nextId), form, now)]
        && nextId == old(nextId) + 1
        && invalidated == old(invalidated) + ProjectPaths
      ensures !r.success ==> rows == old(rows) && nextId == old(nextId) && invalidated == old(invalidated)
    {
      if !IsAdmin(caller, env) {
        return AuthFailure(caller, env);
      }
      if !ProjectFieldsPresent(form) {
        return Failed(MissingTitleOrCategory);
      }
      Insert(form, now);
      invalidated := invalidated + ProjectPaths;
      r := Succeeded("Project created successfully");
    }

    /**
     * `updateProject`: replaces every field except `id` and `createdAt` of the
     * row with that id; no other row changes, and it succeeds even when no row
     * has that id.
     */
    method Update(caller: Caller, env: Option<string>, id: int, form: FormData) returns (r: ActionResult)
      requires Valid()
      modifies this
      ensures Valid() && nextId == old(nextId)
      ensures r == Outcome(caller, env, ProjectFieldsPresent(form), MissingTitleOrCategory, "Project updated successfully")
      ensures r.success ==>
        && rows == (if id in old(rows) then old(rows)[id := ProjectFromForm(id, form, old(rows)[id].createdAt)] else old(rows))
        && invalidated == old(invalidated) + ProjectPaths
      ensures !r.success ==> rows == old(rows) && invalidated == old(invalidated)
    {
      if !IsAdmin(caller, env) {
        return AuthFailure(caller, env);
      }
      if !ProjectFieldsPresent(form) {
        return Failed(MissingTitleOrCategory);
      }
      Replace(id, form);
      invalidated := invalidated + ProjectPaths;
      r := Succeeded("Project updated successfully");
    }

    /** `db.insert(projects).values(...)`: one row under the next value of the id sequence. */
    method Insert(form: FormData, now: Timestamp)
      requires Valid() && ProjectFieldsPresent(form)
      modifies this`rows, this`nextId
      ensures Valid()
      ensures old(nextId) !in old(rows)
      ensures rows == old(rows)[old(nextId) := ProjectFromForm(old(nextId), form, now)]
      ensures nextId == old(nextId) + 1
    {
      var row := ProjectFromForm(nextId, form, now);
      rows := rows[nextId := row];
      nextId := nextId + 1;
    }

    /** `db.update(projects).set(...).where(eq(projects.id, id))`: rewrites the row with that id, if there is one. */
    method Replace(id: int, form: FormData)
      requires Valid() && ProjectFieldsPresent(form)
      modifies this`rows
      ensures Valid()
      ensures rows == if id in old(rows) then old(rows)[id := ProjectFromForm(id, form, old(rows)[id].createdAt)] else old(rows)
    {
      if id in rows {
        var row := ProjectFromForm(id, form, rows[id].createdAt);
        rows := rows[id := row];
      }
    }

    /** `deleteProject`: removes the row with that id if there is one, and succeeds either way. */
    method Delete(caller: Caller, env: Option<string>, id: int) returns (r: ActionResult)
      requires Valid()
      modifies this
      ensures Valid() && nextId == old(nextId)
      ensures r == Outcome(caller, env, true, "", "Project deleted successfully")
      ensures rows == if r.success then old(rows) - {id} else old(rows)
      ensures invalidated == if r.success then old(invalidated) + ProjectPaths else old(invalidated)
    {
      if !IsAdmin(caller, env) {
        return AuthFailure(caller, env);
      }
      rows := rows - {id};
      invalidated := invalidated + ProjectPaths;
      r := Succeeded("Project deleted successfully");
    }

    /** `reorderProjects`: writes position i into the sortOrder of `orderedIds[i]`, in list order. */
    method Reorder(caller: Caller, env: Option<string>, orderedIds: seq<int>) returns (r: ActionResult)
      requires Valid()
      modifies this
      ensures Valid() && nextId == old(nextId)
      ensures r == Outcome(caller, env, true, "", "Projects reordered successfully")
      ensures rows.Keys == old(rows).Keys
      ensures forall id :: id in rows ==> rows[id] == old(rows)[id].(sortOrder := rows[id].sortOrder)
      ensures SortOrders() == if r.success then Reordered(old(SortOrders()), orderedIds) else old(SortOrders())
      ensures invalidated == if r.success then old(invalidated) + ProjectPaths else old(invalidated)
    {
      if !IsAdmin(caller, env) {
        return AuthFailure(caller, env);
      }
      WritePositions(orderedIds);
      invalidated := invalidated + ProjectPaths;
      r := Succeeded("Projects reordered successfully");
    }

    /** The loop of the reorder action: one sortOrder write per list position, in order. */
    method WritePositions(orderedIds: seq<int>)
      requires Valid()
      modifies this`rows
      ensures Valid()
      ensures rows.Keys == old(rows).Keys
      ensures forall id :: id in rows ==> rows[id] == old(rows)[id].(sortOrder := rows[id].sortOrder)
      ensures SortOrders() == Reordered(old(SortOrders()), orderedIds)
    {
      for i := 0 to |orderedIds|
        invariant rows.Keys == old(rows).Keys
        invariant forall id :: id in rows ==> rows[id] == old(rows)[id].(sortOrder := rows[id].sortOrder)
        invariant forall id :: id in rows ==> rows[id].sortOrder == SortAfter(orderedIds[..i], id, old(rows)[id].sortOrder)
      {
        var id := orderedIds[i];
        if id in rows {
          rows := rows[id := rows[id].(sortOrder := i)];
        }
        forall other | other in rows
          ensures rows[other].sortOrder == SortAfter(orderedIds[..i + 1], other, old(rows)[other].sortOrder)
        {
          SortAfterStep(orderedIds, i, other, old(rows)[other].sortOrder);
        }
      }
      assert orderedIds[..|orderedIds|] == orderedIds;
    }
  }
}
