/**
 * The four tables of the relational store, one row datatype each. A column
 * declared `notNull` is a plain field; a nullable column is an `Option`.
 * Every table has a serial integer primary key `id`.
 */
module Schema {
  import opened Wrappers

  /** A timestamp column value; the model keeps it opaque and only carries it around. */
  datatype Timestamp = Timestamp(text: string)

  /** The single-row `meeting` table. */
  datatype Meeting = Meeting(
    id: int,
    title: string,
    datetime: Timestamp,
    location: string,
    details: Option<string>,
    rsvpLink: Option<string>,
    updatedAt: Timestamp)

  /** The `tutorials` table. */
  datatype Tutorial = Tutorial(
    id: int,
    title: string,
    url: string,
    category: string,
    sortOrder: int,
    createdAt: Timestamp)

  /** The `projects` table. */
  datatype Project = Project(
    id: int,
    title: string,
    description: Option<string>,
    githubUrl: Option<string>,
    demoUrl: Option<string>,
    category: string,
    sortOrder: int,
    createdAt: Timestamp)

  /** The `board_members` table; it has no creation timestamp. */
  datatype BoardMember = BoardMember(
    id: int,
    name: string,
    role: string,
    bio: Option<string>,
    photoUrl: Option<string>,
    linkedinUrl: Option<string>,
    githubUrl: Option<string>,
    sortOrder: int,
    isActive: bool)

  /** The first value the `serial` primary keys hand out. */
  const FirstSerial := 1

  /** The sort-order keys of the three ordered tables, as function values for the listing queries. */
  function BoardSortKey(m: BoardMember): int { m.sortOrder }
  function ProjectSortKey(p: Project): int { p.sortOrder }
  function TutorialSortKey(t: Tutorial): int { t.sortOrder }
  function ProjectCategory(p: Project): string { p.category }
  function TutorialCategory(t: Tutorial): string { t.category }
  predicate IsActiveMember(m: BoardMember) { m.isActive }
}
