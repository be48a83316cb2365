# Applied AI student-organisation site: content logic in Dafny

This project models the server-side content logic of the Applied AI
student-organisation web site and proves properties of it. That logic is:

- the admin allowlist check that guards every change;
- the create, update, delete and reorder actions on three content
  tables: board members, projects and tutorials;
- the upsert of the single meeting record;
- the image upload and deletion checks against the blob store;
- the listing logic of the public pages: projects and tutorials grouped by
  category in `sortOrder` order, and the board page's active-member filter,
  photo-or-initials choice and initials.

Each table is a class. It holds its rows as a `map<int, Row>` keyed by
the `serial` id, the next value of the id sequence, and a ghost log of the
paths passed to `revalidatePath`. Each action is a method that returns the
`ActionResult` the page receives. Its contract gives the new table state in
terms of the old one, on every path: not an admin, missing fields, success,
and for the board table "not found". The reorder loops are proved against
`Ordering.Reordered`, a function of the old `sortOrder` column and the id
list. The lemmas in `Ordering` then say what that function does with full,
partial, repeated and unknown id lists.

The sign-in provider's answer is an input, `Auth.Caller`: the user id if
signed in, and the first email address on the user record. The
`ADMIN_EMAILS` environment variable is an input too. The blob store is the
set of URLs it serves. What `put` and `del` did (the URL chosen, or the
value thrown) is a parameter of the method that calls them. Timestamps are
opaque values, and "now" is a parameter.

Modules, one per file: `Wrappers`, `Strings` (the JavaScript string
operations the code uses), `Types`, `Schema`, `Forms` (reading a submitted
form), `Auth`, `Actions` (the admin-then-fields prelude shared by the
actions), `Upload`, `Ordering`, `BoardActions`, `ProjectActions`,
`TutorialActions`, `MeetingActions`, `Listing`, `BoardPage`, `ProjectsPage`
and `TutorialsPage`.

### Behaviour worth noting

- `update*` runs an `UPDATE … WHERE id = ?` and reports success whether
  or not a row matched; `*.Update` says so in its contract.
- Only `deleteBoardMember` reports a missing id as not found.
  `deleteProject` and `deleteTutorial` succeed whether or not the row
  existed.
- A reorder writes position i into the row `orderedIds[i]` without checking
  the list. The new sortOrders are the dense sequence 0..n-1 only when the
  list is the full id set without repeats (`Ordering.FullListIsDense`).
  Otherwise an id listed twice keeps its last position, unknown ids are
  ignored and unlisted rows keep their value (`Ordering.ReorderedValue`,
  `Ordering.UnknownIdIgnored`).
- The queries order by `sortOrder` alone, so the order among equal keys is
  the store's; no id tie-break is applied.
- The board page tests `member.photoUrl` for truthiness, not just for being
  non-null. For rows the board actions stored, these are the same
  (`BoardActions.HasPhotoIsNonNull`), because `|| null` never stores "".

## Model

| member | source | states |
|---|---|---|
| Strings.Split | lib/auth.ts:3 | `split` on one character gives at least one piece, no piece holds the separator, and joining the pieces with it gives back the input |
| Strings.SplitWithoutSeparator | lib/auth.ts:3 | text without the separator splits into itself alone |
| Strings.LeadingSpace | lib/auth.ts:3 | counts the leading white space: every counted character is white space and the next one, if any, is not |
| Strings.TrailingSpace | lib/auth.ts:3 | counts the trailing white space: every counted character is white space and the one before them, if any, is not |
| Strings.TrimStart | lib/auth.ts:3 | drops exactly the leading ECMAScript white space: the result is a suffix that is empty or starts with a non-space |
| Strings.TrimEnd | lib/auth.ts:3 | drops exactly the trailing white space: the result is a prefix that is empty or ends with a non-space |
| Strings.TrimIsInnerSlice | lib/auth.ts:3 | `trim` yields a slice of its input with no white space at either end |
| Strings.Lower | lib/auth.ts:12 | `toLowerCase` keeps the length and maps each character to its lower-case form |
| Strings.LowerIdempotent | lib/auth.ts:3 | lower-casing twice is lower-casing once, and only "" lower-cases to "" |
| Strings.ParseIntText | app/actions/board.ts:20 | `parseInt` reads back every integer written in decimal |
| Strings.ParseInt | app/actions/board.ts:20 | `parseInt` gives NaN for empty text and for text whose first character is not white space, a sign or a digit |
| Strings.ParseIntSkipsWhiteSpace | app/actions/board.ts:20 | leading white space does not change what `parseInt` reads |
| Forms.OrNull | app/actions/board.ts:33-36 | `v \|\| null` is null exactly for a missing or empty field, keeps any other value, and never yields "" |
| Forms.IntOrZeroReadsText | app/actions/board.ts:20 | `parseInt(v) \|\| 0` on a decimal integer gives that integer |
| Forms.IntOrZero | app/actions/board.ts:20 | `parseInt(v) \|\| 0` is the number `parseInt` reads from the field, and 0 when the field is missing (the text "null") or does not parse |
| Auth.AdminEmailsEntries | lib/auth.ts:3 | the allowlist has one entry per comma-separated piece of the variable, and holds exactly the trimmed, lower-cased pieces |
| Auth.AdminEmails | lib/auth.ts:3 | the allowlist has one entry per comma-separated piece, and every entry is lower-case, holds no comma and has no white space at either end |
| Auth.LoweredShape | lib/auth.ts:3 | lower-casing a comma-free text with no white space at its ends keeps both properties and makes it lower-case |
| Auth.NormalisedEntryShape | lib/auth.ts:3 | trimming then lower-casing a comma-free piece gives a lower-case, comma-free entry with no white space at either end |
| Auth.RequireAdmin | lib/auth.ts:5-19 | no user id fails with Unauthorized, before the email is looked at; success returns the caller's user id and the lower-cased first email, which is non-empty and in the allowlist; and a signed-in caller whose lower-cased first email is non-empty and listed always succeeds |
| Auth.AdmittedExactly | lib/auth.ts:21-28 | `isAdmin` (true iff `requireAdmin` returns) holds iff the caller has a user id and a non-empty first email equal, ignoring ASCII case, to some trimmed piece of the variable |
| Auth.CaseInsensitive | lib/auth.ts:12 | two emails that differ only in letter case get the same answer |
| Auth.UnsetAllowlistAdmitsNobody | lib/auth.ts:3 | an unset or empty variable gives the allowlist [""], and nobody is admitted |
| Auth.MissingEmailForbidden | lib/auth.ts:14-16 | a signed-in caller with no email, or the empty one, is Forbidden |
| Auth.SingleEntryAdmits | lib/auth.ts:3 | a one-entry allowlist admits that address in any letter case, whatever white space surrounds it |
| Actions.AdminCheckFirst | app/actions/board.ts:10-28 | a non-admin gets the authorization error whatever the form holds; an action succeeds iff the caller is admin and the required fields are present |
| Upload.ImageCheck | app/actions/upload.ts:13-34 | a file passes iff it is present, its type starts with "image/" and it is at most 5 MiB; a missing file gives 'No file provided', a non-image 'File must be an image' however large, and an image over the limit 'File size must be less than 5MB' |
| Upload.SizeLimitInclusive | app/actions/upload.ts:28-34 | exactly 5242880 bytes passes, 5242881 does not |
| Upload.BlobStore.UploadImage | app/actions/upload.ts:7-54 | stores exactly `put`'s URL and returns it only when the admin and file checks pass and `put` returns; a throw becomes a failure with its message, and the store is unchanged |
| Upload.BlobStore.DeleteImage | app/actions/upload.ts:56-81 | an empty URL fails with 'No URL provided' and deletes nothing; otherwise `del` removes that URL, or its throw becomes a failure |
| Ordering.LastIndexOf | app/actions/board.ts:141-145 | the last position of an id in the list, or -1 exactly when it is not listed |
| Ordering.SortAfterStep | app/actions/board.ts:141-145 | one more loop step writes position i into `orderedIds[i]` and changes no other row |
| Ordering.DistinctPosition | app/actions/board.ts:141-145 | in a list without repeats each id ends with its own position |
| Ordering.ReorderedKeys | app/actions/board.ts:141-145 | a reorder keeps the set of rows |
| Ordering.ReorderedValue | app/actions/board.ts:141-145 | a listed row gets its last position in the list; an unlisted row keeps its sortOrder |
| Ordering.FullListIsDense | app/actions/board.ts:141-145 | for the full id set without repeats, the new sortOrders are exactly 0..n-1, each id its position, in list order |
| Ordering.UnknownIdIgnored | app/actions/board.ts:141-145 | an id with no row changes nothing |
| Ordering.ThreeRowExample | app/actions/board.ts:141-145 | reordering three rows to (c, a, b) gives them 0, 1 and 2 |
| BoardActions.MemberFromForm | app/actions/board.ts:14-39 | the row written from a form with name and role present: a valid stored member holding the form's name and role, each optional field null exactly when blank and the form's text otherwise, sortOrder the parsed number or 0, and `isActive` true iff the field is exactly 'true' |
| BoardActions.HasPhotoIsNonNull | app/actions/board.ts:118 | for a stored member, the truthiness test on the photo URL is the non-null test |
| BoardActions.BoardTable.Create | app/actions/board.ts:10-52 | on success inserts exactly one row under a fresh id and revalidates /board and /admin; any failure leaves the table unchanged |
| BoardActions.BoardTable.Update | app/actions/board.ts:54-98 | replaces the row with that id and no other, and succeeds even when there is none |
| BoardActions.BoardTable.Insert | app/actions/board.ts:30-39 | the insert puts the form's row under the next serial id, which was unused, and keeps the table valid |
| BoardActions.BoardTable.Replace | app/actions/board.ts:74-85 | the update rewrites the row with that id from the form and no other row, and changes nothing when there is none |
| BoardActions.BoardTable.Delete | app/actions/board.ts:100-134 | an absent id gives 'Board member not found' and no change; otherwise the row is removed, the photo is deleted only if set, and the photo deletion's result does not affect success |
| BoardActions.BoardTable.Reorder | app/actions/board.ts:136-158 | the sortOrder column becomes `Reordered(old column, ids)`; the rows and their other fields are unchanged |
| BoardActions.BoardTable.WritePositions | app/actions/board.ts:141-145 | the loop leaves the sortOrder column equal to `Reordered` and touches nothing else |
| ProjectActions.ProjectFromForm | app/actions/projects.ts:14-35 | the row written from a form with title and category present: a valid stored project holding the form's title and category and the given creation time, each optional field null exactly when blank and the form's text otherwise, sortOrder the parsed number or 0 |
| ProjectActions.ProjectTable.Create | app/actions/projects.ts:10-48 | on success inserts one row under a fresh id, created now; a failure changes nothing |
| ProjectActions.ProjectTable.Update | app/actions/projects.ts:50-90 | replaces the six fields of the row with that id, keeps its creation time, touches no other row, and succeeds even when there is none |
| ProjectActions.ProjectTable.Insert | app/actions/projects.ts:28-35 | the insert puts the form's row, created now, under the next serial id, which was unused |
| ProjectActions.ProjectTable.Replace | app/actions/projects.ts:68-77 | the update rewrites the row with that id from the form, keeping its creation time, and changes nothing when there is none |
| ProjectActions.ProjectTable.Delete | app/actions/projects.ts:92-109 | for an admin the row is absent afterwards and the result is success, whether or not it existed |
| ProjectActions.ProjectTable.Reorder | app/actions/projects.ts:111-133 | the sortOrder column becomes `Reordered(old column, ids)`; nothing else changes |
| ProjectActions.ProjectTable.WritePositions | app/actions/projects.ts:116-120 | the loop leaves the sortOrder column equal to `Reordered` |
| TutorialActions.TutorialFromForm | app/actions/tutorials.ts:14-31 | the row written from a form with title, url and category present: those three texts as given, the given creation time, sortOrder the parsed number or 0 |
| TutorialActions.TutorialTable.Create | app/actions/tutorials.ts:10-44 | on success inserts exactly one row with the given fields; a failure changes nothing |
| TutorialActions.TutorialTable.Update | app/actions/tutorials.ts:46-77 | replaces title, url, category and sortOrder of the row with that id only, and succeeds even when there is none |
| TutorialActions.TutorialTable.Insert | app/actions/tutorials.ts:26-31 | the insert puts the form's row, created now, under the next serial id, which was unused |
| TutorialActions.TutorialTable.Replace | app/actions/tutorials.ts:62-64 | the update rewrites the row with that id from the form, keeping its creation time, and changes nothing when there is none |
| TutorialActions.TutorialTable.Delete | app/actions/tutorials.ts:79-96 | for an admin the row is absent afterwards and the result is success |
| TutorialActions.TutorialTable.Reorder | app/actions/tutorials.ts:98-120 | the sortOrder column becomes `Reordered(old column, ids)`; nothing else changes |
| TutorialActions.TutorialTable.WritePositions | app/actions/tutorials.ts:103-107 | the loop leaves the sortOrder column equal to `Reordered` |
| MeetingActions.MeetingFromForm | app/actions/meeting.ts:14-51 | the row either branch writes: the form's non-empty title, datetime text and location, details and RSVP link null exactly when blank and the form's text otherwise, updated at the time of the call |
| MeetingActions.MeetingTable.Update | app/actions/meeting.ts:10-65 | overwrites an existing row (count unchanged) or inserts one into an empty table; at most one row before means at most one after, and exactly one after a success |
| MeetingActions.MeetingTable.Upsert | app/actions/meeting.ts:28-52 | the update-or-insert branch: one existing row is overwritten, or exactly one is inserted |
| MeetingActions.TwoUpdatesKeepOneRow | app/actions/meeting.ts:28-52 | from an empty table, two successful updates leave exactly one row, holding the second form |
| Listing.Insert | app/projects/page.tsx:7 | inserting adds exactly that element, one longer, and puts it or the old head first |
| Listing.InsertKeepsSorted | app/projects/page.tsx:7 | inserting into a list sorted by the key keeps it sorted |
| Listing.SortBy | app/projects/page.tsx:7 | `ORDER BY sortOrder` yields a permutation of the rows in ascending sortOrder |
| Listing.SortByKeepsRows | app/projects/page.tsx:7 | ordering neither adds nor drops a row |
| Listing.Filter | app/board/page.tsx:9 | the `WHERE` clause keeps exactly the rows satisfying it and drops every other row, giving no more rows than it was given |
| Listing.FilterCounts | app/board/page.tsx:9 | each kept row occurs as many times as in the input, and each dropped row not at all |
| Listing.DistinctOnce | app/board/page.tsx:7-10 | a scan without repeated rows holds each of its rows exactly once |
| Listing.CategoryOccursIffGroupNonEmpty | app/projects/page.tsx:10-16 | a category has a group iff some item has that category |
| Listing.CategoriesOfItems | app/projects/page.tsx:10-16 | the group keys are exactly the items' categories |
| Listing.GroupMembers | app/projects/page.tsx:10-16 | an item is in the group of its own category and in no other |
| Listing.GroupPosition | app/projects/page.tsx:14 | item i sits in its group at the position given by how many items of its category precede it |
| Listing.GroupKeepsOrder | app/projects/page.tsx:14 | within a group, items keep their relative order from the input |
| Listing.GroupedStep | app/projects/page.tsx:11-14 | one `reduce` step creates the category's list if missing and appends the item to it |
| Listing.GroupByCategory | app/projects/page.tsx:10-16 | the loop over the sorted list builds exactly the grouping `Grouped` |
| Listing.GroupsNonEmpty | app/projects/page.tsx:10-16 | no group is empty |
| Listing.NoGroupsIffNoItems | app/projects/page.tsx:32 | there are no groups iff there are no items |
| Listing.GroupSizesSum | app/projects/page.tsx:10-16 | summed over the categories, each counted once, the group sizes equal the number of items |
| Listing.GroupSorted | app/projects/page.tsx:7-16 | each group of a sorted list is sorted |
| Listing.StoredRowsGrouped | app/projects/page.tsx:10-16 | when a list holds exactly the stored rows, every stored row is in its category's group and every group holds stored rows of that category |
| Listing.ScanGroups | app/projects/page.tsx:7-16 | every stored row appears in the group of its category, and each group holds stored rows of that category only |
| Listing.SortedGroups | app/tutorials/page.tsx:7-16 | on the category pages every group is non-empty and in ascending sortOrder |
| Listing.GroupByCategoryAsWritten | app/projects/page.tsx:10-16 | the `reduce` into `{}` as written throws iff some category is a name `{}` inherits, and otherwise gives `Grouped` |
| Listing.InheritedCategoryThrows | app/projects/page.tsx:11-14 | one item in category "constructor" makes the written `reduce` throw, where the intended grouping has one group |
| ProjectsPage.Render | app/projects/page.tsx:7-35 | the page shows the empty-state message iff there are no projects, and otherwise the category groups of the sortOrder-ordered list |
| TutorialsPage.Render | app/tutorials/page.tsx:7-35 | the page shows the empty-state message iff there are no tutorials, and otherwise the category groups of the sortOrder-ordered list |
| BoardPage.ActiveMembers | app/board/page.tsx:7-10 | the board shows exactly the active scanned members, no more rows than scanned, in ascending sortOrder |
| BoardPage.ActiveMembersCounts | app/board/page.tsx:7-10 | each active member is shown as many times as scanned, each inactive one never |
| BoardPage.ShownAreTheActiveRows | app/board/page.tsx:7-10 | over a scan of the table, a member is shown iff it is stored and active, and then exactly once |
| BoardPage.InitialsFrom | app/board/page.tsx:47 | the split/first-character/join expression equals the word-start characters of the name |
| BoardPage.Initials | app/board/page.tsx:47 | the initials are the first character of each space-separated word, in order; empty pieces from repeated spaces add nothing, the result has no space and is no longer than the name |
| BoardPage.WordStartsHaveNoSpace | app/board/page.tsx:47 | the word starts contain no space and are no longer than the name |
| BoardPage.AvatarOf | app/board/page.tsx:37-50 | the photo is shown iff the photo URL is non-null and non-empty, and then that URL; otherwise a badge with the initials |
| BoardPage.StoredAvatar | app/board/page.tsx:37-50 | for a stored member the photo is shown iff the photo URL is set, and otherwise the initials |
| BoardPage.NoneActive | app/board/page.tsx:26 | nobody is shown iff no scanned member is active |
| BoardPage.RenderBoard | app/board/page.tsx:26-50 | the empty-state message shows iff no scanned member is active; otherwise one card per active member, in the order of `ActiveMembers` and so by ascending sortOrder, each with that member's avatar |

## Left out

- Rendering: the JSX of the pages, the admin components, the header, the
  meeting card and the prototype page. The model keeps only what the pages
  compute: which rows, in which groups and order, and photo or initials.
- The request middleware (proxy.ts) and the migration script (db/migrate.ts)
  are not part of this model. The first is route matching in the sign-in
  library; the second is environment loading and I/O.
- The sign-in provider's `auth()` and `currentUser()` are inputs.
  `Auth.Caller` holds the user id and the first email address only.
- The blob store is the set of URLs it serves. How `put` and `del` work,
  and the random suffix `put` adds to the name, are not modelled.
- Database errors are not modelled. Neither is a 32-bit `integer` column
  overflowing: `int4` range on `sortOrder` and the `serial` sequence
  running out. A `catch` that turns a thrown error into a failure result
  is modelled only for the two blob calls (`Types.CaughtMessage`).
- Ties in `ORDER BY sortOrder`: `Listing.SortBy` keeps equal keys in scan
  order. The store may order them differently; no lemma depends on the
  tie order.
- MeetingActions.MeetingTable.Upsert: `limit(1)` on a table with several
  rows returns a row of the store's choosing. The method takes the lowest
  id, and its contract promises only some existing row.
- Dates: `new Date(text)`, `defaultNow()` and an invalid date string.
  `Schema.Timestamp` is opaque, and the time of a call is a parameter.
- Strings.Lower: lower-cases ASCII letters only. The full Unicode case
  mapping of `toLowerCase` is not modelled, so email matching ignores the
  case of ASCII letters only.
- Strings.ParseInt: handles leading white space, a sign, a `0x` prefix and
  the longest digit prefix. It does not model loss of precision in
  floating point for very long digit strings.
- ProjectsPage.Render: renders the corrected grouping `Listing.GroupByCategory`.
  The page as written throws for a category named like a member `{}`
  inherits ("constructor", "toString", …); that behaviour is modelled
  separately by `Listing.GroupByCategoryAsWritten` (see Findings).
- TutorialsPage.Render: renders the corrected grouping as well, for the same
  reason; the page as written throws in the same cases.
- BoardPage.Initials: strings are sequences of Unicode scalar values, while
  JavaScript's `n[0]` takes one UTF-16 code unit. For a word starting with a
  character outside the Basic Multilingual Plane the page shows half a
  surrogate pair; the model shows the whole character.
- Auth.IsAdmin: carries no contract of its own, because it is just
  `RequireAdmin(...).Success?`; what it means for the caller is stated by
  `Auth.AdmittedExactly` and `Auth.RequireAdmin`.
- The `errors` field of `ActionResult` is never set by any action and is
  left out.
- A `file` form field that is a string rather than a `File` is not
  modelled; `Upload.File` is always a file.
- The order of the category headings: object keys enumerate integer-like
  names first, so no order of categories is claimed, only the contents of
  each group.
- `revalidatePath` is a ghost log of paths on each table; `console.error`
  is dropped.
- Concurrency between requests: interleaved reorders, and two meeting
  updates racing to insert. All calls are sequential.
- Column defaults (`sortOrder` 0, `isActive` true) are not modelled
  separately, because every action writes those columns explicitly.

## Findings

| source | as written | input that shows it | evidently intended | confidence | as-written member | corrected member |
|---|---|---|---|---|---|---|
| app/projects/page.tsx:10-16 | groups into the object literal `{}` and tests `!acc[category]` before `acc[category].push(project)` | a project whose category is "constructor" (or "toString", "__proto__", …): `acc[category]` is the inherited member, which is truthy and has no `push`, so rendering throws a TypeError | one fresh list per category, whatever its name (an own-property test, or a `Map`) | not executed; high | Listing.GroupByCategoryAsWritten | Listing.GroupByCategory |
| app/tutorials/page.tsx:10-16 | the same `reduce` into `{}` | a tutorial whose category is "constructor" | one fresh list per category | not executed; high | Listing.InheritedCategoryThrows | Listing.GroupByCategory |
