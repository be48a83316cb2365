/** The public projects page: all projects in `sortOrder` order, grouped by category. */
module ProjectsPage {
  import opened Schema
  import opened Listing

  /**
   * The page over a scan of the table: the empty-state message when there
   * are no projects, otherwise the category groups of the sorted list.
   */
  method Render(scan: seq<Project>) returns (view: CategoryView<Project>)
    ensures view.NothingYet? <==> |scan| == 0
    ensures view.ByCategory? ==> view.groups == Grouped(SortBy(scan, ProjectSortKey), ProjectCategory)
  {
    var list := SortBy(scan, ProjectSortKey);
    var groups := GroupByCategory(list, ProjectCategory);
    NoGroupsIffNoItems(list, ProjectCategory);
    if |groups| == 0 {
      view := NothingYet;
    } else {
      view := ByCategory(groups);
    }
  }
}
