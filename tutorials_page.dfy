/** The public tutorials page: all tutorials in `sortOrder` order, grouped by category. */
module TutorialsPage {
  import opened Schema
  import opened Listing

  /**
   * The page over a scan of the table: the empty-state message when there
   * are no tutorials, otherwise the category groups of the sorted list.
   */
  method Render(scan: seq<Tutorial>) returns (view: CategoryView<Tutorial>)
    ensures view.NothingYet? <==> |scan| == 0
    ensures view.ByCategory? ==> view.groups == Grouped(SortBy(scan, TutorialSortKey), TutorialCategory)
  {
    var list := SortBy(scan, TutorialSortKey);
    var groups := GroupByCategory(list, TutorialCategory);
    NoGroupsIffNoItems(list, TutorialCategory);
    if |groups| == 0 {
      view := NothingYet;
    } else {
      view := ByCategory(groups);
    }
  }
}
