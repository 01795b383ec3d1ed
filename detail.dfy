/** Detail pages: each one's back button returns to the list page of its
    record kind. */
module Detail {
  import opened Content
  import Navigation
  import Paths

  /** The `returnUrl` that `initCharacterDetail`, `initArchiveDetail` and
      `initBlogDetail` give `setupBackButton`. */
  function BackTarget(kind: Kind): (page: string)
    ensures page == Navigation.ListPage(kind)
    ensures Navigation.InitPage(page) == Navigation.ListInit(kind)
  {
    match kind
    case CharacterKind => "character.html"
    case ArchiveKind => "archive.html"
    case BlogKind => "blog.html"
  }

  /** Following the back button from any directory loads a page whose name
      dispatches to the initialiser of the list the record came from. */
  lemma BackReturnsToList(dir: string, kind: Kind)
    ensures Navigation.InitPage(Paths.CurrentPage(dir + "/" + BackTarget(kind))) == Navigation.ListInit(kind)
  {
    var page := BackTarget(kind);
    assert '/' !in page;
    Paths.CurrentPageOfFile(dir, page);
  }
}
