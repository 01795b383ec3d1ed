/** Page dispatch, the navigation bar's active link, and the click target
    of a list page's grid item. */
module Navigation {
  import opened Wrappers
  import opened Content
  import Decimal

  /** The list page of a record kind: `character.html`, `archive.html`,
      `blog.html`. */
  function ListPage(kind: Kind): string {
    kind.Name() + ".html"
  }

  /** What `App.initPage` runs for a page name: a list page's initialiser or
      the default fade-in of the page content. */
  datatype PageInit = ListInit(kind: Kind) | DefaultFadeIn

  /** `App.initPage`: the three list pages dispatch to their own
      initialiser, every other page name to the default branch. */
  function InitPage(page: string): (r: PageInit)
    ensures forall kind: Kind :: r == ListInit(kind) <==> page == ListPage(kind)
    ensures r == DefaultFadeIn <==> forall kind: Kind :: page != ListPage(kind)
  {
    assert ListPage(CharacterKind) == "character.html";
    assert ListPage(ArchiveKind) == "archive.html";
    assert ListPage(BlogKind) == "blog.html";
    match page
    case "character.html" => ListInit(CharacterKind)
    case "archive.html" => ListInit(ArchiveKind)
    case "blog.html" => ListInit(BlogKind)
    case _ => DefaultFadeIn
  }

  /** One link of the navigation bar. */
  datatype NavLink = NavLink(href: string, text: string, active: bool)

  /** The loop of `createNavigation`: one link per navigation entry, in
      order, marked active exactly when its `href` is the current page. */
  method CreateNavigation(navigation: seq<NavEntry>, activePage: string) returns (links: seq<NavLink>)
    ensures |links| == |navigation|
    ensures forall i :: 0 <= i < |links| ==> links[i].href == navigation[i].href && links[i].text == navigation[i].text
    ensures forall i :: 0 <= i < |links| ==> (links[i].active <==> navigation[i].href == activePage)
  {
    links := [];
    for i := 0 to |navigation|
      invariant |links| == i
      invariant forall j :: 0 <= j < i ==> links[j] == NavLink(navigation[j].href, navigation[j].text, navigation[j].href == activePage)
    {
      var item := navigation[i];
      links := links + [NavLink(item.href, item.text, item.href == activePage)];
    }
  }

  /** The click handler of a link: the active link does nothing, any other
      navigates to its `href`. */
  function NavClick(link: NavLink): (target: Option<string>)
    ensures target == None <==> link.active
    ensures target != None ==> target.value == link.href
  {
    if link.active then None else Some(link.href)
  }

  function Hrefs(navigation: seq<NavEntry>): (hrefs: seq<string>)
    ensures |hrefs| == |navigation|
    ensures forall i :: 0 <= i < |hrefs| ==> hrefs[i] == navigation[i].href
  {
    seq(|navigation|, i requires 0 <= i < |navigation| => navigation[i].href)
  }

  function ActiveCount(links: seq<NavLink>): nat {
    if links == [] then 0
    else ActiveCount(links[..|links| - 1]) + (if links[|links| - 1].active then 1 else 0)
  }

  /** The links that `CreateNavigation` marks active are exactly as many as
      the entries whose `href` is the current page; with the site's distinct
      hrefs that is one when the current page is listed and none otherwise. */
  lemma {:induction false} ActiveLinksMatchPage(navigation: seq<NavEntry>, activePage: string, links: seq<NavLink>)
    requires |links| == |navigation|
    requires forall i :: 0 <= i < |links| ==> (links[i].active <==> navigation[i].href == activePage)
    ensures ActiveCount(links) == multiset(Hrefs(navigation))[activePage]
  {
    if links != [] {
      var n := |links| - 1;
      ActiveLinksMatchPage(navigation[..n], activePage, links[..n]);
      assert Hrefs(navigation) == Hrefs(navigation[..n]) + [navigation[n].href];
    }
  }

  /** A record's detail page: `<kind><id>.html`. */
  function DetailPage(kind: Kind, id: nat): string {
    kind.Name() + Decimal.Text(id) + ".html"
  }

  /** The element `createGridItem` returns: its CSS class and, when it has a
      click handler, the page that handler navigates to. */
  datatype GridItem = GridItem(cssClass: string, target: Option<string>)

  /** The record kind a `createGridItem` type name selects, if any. */
  function KindOf(typeName: string): (kind: Option<Kind>)
    ensures kind != None ==> kind.value.Name() == typeName
    ensures kind == None ==> forall k: Kind :: k.Name() != typeName
  {
    match typeName
    case "character" => Some(CharacterKind)
    case "archive" => Some(ArchiveKind)
    case "blog" => Some(BlogKind)
    case _ => None
  }

  /** `createGridItem(data, type)`: the item's class is `<type>-item`; a
      character, archive or blog item navigates to `<type><id>.html`; an
      unknown type gets the bare item with no click target. */
  function CreateGridItem(id: nat, typeName: string): (item: GridItem)
    ensures item.cssClass == typeName + "-item"
    ensures item.target != None <==> typeName in {"character", "archive", "blog"}
    ensures item.target != None ==> item.target.value == typeName + Decimal.Text(id) + ".html"
  {
    var kind := KindOf(typeName);
    GridItem(typeName + "-item", if kind == None then None else Some(DetailPage(kind.value, id)))
  }

  /** The three kind names start with different letters. */
  lemma KindFromInitial(k1: Kind, k2: Kind)
    requires k1.Name()[0] == k2.Name()[0]
    ensures k1 == k2
  {
  }

  /** A common suffix cancels. */
  lemma CancelSuffix(a: string, b: string, suffix: string)
    requires a + suffix == b + suffix
    ensures a == b
  {
    assert |a| == |b|;
    assert a == (a + suffix)[..|a|];
    assert b == (b + suffix)[..|b|];
  }

  /** A page name `<kind><text>.html` determines both the kind and the text. */
  lemma SamePage(k1: Kind, t1: string, k2: Kind, t2: string)
    requires k1.Name() + t1 + ".html" == k2.Name() + t2 + ".html"
    ensures k1 == k2 && t1 == t2
  {
    var p := k1.Name() + t1 + ".html";
    assert p[0] == k1.Name()[0];
    assert p[0] == k2.Name()[0];
    KindFromInitial(k1, k2);
    var n := |k1.Name()|;
    assert t1 + ".html" == p[n..];
    assert t2 + ".html" == p[n..];
    CancelSuffix(t1, t2, ".html");
  }

  /** Two grid items lead to the same detail page only for the same kind
      and the same id. */
  lemma DetailPagesDistinct(k1: Kind, id1: nat, k2: Kind, id2: nat)
    requires DetailPage(k1, id1) == DetailPage(k2, id2)
    ensures k1 == k2 && id1 == id2
  {
    SamePage(k1, Decimal.Text(id1), k2, Decimal.Text(id2));
    Decimal.TextInjective(id1, id2);
  }
}
