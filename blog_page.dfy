/** The blog list page (`App.pages.blog`): an object whose
    `currentCategory` the page's initialisation and the category clicks
    overwrite, with the category sidebar and the post list it renders. */
module BlogPage {
  import opened Content
  import BlogCategories
  import Navigation
  import ShareLink

  /** One entry of the category sidebar. */
  datatype CategoryItem = CategoryItem(name: string, display: string, count: nat, active: bool)

  /** One child of the post list: a post's grid item with its title,
      category and date, or the single "no posts" notice. */
  datatype ListEntry =
    | PostEntry(item: Navigation.GridItem, title: string, category: string, date: string)
    | NoPosts(category: string)

  /** The label shown for a category: `'all'` is shown as "전체". */
  function DisplayName(category: string): (name: string)
    ensures category == BlogCategories.All ==> name == "전체"
    ensures category != BlogCategories.All ==> name == category
  {
    if category == BlogCategories.All then "전체" else category
  }

  /** Two sidebar items show the same text only for the same category,
      unless a post is filed under the category `전체` itself. */
  lemma DisplayNamesDistinct(c1: string, c2: string)
    requires c1 != "전체" && c2 != "전체"
    requires DisplayName(c1) == DisplayName(c2)
    ensures c1 == c2
  {
  }

  /** The sidebar `createCategoryList` renders: one item per category, with
      its count, active exactly when it is the current category. */
  function CategoryView(posts: seq<BlogPost>, current: string): (view: seq<CategoryItem>)
    ensures |view| == |BlogCategories.Categories(posts)|
    ensures forall i :: 0 <= i < |view| ==>
              var c := BlogCategories.Categories(posts)[i];
              view[i] == CategoryItem(c, DisplayName(c), BlogCategories.CategoryCount(posts, c), c == current)
  {
    var cats := BlogCategories.Categories(posts);
    seq(|cats|, i requires 0 <= i < |cats| =>
      CategoryItem(cats[i], DisplayName(cats[i]), BlogCategories.CategoryCount(posts, cats[i]), cats[i] == current))
  }

  /** A post as `createGridItem(post, 'blog')` renders it. */
  function PostEntryFor(post: BlogPost): ListEntry {
    PostEntry(Navigation.CreateGridItem(post.id, "blog"), post.title, post.category, DateText(post.date))
  }

  /** The list `createBlogList` renders: the filtered posts in order, or one
      "no posts" notice naming the category when none match. */
  function ListView(posts: seq<BlogPost>, current: string): (view: seq<ListEntry>)
    ensures BlogCategories.CategoryCount(posts, current) == 0 <==> view == [NoPosts(current)]
    ensures |view| == if BlogCategories.CategoryCount(posts, current) == 0 then 1
                      else BlogCategories.CategoryCount(posts, current)
  {
    var shown := BlogCategories.FilteredPosts(posts, current);
    if shown == [] then [NoPosts(current)]
    else
      var view := seq(|shown|, i requires 0 <= i < |shown| => PostEntryFor(shown[i]));
      assert view[0].PostEntry?;
      view
  }

  /** Every rendered post links to its own detail page `blog<id>.html`. */
  lemma ListViewTargets(posts: seq<BlogPost>, current: string, i: nat)
    requires i < |BlogCategories.FilteredPosts(posts, current)|
    ensures var shown := BlogCategories.FilteredPosts(posts, current);
            ListView(posts, current)[i].PostEntry?
            && ListView(posts, current)[i].item.target == Navigation.CreateGridItem(shown[i].id, "blog").target
            && ListView(posts, current)[i].item.target.value == Navigation.DetailPage(BlogKind, shown[i].id)
  {
  }

  /** With distinct categories, highlighting only the clicked item of the
      sidebar gives the sidebar a page opened on that category renders. */
  lemma {:induction false} ClickedHighlightIsInitialHighlight(posts: seq<BlogPost>, current: string, clicked: nat)
    requires BlogCategories.NoDuplicates(BlogCategories.Categories(posts))
    requires clicked < |BlogCategories.Categories(posts)|
    ensures var cats := BlogCategories.Categories(posts);
            var before := CategoryView(posts, current);
            CategoryView(posts, cats[clicked])
            == seq(|before|, i requires 0 <= i < |before| => before[i].(active := i == clicked))
  {
  }

  /** The sidebar's item for the `i`-th category. */
  lemma CategoryViewAt(posts: seq<BlogPost>, current: string, i: nat)
    requires i < |BlogCategories.Categories(posts)|
    ensures var c := BlogCategories.Categories(posts)[i];
            CategoryView(posts, current)[i] == CategoryItem(c, DisplayName(c), BlogCategories.CategoryCount(posts, c), c == current)
  {
  }

  /** The sidebar after a click, item by item, is the sidebar rendered for
      the clicked category. */
  lemma ClickedSidebar(posts: seq<BlogPost>, current: string, clicked: nat, after: seq<CategoryItem>)
    requires BlogCategories.NoDuplicates(BlogCategories.Categories(posts))
    requires clicked < |BlogCategories.Categories(posts)|
    requires |after| == |CategoryView(posts, current)|
    requires forall i :: 0 <= i < |after| ==> after[i] == CategoryView(posts, current)[i].(active := i == clicked)
    ensures after == CategoryView(posts, BlogCategories.Categories(posts)[clicked])
  {
    ClickedHighlightIsInitialHighlight(posts, current, clicked);
  }

  class Blog {
    /** `App.data.blogPosts`, read-only. */
    const posts: seq<BlogPost>
    /** Whether the page has the `#category-list` and `#blog-list` containers. */
    const hasCategoryList: bool
    const hasBlogList: bool
    /** `encodeURIComponent` and the form decoding `URLSearchParams`
        applies to each value. */
    const encode: string -> string
    const decode: string -> string

    /** The page's location, which `updateURL` replaces. */
    var location: ShareLink.Location
    var currentCategory: string
    /** The rendered children of `#category-list` and of `#blog-list`. */
    var categoryItems: seq<CategoryItem>
    var listItems: seq<ListEntry>

    /** The sidebar highlight and the post list agree with
        `currentCategory`. */
    ghost predicate Synced()
      reads this
    {
      && (hasBlogList ==> listItems == ListView(posts, currentCategory))
      && forall i :: 0 <= i < |categoryItems| && categoryItems[i].active ==> categoryItems[i].name == currentCategory
    }

    constructor (posts: seq<BlogPost>, hasCategoryList: bool, hasBlogList: bool,
                 location: ShareLink.Location, encode: string -> string, decode: string -> string)
      ensures this.posts == posts && this.hasCategoryList == hasCategoryList && this.hasBlogList == hasBlogList
      ensures this.location == location && this.encode == encode && this.decode == decode
      ensures currentCategory == BlogCategories.All && categoryItems == [] && listItems == []
    {
      this.posts := posts;
      this.hasCategoryList := hasCategoryList;
      this.hasBlogList := hasBlogList;
      this.location := location;
      this.encode := encode;
      this.decode := decode;
      currentCategory := BlogCategories.All;
      categoryItems := [];
      listItems := [];
    }

    /** `init`: take the category from the URL, then render the sidebar and
        the list. The URL is read with a single decoding (see
        `ShareLink.CategoryAtAsWritten` for the source's double decoding). */
    method Init()
      modifies this`currentCategory, this`categoryItems, this`listItems
      ensures currentCategory == ShareLink.CategoryAt(location, decode)
      ensures categoryItems == old(categoryItems) + (if hasCategoryList then CategoryView(posts, currentCategory) else [])
      ensures listItems == if hasBlogList then ListView(posts, currentCategory) else old(listItems)
      ensures old(categoryItems) == [] ==> Synced()
    {
      currentCategory := ShareLink.CategoryAt(location, decode);
      CreateCategoryList();
      CreateBlogList();
    }

    /** `createCategoryList`: appends one item per category to the sidebar. */
    method CreateCategoryList()
      modifies this`categoryItems
      ensures categoryItems == old(categoryItems) + (if hasCategoryList then CategoryView(posts, currentCategory) else [])
    {
      if !hasCategoryList {
        return;
      }
      var cats := BlogCategories.Categories(posts);
      ghost var before := categoryItems;
      ghost var view := CategoryView(posts, currentCategory);
      for i := 0 to |cats|
        invariant categoryItems == before + view[..i]
      {
        var c := cats[i];
        var item := CategoryItem(c, DisplayName(c), BlogCategories.CategoryCount(posts, c), c == currentCategory);
        CategoryViewAt(posts, currentCategory, i);
        assert view[..i + 1] == view[..i] + [view[i]];
        categoryItems := categoryItems + [item];
      }
      assert view[..|cats|] == view;
    }

    /** `createBlogList`: clears the list, then appends the filtered posts or
        the "no posts" notice. What it leaves does not depend on what was
        there before, so rendering again changes nothing. */
    method CreateBlogList()
      modifies this`listItems
      ensures listItems == if hasBlogList then ListView(posts, currentCategory) else old(listItems)
    {
      if !hasBlogList {
        return;
      }
      listItems := [];
      var shown := BlogCategories.FilteredPosts(posts, currentCategory);
      if |shown| == 0 {
        listItems := listItems + [NoPosts(currentCategory)];
        return;
      }
      for i := 0 to |shown|
        invariant |listItems| == i
        invariant forall j :: 0 <= j < i ==> listItems[j] == PostEntryFor(shown[j])
      {
        listItems := listItems + [PostEntryFor(shown[i])];
      }
    }

    /** `filterByCategory`, with its timed fade left out: set the category,
        then render the list again. */
    method FilterByCategory(category: string)
      modifies this`currentCategory, this`listItems
      ensures currentCategory == category
      ensures listItems == if hasBlogList then ListView(posts, category) else old(listItems)
    {
      currentCategory := category;
      CreateBlogList();
    }

    /** `updateActiveCategory`: clears `active` on every sidebar item, then
        sets it on the clicked one. */
    method UpdateActiveCategory(clicked: nat)
      requires clicked < |categoryItems|
      modifies this`categoryItems
      ensures |categoryItems| == |old(categoryItems)|
      ensures forall i :: 0 <= i < |categoryItems| ==> categoryItems[i] == old(categoryItems[i]).(active := i == clicked)
    {
      for i := 0 to |categoryItems|
        invariant |categoryItems| == |old(categoryItems)|
        invariant forall j :: 0 <= j < i ==> categoryItems[j] == old(categoryItems[j]).(active := false)
        invariant forall j :: i <= j < |categoryItems| ==> categoryItems[j] == old(categoryItems[j])
      {
        categoryItems := categoryItems[i := categoryItems[i].(active := false)];
      }
      categoryItems := categoryItems[clicked := categoryItems[clicked].(active := true)];
    }

    /** `updateURL`: replace the location by the category's shareable URL. */
    method UpdateURL(category: string)
      modifies this`location
      ensures location == ShareLink.ShareLocation(category, encode)
    {
      location := ShareLink.ShareLocation(category, encode);
    }

    /** The click handler of a sidebar item: filter, highlight, share. */
    method SelectCategory(clicked: nat)
      requires clicked < |categoryItems|
      modifies this`currentCategory, this`listItems, this`categoryItems, this`location
      ensures currentCategory == old(categoryItems[clicked].name)
      ensures listItems == if hasBlogList then ListView(posts, currentCategory) else old(listItems)
      ensures |categoryItems| == |old(categoryItems)|
      ensures forall i :: 0 <= i < |categoryItems| ==> categoryItems[i] == old(categoryItems[i]).(active := i == clicked)
      ensures location == ShareLink.ShareLocation(currentCategory, encode)
      ensures Synced()
    {
      var category := categoryItems[clicked].name;
      FilterByCategory(category);
      UpdateActiveCategory(clicked);
      UpdateURL(category);
    }
  }

  /** Selecting a category and then loading the shared URL in a fresh page
      shows the same category, the same posts and the same highlighted
      sidebar item. */
  method ReloadSharedLink(blog: Blog, clicked: nat) returns (reloaded: Blog)
    requires blog.hasCategoryList && blog.hasBlogList
    requires blog.categoryItems == CategoryView(blog.posts, blog.currentCategory)
    requires clicked < |blog.categoryItems|
    requires forall s :: blog.decode(blog.encode(s)) == s
    requires forall p :: p in blog.posts ==> p.category != [] && p.category != BlogCategories.All
    modifies blog
    ensures fresh(reloaded)
    ensures blog.currentCategory == old(blog.categoryItems[clicked].name)
    ensures blog.location == ShareLink.ShareLocation(blog.currentCategory, blog.encode)
    ensures reloaded.currentCategory == old(blog.categoryItems[clicked].name)
    ensures reloaded.listItems == ListView(blog.posts, reloaded.currentCategory)
    ensures reloaded.categoryItems == CategoryView(blog.posts, reloaded.currentCategory)
    ensures reloaded.currentCategory == blog.currentCategory
    ensures reloaded.listItems == blog.listItems
    ensures reloaded.categoryItems == blog.categoryItems
  {
    ghost var cats := BlogCategories.Categories(blog.posts);
    ghost var before := blog.categoryItems;
    blog.SelectCategory(clicked);
    var category := blog.currentCategory;
    assert category == cats[clicked];
    BlogCategories.CategoryNamesNonEmpty(blog.posts, clicked);
    ShareLink.ShareLinkRestoresCategory(category, blog.encode, blog.decode);
    reloaded := new Blog(blog.posts, blog.hasCategoryList, blog.hasBlogList, blog.location, blog.encode, blog.decode);
    reloaded.Init();
    assert reloaded.currentCategory == category;
    BlogCategories.CategoriesDistinct(blog.posts);
    ClickedSidebar(blog.posts, old(blog.currentCategory), clicked, blog.categoryItems);
  }
}
