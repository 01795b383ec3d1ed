/** Records of the site's data file, and what the rules above give for them. */
module Fixtures {
  import opened Wrappers
  import opened Content
  import Navigation
  import Archives
  import BlogCategories
  import BlogPage
  import Paths
  import Decimal

  const SiteNavigation: seq<NavEntry> := [
    NavEntry("index.html", "Top"),
    NavEntry("introduction.html", "Introduction"),
    NavEntry("character.html", "Character"),
    NavEntry("world.html", "World"),
    NavEntry("archive.html", "Archive"),
    NavEntry("blog.html", "Blog")
  ]

  const Moonlight := ArchiveRecord(1, "달빛 아래", "일러스트", Date(2024, 8, 15), Some("https://picsum.photos/400/300?random=21"))
  const DragonLegend := ArchiveRecord(2, "용의 전설", "소설", Date(2024, 7, 22), Some("https://picsum.photos/400/300?random=22"))

  const DesignPost := BlogPost(1, "새로운 캐릭터 디자인 과정", "창작 과정", Date(2024, 8, 20), ["캐릭터 디자인", "창작 팁", "루나"], 1247)
  const ColourPost := BlogPost(2, "색채 연구: 달빛의 표현", "아트 기법", Date(2024, 8, 15), ["색채학", "달빛", "아트 기법"], 892)
  const Posts: seq<BlogPost> := [DesignPost, ColourPost]

  const Luna := Character(1, "루나", "달의 마법사", "https://picsum.photos/300/400?random=1", Stats(4, 5, 5))
  const Arion := Character(2, "아리온", "바람의 검사", "https://picsum.photos/300/400?random=2", Stats(5, 3, 3))
  const Sera := Character(3, "세라", "얼음의 궁수", "https://picsum.photos/300/400?random=3", Stats(4, 4, 4))

  /** The data file, with its records in stored order. */
  const Data := Store(
    Site("창작자 개인 홈페이지", "창작과 상상이 만나는 특별한 공간",
         "© 2024 Creative Portfolio. 모든 창작물의 저작권은 작성자에게 있습니다.", SiteNavigation),
    [Luna, Arion, Sera],
    [Moonlight, DragonLegend],
    Posts)

  /** The site root is the Top page, which the first link highlights. */
  lemma RootIsTopPage()
    ensures Paths.CurrentPage("/") == Data.site.navigation[0].href
  {
  }

  /** `2024.08.15` comes before `2024.07.22` whatever the stored order. */
  lemma ArchiveNewestFirst()
    ensures Archives.SortNewestFirst(Data.archives) == [Moonlight, DragonLegend]
    ensures Archives.SortNewestFirst([DragonLegend, Moonlight]) == [Moonlight, DragonLegend]
  {
    assert [DragonLegend, Moonlight][1..] == [Moonlight];
    assert [Moonlight, DragonLegend][1..] == [DragonLegend];
  }

  lemma StoredDateText()
    ensures DateText(Moonlight.date) == "2024.08.15"
  {
    YearText();
    assert Decimal.Padded(0, 1) == "0";
    assert Decimal.Padded(8, 2) == "08";
    assert Decimal.Padded(1, 1) == "1";
    assert Decimal.Padded(15, 2) == "15";
  }

  lemma YearText()
    ensures Decimal.Padded(2024, 4) == "2024"
  {
    assert Decimal.Padded(0, 0) == "";
    assert Decimal.Padded(2, 1) == "2";
    assert Decimal.Padded(20, 2) == "20";
    assert Decimal.Padded(202, 3) == "202";
  }

  /** The sidebar lists `'all'` and the two categories, each with its count. */
  lemma BlogSidebar()
    ensures BlogCategories.Categories(Data.blogPosts) == ["all", "창작 과정", "아트 기법"]
    ensures BlogCategories.CategoryCount(Data.blogPosts, "all") == 2
    ensures BlogCategories.CategoryCount(Data.blogPosts, "아트 기법") == 1
  {
    var cats := ["창작 과정", "아트 기법"];
    assert BlogCategories.CategoriesOf(Posts) == cats;
    assert cats[..1] == ["창작 과정"] && cats[..1][..0] == [];
    assert BlogCategories.Distinct(cats[..1]) == ["창작 과정"];
    assert cats[1] !in ["창작 과정"];
    assert Posts[1..] == [ColourPost];
  }

  /** Selecting `아트 기법` shows the colour study only; a category no post
      has shows the "no posts" notice. */
  lemma BlogFilterScenarios()
    ensures BlogCategories.FilteredPosts(Data.blogPosts, "아트 기법") == [ColourPost]
    ensures BlogPage.ListView(Data.blogPosts, "공지") == [BlogPage.NoPosts("공지")]
    ensures |BlogPage.ListView(Data.blogPosts, "all")| == 2
  {
    assert Posts[1..] == [ColourPost];
    assert BlogCategories.PostsIn(Posts, "공지") == [];
  }

  /** The second character's grid item opens `character2.html`. */
  lemma CharacterDetailTarget()
    ensures Navigation.CreateGridItem(Data.characters[1].id, "character").target == Some("character2.html")
  {
    assert Data.characters[1].id == 2;
    assert Decimal.Text(2) == "2";
    assert Navigation.KindOf("character") == Some(CharacterKind);
    assert Navigation.DetailPage(CharacterKind, 2) == "character" + "2" + ".html";
    assert "character" + "2" + ".html" == "character2.html";
  }
}
