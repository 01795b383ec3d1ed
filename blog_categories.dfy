/** The blog page's pure rules: the category list and its counts, the
    posts a category shows, and the category read from the URL. */
module BlogCategories {
  import opened Content

  /** The sentinel category that shows every post. */
  const All: string := "all"

  predicate NoDuplicates(xs: seq<string>) {
    forall i, j :: 0 <= i < j < |xs| ==> xs[i] != xs[j]
  }

  /** `blogPosts.map(post => post.category)`. */
  function CategoriesOf(posts: seq<BlogPost>): (cs: seq<string>)
    ensures |cs| == |posts|
    ensures forall i :: 0 <= i < |cs| ==> cs[i] == posts[i].category
  {
    seq(|posts|, i requires 0 <= i < |posts| => posts[i].category)
  }

  /** When no post is filed under `'all'` itself, the whole category list,
      `'all'` included, is free of repeats. */
  lemma CategoriesDistinct(posts: seq<BlogPost>)
    requires forall p :: p in posts ==> p.category != All
    ensures NoDuplicates(Categories(posts))
  {
    var cats := Categories(posts);
    forall i, j | 0 <= i < j < |cats| ensures cats[i] != cats[j] {
      assert cats[1..][j - 1] == cats[j];
      if i > 0 {
        assert cats[1..][i - 1] == cats[i];
      } else {
        assert cats[j] in cats[1..];
        var p :| p in posts && p.category == cats[j];
      }
    }
  }

  /** When every post has a non-empty category, so has every item of the
      category list. */
  lemma CategoryNamesNonEmpty(posts: seq<BlogPost>, k: nat)
    requires forall p :: p in posts ==> p.category != []
    requires k < |Categories(posts)|
    ensures Categories(posts)[k] != []
  {
    var cats := Categories(posts);
    if k > 0 {
      assert cats[1..][k - 1] == cats[k];
      assert cats[k] in cats[1..];
      var p :| p in posts && p.category == cats[k];
    }
  }

  /** The position of the first occurrence of `x`. */
  function FirstIndex(xs: seq<string>, x: string): (k: nat)
    requires x in xs
    ensures k < |xs| && xs[k] == x
    ensures forall m :: 0 <= m < k ==> xs[m] != x
  {
    if xs[0] == x then 0 else 1 + FirstIndex(xs[1..], x)
  }

  /** Iterating `new Set(xs)`: every value once, in first-occurrence order. */
  function Distinct(xs: seq<string>): (r: seq<string>)
    ensures NoDuplicates(r)
    ensures forall x :: x in r <==> x in xs
  {
    if xs == [] then []
    else
      var r := Distinct(xs[..|xs| - 1]);
      assert forall x :: x in xs <==> x in xs[..|xs| - 1] || x == xs[|xs| - 1] by {
        assert xs == xs[..|xs| - 1] + [xs[|xs| - 1]];
      }
      if xs[|xs| - 1] in r then r else r + [xs[|xs| - 1]]
  }

  /** The distinct values come out ordered by where each first occurs. */
  lemma {:induction false} DistinctFirstOccurrenceOrder(xs: seq<string>, i: nat, j: nat)
    requires i < j < |Distinct(xs)|
    ensures FirstIndex(xs, Distinct(xs)[i]) < FirstIndex(xs, Distinct(xs)[j])
  {
    var n := |xs| - 1;
    var init := xs[..n];
    var r := Distinct(init);
    var a, b := Distinct(xs)[i], Distinct(xs)[j];
    assert xs == init + [xs[n]];
    assert a in r by {
      if xs[n] !in r { assert i < |r|; assert a == r[i]; }
    }
    FirstIndexOfPrefix(xs, n, a);
    if j < |r| {
      assert a == r[i] && b == r[j];
      DistinctFirstOccurrenceOrder(init, i, j);
      FirstIndexOfPrefix(xs, n, b);
    } else {
      assert b == xs[n] && b !in init;
      assert FirstIndex(xs, b) == n;
    }
  }

  lemma FirstIndexOfPrefix(xs: seq<string>, n: nat, x: string)
    requires n <= |xs| && x in xs[..n]
    ensures FirstIndex(xs, x) == FirstIndex(xs[..n], x) < n
  {
    var k, k' := FirstIndex(xs, x), FirstIndex(xs[..n], x);
    assert xs[..n][k'] == xs[k'];
  }

  /** `['all', ...new Set(blogPosts.map(post => post.category))]`. */
  function Categories(posts: seq<BlogPost>): (r: seq<string>)
    ensures |r| >= 1 && r[0] == All
    ensures r[1..] == Distinct(CategoriesOf(posts))
    ensures NoDuplicates(r[1..])
    ensures forall c :: c in r[1..] <==> exists p :: p in posts && p.category == c
  {
    var cats := CategoriesOf(posts);
    var d := Distinct(cats);
    assert ([All] + d)[1..] == d;
    assert forall c :: c in cats <==> exists p :: p in posts && p.category == c by {
      forall c ensures c in cats <==> exists p :: p in posts && p.category == c {
        if c in cats {
          var i :| 0 <= i < |cats| && cats[i] == c;
          assert posts[i] in posts;
        }
        if p :| p in posts && p.category == c {
          var i :| 0 <= i < |posts| && posts[i] == p;
          assert cats[i] == c;
        }
      }
    }
    [All] + d
  }

  /** The posts of category `c`, in their stored order. */
  function PostsIn(posts: seq<BlogPost>, c: string): (r: seq<BlogPost>)
    ensures |r| <= |posts|
    ensures forall p :: p in r <==> p in posts && p.category == c
  {
    if posts == [] then []
    else (if posts[0].category == c then [posts[0]] else []) + PostsIn(posts[1..], c)
  }

  /** Filtering splits over concatenation, so the filtered posts keep the
      order they have in the collection. */
  lemma {:induction false} PostsInAppend(a: seq<BlogPost>, b: seq<BlogPost>, c: string)
    ensures PostsIn(a + b, c) == PostsIn(a, c) + PostsIn(b, c)
  {
    if a != [] {
      assert (a + b)[1..] == a[1..] + b;
      PostsInAppend(a[1..], b, c);
    } else {
      assert a + b == b;
    }
  }

  /** The number of posts in category `c` is its number of occurrences
      among the posts' categories. */
  lemma {:induction false} PostsInCount(posts: seq<BlogPost>, c: string)
    ensures |PostsIn(posts, c)| == multiset(CategoriesOf(posts))[c]
  {
    if posts != [] {
      PostsInCount(posts[1..], c);
      assert CategoriesOf(posts) == [posts[0].category] + CategoriesOf(posts[1..]);
    }
  }

  /** The count shown beside a category: every post for `'all'`, otherwise
      the posts whose category is exactly `c`. */
  function CategoryCount(posts: seq<BlogPost>, c: string): (n: nat)
    ensures c == All ==> n == |posts|
    ensures n <= |posts|
  {
    if c == All then |posts| else |PostsIn(posts, c)|
  }

  /** The count beside a category other than `'all'` is its number of
      occurrences among the posts' categories. */
  lemma CountIsOccurrences(posts: seq<BlogPost>, c: string)
    requires c != All
    ensures CategoryCount(posts, c) == multiset(CategoriesOf(posts))[c]
  {
    PostsInCount(posts, c);
  }

  /** The posts `createBlogList` shows for the current category. */
  function FilteredPosts(posts: seq<BlogPost>, current: string): (r: seq<BlogPost>)
    ensures current == All ==> r == posts
    ensures current != All ==> forall p :: p in r <==> p in posts && p.category == current
    ensures |r| == CategoryCount(posts, current)
  {
    if current == All then posts else PostsIn(posts, current)
  }

  /** The occurrences in `xs` of each value of `cs`, added up. */
  function SumOccurrences(xs: seq<string>, cs: seq<string>): nat {
    if cs == [] then 0 else SumOccurrences(xs, cs[..|cs| - 1]) + multiset(xs)[cs[|cs| - 1]]
  }

  lemma {:induction false} SumOccurrencesSnoc(ys: seq<string>, x: string, cs: seq<string>)
    requires NoDuplicates(cs)
    ensures SumOccurrences(ys + [x], cs) == SumOccurrences(ys, cs) + (if x in cs then 1 else 0)
  {
    if cs != [] {
      var init := cs[..|cs| - 1];
      assert cs == init + [cs[|cs| - 1]];
      SumOccurrencesSnoc(ys, x, init);
      assert x in cs <==> x in init || x == cs[|cs| - 1];
      if x == cs[|cs| - 1] {
        assert x !in init;
      }
    }
  }

  lemma {:induction false} OccurrencesOfDistinct(xs: seq<string>)
    ensures SumOccurrences(xs, Distinct(xs)) == |xs|
  {
    if xs != [] {
      var n := |xs| - 1;
      var ys, x := xs[..n], xs[n];
      assert xs == ys + [x];
      var d := Distinct(ys);
      OccurrencesOfDistinct(ys);
      SumOccurrencesSnoc(ys, x, d);
      if x !in d {
        assert (d + [x])[..|d|] == d;
        assert x !in ys;
      }
    }
  }

  /** The sum of the counts shown over a list of categories. */
  function SumCounts(posts: seq<BlogPost>, cs: seq<string>): nat {
    if cs == [] then 0 else SumCounts(posts, cs[..|cs| - 1]) + CategoryCount(posts, cs[|cs| - 1])
  }

  lemma {:induction false} SumCountsOfNonAll(posts: seq<BlogPost>, cs: seq<string>)
    requires All !in cs
    ensures SumCounts(posts, cs) == SumOccurrences(CategoriesOf(posts), cs)
  {
    if cs != [] {
      SumCountsOfNonAll(posts, cs[..|cs| - 1]);
      PostsInCount(posts, cs[|cs| - 1]);
    }
  }

  /** When no post is itself filed under `'all'`, the counts beside the
      categories after `'all'` add up to the count beside `'all'`. */
  lemma CountsAddUpToAll(posts: seq<BlogPost>)
    requires forall p :: p in posts ==> p.category != All
    ensures SumCounts(posts, Categories(posts)[1..]) == CategoryCount(posts, All)
  {
    var cs := Categories(posts)[1..];
    assert cs == Distinct(CategoriesOf(posts));
    SumCountsOfNonAll(posts, cs);
    OccurrencesOfDistinct(CategoriesOf(posts));
  }

  /** `getCategoryFromURL`: `params.category || 'all'`, so an absent or
      empty parameter selects every post. */
  function CategoryFromParams(params: map<string, string>): (c: string)
    ensures c != []
    ensures ("category" in params && params["category"] != []) ==> c == params["category"]
    ensures ("category" !in params || params["category"] == []) ==> c == All
  {
    if "category" in params && params["category"] != [] then params["category"] else All
  }
}
