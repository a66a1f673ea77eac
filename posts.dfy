/** The posts table, its listing queries and the in-memory store that
    stands for the SQLite file. */
module Posts {
  import opened Common
  import opened Text
  import opened Render

  /** NUMBER_OF_POSTS_PER_PAGE. */
  const PageSize: nat := 5

  /** A row of the posts table. The date is a timestamp on any integer
      scale; imgUrl holds whatever the form submitted. */
  datatype Post = Post(
    id: nat,
    title: string,
    subtitle: string,
    body: string,
    author: string,
    date: int,
    imgUrl: string)
  {
    /** Post.separate_body: the body's paragraphs, split on newlines. */
    function SeparateBody(): (r: seq<string>)
      ensures Join(r, "\n") == body
      ensures |r| == CountChar(body, '\n') + 1
      ensures forall k :: 0 <= k < |r| ==> '\n' !in r[k]
    {
      JoinSplit(body, "\n");
      SplitCharShape(body, '\n');
      SplitOn(body, "\n")
    }
  }

  // ---------------------------------------------------------------------
  // Table invariant

  /** Row i has id i + 1: SQLite gives a new row the largest id plus one,
      and no operation deletes a post. */
  predicate IdsAreRows(posts: seq<Post>) {
    forall i :: 0 <= i < |posts| ==> posts[i].id == i + 1
  }

  /** The UNIQUE constraint on title. */
  predicate TitlesUnique(posts: seq<Post>) {
    forall i, j :: 0 <= i < j < |posts| ==> posts[i].title != posts[j].title
  }

  predicate TitleTaken(posts: seq<Post>, title: string) {
    exists i :: 0 <= i < |posts| && posts[i].title == title
  }

  /** Some post other than the one with this id already has the title. */
  predicate TitleTakenByOther(posts: seq<Post>, id: int, title: string) {
    exists i :: 0 <= i < |posts| && posts[i].title == title && posts[i].id != id
  }

  // ---------------------------------------------------------------------
  // Ordering: ORDER BY date DESC

  ghost predicate DateDescending(s: seq<Post>) {
    forall i, j :: 0 <= i < j < |s| ==> s[i].date >= s[j].date
  }

  /** An order the query may return the rows in: all of them, newest first.
      Rows with equal dates may come in any order. */
  ghost predicate ListingOrder(ordered: seq<Post>, posts: seq<Post>) {
    DateDescending(ordered) && multiset(ordered) == multiset(posts)
  }

  function InsertByDate(p: Post, s: seq<Post>): (r: seq<Post>)
    ensures multiset(r) == multiset(s) + multiset{p}
    ensures |r| == |s| + 1
  {
    if s == [] then [p]
    else if p.date >= s[0].date then [p] + s
    else
      assert s == [s[0]] + s[1..];
      [s[0]] + InsertByDate(p, s[1..])
  }

  /** Inserting into a newest-first sequence keeps it newest first. */
  lemma {:induction false} InsertKeepsOrder(p: Post, s: seq<Post>)
    requires DateDescending(s)
    ensures DateDescending(InsertByDate(p, s))
  {
    if s != [] && p.date < s[0].date {
      InsertKeepsOrder(p, s[1..]);
      InsertBelowHead(p, s);
      ConsKeepsOrder(s[0], InsertByDate(p, s[1..]));
    }
  }

  lemma InsertBelowHead(p: Post, s: seq<Post>)
    requires DateDescending(s) && s != [] && p.date < s[0].date
    ensures forall x :: x in InsertByDate(p, s[1..]) ==> s[0].date >= x.date
  {
    var t := InsertByDate(p, s[1..]);
    forall x | x in t ensures s[0].date >= x.date {
      assert x in multiset(t);
      if x != p {
        assert x in multiset(s[1..]);
        var k :| 0 <= k < |s[1..]| && s[1..][k] == x;
        assert s[k + 1] == x;
      }
    }
  }

  lemma ConsKeepsOrder(x: Post, t: seq<Post>)
    requires DateDescending(t)
    requires forall y :: y in t ==> x.date >= y.date
    ensures DateDescending([x] + t)
  {
    var r := [x] + t;
    forall i, j | 0 <= i < j < |r| ensures r[i].date >= r[j].date {
      assert r[j] == t[j - 1];
      if i > 0 {
        assert r[i] == t[i - 1];
      }
    }
  }

  /** The one order the model picks among those ListingOrder allows: an
      insertion sort that keeps rows with equal dates in id order. */
  function SortByDate(s: seq<Post>): (r: seq<Post>)
    ensures ListingOrder(r, s)
    ensures |r| == |s|
  {
    if s == [] then []
    else
      var t := SortByDate(s[1..]);
      assert s == [s[0]] + s[1..];
      InsertKeepsOrder(s[0], t);
      InsertByDate(s[0], t)
  }

  // ---------------------------------------------------------------------
  // Pages: LIMIT PageSize OFFSET num * PageSize

  function Min(a: int, b: int): int { if a <= b then a else b }

  function Page(ordered: seq<Post>, num: nat): (r: seq<Post>)
    ensures |r| == if num * PageSize >= |ordered| then 0 else Min(PageSize, |ordered| - num * PageSize)
    ensures forall k :: 0 <= k < |r| ==> r[k] == ordered[num * PageSize + k]
  {
    var lo := Min(num * PageSize, |ordered|);
    var hi := Min(lo + PageSize, |ordered|);
    ordered[lo..hi]
  }

  /** An earlier page of a newest-first order holds no post older than a
      post on a later page. */
  lemma PagesDescend(ordered: seq<Post>, num: nat, later: nat)
    requires DateDescending(ordered) && num < later
    ensures forall x, y :: x in Page(ordered, num) && y in Page(ordered, later) ==> x.date >= y.date
  {
    var p, q := Page(ordered, num), Page(ordered, later);
    forall x, y | x in p && y in q ensures x.date >= y.date {
      var a :| 0 <= a < |p| && p[a] == x;
      var b :| 0 <= b < |q| && q[b] == y;
      assert ordered[num * PageSize + a] == x && ordered[later * PageSize + b] == y;
    }
  }

  /** Each position of the order is shown on exactly the page its index
      falls in. */
  lemma PageHolds(ordered: seq<Post>, k: nat)
    requires k < |ordered|
    ensures k / PageSize * PageSize <= k
    ensures 0 <= k % PageSize < |Page(ordered, k / PageSize)|
    ensures Page(ordered, k / PageSize)[k % PageSize] == ordered[k]
  {
    assert k == k / PageSize * PageSize + k % PageSize;
  }

  /** Posts of the order that are on some page: all of them. */
  lemma PagesCover(ordered: seq<Post>, p: Post)
    requires p in ordered
    ensures exists num: nat :: p in Page(ordered, num)
  {
    var k :| 0 <= k < |ordered| && ordered[k] == p;
    PageHolds(ordered, k);
    assert p in Page(ordered, k / PageSize);
  }

  // ---------------------------------------------------------------------
  // get_posts and get_posts_by_user

  /** get_posts(num): page num of all posts, newest first. */
  function GetPosts(posts: seq<Post>, num: nat): (r: seq<Post>)
    ensures |r| == if num * PageSize >= |posts| then 0 else Min(PageSize, |posts| - num * PageSize)
    ensures r == [] <==> num * PageSize >= |posts|
    ensures forall p :: p in r ==> p in posts
    ensures DateDescending(r)
  {
    var ordered := SortByDate(posts);
    PageOfListing(ordered, posts, num);
    Page(ordered, num)
  }

  /** A page of a listing order holds rows of the table, newest first. */
  lemma PageOfListing(ordered: seq<Post>, posts: seq<Post>, num: nat)
    requires ListingOrder(ordered, posts)
    ensures |ordered| == |posts|
    ensures forall p :: p in Page(ordered, num) ==> p in posts
    ensures DateDescending(Page(ordered, num))
  {
    assert |multiset(ordered)| == |multiset(posts)|;
    var r := Page(ordered, num);
    forall p | p in r ensures p in posts {
      assert p in multiset(ordered);
    }
  }

  /** The WHERE author == user clause: the posts of one author, in table
      order. */
  function PostsBy(posts: seq<Post>, user: string): (r: seq<Post>)
    ensures forall p :: p in r <==> p in posts && p.author == user
    ensures forall p {:trigger multiset(r)[p]} :: multiset(r)[p] == if p.author == user then multiset(posts)[p] else 0
  {
    if posts == [] then []
    else
      var rest := PostsBy(posts[1..], user);
      assert posts == [posts[0]] + posts[1..];
      if posts[0].author == user then [posts[0]] + rest else rest
  }

  /** get_posts_by_user(user, num): the query of get_posts over the rows
      the WHERE clause keeps. */
  function GetPostsByUser(posts: seq<Post>, user: string, num: nat): (r: seq<Post>)
    ensures |r| == if num * PageSize >= |PostsBy(posts, user)| then 0 else Min(PageSize, |PostsBy(posts, user)| - num * PageSize)
    ensures r == [] <==> num * PageSize >= |PostsBy(posts, user)|
    ensures forall p :: p in r ==> p in posts && p.author == user
    ensures DateDescending(r)
  {
    var mine := PostsBy(posts, user);
    var r := GetPosts(mine, num);
    assert forall p :: p in r ==> p in mine;
    r
  }

  /** get_posts returns page num of a newest-first order of all posts. */
  lemma GetPostsIsPage(posts: seq<Post>, num: nat)
    ensures exists ordered :: ListingOrder(ordered, posts) && GetPosts(posts, num) == Page(ordered, num)
  {
    assert ListingOrder(SortByDate(posts), posts);
  }

  /** get_posts_by_user(user, num) is page num of a newest-first order of
      that user's posts: the same LIMIT and OFFSET as get_posts. */
  lemma GetPostsByUserIsPage(posts: seq<Post>, user: string, num: nat)
    ensures exists ordered :: ListingOrder(ordered, PostsBy(posts, user)) && GetPostsByUser(posts, user, num) == Page(ordered, num)
  {
    assert ListingOrder(SortByDate(PostsBy(posts, user)), PostsBy(posts, user));
  }

  /** Every post on page num is at least as new as every post on a later
      page. */
  lemma GetPostsDescend(posts: seq<Post>, num: nat, later: nat)
    requires num < later
    ensures forall x, y :: x in GetPosts(posts, num) && y in GetPosts(posts, later) ==> x.date >= y.date
  {
    PagesDescend(SortByDate(posts), num, later);
  }

  /** Every post is listed on some page. */
  lemma GetPostsComplete(posts: seq<Post>, p: Post)
    requires p in posts
    ensures exists num: nat :: p in GetPosts(posts, num)
  {
    var ordered := SortByDate(posts);
    assert p in multiset(ordered);
    var k :| 0 <= k < |ordered| && ordered[k] == p;
    PageHolds(ordered, k);
    assert p in GetPosts(posts, k / PageSize);
  }

  lemma GetPostsByUserDescend(posts: seq<Post>, user: string, num: nat, later: nat)
    requires num < later
    ensures forall x, y :: x in GetPostsByUser(posts, user, num) && y in GetPostsByUser(posts, user, later) ==>
      x.date >= y.date
  {
    PagesDescend(SortByDate(PostsBy(posts, user)), num, later);
  }

  /** Every post of the user is listed on some page of the user's listing. */
  lemma GetPostsByUserComplete(posts: seq<Post>, user: string, p: Post)
    requires p in posts && p.author == user
    ensures exists num: nat :: p in GetPostsByUser(posts, user, num)
  {
    var ordered := SortByDate(PostsBy(posts, user));
    assert p in multiset(ordered);
    var k :| 0 <= k < |ordered| && ordered[k] == p;
    PageHolds(ordered, k);
    assert p in GetPostsByUser(posts, user, k / PageSize);
  }

  // ---------------------------------------------------------------------
  // The store

  /** The posts table; each method is one committed session. */
  class PostStore {
    var posts: seq<Post>

    ghost predicate Valid()
      reads this
    {
      IdsAreRows(posts) && TitlesUnique(posts)
    }

    constructor ()
      ensures Valid() && posts == []
    {
      posts := [];
    }

    /** add_post: insert a row; a title already in the table makes the
        commit fail and leaves the table as it was. */
    method AddPost(title: string, subtitle: string, body: string, author: string, date: int, imgUrl: string)
      returns (s: Status)
      requires Valid()
      modifies this
      ensures Valid()
      ensures s == Done || s == Conflict
      ensures s == Conflict <==> TitleTaken(old(posts), title)
      ensures s == Conflict ==> posts == old(posts)
      ensures s == Done ==>
        posts == old(posts) + [Post(|old(posts)| + 1, title, subtitle, body, author, date, imgUrl)]
    {
      if TitleTaken(posts, title) {
        return Conflict;
      }
      posts := posts + [Post(|posts| + 1, title, subtitle, body, author, date, imgUrl)];
      s := Done;
    }

    /** update_post: replace title, subtitle, body, image url and date of
        the post with this id; its id and author stay, and so does every
        other post. */
    method UpdatePost(id: int, title: string, subtitle: string, body: string, imgUrl: string, now: int)
      returns (s: Status)
      requires Valid()
      modifies this
      ensures Valid()
      ensures s == NotFound <==> !(1 <= id <= |old(posts)|)
      ensures s == Conflict <==> 1 <= id <= |old(posts)| && TitleTakenByOther(old(posts), id, title)
      ensures s != Done ==> posts == old(posts)
      ensures s == Done ==>
        && |posts| == |old(posts)|
        && posts[id - 1] == Post(id, title, subtitle, body, old(posts)[id - 1].author, now, imgUrl)
        && forall j :: 0 <= j < |posts| && j != id - 1 ==> posts[j] == old(posts)[j]
    {
      if !(1 <= id <= |posts|) {
        return NotFound;
      }
      if TitleTakenByOther(posts, id, title) {
        return Conflict;
      }
      var old_post := posts[id - 1];
      posts := posts[id - 1 := old_post.(title := title, subtitle := subtitle, body := body, date := now, imgUrl := imgUrl)];
      s := Done;
    }

    /** get_post: the post with this id (None stands for the 404), with its
        body replaced by the rendered body. The change is made to the
        fetched copy only; the table is not written. */
    method GetPost(id: int) returns (r: Option<Post>)
      requires Valid()
      ensures r == None <==> forall i :: 0 <= i < |posts| ==> posts[i].id != id
      ensures r.Some? ==>
        exists i :: 0 <= i < |posts| && posts[i].id == id && r.value == posts[i].(body := RenderBody(posts[i].body))
    {
      if !(1 <= id <= |posts|) {
        return None;
      }
      var post := posts[id - 1];
      var rendered := RenderBody(post.body);
      post := post.(body := rendered);
      r := Some(post);
    }
  }
}
