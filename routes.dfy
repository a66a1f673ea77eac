/** Which branch the listing routes take and what they fetch; the
    template rendering itself is not modelled. */
module Routes {
  import opened Posts

  /** What "/" and "/<page>" answer with: a redirect to the home page, or
      index.html with a page of posts and the page number it is given. */
  datatype IndexView = RedirectHome | Index(posts: seq<Post>, page: nat)

  /** What "/<user>/<page>" answers with: users_posts.html. */
  datatype UserView = UserView(posts: seq<Post>, page: nat, user: string)

  /** home(): the newest posts, shown as page 0. */
  function Home(posts: seq<Post>): (r: IndexView)
    ensures r.Index? && r.page == 0
    ensures |r.posts| <= PageSize && (r.posts == [] <==> posts == [])
  {
    Index(GetPosts(posts, 0), 0)
  }

  /** page(page): Flask's int converter only matches non-negative numbers;
      page 0 redirects home, page n otherwise shows get_posts(n - 1). */
  function PageView(posts: seq<Post>, page: nat): (r: IndexView)
    ensures r.RedirectHome? <==> page < 1
    ensures r.Index? ==> r.page == page && r.posts == GetPosts(posts, page - 1)
  {
    if page < 1 then RedirectHome
    else Index(GetPosts(posts, page - 1), page)
  }

  /** users_posts(user, page): pages 0 and 1 both show the first page,
      labelled 1; page n > 1 shows get_posts_by_user(user, n - 1). */
  function UsersPostsView(posts: seq<Post>, user: string, page: nat): (r: UserView)
    ensures r.user == user
    ensures r.page == if page < 1 then 1 else page
    ensures r.posts == GetPostsByUser(posts, user, r.page - 1)
  {
    if page < 2 then UserView(GetPostsByUser(posts, user, 0), 1, user)
    else UserView(GetPostsByUser(posts, user, page - 1), page, user)
  }

  /** "/1" lists the same posts as "/". */
  lemma PageOneIsHome(posts: seq<Post>)
    ensures PageView(posts, 1).posts == Home(posts).posts
  {
  }

  /** Walking "/1", "/2", ... goes back in time. */
  lemma PageViewsDescend(posts: seq<Post>, page: nat)
    requires page >= 1
    ensures forall x, y :: x in PageView(posts, page).posts && y in PageView(posts, page + 1).posts ==>
      x.date >= y.date
  {
    GetPostsDescend(posts, page - 1, page);
  }

  /** Every post is listed under "/n" for some n >= 1. */
  lemma PageViewsComplete(posts: seq<Post>, p: Post)
    requires p in posts
    ensures exists page: nat :: page >= 1 && PageView(posts, page).Index? && p in PageView(posts, page).posts
  {
    GetPostsComplete(posts, p);
    var num: nat :| p in GetPosts(posts, num);
    assert PageView(posts, num + 1).posts == GetPosts(posts, num);
  }

  /** Walking "/user/1", "/user/2", ... goes back in time. */
  lemma UsersPostsViewsDescend(posts: seq<Post>, user: string, page: nat)
    requires page >= 1
    ensures forall x, y ::
      x in UsersPostsView(posts, user, page).posts && y in UsersPostsView(posts, user, page + 1).posts ==>
        x.date >= y.date
  {
    GetPostsByUserDescend(posts, user, page - 1, page);
  }

  /** Every post of the user is listed under "/user/n" for some n >= 1,
      and only the user's posts are. */
  lemma UsersPostsViewsComplete(posts: seq<Post>, user: string, p: Post)
    requires p in posts
    ensures (exists page: nat :: page >= 1 && p in UsersPostsView(posts, user, page).posts) <==> p.author == user
  {
    if p.author == user {
      GetPostsByUserComplete(posts, user, p);
      var num: nat :| p in GetPostsByUser(posts, user, num);
      assert UsersPostsView(posts, user, num + 1).posts == GetPostsByUser(posts, user, num);
    }
  }
}
