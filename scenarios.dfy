/** Client code that uses the two stores only through their contracts:
    the request sequences a visitor and an author go through. */
module Scenarios {
  import opened Common
  import opened Text
  import opened Render
  import opened Posts
  import opened Users

  /** create_post followed by view_post: the new post is found under the
      next id, with its body rendered. */
  method CreateThenView(store: PostStore, title: string, subtitle: string, body: string,
                        author: string, date: int, imgUrl: string) returns (viewed: Option<Post>)
    requires store.Valid() && !TitleTaken(store.posts, title)
    modifies store
    ensures store.Valid()
    ensures viewed == Some(Post(|old(store.posts)| + 1, title, subtitle, RenderBody(body), author, date, imgUrl))
  {
    var id := |store.posts| + 1;
    var s := store.AddPost(title, subtitle, body, author, date, imgUrl);
    assert store.posts[id - 1] == Post(id, title, subtitle, body, author, date, imgUrl);
    assert forall i :: 0 <= i < |store.posts| && store.posts[i].id == id ==> i == id - 1;
    viewed := store.GetPost(id);
  }

  /** Creating a second post with the title of the first fails, and the
      first post stays as it was. */
  method DuplicateTitle(store: PostStore, title: string, body: string, otherBody: string, author: string, date: int)
    returns (first: Status, second: Status)
    requires store.Valid() && !TitleTaken(store.posts, title)
    modifies store
    ensures store.Valid()
    ensures first == Done && second == Conflict
    ensures store.posts == old(store.posts) + [Post(|old(store.posts)| + 1, title, "", body, author, date, "")]
  {
    first := store.AddPost(title, "", body, author, date, "");
    assert store.posts[|store.posts| - 1].title == title;
    second := store.AddPost(title, "", otherBody, author, date + 1, "");
  }

  /** Editing a post to the title of another post fails and changes
      nothing. */
  method EditToTakenTitle(store: PostStore, id: int, other: int, now: int) returns (s: Status)
    requires store.Valid()
    requires 1 <= id <= |store.posts| && 1 <= other <= |store.posts| && id != other
    modifies store
    ensures s == Conflict && store.posts == old(store.posts)
  {
    var taken := store.posts[other - 1].title;
    assert store.posts[other - 1].id == other;
    s := store.UpdatePost(id, taken, "", "", "", now);
  }

  /** Registering and then logging in with the same password succeeds
      whatever white space surrounds the name on either form; a password
      the check rejects is refused. */
  method RegisterThenLogin(store: UserStore, name: string, email: string, passwordHash: string,
                           loginName: string, password: string, check: (string, string) -> bool)
    returns (outcome: LoginOutcome)
    requires store.Valid() && !NameOrEmailTaken(store.users, Strip(name), Strip(email))
    requires Strip(loginName) == Strip(name)
    modifies store
    ensures store.Valid()
    ensures check(passwordHash, password) ==> outcome.LoggedIn? && outcome.user.name == Strip(name)
    ensures !check(passwordHash, password) ==> outcome == InvalidPassword
  {
    var s := store.AddUser(name, email, passwordHash);
    RegisteredUserLogsIn(old(store.users), name, email, passwordHash, loginName, password, check);
    outcome := Login(store.users, loginName, password, check);
  }
}
