# A verified model of the blog's post store, renderer and login logic

The blog is a small Flask application (`main.py`). Apart from template and
form glue, it does three things whose behaviour can be stated exactly.
This project models those three in Dafny and proves what they promise.

- **Post renderer** (`get_post`): the stored body is HTML-escaped with
  `html.escape`. Every `{{img}}` then becomes `<img src='` and every
  `{{/img}}` becomes `'/>`. `Post.separate_body` splits a body on newlines.
- **Post store and listings**: the posts table has a UNIQUE title. There is
  also `add_post`, `update_post` and `get_post`, the two paginated queries
  `get_posts` / `get_posts_by_user` (newest first, 5 per page, offset
  `num * 5`), and the page-number mapping of the `/<page>` and
  `/<user>/<page>` routes.
- **Users**: `add_user` strips the name and email and enforces UNIQUE on
  both. `get_user` looks up the stripped name. The login handler chooses
  one of three outcomes.

Files, one module each:

| file | module | contents |
|---|---|---|
| `common.dfy` | `Common` | `Option`, and `Status` (`Done`, `Conflict` for an IntegrityError, `NotFound`) |
| `text.dfy` | `Text` | Python's `str.strip`, `str.split`, `str.join`, `str.replace` / literal `re.sub` |
| `render.dfy` | `Render` | `html.escape` as CPython writes it, the body renderer, the markup-safety grammar |
| `posts.dfy` | `Posts` | `Post` with `SeparateBody`, newest-first order, pages, the queries, class `PostStore` |
| `users.dfy` | `Users` | `User`, lookup, the login decision, class `UserStore` |
| `routes.dfy` | `Routes` | `home`, `page` and `users_posts`: which branch runs and what they fetch |
| `scenarios.dfy` | `Scenarios` | client methods that chain store calls: create then view, duplicate title, edit conflict, register then log in |

The two tables are classes whose methods reassign a `seq` field. Each
method stands for one committed session. `Valid()` holds the table's
constraints:
- row `i` has id `i + 1`, because SQLite gives a new row the largest id plus one and nothing is ever deleted;
- titles are unique (posts);
- names and emails are unique (users).

Reads and queries are functions of the table value. `get_post` is a
method: it fetches the row and overwrites the body of the fetched copy.

The model takes these things as inputs instead of computing them:
- the wall clock, as the `date` / `now` parameters;
- the result of `generate_password_hash`, as the `passwordHash` argument of `AddUser`;
- `check_password_hash`, as the `check` function given to `Login`.

Three facts about the code shape the contracts:
- `add_post` returns nothing, so `AddPost` returns only a `Status`.
- `update_post` replaces title, subtitle, body, img_url and date.
- The two login error texts are `"Incorrect username"` and `"Invalid password."`.

## Model

| member | source | states |
|---|---|---|
| `Text.StripLeft` | main.py:190-191 | drops a prefix made only of white space, and the rest does not start with white space |
| `Text.StripRight` | main.py:190-191 | drops a suffix made only of white space, and the rest does not end with white space |
| `Text.Strip` | main.py:190-191 | the result has no white space at either end (white space as Python's `str.isspace` defines it) |
| `Text.StripExact` | main.py:190-191 | `strip` returns exactly the trimmed core between any white-space prefix and suffix |
| `Text.StripSplits` | main.py:190-191 | `strip` removes only white space, and only at the two ends |
| `Text.StripIgnoresPadding` | main.py:417 | extra white space around a name does not change its stripped form |
| `Text.StripIdempotent` | main.py:198-201 | stripping a name that is already stripped changes nothing |
| `Text.SplitOn` | main.py:81 | `split` always gives at least one piece |
| `Text.Join` | main.py:81 | `sep.join(parts)` starts with the first part; with `SplitOn` it makes the round trips below |
| `Text.JoinSplit` | main.py:81 | joining the pieces of `s.split(sep)` with `sep` gives `s` back |
| `Text.SplitCharShape` | main.py:81 | splitting on one character gives one more piece than that character's count, and no piece contains it |
| `Text.SplitJoin` | main.py:81 | splitting a join of newline-free pieces gives the pieces back |
| `Text.Replace` | main.py:149-150 | a replacement at least as long as the pattern never shortens the string, and one at most as long never lengthens it |
| `Text.ReplaceViaSplit` | main.py:149-150 | replacing a literal pattern equals joining the pieces of a split on it with the replacement |
| `Text.ReplaceCharConcat` | main.py:146 | replacing a single character distributes over concatenation |
| `Render.HtmlEscape` | main.py:146 | `html.escape` never shortens its input, and leaves text without `&`, `<`, `>`, `"` or `'` unchanged |
| `Render.EscapeChars` | main.py:146 | escaping leaves no `<`, `>`, `"` or `'`, and adds no `{` |
| `Render.HtmlEscapeIsPerChar` | main.py:146 | `html.escape`'s five chained replacements, `&` first, escape each character on its own |
| `Render.UnescapeEscape` | main.py:146 | escaping loses nothing: decoding the five entities gives the body back |
| `Render.ReplaceKeepsSafe` | main.py:149-150 | replacing an inert marker with an image-tag fragment keeps markup safe |
| `Render.RenderBody` | main.py:146-150 | a rendered body is only inert characters, `<img src='` and `'/>`, whatever the author wrote |
| `Render.RenderImage` | main.py:146-150 | `a{{img}}url{{/img}}b` (with no `{` in a, url or b) renders as escaped `a`, then `<img src='`, escaped url, `'/>`, then escaped `b` |
| `Render.SafeMarkupAt` | main.py:146-150 | in safe markup: no `"`; every `<` opens `<img src='`; every `>` ends `'/>`; every `'` belongs to one of the two |
| `Render.RenderedMarkup` | main.py:146-150 | every position of a rendered body meets those conditions |
| `Render.RenderWithoutMarkers` | main.py:146-150 | a body with no `{` is rendered as its plain escape, with no markup at all |
| `Posts.Post.SeparateBody` | main.py:80-81 | the paragraphs joined with newlines give the body, one more paragraph than newlines, none holding a newline |
| `Posts.SortByDate` | main.py:135 | the result is a permutation of the table ordered by date descending |
| `Posts.InsertKeepsOrder` | main.py:135 | inserting a post into a newest-first sequence keeps it newest first |
| `Posts.Page` | main.py:136-137 | a page holds positions `num*5 ..` of the order: its length is `min(5, n - num*5)`, or 0 past the end |
| `Posts.PagesDescend` | main.py:135-137 | in any newest-first order, no post on a page is older than a post on a later page |
| `Posts.PageHolds` | main.py:136-137 | position `k` of the order is entry `k % 5` of page `k / 5` |
| `Posts.PagesCover` | main.py:136-137 | every post of the order is on some page |
| `Posts.GetPosts` | main.py:130-140 | `min(5, n - num*5)` posts (none past the end), all from the table, newest first; the page is empty exactly when `num*5` is at or past the post count |
| `Posts.GetPostsIsPage` | main.py:133-139 | `get_posts(num)` is page `num` of a date-descending permutation of all posts |
| `Posts.GetPostsDescend` | main.py:130-140 | every post on page `num` is at least as new as every post on any later page |
| `Posts.GetPostsComplete` | main.py:130-140 | every post appears on some page |
| `Posts.PostsBy` | main.py:160 | a post is kept exactly when it is in the table with that author, as often as it occurs in the table |
| `Posts.GetPostsByUser` | main.py:155-166 | `min(5, m - num*5)` posts for a user with `m` posts (none past the end), all by that user, newest first; empty exactly past the end of the user's posts |
| `Posts.GetPostsByUserIsPage` | main.py:158-165 | `get_posts_by_user(user, num)` is page `num` of a date-descending permutation of the user's posts |
| `Posts.GetPostsByUserDescend` | main.py:155-166 | pages of one user's listing go back in time |
| `Posts.GetPostsByUserComplete` | main.py:155-166 | every post of the user appears on some page of the user's listing |
| `Posts.PostStore.constructor` | main.py:64-65 | a fresh posts table is empty and meets its constraints |
| `Posts.PostStore.AddPost` | main.py:124-127 | a taken title means Conflict and no change; otherwise the post is appended under the next id |
| `Posts.PostStore.UpdatePost` | main.py:169-184 | NotFound for an unknown id and Conflict for a title another post holds, both with no change; otherwise the five fields are replaced while id, author and every other post are kept |
| `Posts.PostStore.GetPost` | main.py:143-152 | None exactly when no post has the id; otherwise that post with its body rendered, and the table unmodified |
| `Users.FindByName` | main.py:200 | None exactly when no row has the name; otherwise a row of the table with that name |
| `Users.GetUser` | main.py:198-201 | as `FindByName`, for the stripped name |
| `Users.FindByNameUnique` | main.py:87 | with unique names the lookup returns the one user holding the name |
| `Users.Login` | main.py:417-428 | IncorrectUsername exactly when no user has the stripped name; LoggedIn only for that user with a passing check; InvalidPassword only when that user's check fails |
| `Users.LoginOutcome.Error` | main.py:424-427 | no error after a successful login; `"Incorrect username"` for an unknown name and `"Invalid password."` for a failed check |
| `Users.LoginByRecord` | main.py:417-425 | with unique names the matching record alone decides between LoggedIn and InvalidPassword |
| `Users.LoginIgnoresPadding` | main.py:417 | white space typed around the name does not change the login outcome |
| `Users.NewUser` | main.py:189-193 | the written record holds the stripped name and email, so both have no white space at either end, keeps the given hash, and takes the next row id |
| `Users.AppendKeepsConstraints` | main.py:86-88 | appending a user whose name and email are both new keeps ids, names and emails unique |
| `Users.RegisteredUserLogsIn` | main.py:187-195 | a just-registered user is found under any name that strips to the registered name, and logs in exactly when the check accepts the password |
| `Users.UserStore.constructor` | main.py:64-66 | a fresh users table is empty and meets its constraints |
| `Users.UserStore.AddUser` | main.py:187-195 | a taken stripped name or email means Conflict and no change; otherwise the stripped name and email are appended under the next id |
| `Routes.Home` | main.py:338-342 | the home page is page 0 with at most 5 posts, empty only when there are no posts |
| `Routes.PageView` | main.py:345-350 | `/0` redirects home; `/n` shows page `n` with `get_posts(n - 1)` |
| `Routes.UsersPostsView` | main.py:353-360 | the shown page is `max(page, 1)` and its posts are `get_posts_by_user(user, shown - 1)` |
| `Routes.PageOneIsHome` | main.py:341-349 | `/1` lists the same posts as `/` |
| `Routes.PageViewsDescend` | main.py:345-350 | walking `/1`, `/2`, ... goes back in time |
| `Routes.PageViewsComplete` | main.py:345-350 | every post is listed under `/n` for some `n >= 1` |
| `Routes.UsersPostsViewsDescend` | main.py:353-360 | walking `/user/1`, `/user/2`, ... goes back in time |
| `Routes.UsersPostsViewsComplete` | main.py:353-360 | a post is listed under some `/user/n` exactly when its author is that user |
| `Scenarios.CreateThenView` | main.py:436-448 | a post just created is found under the next id with its body rendered |
| `Scenarios.DuplicateTitle` | main.py:124-127 | a second post with the same title fails, and the first is kept unchanged |
| `Scenarios.EditToTakenTitle` | main.py:466-475 | editing a post to another post's title fails and changes nothing |
| `Scenarios.RegisterThenLogin` | main.py:395-428 | after registering, logging in with a password the check accepts succeeds, and one it rejects gets `Invalid password.` |

## Left out

- Flask routing, templates, flashing and HTTP redirects: the model records only which branch a handler takes and what it fetches.
- The create, edit and register handlers as such: their store calls are modelled, and the order those calls come in is shown in `Scenarios`.
- SQLAlchemy sessions, `app_context`, commits and the two SQLite files: each store method is one committed transaction on an in-memory table.
- Password hashing (scrypt in werkzeug) is a foreign cryptographic call. The hash is an input to `AddUser`, and the check is a function given to `Login`.
- flask_login's session state, `load_user`, `logout` and the `login_required` gate: the library manages that state.
- `ValidateImg` fetches a URL over the network and sniffs the bytes. The wtforms field validators are library configuration.
- `send_contact_mail` is SMTP and already disabled. The `about` page is static.
- Reading the key files and mock-data files, `fill_mock_data`, `fill_long_post`, the `debug` filter and `time.sleep` are all I/O.
- `datetime.now()`: the time is a parameter, on any integer scale.
- The `String(250)` column lengths: SQLite does not enforce them.
- Integer width: page numbers and offsets are unbounded here. SQLite's 64-bit OFFSET limit is not modelled.
- `.scalars()` result iteration and `prebuffer_rows` are not modelled. A query returns the page as a sequence.
- `Posts.GetPosts`: SQL leaves the order of posts with equal dates open, but the model fixes one order, id order, through `SortByDate`. `PagesDescend`, `GetPostsIsPage` and `GetPostsByUserIsPage` hold for every newest-first order. `GetPostsComplete`, `GetPostsByUserComplete`, `PageViewsComplete` and `UsersPostsViewsComplete` rely on that one fixed order being used for every page. SQL may order tied posts differently in each LIMIT/OFFSET query, so a post whose date ties with another's could then be skipped or shown twice across pages.
- `Posts.GetPostsByUser`: the same one tie order as `GetPosts`.
- `Posts.PostStore.UpdatePost`: an unknown id gives `NotFound` with the table unchanged. Whether SQLAlchemy's bulk UPDATE by primary key is then a silent no-op or raises is not modelled. The edit route calls `get_or_404` first, so this path is not taken from the web.
- Python strings are sequences of code points, and Dafny's `char` is a Unicode scalar value. Lone surrogate code points therefore cannot be expressed.
