# Blog platform core, modelled in Dafny

This project models the core of a small blogging platform. The backend is an
Express/Mongoose service; the frontend is a React single-page app.

The backend part covers:

- the post controller (`createPost`, `getAllPosts`, `updatePost`, `deletePost`);
- the post schema's trimming and `required` rules;
- user registration (`registerUser`);
- the comment controller (`addComment`, `getPostComments`);
- the like toggle (`toggleLike`).

The frontend part covers:

- the API route table and its query-string builder (`apiRoutes.js`);
- the home page's filtering, sorting and pagination state;
- the registration and login forms: their validation, the payload they send,
  how server messages are mapped onto form fields, and how errors clear as the
  user types.

Collections that the source mutates in place are classes:

- `Posts.PostStore` holds a map of posts;
- `Users.UserStore` holds a list of users;
- `Comments.CommentStore` holds a list of comments;
- the React pages are `HomePage.HomePageState`, `RegisterPage.RegisterPageState`
  and `LoginPage.LoginPageState`.

Each controller's decision is a function of the store's contents
(`CreateOutcome`, `UpdateOutcome`, `DeleteRefusal`, `AddOutcome`, `Register`,
`Toggled`). The methods are proved to apply exactly that decision and to keep
the store's invariant.

JavaScript semantics are written out explicitly:

- `String.prototype.trim` uses the ECMAScript white-space set;
- `includes` and `toLowerCase` (ASCII letters only);
- truthiness of possibly-`undefined` strings;
- `parseInt(x) || d`;
- destructuring defaults, which replace `undefined` only;
- `encodeURIComponent` as UTF-8 percent-encoding;
- the stable `Array.prototype.sort`.

Errors are an `ApiErrors.Error`, which is one of:

- `ApiError(status, message)`, with the exact status and text the source throws;
- `SchemaError(paths)`, a Mongoose validation failure;
- `RuntimeFault`, a JavaScript `TypeError`.

Behaviours of the code that the model reproduces, though a reader might not expect them:

- The listing falls back to the default page and limit only for `NaN` and `0`, as `parseInt(...) || d` does. Negative values pass through.
- A `sortBy` other than `newest`/`oldest` sorts newest first on the server but oldest first on the home page (`HomePage.SortDefaultsDiffer`).

## Model

| member | source | states |
|---|---|---|
| Text.Trim | src/controllers/post.controller.js:13 | The trimmed text is the input with a blank prefix and a blank suffix removed. It starts and ends with non-white-space, and it is empty exactly when the input is blank. |
| Text.TrimIdempotent | src/controllers/post.controller.js:13 | Trimming twice equals trimming once. |
| Text.TrimOfTrimmed | src/models/post.models.js:5-14 | A text that is already trimmed is its own trim. The schema's setter therefore leaves stored titles and contents unchanged. |
| Text.Lower | src/controllers/user.controller.js:51 | Lowercasing keeps the length, turns each upper-case ASCII letter into its lower-case counterpart (32 code points on), leaves no upper-case ASCII letter, and keeps every other character. |
| Text.LowerIdempotent | blogfrontend/src/pages/RegisterPage.jsx:132 | Lowercasing twice equals lowercasing once. |
| Text.JsLength | blogfrontend/src/pages/RegisterPage.jsx:72 | `length` counts UTF-16 code units: between the number of characters and twice it, and zero only for the empty text. |
| Text.JsLengthConcat | blogfrontend/src/pages/RegisterPage.jsx:81 | The length of a concatenation is the sum of the lengths. |
| Text.JsLengthBmp | blogfrontend/src/pages/RegisterPage.jsx:96 | A text with no character above U+FFFF has as many code units as characters. |
| Text.Contains | blogfrontend/src/pages/LoginPage.jsx:93-97 | `includes` is true iff the substring occurs at some position. |
| Text.ParseIntToString | src/controllers/post.controller.js:73-74 | `parseInt` reads back the decimal rendering of every integer, negative ones included. |
| Text.NatToStringValue | src/controllers/post.controller.js:73-74 | The decimal rendering of `n` consists of digits whose value is `n`. |
| Sorting.InsertionSortCorrect | blogfrontend/src/pages/HomePage.jsx:34-38 | The sort orders the records by key in the chosen direction. It is a permutation of its input. It is stable: the records with any one key keep their relative order. |
| Sorting.InsertKeepsOrder | blogfrontend/src/pages/HomePage.jsx:34-38 | Inserting into a sorted list keeps it sorted and adds exactly that record. |
| Sorting.InsertStable | blogfrontend/src/pages/HomePage.jsx:34-38 | An inserted record goes after every record that has the same key. |
| Sorting.SortByKey | blogbackend/src/controllers/comment.controller.js:39-41 | The method returns the insertion-sorted list. That list is sorted, a permutation of the input, and stable. |
| PostModel.MissingPaths | src/models/post.models.js:5-14 | `title` (resp. `content`) fails its `required` rule iff it is absent or blank once trimmed. |
| PostModel.NewPost | src/models/post.models.js:3-28 | Creation succeeds iff no required path fails. On success the post is well formed, holds the trimmed texts, has image `""` by default, has no likes, and has both timestamps at `now`. |
| PostModel.Assign | src/controllers/post.controller.js:133-137 | Saving fails iff a new text is blank. Otherwise it stores the trimmed texts and keeps id, author, likes and `createdAt`. `updatedAt` moves only when some field changed. |
| PostModel.AssignUnchanged | src/controllers/post.controller.js:133-137 | Re-saving a well-formed post with its own fields changes nothing. |
| Posts.CreateOutcome | src/controllers/post.controller.js:9-32 | The request fails with 400 "Title and content are required" iff either text is absent or blank. Otherwise the new post is well formed, authored by the caller, with the upload URL as image when a file was sent and uploaded, else `""`. |
| Posts.CreateKeepsInvariant | src/controllers/post.controller.js:27-32 | Storing the created post under the counter's id keeps every stored post keyed by its id, well formed and with distinct likes. It also keeps all ids below the counter. |
| Posts.PostStore.CreatePost | src/controllers/post.controller.js:9-42 | On success the new post is stored under a fresh id and no other post changes. On failure nothing changes. |
| Posts.IntOr | src/controllers/post.controller.js:73-74 | `parseInt(raw)`, falling back to `d`: a non-zero parsed number is used; NaN, an absent value and 0 give the default. |
| Posts.IntOrDecimal | src/controllers/post.controller.js:73-74 | A number sent as decimal text is read back, except that 0 falls back to the default. |
| Posts.BuildFilter | src/controllers/post.controller.js:49-66 | A truthy `author` with no user of that exact username is 404 "Author not found". Otherwise the filter keeps a truthy search, and the resolved author is that user's id. |
| Posts.CeilDiv | src/controllers/post.controller.js:98 | `Math.ceil(n / d)`: the least `r` with `r * d >= n`. |
| Posts.Paginate | src/controllers/post.controller.js:72-98 | The page is `ordered[skip..skip+k]` with `k = min(limit, remaining)`. An empty page (no matches, or a page past the end) is 404 "No posts found". The totals are the whole filtered count and its page count. |
| Posts.FindMatching | src/controllers/post.controller.js:78 | The method returns every stored post that satisfies the filter, each exactly once. |
| Posts.PostStore.GetAllPosts | src/controllers/post.controller.js:46-103 | An unknown author gives 404. Otherwise the response is the page cut from a permutation of the matching posts, sorted by `createdAt` descending unless `sortBy` is exactly `oldest`. |
| Posts.UpdateOutcome | src/controllers/post.controller.js:111-137 | A missing post gives 404, then a caller who is not the author gives 403. A falsy text keeps the old one, and a truthy blank one fails validation. The image changes only on a successful upload. Id, author, likes and `createdAt` are kept. |
| Posts.UpdateKeepsInvariant | src/controllers/post.controller.js:133-137 | Saving the edited post keeps the store invariant. |
| Posts.PostStore.UpdatePost | src/controllers/post.controller.js:111-147 | On success exactly that post is replaced by the edited one. On failure nothing changes. |
| Posts.DeleteRefusal | src/controllers/post.controller.js:155-161 | The request is refused with 404 for a missing post, then 403 for a non-author. It is accepted iff the post exists and the caller wrote it. |
| Posts.PostStore.DeletePost | src/controllers/post.controller.js:152-168 | On success exactly that post is removed. On refusal nothing changes. |
| Posts.OnlyAuthorMutates | src/controllers/post.controller.js:119-120 | A caller who is not the author can neither update nor delete the post. |
| Users.FindByUsername | src/controllers/post.controller.js:60 | The method finds a user with exactly that username iff one exists. |
| Users.Register | src/controllers/user.controller.js:12-55 | The checks run in order: a blank field is 400; an existing username or email is 409; a missing avatar path is 400 "Avater is required"; a failed upload is 400. On success the user gets the lowercased username and the upload URL as avatar. |
| Users.CaseSensitiveDuplicateCheck | src/controllers/user.controller.js:20-27 | A requested `Alice` passes the duplicate check against a stored `alice` and stores a second `alice`. |
| Users.UserStore.RegisterUser | src/controllers/user.controller.js:5-55 | On success exactly the new user is appended. On failure nothing changes. Ids stay unique and increasing. |
| Comments.AddOutcome | blogbackend/src/controllers/comment.controller.js:8-25 | Absent or blank text is 400 before the post lookup, and a missing post is 404. Otherwise the comment is the caller's, on that post, with the text as sent. |
| Comments.CommentStore.AddComment | blogbackend/src/controllers/comment.controller.js:8-33 | On success exactly the new comment is appended. On failure nothing changes. |
| Comments.ForPost | blogbackend/src/controllers/comment.controller.js:39 | The result holds exactly the stored comments on that post. |
| Comments.CommentStore.GetPostComments | blogbackend/src/controllers/comment.controller.js:36-46 | The method always succeeds. The result holds every comment on the post, each as often as stored, newest first. |
| Comments.ForPostCounts | blogbackend/src/controllers/comment.controller.js:39 | Each comment on the post occurs in the list as often as it is stored; a comment on another post occurs not at all. |
| Comments.AddedCommentListed | blogbackend/src/controllers/comment.controller.js:21-25 | A new comment appears in its own post's list and in no other post's list. |
| Likes.Without | blogbackend/src/controllers/like.controller.js:17-18 | The filter leaves no occurrence of the caller and never lengthens the list. |
| Likes.WithoutCounts | blogbackend/src/controllers/like.controller.js:17-18 | Every other id keeps its count. The length drops by the caller's count. |
| Likes.WithoutConcat | blogbackend/src/controllers/like.controller.js:17-18 | Filtering distributes over concatenation, so the kept ids stay in order. |
| Likes.Toggled | blogbackend/src/controllers/like.controller.js:14-22 | The caller is in the new list iff they were not in the old one. Every other id keeps its count. |
| Likes.ToggledMembership | blogbackend/src/controllers/like.controller.js:14-22 | A toggle flips the caller's membership and keeps everyone else's. |
| Likes.ToggledDistinct | blogbackend/src/controllers/like.controller.js:14-22 | A list without repeats stays without repeats. |
| Likes.ToggledCount | blogbackend/src/controllers/like.controller.js:31 | With no repeats, the count goes down by one when the caller liked the post and up by one otherwise. |
| Likes.ToggleTwice | blogbackend/src/controllers/like.controller.js:14-22 | Two toggles restore everyone's membership. With no repeats they also restore the multiset. A post the caller had not liked gets its exact list back. |
| Likes.ToggleLike | blogbackend/src/controllers/like.controller.js:7-35 | A missing post is 404 and nothing changes. Otherwise only that post changes: its likes become the toggled list and `updatedAt` moves. The payload is the new count, `liked = !isLiked` and the liked/unliked message. |
| ApiRoutes.Encode | blogfrontend/src/utils/apiRoutes.js:86 | `encodeURIComponent` output contains only unreserved characters and `%`, so never `&`, `=` or `?`. |
| ApiRoutes.DecodeEncode | blogfrontend/src/utils/apiRoutes.js:86 | Percent-decoding the UTF-8 encoding of any text gives the text back. |
| ApiRoutes.EncodeInjective | blogfrontend/src/utils/apiRoutes.js:86 | Distinct texts never encode alike. |
| ApiRoutes.DecodeFirstEncodeChar | blogfrontend/src/utils/apiRoutes.js:86 | Each character's 1-4 escapes decode to exactly that character. |
| ApiRoutes.KeptEntriesMembers | blogfrontend/src/utils/apiRoutes.js:85 | An entry survives the filter iff its value is not `null`, `undefined` or `""`. |
| ApiRoutes.BuildQueryString | blogfrontend/src/utils/apiRoutes.js:81-90 | The result is `""` iff there are no params or nothing survives the filter. Otherwise it starts with `?`. |
| ApiRoutes.SplitJoin | blogfrontend/src/utils/apiRoutes.js:87 | Splitting a `&`-join of parts that contain no `&` gives the parts back. |
| ApiRoutes.QueryStringRoundTrip | blogfrontend/src/utils/apiRoutes.js:81-90 | Parsing the query string gives exactly the surviving entries, in order, with their keys and stringified values. |
| ApiRoutes.PaginatedPostsRoute | blogfrontend/src/utils/apiRoutes.js:106-124 | The route is the posts route followed by a query string. That query string is never empty when `page` is not given. |
| ApiRoutes.PaginatedRouteQuery | blogfrontend/src/utils/apiRoutes.js:106-124 | The route's query string reads back as the five options with their defaults, minus the dropped ones. |
| ApiRoutes.PaginatedRouteDefaults | blogfrontend/src/utils/apiRoutes.js:107-121 | With no options the route asks for `page=1&limit=10&sortBy=newest`. |
| ApiRoutes.PostRouteInjective | blogfrontend/src/utils/apiRoutes.js:17-24 | Different post ids give different post routes. The get, update and delete routes coincide. |
| ApiRoutes.PostScopedRoutesInjective | blogfrontend/src/utils/apiRoutes.js:29-45 | Comment and like routes of different posts differ. The get and add comment routes coincide. |
| ApiRoutes.LikeRoutesNeverClash | blogfrontend/src/utils/apiRoutes.js:40-45 | No post's toggle route equals any post's likes-list route. |
| ApiRoutes.CommentRouteInjective | blogfrontend/src/utils/apiRoutes.js:34-35 | For post ids without `/`, the comment route determines both ids. The update and delete routes coincide. |
| HomePage.SearchFiltered | blogfrontend/src/pages/HomePage.jsx:21-26 | The result keeps exactly the posts whose title or content contains the query, ignoring case, when the query is truthy. It is a sub-multiset. |
| HomePage.SearchFilteredCounts | blogfrontend/src/pages/HomePage.jsx:21-26 | Each matching post occurs as often as in the input; any other occurs not at all. |
| HomePage.SearchFilteredConcat | blogfrontend/src/pages/HomePage.jsx:21-26 | Filtering a concatenation concatenates the filtered parts, so the kept posts stay in loaded order. |
| HomePage.SearchFilteredOne | blogfrontend/src/pages/HomePage.jsx:21-26 | A single post is kept iff the query is not truthy or the post matches it. |
| HomePage.AuthorFiltered | blogfrontend/src/pages/HomePage.jsx:29-31 | The result keeps exactly the posts by that username, unless the menu says `all`. It is a sub-multiset. |
| HomePage.AuthorFilteredCounts | blogfrontend/src/pages/HomePage.jsx:29-31 | Each post by the chosen author occurs as often as in the input; any other occurs not at all. |
| HomePage.AuthorFilteredConcat | blogfrontend/src/pages/HomePage.jsx:29-31 | Filtering a concatenation concatenates the filtered parts, so the kept posts stay in loaded order. |
| HomePage.AuthorFilteredOne | blogfrontend/src/pages/HomePage.jsx:29-31 | A single post is kept iff the menu says `all` or the post is by that author. |
| HomePage.SortDefaultsDiffer | blogfrontend/src/pages/HomePage.jsx:34-38 | A sort value that is neither `newest` nor `oldest` sorts oldest first on the page and newest first on the server. |
| HomePage.SelectionDisplayed | blogfrontend/src/pages/HomePage.jsx:17-42 | The sorted selection is a permutation of the selected posts, sorted by date, with equal dates in loaded order. It holds only loaded posts. |
| HomePage.PageCount | blogfrontend/src/pages/HomePage.jsx:47 | `Math.ceil(n / 6)`; it is zero iff the list is empty. |
| HomePage.Slice | blogfrontend/src/pages/HomePage.jsx:46 | `slice` returns the elements from `start` onward, at most `end - start` of them, clamped to the list. From a start inside the list it returns exactly up to `end` or the list's end, and nothing from a start past it. |
| HomePage.HomePageState.constructor | blogfrontend/src/pages/HomePage.jsx:10-15 | The mounted page: all authors, newest first, page 1, with the effect applied. |
| HomePage.HomePageState.RunEffect | blogfrontend/src/pages/HomePage.jsx:17-42 | The effect stores the displayed list for the current settings and resets to page 1. It leaves the settings and the loaded posts unchanged. |
| HomePage.HomePageState.ShowsNoPostsMessage | blogfrontend/src/pages/HomePage.jsx:100-110 | The "no posts" message shows iff the displayed list is empty. |
| HomePage.HomePageState.TotalPages | blogfrontend/src/pages/HomePage.jsx:47 | The page count of the displayed list. |
| HomePage.HomePageState.VisiblePosts | blogfrontend/src/pages/HomePage.jsx:44-46 | The current page shows at most 6 posts. It is empty iff the list is. Entry `i` is list entry `(page-1)*6 + i`. |
| HomePage.HomePageState.SetAuthorFilter | blogfrontend/src/pages/HomePage.jsx:86 | A new author re-runs the effect and goes back to page 1. Choosing the current value changes nothing else. |
| HomePage.HomePageState.SetSortBy | blogfrontend/src/pages/HomePage.jsx:92 | A new order gives the same posts re-sorted, from page 1. |
| HomePage.HomePageState.SetSearchQuery | blogfrontend/src/pages/HomePage.jsx:42 | A new search prop re-runs the effect and goes back to page 1. |
| HomePage.HomePageState.PreviousPage | blogfrontend/src/pages/HomePage.jsx:115 | The page becomes `max(page - 1, 1)`. The list is kept. |
| HomePage.HomePageState.NextPage | blogfrontend/src/pages/HomePage.jsx:123 | The page becomes `min(page + 1, totalPages)`. The list is kept. |
| HomePage.HomePageState.GoToPage | blogfrontend/src/pages/HomePage.jsx:118-119 | The numbered button `i + 1` selects page `i + 1`. |
| HomePage.EveryPostOnItsPage | blogfrontend/src/pages/HomePage.jsx:44-47 | Post `i` of the list is entry `i % 6` of page `i / 6 + 1`, which exists. |
| RegisterPage.Set | blogfrontend/src/pages/RegisterPage.jsx:180 | Setting a field changes that field only. |
| RegisterPage.EmailTestCorrect | blogfrontend/src/pages/RegisterPage.jsx:86-91 | The computed test accepts exactly the texts matching `^\S+@\S+\.\S+$`. |
| RegisterPage.ValidFormPayload | blogfrontend/src/pages/RegisterPage.jsx:129-135 | A valid form sends its username unchanged. The server's blank-field check rejects the payload iff the password is white space only. |
| RegisterPage.NamesUsernameIff | blogfrontend/src/pages/RegisterPage.jsx:163 | The second username test adds nothing to the first. |
| RegisterPage.ServerErrors | blogfrontend/src/pages/RegisterPage.jsx:163-170 | Exactly one error is set, chosen in the source's order. A message naming `username` goes to the username field as "Username is already taken". Else one naming `email` goes to the email field as "Email is already registered". Else one naming `Avatar` or `avatar` goes to the avatar field with the server text. Any other goes to the general error with the server text. |
| RegisterPage.UsernameMessage | blogfrontend/src/pages/RegisterPage.jsx:163-164 | A message naming `username` is shown on the username field as "Username is already taken". |
| RegisterPage.DuplicateShownOnUsername | blogfrontend/src/pages/RegisterPage.jsx:163-164 | The server's 409 is always shown on the username field, even when it was the email that clashed. |
| RegisterPage.UploadFailureShownOnAvatar | blogfrontend/src/pages/RegisterPage.jsx:167-168 | The upload failure is shown on the avatar field with the server's text. |
| RegisterPage.BlankFieldShownAsGeneral | blogfrontend/src/pages/RegisterPage.jsx:163-170 | The server's "All fields are required" names none of the four words, so it is shown as a general error. |
| RegisterPage.MissingAvatarShownAsGeneral | blogfrontend/src/pages/RegisterPage.jsx:167-170 | The misspelt "Avater is required" names neither `Avatar` nor `avatar`, so it is shown as a general error. |
| RegisterPage.RegisterPageState.AvatarChange | blogfrontend/src/pages/RegisterPage.jsx:31-63 | No file changes nothing. A file of another type, or one over 5 MB, only sets the avatar error. An accepted file replaces the avatar and clears the avatar error. |
| RegisterPage.CollectErrors | blogfrontend/src/pages/RegisterPage.jsx:66-111 | The error map has, for each field, the message of its first failing rule. Minimum lengths count UTF-16 code units, as `length` does. The avatar entry is present iff no file is chosen. There are no other keys. |
| RegisterPage.RegisterPageState.ValidateForm | blogfrontend/src/pages/RegisterPage.jsx:66-114 | The fresh error map reports the form. Submission proceeds iff the map is empty. |
| RegisterPage.ReportedRules | blogfrontend/src/pages/RegisterPage.jsx:112-113 | The report is empty iff every rule holds and an avatar is chosen. |
| RegisterPage.RulesByField | blogfrontend/src/pages/RegisterPage.jsx:66-110 | All rules hold iff no field has a failing rule and an avatar is set. |
| RegisterPage.RegisterPageState.InputChange | blogfrontend/src/pages/RegisterPage.jsx:179-188 | The value is stored. The field's error is dropped iff it was non-empty. Everything else is kept. |
| RegisterPage.RegisterPageState.ServerFailure | blogfrontend/src/pages/RegisterPage.jsx:159-171 | A truthy server message replaces all errors with the mapped one. No message leaves them unchanged. |
| LoginPage.MakeCredentials | blogfrontend/src/pages/LoginPage.jsx:54-61 | Exactly one of email and username is sent. An email is sent iff the trimmed identifier contains `@`, and it is then the trimmed identifier lowercased. A username is the trimmed identifier and has no `@`. The password is sent as typed. |
| LoginPage.CredentialsIdentifierTrimmed | blogfrontend/src/pages/LoginPage.jsx:54-60 | After a passing validation the identifier sent is non-empty with no white space at either end. |
| LoginPage.EmailCaseIgnored | blogfrontend/src/pages/LoginPage.jsx:54-60 | Two email identifiers that agree after trimming and lowercasing send the same credentials. |
| LoginPage.RegisteredEmailLogsIn | blogfrontend/src/pages/LoginPage.jsx:54-60 | Logging in with the email typed at registration sends exactly the email the registration sent. |
| LoginPage.RegisteredUsernameLogsIn | blogfrontend/src/pages/LoginPage.jsx:54-60 | Logging in with the registered username, padded with white space or not, sends exactly the username the registration sent. |
| LoginPage.PaddedTrim | blogfrontend/src/pages/LoginPage.jsx:54 | Trimming strips blank padding from around a trimmed text. |
| LoginPage.ServerErrors | blogfrontend/src/pages/LoginPage.jsx:89-104 | Exactly one error is set, chosen in the source's order: a message naming a missing user goes to the identifier as "User not found"; else one naming the password goes to the password as "Invalid password"; else one naming the username or email goes to the identifier with the server text; any other goes to the general error with the server text. No message gives "Login failed. Please try again." |
| LoginPage.MissingUserBeatsPassword | blogfrontend/src/pages/LoginPage.jsx:93-96 | A message naming `User not found` or `user not found` goes to the identifier, even when it also names the password. |
| LoginPage.ClearedDropsGeneral | blogfrontend/src/pages/LoginPage.jsx:111-127 | Typing never leaves a general error. It removes nothing but the field's and the general error, and keeps the other entries. |
| LoginPage.ClearedFieldError | blogfrontend/src/pages/LoginPage.jsx:115-126 | The field's own error is gone afterwards iff it was absent or no general error was shown. |
| LoginPage.LoginPageState.ValidateForm | blogfrontend/src/pages/LoginPage.jsx:24-39 | The identifier is required once trimmed, and the password as typed. Submission proceeds iff both are present. |
| LoginPage.LoginPageState.LoginFailure | blogfrontend/src/pages/LoginPage.jsx:85-104 | The mapped server message replaces all errors. |
| LoginPage.LoginPageState.InputChange | blogfrontend/src/pages/LoginPage.jsx:111-127 | The value is stored, and the errors become the cleared map, in which the later update wins. |

## Left out

- Search: `new RegExp(search, "i")` is modelled as a literal, case-insensitive substring test over ASCII letters. Regular-expression metacharacters and Unicode case folding are not modelled.
- Posts.PostStore.GetAllPosts: requires the effective page and limit to be at least 1. Negative values from `parseInt` reach Mongoose's `skip`/`limit`, whose behaviour is not part of this model.
- Posts.PostStore.GetAllPosts: the order among posts with equal `createdAt` is left open, since the database promises none. Only sortedness and permutation are stated.
- Posts.UpdateOutcome: the exact resulting title and content, and the iff for the validation failure, are stated only for a store whose posts are well formed, which `PostStore.Valid` guarantees.
- Users.UserStore.RegisterUser: the model stops at the created user. The source then fetches the user again and responds through `ApiError(...)` without `new`, and through `ApiResponse`, which is not imported. That response path is not modelled.
- Population of `author` with `username fullName avatar`, ObjectId strings, and `countDocuments` (taken to equal the number of matches) are not modelled.
- The media store (`uploadOnCloudinary`), the local file path and `fs` are not modelled; they enter as parameters: the file path and the returned URL, or none.
- JWT authentication and the HTTP layer are not modelled; the caller's id is a parameter. The clock is a parameter `now`, and dates are natural-number timestamps, not `Date` parsing.
- `toLowerCase` is modelled on ASCII letters only.
- ApiRoutes.ParamValue: a number parameter is an integer, rendered in decimal. Fractional numbers, `NaN`, `Infinity` and numbers from 1e21 up, which `String(v)` renders differently, are not modelled; the paginated route passes integer page and limit.
- Users.Register: assumes a user schema (not part of this model) under which `User.create` accepts what passes the blank check, with no `lowercase` setter and no `unique` index on `username`. An absent field (`None`) passes the blank check, since `undefined?.trim()` is not `""`, and the created user keeps it absent: the schema's `required` rules, which would reject it, are not modelled. An absent username or email in the `$or` lookup is taken to match no stored user, whereas MongoDB's `{email: null}` matches users without that field. `CaseSensitiveDuplicateCheck` depends on the first two assumptions.
- ApiRoutes.Encode: text is a sequence of Unicode scalar values, so a lone surrogate, on which `encodeURIComponent` throws `URIError`, cannot be expressed.
- Concurrent like toggles on one post, whose read-modify-write can lose updates, are not modelled.
- `getSearchPostsRoute` is not modelled: it reads `POST_ROUTES.SEARCH_POSTS`, which is undefined, so it always builds a route starting with `undefined`.
- The authentication and user-profile route constants, which are string literals with no logic, are not modelled.
- The remember-me flag and `localStorage` are not modelled, nor are the avatar preview built with `FileReader`, loading flags, redirects and timers.
- The post model that the like controller imports from the second backend tree is not part of this model. `likes` is taken to be an array field of the post, starting empty.
