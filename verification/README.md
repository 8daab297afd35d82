# mern-blog API: sessions, ownership and post store

A Dafny model of the decision logic inside the blog backend's HTTP handlers
(`api/index.js`): the cover path an uploaded image is renamed to, the token gate in
front of the protected routes, the login outcome, the order of checks before a post
may be changed, and the post collection that the create, update, list and get routes
work on.

The libraries are parameters. jsonwebtoken's `verify` is a function from the token to
a `Verdict` (`Valid(claims)`, `Malformed`, `Expired`); its `sign` is a function from
claims to `Option<string>` (`None` when signing reports an error). bcrypt's
`compareSync` is a function `(password, hash) -> bool`. The clock that stamps
`createdAt` is the `now` argument of `PostStore.Create`. The Mongo collection of posts
is the `posts` map of the `PostStore` class. New ids come from its `nextId` counter.
The users collection is a sequence of `User` records.

Modules:

- `Wrappers` (`wrappers.dfy`): `Option`. Also JavaScript truthiness of a string that
  may be missing. The handlers test `!token` and `if (newPath)`, so `''` counts as
  absent.
- `MediaPath` (`media_path.dfy`): `split('.')` and its inverse `join`, the extension
  (the last piece) and the cover path `path + '.' + ext`.
- `Session` (`session.dfy`): the token gate `Authenticate`. It is shared by
  GET /profile, POST /post and PUT /post; GET /profile is that gate alone. Also
  `User.findOne({username})` and POST /login.
- `Posts` (`posts.dfy`): the ownership policy, the PUT /post gate, the post an update
  stores, the newest-first ordering, and the `PostStore` class with the four post
  routes.

Behaviours of the code worth knowing:

- jsonwebtoken reports expired and malformed tokens as different errors. The handlers
  send one reason, `invalid or expired token`, for both.
  `Session.ExpiredLooksLikeMalformed` states this.
- PUT /post assigns title, summary and content unconditionally, whatever the request
  carries. Only the cover is conditional: it is replaced only when a file arrived.
  `Posts.Revised` and `Posts.PostStore.Update` state this.
- bcrypt's salt is drawn once when the process starts, not once per hash. No member
  states this, because hashing is outside the model (see "## Left out").
- The handlers rename an upload before they look at the token. A rejected create or
  update still moves its file. No member states this, because the model has no file
  system. `Posts.PostStore.Create` and `Posts.PostStore.Update` compute the path before
  the token check, in the source's order.

## Model

| member | source | states |
|---|---|---|
| `MediaPath.Split` | api/index.js:119 | `split('.')` gives at least one piece, and no piece contains the separator |
| `MediaPath.JoinSplit` | api/index.js:119 | joining the pieces of a split with the separator gives back the original name |
| `MediaPath.SplitJoin` | api/index.js:150 | splitting a join of separator-free pieces gives back the pieces (the other half of the round trip) |
| `MediaPath.ExtensionIsTextAfterLastDot` | api/index.js:119-120 | `parts[parts.length - 1]` is a suffix of the name with no '.', preceded by a '.' unless it is the whole name |
| `MediaPath.ExtensionUnique` | api/index.js:150-151 | any string with that description is the extension, so the description fully determines it |
| `MediaPath.NoDotKeepsWholeName` | api/index.js:119-120 | a name without '.' is its own extension |
| `MediaPath.Extension` | api/index.js:120 | `parts[parts.length - 1]`: the last piece of the split, which contains no '.' |
| `MediaPath.TrailingDotGivesEmptyExtension` | api/index.js:150-152 | a name ending in '.' has the empty extension, so its cover path is the temporary path followed by '.', and ends in '.' |
| `MediaPath.CoverPath` | api/index.js:121 | the cover path is the temporary path, then a '.' at the position right after it, then the extension, which holds no '.'; it is never empty |
| `Session.Authenticate` | api/index.js:95-99 | succeeds exactly for a truthy token that verifies, with the verified claims as identity; every failure is 401, 'missing token' exactly when the token is falsy, 'invalid or expired token' otherwise |
| `Session.ExpiredLooksLikeMalformed` | api/index.js:97-98 | an expired token and a malformed one get the same 401 reply |
| `Session.FindByUsername` | api/index.js:63 | finds the first user with that username, or reports that no user has it |
| `Wrappers.Truthy` | api/index.js:96 | JavaScript truthiness of a string that may be missing, as in `!token` and `if (newPath)`: a missing value and '' are both falsy |
| `Session.Login` | api/index.js:60-91 | when the first user with that username has a hash matching the password and signing succeeds, the reply is that token with `{id, username}`; success only for an existing user whose hash matches the password, with the token signed over exactly that username and id and the reply `{id, username}`; every failure is 400 'wrong credentials' or 500 'internal error'; an unknown username is 400 'wrong credentials'; the reply is 500 'internal error' exactly when the first matching user's hash matches and signing fails |
| `Session.SigningErrorIsInternalError` | api/index.js:69-72 | the right password with a failing signing step gives 500 'internal error', not a credentials error |
| `Session.WrongPasswordLooksLikeUnknownUser` | api/index.js:63-86 | a wrong password gets the very reply an unknown username gets |
| `Session.RightPasswordLogsIn` | api/index.js:67-81 | the right password for the first matching user, with signing succeeding, logs in with that user's id and the request's username |
| `Posts.IsAuthor` | api/index.js:163 | the ownership policy: the post's recorded author equals the requester's verified id |
| `Posts.UpdateGate` | api/index.js:155-166 | order of checks: a token failure (401) before anything else, then 404 for an unknown post whoever asks, then 403 for a non-author; succeeds exactly for the author of an existing post |
| `Posts.UnknownPostIsNotFoundForEveryone` | api/index.js:161-162 | an unknown post id gives the same 404 to every authenticated requester |
| `Posts.Revised` | api/index.js:167-170 | an update sets title, summary and content to the request's values; it replaces the cover only when `newPath` is truthy; it keeps id, author and createdAt |
| `Posts.NewPathTruthyIffFile` | api/index.js:147-153 | the update's `newPath` is truthy exactly when a file arrived |
| `Posts.Collect` | api/index.js:183 | `Post.find()`: every stored post with an id below the bound (all of them, given the store's next id), each exactly once, in id order, and nothing else |
| `Posts.SortNewestFirst` | api/index.js:185 | orders distinct posts by `createdAt` descending, keeping exactly the same posts |
| `Posts.PostStore.Create` | api/index.js:115-143 | a token failure is passed on and nothing is stored; otherwise a new post under a fresh id with the author from the verified claims, the request's text, `now` as creation time and cover '' without a file; no other post changes |
| `Posts.PostStore.Update` | api/index.js:146-178 | a request the gate rejects changes nothing; an admitted one stores the revised post under the same id and changes no other post; no post's author or creation time ever changes |
| `Posts.PostStore.Get` | api/index.js:195-200 | returns the stored post, or 404 'post not found' exactly when there is none |
| `Posts.PostStore.List` | api/index.js:181-187 | at most 20 stored posts, none twice, newest first; a post left out is no newer than any listed one; fewer than 20 only when all posts are listed |

## Left out

- Express, CORS, cookie parsing, static files and `app.listen` are framework wiring.
- The Mongo connection and mongoose internals are not modelled. This includes the 500
  reply when `findById` cannot cast a malformed id, and the 500 replies for storage
  failures inside the `try` blocks. Mongoose's `updatedAt` stamp is not modelled,
  because the Post schema (models/Post.js) is not part of this model.
- `populate('author', ['username'])` in GET /post and GET /post/:id is a query against
  the users collection. The model returns the author id unresolved.
- POST /register is left out. It hashes and stores and has no decision logic, and the
  uniqueness of usernames lives in models/User.js, which is not part of this model.
  `Session.FindByUsername` takes the first match, so the model does not rely on
  uniqueness.
- POST /logout only clears a cookie.
- bcrypt hashing and comparison, and JWT signing, verification, expiry and the token
  format, are the abstract parameters described above. The `iat` claim that
  jsonwebtoken adds to the payload is not modelled.
- The file rename (`fs.renameSync`) and multer's disk storage are file I/O. Only the
  computed path is modelled.
- Request body fields are modelled as strings that are present. JavaScript `undefined`
  for a missing form or JSON field is not modelled, in login or in the post routes.
- Post ids are natural numbers handed out by a counter, standing for Mongo's generated
  ObjectIds. The tie order among posts with equal `createdAt` is unspecified in Mongo.
  The model fixes one order.
- The asynchronous callback structure and the logging are left out. The race between
  the existence check and the save in PUT /post is left out too: the model runs each
  request alone.
