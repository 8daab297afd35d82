/** Posts: the ownership rule, the decision order of PUT /post, the newest-first listing,
    and the store the handlers create, change and read posts in. */
module Posts {
  import opened Wrappers
  import opened Session
  import opened MediaPath

  /** A post id. Document ids are allocated by the store, never reused. */
  type PostId = nat

  datatype Post = Post(id: PostId, title: string, summary: string, content: string,
                       cover: string, author: UserId, createdAt: int)

  /** The text fields of a create or update request body. The body has no say over the
      author: there is no author field to read. */
  datatype PostFields = PostFields(title: string, summary: string, content: string)

  const NotFound: string := "post not found"
  const NotAuthor: string := "you are not the author"
  /** GET /post returns at most this many posts. */
  const ListLimit: nat := 20

  /** The ownership policy: the post's recorded author is the requester's verified id. */
  predicate IsAuthor(post: Post, requester: Claims)
  {
    post.author == requester.id
  }

  /** Every stored post sits under its own id. */
  ghost predicate WellKeyed(posts: map<PostId, Post>)
  {
    forall id :: id in posts ==> posts[id].id == id
  }

  // ---------------------------------------------------------------- update

  /** The checks of PUT /post in their order: token present, token valid, post exists,
      requester is its author. Only a request that passes all four reaches the post,
      which is returned for mutation. */
  function UpdateGate(token: Option<string>, verify: string -> Verdict,
                      posts: map<PostId, Post>, id: PostId): (r: Response<Post>)
    ensures r.Ok? <==> Authenticate(token, verify).Ok? && id in posts
                       && IsAuthor(posts[id], Authenticate(token, verify).body)
    ensures r.Ok? ==> r.body == posts[id]
    ensures Authenticate(token, verify).Fail? ==>
              r == Fail(Authenticate(token, verify).status, Authenticate(token, verify).reason)
    ensures Authenticate(token, verify).Ok? && id !in posts ==> r == Fail(404, NotFound)
    ensures (Authenticate(token, verify).Ok? && id in posts
             && !IsAuthor(posts[id], Authenticate(token, verify).body)) ==> r == Fail(403, NotAuthor)
  {
    match Authenticate(token, verify)
    case Fail(status, reason) => Fail(status, reason)
    case Ok(info) =>
      if id !in posts then Fail(404, NotFound)
      else if !IsAuthor(posts[id], info) then Fail(403, NotAuthor)
      else Ok(posts[id])
  }

  /** An unknown post is reported as not found whoever asks, before any ownership check. */
  lemma UnknownPostIsNotFoundForEveryone(token: Option<string>, verify: string -> Verdict,
                                         verify': string -> Verdict, posts: map<PostId, Post>, id: PostId)
    requires Truthy(token) && verify(token.value).Valid? && verify'(token.value).Valid?
    requires id !in posts
    ensures UpdateGate(token, verify, posts, id) == UpdateGate(token, verify', posts, id) == Fail(404, NotFound)
  {
  }

  /** The post a successful update stores: title, summary and content are the request's
      whatever they are, the cover changes only when `newPath` is truthy, and the id,
      author and creation time stay. */
  function Revised(post: Post, fields: PostFields, newPath: Option<string>): (p: Post)
    ensures p.id == post.id && p.author == post.author && p.createdAt == post.createdAt
    ensures p.title == fields.title && p.summary == fields.summary && p.content == fields.content
    ensures Truthy(newPath) ==> p.cover == newPath.value
    ensures !Truthy(newPath) ==> p.cover == post.cover
  {
    var p := post.(title := fields.title, summary := fields.summary, content := fields.content);
    if Truthy(newPath) then p.(cover := newPath.value) else p
  }

  /** The cover a create stores and the `newPath` an update sees, from the optional file.
      A cover path is never empty, so `if (newPath)` is the same test as "a file arrived". */
  lemma NewPathTruthyIffFile(file: Option<UploadedFile>)
    ensures Truthy(if file.Some? then Some(CoverPath(file.value.path, file.value.originalName)) else None)
            <==> file.Some?
  {
  }

  // ---------------------------------------------------------------- listing

  /** Newest first: `createdAt` never increases along the sequence. */
  ghost predicate NewestFirst(s: seq<Post>)
  {
    forall i, j :: 0 <= i < j < |s| ==> s[i].createdAt >= s[j].createdAt
  }

  /** No post appears twice. */
  ghost predicate Distinct(s: seq<Post>)
  {
    forall i, j :: 0 <= i < j < |s| ==> s[i] != s[j]
  }

  /** Inserts one post into a newest-first sequence, ahead of posts no newer than it. */
  function InsertNewest(p: Post, s: seq<Post>): (r: seq<Post>)
    requires NewestFirst(s) && Distinct(s) && p !in s
    ensures NewestFirst(r) && Distinct(r)
    ensures |r| == |s| + 1
    ensures forall x :: x in r <==> x == p || x in s
  {
    if |s| == 0 then [p]
    else if s[0].createdAt <= p.createdAt then [p] + s
    else
      var rest := InsertNewest(p, s[1..]);
      assert forall x :: x in s[1..] ==> x.createdAt <= s[0].createdAt && x != s[0];
      [s[0]] + rest
  }

  /** Orders distinct posts newest first, keeping exactly the same posts. */
  function SortNewestFirst(s: seq<Post>): (r: seq<Post>)
    requires Distinct(s)
    ensures NewestFirst(r) && Distinct(r)
    ensures |r| == |s|
    ensures forall x :: x in r <==> x in s
  {
    if |s| == 0 then []
    else
      assert forall x :: x in s[1..] ==> x != s[0];
      InsertNewest(s[0], SortNewestFirst(s[1..]))
  }

  /** The stored posts with ids below `n`, in id order (a scan of the collection). */
  function Collect(posts: map<PostId, Post>, n: nat): (r: seq<Post>)
    requires WellKeyed(posts)
    ensures forall i :: 0 <= i < |r| ==> r[i].id < n && r[i].id in posts && posts[r[i].id] == r[i]
    ensures forall i, j :: 0 <= i < j < |r| ==> r[i].id < r[j].id
    ensures forall id :: id in posts && id < n ==> posts[id] in r
  {
    if n == 0 then []
    else
      var front := Collect(posts, n - 1);
      if n - 1 in posts then front + [posts[n - 1]] else front
  }

  /** A prefix of stored, distinct posts lists each stored post at most once. */
  lemma StoredPrefix(posts: map<PostId, Post>, sorted: seq<Post>, k: nat)
    requires forall x :: x in sorted ==> x.id in posts && posts[x.id] == x
    requires Distinct(sorted) && NewestFirst(sorted) && k <= |sorted|
    ensures forall i :: 0 <= i < k ==> sorted[..k][i].id in posts && posts[sorted[..k][i].id] == sorted[..k][i]
    ensures forall i, j :: 0 <= i < j < k ==> sorted[..k][i].id != sorted[..k][j].id
    ensures NewestFirst(sorted[..k])
  {
  }

  /** Cutting a newest-first sequence of the stored posts after `k` leaves out only posts
      no newer than any kept one. */
  lemma OmittedAreOlder(posts: map<PostId, Post>, sorted: seq<Post>, k: nat)
    requires forall id :: id in posts ==> posts[id] in sorted
    requires NewestFirst(sorted) && k <= |sorted|
    ensures forall id, i :: id in posts && posts[id] !in sorted[..k] && 0 <= i < k ==>
              posts[id].createdAt <= sorted[..k][i].createdAt
  {
  }

  // ---------------------------------------------------------------- store

  /** The post collection: documents by id, and the next id to hand out. */
  class PostStore {
    var posts: map<PostId, Post>
    var nextId: PostId

    ghost predicate Valid()
      reads this
    {
      WellKeyed(posts) && forall id :: id in posts ==> id < nextId
    }

    constructor ()
      ensures Valid() && posts == map[]
    {
      posts := map[];
      nextId := 0;
    }

    /** POST /post. The upload is renamed first (before the token is even looked at, so
        a rejected request still moves its file); then the gate; then the new post is
        stored with its author taken from the verified claims and `now` as its creation
        time. Without a file the cover is the empty string. */
    method Create(token: Option<string>, verify: string -> Verdict, fields: PostFields,
                  file: Option<UploadedFile>, now: int) returns (r: Response<Post>)
      requires Valid()
      modifies this
      ensures Valid()
      ensures Authenticate(token, verify).Fail? ==>
                r == Fail(Authenticate(token, verify).status, Authenticate(token, verify).reason)
                && posts == old(posts)
      ensures Authenticate(token, verify).Ok? ==>
                r.Ok? && r.body.id !in old(posts) && posts == old(posts)[r.body.id := r.body]
      ensures r.Ok? ==> r.body.author == Authenticate(token, verify).body.id
                        && r.body.title == fields.title && r.body.summary == fields.summary
                        && r.body.content == fields.content && r.body.createdAt == now
                        && r.body.cover == (if file.Some? then CoverPath(file.value.path, file.value.originalName) else "")
    {
      var newPath := "";
      if file.Some? {
        newPath := CoverPath(file.value.path, file.value.originalName);
      }
      var auth := Authenticate(token, verify);
      if auth.Fail? {
        return Fail(auth.status, auth.reason);
      }
      var post := Post(nextId, fields.title, fields.summary, fields.content, newPath, auth.body.id, now);
      posts := posts[nextId := post];
      nextId := nextId + 1;
      r := Ok(post);
    }

    /** PUT /post. As in Create the upload is renamed before the gate. A request the gate
        rejects changes nothing; one it admits stores the revised post under the same id
        and changes no other post. No post ever changes author. */
    method Update(token: Option<string>, verify: string -> Verdict, id: PostId, fields: PostFields,
                  file: Option<UploadedFile>) returns (r: Response<Post>)
      requires Valid()
      modifies this
      ensures Valid() && nextId == old(nextId) && posts.Keys == old(posts).Keys
      ensures UpdateGate(token, verify, old(posts), id).Fail? ==>
                r == UpdateGate(token, verify, old(posts), id) && posts == old(posts)
      ensures UpdateGate(token, verify, old(posts), id).Ok? ==>
                r == Ok(Revised(old(posts)[id], fields,
                                if file.Some? then Some(CoverPath(file.value.path, file.value.originalName)) else None))
                && posts == old(posts)[id := r.body]
      ensures forall k :: k in old(posts) ==> posts[k].author == old(posts)[k].author
                                              && posts[k].createdAt == old(posts)[k].createdAt
    {
      var newPath: Option<string> := None;
      if file.Some? {
        newPath := Some(CoverPath(file.value.path, file.value.originalName));
      }
      var gate := UpdateGate(token, verify, posts, id);
      if gate.Fail? {
        return gate;
      }
      var post := Revised(gate.body, fields, newPath);
      posts := posts[id := post];
      r := Ok(post);
    }

    /** GET /post/:id: the stored post, or 404 when there is none. */
    function Get(id: PostId): (r: Response<Post>)
      reads this
      ensures r.Ok? <==> id in posts
      ensures r.Ok? ==> r.body == posts[id]
      ensures r.Fail? ==> r == Fail(404, NotFound)
    {
      if id in posts then Ok(posts[id]) else Fail(404, NotFound)
    }

    /** GET /post: the newest `ListLimit` posts, newest first. Every listed post is a
        stored one, none twice; a post left out is no newer than any listed one; fewer
        than `ListLimit` are listed only when every post is. */
    function List(): (r: seq<Post>)
      reads this
      requires Valid()
      ensures |r| <= ListLimit
      ensures forall i :: 0 <= i < |r| ==> r[i].id in posts && posts[r[i].id] == r[i]
      ensures forall i, j :: 0 <= i < j < |r| ==> r[i].id != r[j].id
      ensures NewestFirst(r)
      ensures |r| < ListLimit ==> forall id :: id in posts ==> posts[id] in r
      ensures forall id, i :: id in posts && posts[id] !in r && 0 <= i < |r| ==>
                posts[id].createdAt <= r[i].createdAt
    {
      var all := Collect(posts, nextId);
      var sorted := SortNewestFirst(all);
      var k := if |sorted| < ListLimit then |sorted| else ListLimit;
      StoredPrefix(posts, sorted, k);
      assert k < ListLimit ==> sorted[..k] == sorted;
      OmittedAreOlder(posts, sorted, k);
      sorted[..k]
    }
  }
}
