/** The board's server: the `post` and `comment` tables and the six routes
    over them, as pure transitions on an immutable store. The database is two
    sequences in insertion order; the wall clock is the store's `clock`, which
    a write advances by a caller-chosen `tick` (zero allowed, since
    `CURRENT_TIMESTAMP` has one-second resolution and two rows can share a
    timestamp). Request decoding is abstracted to a `Payload`. */
module Board {
  import opened Ordering

  datatype Option<T> = None | Some(value: T)

  /** A row of the `post` table. */
  datatype Post = Post(id: int, text: string, likes: int, createdAt: int)

  /** A row of the `comment` table; `postId` names its post. */
  datatype Comment = Comment(id: int, postId: int, text: string, createdAt: int)

  /** Both tables in insertion order, and the time of the latest insert. */
  datatype Store = Store(posts: seq<Post>, comments: seq<Comment>, clock: int)

  /** A freshly created database. */
  const EmptyStore: Store := Store([], [], 0)

  /** A JSON document as Python's `json` module hands it over (numbers are integers here). */
  datatype Json =
    | JNull
    | JBool(b: bool)
    | JNum(n: int)
    | JStr(s: string)
    | JArray(items: seq<Json>)
    | JObject(fields: map<string, Json>)

  /** A request body after the transport layer: either it could not be decoded
      (bad base64, bad UTF-8 or bad JSON) or it is a JSON document. */
  datatype Payload = Undecodable | Decoded(doc: Json)

  /** Why a route failed. */
  datatype Failure =
    | Malformed    // 400: the body could not be decoded, or the insert raised inside `post`'s try
    | MissingText  // 400: `text` missing or falsy
    | NotFound     // 404: no post with that id
    | Internal     // 500: an exception escaped the handler

  datatype Response =
    | Created(postId: int)
    | PostList(posts: seq<Post>)
    | Liked(likes: int)
    | CommentAdded
    | CommentList(comments: seq<Comment>)
    | Ranked(posts: seq<Post>)
    | Failed(why: Failure)

  /** The HTTP status code each response is sent with. */
  function Status(r: Response): int {
    match r
    case Created(_) => 201
    case Failed(Malformed) => 400
    case Failed(MissingText) => 400
    case Failed(NotFound) => 404
    case Failed(Internal) => 500
    case _ => 200
  }

  /** Python truthiness of a JSON value: `None`, `False`, `0`, `""`, `[]` and `{}` are false. */
  predicate Truthy(v: Json) {
    match v
    case JNull => false
    case JBool(b) => b
    case JNum(n) => n != 0
    case JStr(s) => s != []
    case JArray(items) => items != []
    case JObject(fields) => fields != map[]
  }

  /** `data.get('text')`: the field, or `None` when it is absent. */
  function TextField(doc: Json): Json
    requires doc.JObject?
  {
    if "text" in doc.fields then doc.fields["text"] else JNull
  }

  /** Decimal digits of a natural number. */
  function Digits(n: nat): (r: string)
    ensures r != []
  {
    if n < 10 then ["0123456789"[n]] else Digits(n / 10) + ["0123456789"[n % 10]]
  }

  /** Decimal rendering of an integer. */
  function Decimal(n: int): (r: string)
    ensures r != []
  {
    if n < 0 then "-" + Digits(-n) else Digits(n)
  }

  /** The range of integers the database driver can bind: SQLite's signed 64-bit INTEGER. */
  predicate FitsInt64(n: int) {
    -0x8000_0000_0000_0000 <= n < 0x8000_0000_0000_0000
  }

  /** What the TEXT column holds after binding `v`: a string verbatim, a number
      (or `True`) in decimal, and nothing for a list, an object or an integer
      outside 64 bits, which the database driver refuses to bind. */
  function StoredText(v: Json): (r: Option<string>)
    ensures Truthy(v) && r.Some? ==> r.value != []
    ensures v.JStr? ==> r == Some(v.s)
    ensures v.JNum? ==> (r.Some? <==> FitsInt64(v.n))
    ensures v.JBool? ==> r.Some? && |r.value| == 1
    ensures v.JNull? || v.JArray? || v.JObject? ==> r.None?
  {
    match v
    case JStr(s) => Some(s)
    case JNum(n) => if FitsInt64(n) then Some(Decimal(n)) else None
    case JBool(b) => Some(if b then "1" else "0")
    case _ => None
  }

  /** The largest id in a table, or 0 for an empty one. */
  function MaxRowId<T>(rows: seq<T>, id: T -> int): (m: int)
    ensures m >= 0
    ensures forall i :: 0 <= i < |rows| ==> id(rows[i]) <= m
  {
    if rows == [] then 0
    else
      var rest := MaxRowId(rows[..|rows| - 1], id);
      var last := id(rows[|rows| - 1]);
      if last > rest then last else rest
  }

  /** SQLite's rowid rule without AUTOINCREMENT: one more than the largest id in use. */
  function NextPostId(posts: seq<Post>): (id: int)
    ensures id >= 1
    ensures forall i :: 0 <= i < |posts| ==> posts[i].id < id
  {
    MaxRowId(posts, (p: Post) => p.id) + 1
  }

  function NextCommentId(comments: seq<Comment>): (id: int)
    ensures id >= 1
    ensures forall i :: 0 <= i < |comments| ==> comments[i].id < id
  {
    MaxRowId(comments, (c: Comment) => c.id) + 1
  }

  /** Some stored post has this id. */
  ghost predicate HasPost(posts: seq<Post>, id: int) {
    exists i :: 0 <= i < |posts| && posts[i].id == id
  }

  /** Scans for the first post with this id from position `i` on. */
  function FindPostFrom(posts: seq<Post>, id: int, i: nat): (r: Option<nat>)
    requires i <= |posts|
    ensures r.Some? ==> i <= r.value < |posts| && posts[r.value].id == id
    ensures r.Some? ==> forall j :: i <= j < r.value ==> posts[j].id != id
    ensures r.None? <==> forall j :: i <= j < |posts| ==> posts[j].id != id
    decreases |posts| - i
  {
    if i == |posts| then None
    else if posts[i].id == id then Some(i)
    else FindPostFrom(posts, id, i + 1)
  }

  /** `Post.query.get(id)`: the position of the post with this primary key. */
  function FindPost(posts: seq<Post>, id: int): (r: Option<nat>)
    ensures r.Some? ==> r.value < |posts| && posts[r.value].id == id
    ensures r.Some? ==> forall j :: 0 <= j < r.value ==> posts[j].id != id
    ensures r.None? <==> !HasPost(posts, id)
  {
    FindPostFrom(posts, id, 0)
  }

  /** The store's integrity: primary keys are positive and distinct, every
      stored text is non-empty (the NOT NULL column only ever receives truthy
      text), like counts are non-negative, no row is newer than the clock,
      and every comment names an existing post. */
  ghost predicate Valid(s: Store) {
    && (forall i, j :: 0 <= i < j < |s.posts| ==> s.posts[i].id != s.posts[j].id)
    && (forall i :: 0 <= i < |s.posts| ==>
          s.posts[i].id >= 1 && s.posts[i].text != [] && s.posts[i].likes >= 0 && s.posts[i].createdAt <= s.clock)
    && (forall i, j :: 0 <= i < j < |s.comments| ==> s.comments[i].id != s.comments[j].id)
    && (forall i :: 0 <= i < |s.comments| ==>
          s.comments[i].id >= 1 && s.comments[i].text != [] && s.comments[i].createdAt <= s.clock)
    && (forall i :: 0 <= i < |s.comments| ==> HasPost(s.posts, s.comments[i].postId))
  }

  // ---------------------------------------------------------------------------
  // POST /post

  /** `post()`: a base64-wrapped JSON body; a falsy `text` is refused, anything
      else is inserted verbatim with zero likes. Every exception inside the try,
      a failed decode or a failed insert alike, becomes a 400. */
  function CreatePost(s: Store, body: Payload, tick: nat): (out: (Response, Store))
    ensures out.0.Created? || out.0.Failed?
    ensures out.0.Failed? ==> out.1 == s && Status(out.0) == 400
    ensures out.0 == Failed(MissingText) <==>
      body.Decoded? && body.doc.JObject? && !Truthy(TextField(body.doc))
    ensures out.0 == Failed(Malformed) <==>
      || body.Undecodable? || !body.doc.JObject?
      || (Truthy(TextField(body.doc)) && StoredText(TextField(body.doc)).None?)
    ensures out.0.Created? ==>
      && body.Decoded? && body.doc.JObject? && Truthy(TextField(body.doc))
      && StoredText(TextField(body.doc)).Some?
      && (forall i :: 0 <= i < |s.posts| ==> s.posts[i].id < out.0.postId)
      && out.1.posts == s.posts + [Post(out.0.postId, StoredText(TextField(body.doc)).value, 0, s.clock + tick)]
      && out.1.comments == s.comments
      && out.1.clock == s.clock + tick
  {
    match body
    case Undecodable => (Failed(Malformed), s)
    case Decoded(doc) =>
      if !doc.JObject? then (Failed(Malformed), s)  // `.get` on a non-dict raises inside the try
      else
        var text := TextField(doc);
        if !Truthy(text) then (Failed(MissingText), s)
        else match StoredText(text)
          case None => (Failed(Malformed), s)  // the insert raises inside the try
          case Some(t) =>
            var p := Post(NextPostId(s.posts), t, 0, s.clock + tick);
            (Created(p.id), s.(posts := s.posts + [p], clock := p.createdAt))
  }

  /** The body the client sends for a text `t`. */
  function TextBody(t: string): Payload {
    Decoded(JObject(map["text" := JStr(t)]))
  }

  lemma TextBodyField(t: string)
    ensures TextBody(t).Decoded? && TextBody(t).doc.JObject?
    ensures TextField(TextBody(t).doc) == JStr(t)
  {
  }

  /** The server refuses only empty text: any non-empty string, whitespace-only
      included, is stored exactly as sent. */
  lemma CreatePostAcceptsNonEmpty(s: Store, t: string, tick: nat)
    ensures CreatePost(s, TextBody(t), tick).0.Created? <==> t != []
    ensures t == [] ==> CreatePost(s, TextBody(t), tick).0 == Failed(MissingText)
    ensures t != [] ==>
      var out := CreatePost(s, TextBody(t), tick);
      out.1.posts == s.posts + [Post(out.0.postId, t, 0, s.clock + tick)]
  {
    TextBodyField(t);
  }

  /** Appending a post with a fresh id, a non-empty text and no likes, stamped
      no later than the new clock, keeps the store valid and extends it. */
  lemma AppendPostKeepsValid(s: Store, p: Post, clock: int)
    requires Valid(s)
    requires forall i :: 0 <= i < |s.posts| ==> s.posts[i].id < p.id
    requires p.id >= 1 && p.text != [] && p.likes >= 0 && p.createdAt <= clock && s.clock <= clock
    ensures Valid(s.(posts := s.posts + [p], clock := clock))
    ensures Extends(s, s.(posts := s.posts + [p], clock := clock))
  {
    var s' := s.(posts := s.posts + [p], clock := clock);
    assert forall i :: 0 <= i < |s.posts| ==> s'.posts[i] == s.posts[i];
    assert s'.comments == s.comments;
    forall i | 0 <= i < |s'.comments|
      ensures HasPost(s'.posts, s'.comments[i].postId)
    {
      assert HasPost(s.posts, s.comments[i].postId);
      var j :| 0 <= j < |s.posts| && s.posts[j].id == s.comments[i].postId;
      assert s'.posts[j].id == s'.comments[i].postId;
    }
    assert s'.comments[..|s.comments|] == s.comments;
  }

  /** Creating a post keeps the store valid. */
  lemma CreatePostPreservesValid(s: Store, body: Payload, tick: nat)
    requires Valid(s)
    ensures Valid(CreatePost(s, body, tick).1)
    ensures Extends(s, CreatePost(s, body, tick).1)
  {
    var out := CreatePost(s, body, tick);
    if out.0.Created? {
      var p := Post(out.0.postId, StoredText(TextField(body.doc)).value, 0, s.clock + tick);
      assert out.1 == s.(posts := s.posts + [p], clock := s.clock + tick);
      AppendPostKeepsValid(s, p, s.clock + tick);
    } else {
      assert s.comments[..|s.comments|] == s.comments;
    }
  }

  // ---------------------------------------------------------------------------
  // GET /posts

  function CreatedAt(p: Post): int {
    p.createdAt
  }

  /** `get_posts()`: every post, newest first. */
  function ListPosts(s: Store): (r: Response)
    ensures r.PostList?
    ensures multiset(r.posts) == multiset(s.posts)
    ensures SortedDesc(r.posts, CreatedAt)
  {
    PostList(SortDesc(s.posts, CreatedAt))
  }

  /** Of two posts created at different times, the later one is listed first. */
  lemma ListPostsNewestFirst(s: Store, p: Post, q: Post)
    requires p in s.posts && q in s.posts && p.createdAt > q.createdAt
    ensures var r := ListPosts(s).posts;
      exists i, j :: 0 <= i < j < |r| && r[i] == p && r[j] == q
  {
    var r := ListPosts(s).posts;
    assert p in multiset(s.posts) && q in multiset(s.posts);
    assert p in r && q in r;
    var i :| 0 <= i < |r| && r[i] == p;
    var j :| 0 <= j < |r| && r[j] == q;
    HigherKeyComesFirst(r, CreatedAt, i, j);
  }

  // ---------------------------------------------------------------------------
  // POST /like/<id>

  /** `s'` is `s` with the post at position `i` liked once more and nothing else changed. */
  ghost predicate LikedOnce(s: Store, s': Store, i: nat) {
    && i < |s.posts| && |s'.posts| == |s.posts|
    && s'.posts[i] == s.posts[i].(likes := s.posts[i].likes + 1)
    && (forall j :: 0 <= j < |s.posts| && j != i ==> s'.posts[j] == s.posts[j])
    && s'.comments == s.comments
    && s'.clock == s.clock
  }

  /** `like_post(post_id)`: 404 for an unknown id, otherwise one more like and the new count.
      There is no per-client record, so every call counts. */
  function Like(s: Store, postId: nat): (out: (Response, Store))
    ensures out.0.Liked? || out.0 == Failed(NotFound)
    ensures out.0.Failed? <==> !HasPost(s.posts, postId)
    ensures out.0.Failed? ==> out.1 == s && Status(out.0) == 404
    ensures out.0.Liked? ==>
      && FindPost(s.posts, postId).Some?
      && var i := FindPost(s.posts, postId).value;
      && LikedOnce(s, out.1, i)
      && out.0.likes == s.posts[i].likes + 1
  {
    match FindPost(s.posts, postId)
    case None => (Failed(NotFound), s)
    case Some(i) =>
      var p := s.posts[i].(likes := s.posts[i].likes + 1);
      (Liked(p.likes), s.(posts := s.posts[i := p]))
  }

  /** Liking keeps the store valid. */
  lemma LikePreservesValid(s: Store, postId: nat)
    requires Valid(s)
    ensures Valid(Like(s, postId).1)
    ensures Extends(s, Like(s, postId).1)
  {
    var s' := Like(s, postId).1;
    if FindPost(s.posts, postId).Some? {
      forall i | 0 <= i < |s'.comments|
        ensures HasPost(s'.posts, s'.comments[i].postId)
      {
        var j :| 0 <= j < |s.posts| && s.posts[j].id == s.comments[i].postId;
        assert s'.posts[j].id == s'.comments[i].postId;
      }
    }
  }

  /** A like leaves the post where the lookup finds it. */
  lemma LikeKeepsPosition(s: Store, postId: nat, i: nat)
    requires FindPost(s.posts, postId) == Some(i)
    ensures LikedOnce(s, Like(s, postId).1, i)
    ensures Like(s, postId).0 == Liked(s.posts[i].likes + 1)
    ensures FindPost(Like(s, postId).1.posts, postId) == Some(i)
  {
    var s' := Like(s, postId).1;
    assert s'.posts[i].id == postId;
    assert forall j :: 0 <= j < i ==> s'.posts[j].id != postId;
  }

  /** `n` likes of the same post in a row. */
  function LikeTimes(s: Store, postId: nat, n: nat): Store
    decreases n
  {
    if n == 0 then s else LikeTimes(Like(s, postId).1, postId, n - 1)
  }

  /** `s'` is `s` with the post at position `i` liked `k` more times and nothing else changed. */
  ghost predicate LikedBy(s: Store, s': Store, i: nat, k: nat) {
    && i < |s.posts| && |s'.posts| == |s.posts|
    && s'.posts[i] == s.posts[i].(likes := s.posts[i].likes + k)
    && (forall j :: 0 <= j < |s.posts| && j != i ==> s'.posts[j] == s.posts[j])
    && s'.comments == s.comments
  }

  /** One like followed by `k` more likes of the same post makes `k + 1`. */
  lemma LikedOnceThenBy(s: Store, mid: Store, s': Store, i: nat, k: nat)
    requires LikedOnce(s, mid, i) && LikedBy(mid, s', i, k)
    ensures LikedBy(s, s', i, k + 1)
  {
    forall j | 0 <= j < |s.posts| && j != i
      ensures s'.posts[j] == s.posts[j]
    {
      assert s'.posts[j] == mid.posts[j];
    }
  }

  /** Repeated likes keep counting: `n` likes raise the post's count by exactly
      `n` and no other post changes. */
  lemma {:induction false} LikeTimesCounts(s: Store, postId: nat, n: nat, i: nat)
    requires FindPost(s.posts, postId) == Some(i)
    ensures LikedBy(s, LikeTimes(s, postId, n), i, n)
    ensures FindPost(LikeTimes(s, postId, n).posts, postId) == Some(i)
    decreases n
  {
    if n > 0 {
      var next := Like(s, postId).1;
      LikeKeepsPosition(s, postId, i);
      LikeTimesCounts(next, postId, n - 1, i);
      LikedOnceThenBy(s, next, LikeTimes(next, postId, n - 1), i, n - 1);
    }
  }

  /** The `n`-th like in a row answers with the original count plus `n`. */
  lemma LikeAnswersRunningCount(s: Store, postId: nat, n: nat, i: nat)
    requires FindPost(s.posts, postId) == Some(i) && n > 0
    ensures Like(LikeTimes(s, postId, n - 1), postId).0 == Liked(s.posts[i].likes + n)
  {
    var prev := LikeTimes(s, postId, n - 1);
    LikeTimesCounts(s, postId, n - 1, i);
    LikeKeepsPosition(prev, postId, i);
  }

  // ---------------------------------------------------------------------------
  // POST /comment/<id>

  /** `comment_post(post_id)`: a plain JSON body; the text is checked before the
      post is looked up, and only then is the comment inserted. Exceptions are
      not caught here: a non-object body or a failed insert is a 500. */
  function AddComment(s: Store, postId: nat, body: Payload, tick: nat): (out: (Response, Store))
    ensures out.0.CommentAdded? || out.0.Failed?
    ensures out.0.Failed? ==> out.1 == s
    ensures out.0 == Failed(Malformed) <==> body.Undecodable?
    ensures out.0 == Failed(MissingText) <==>
      body.Decoded? && body.doc.JObject? && !Truthy(TextField(body.doc))
    ensures out.0 == Failed(NotFound) <==>
      body.Decoded? && body.doc.JObject? && Truthy(TextField(body.doc)) && !HasPost(s.posts, postId)
    ensures out.0 == Failed(Internal) <==>
      body.Decoded? &&
      (!body.doc.JObject? ||
       (Truthy(TextField(body.doc)) && HasPost(s.posts, postId) && StoredText(TextField(body.doc)).None?))
    ensures out.0.CommentAdded? ==>
      && body.Decoded? && body.doc.JObject? && Truthy(TextField(body.doc))
      && StoredText(TextField(body.doc)).Some?
      && HasPost(s.posts, postId)
      && |out.1.comments| == |s.comments| + 1
      && var c := out.1.comments[|s.comments|];
      && out.1.comments == s.comments + [c]
      && c == Comment(c.id, postId, StoredText(TextField(body.doc)).value, s.clock + tick)
      && c.id >= 1 && (forall i :: 0 <= i < |s.comments| ==> s.comments[i].id < c.id)
      && out.1.posts == s.posts
      && out.1.clock == s.clock + tick
  {
    match body
    case Undecodable => (Failed(Malformed), s)  // refused by the framework before the handler runs
    case Decoded(doc) =>
      if !doc.JObject? then (Failed(Internal), s)  // `.get` on a non-dict raises
      else
        var text := TextField(doc);
        if !Truthy(text) then (Failed(MissingText), s)
        else if FindPost(s.posts, postId).None? then (Failed(NotFound), s)
        else match StoredText(text)
          case None => (Failed(Internal), s)  // the insert raises
          case Some(t) =>
            var c := Comment(NextCommentId(s.comments), postId, t, s.clock + tick);
            (CommentAdded, s.(comments := s.comments + [c], clock := c.createdAt))
  }

  /** Appending a comment with a fresh id and a non-empty text to an existing
      post, stamped no later than the new clock, keeps the store valid and extends it. */
  lemma AppendCommentKeepsValid(s: Store, c: Comment, clock: int)
    requires Valid(s)
    requires forall i :: 0 <= i < |s.comments| ==> s.comments[i].id < c.id
    requires c.id >= 1 && c.text != [] && c.createdAt <= clock && s.clock <= clock
    requires HasPost(s.posts, c.postId)
    ensures Valid(s.(comments := s.comments + [c], clock := clock))
    ensures Extends(s, s.(comments := s.comments + [c], clock := clock))
  {
    var s' := s.(comments := s.comments + [c], clock := clock);
    assert forall i :: 0 <= i < |s.comments| ==> s'.comments[i] == s.comments[i];
    assert s'.comments[|s.comments|] == c;
    assert s'.comments[..|s.comments|] == s.comments;
  }

  /** Adding a comment keeps the store valid. */
  lemma AddCommentPreservesValid(s: Store, postId: nat, body: Payload, tick: nat)
    requires Valid(s)
    ensures Valid(AddComment(s, postId, body, tick).1)
    ensures Extends(s, AddComment(s, postId, body, tick).1)
  {
    var out := AddComment(s, postId, body, tick);
    if out.0.CommentAdded? {
      var c := out.1.comments[|s.comments|];
      var text := TextField(body.doc);
      assert c.text == StoredText(text).value && Truthy(text);
      assert out.1 == s.(comments := s.comments + [c], clock := s.clock + tick);
      AppendCommentKeepsValid(s, c, s.clock + tick);
    } else {
      assert out.1 == s;
      ExtendsItself(s);
    }
  }

  /** A comment with this text is refused when the text is empty, whether or
      not the post exists (400 before 404), and is otherwise stored or refused
      by whether the post exists. */
  lemma AddCommentChecksTextFirst(s: Store, postId: nat, t: string, tick: nat)
    ensures t == [] ==> AddComment(s, postId, TextBody(t), tick).0 == Failed(MissingText)
    ensures t != [] && !HasPost(s.posts, postId) ==> AddComment(s, postId, TextBody(t), tick).0 == Failed(NotFound)
    ensures t != [] && HasPost(s.posts, postId) ==> AddComment(s, postId, TextBody(t), tick).0 == CommentAdded
  {
    TextBodyField(t);
  }

  /** A number in `text` that does not fit SQLite's 64-bit INTEGER cannot be
      bound, and `post` catches the error: 400 and no change. */
  lemma OversizedPostRefused(s: Store, n: int, tick: nat)
    requires !FitsInt64(n)
    ensures CreatePost(s, Decoded(JObject(map["text" := JNum(n)])), tick) == (Failed(Malformed), s)
  {
    assert TextField(JObject(map["text" := JNum(n)])) == JNum(n);
  }

  /** The same number sent as a comment: `comment_post` does not catch the
      bind error, so an existing post answers 500 and nothing is stored. */
  lemma OversizedCommentFails(s: Store, postId: nat, n: int, tick: nat)
    requires !FitsInt64(n)
    requires HasPost(s.posts, postId)
    ensures AddComment(s, postId, Decoded(JObject(map["text" := JNum(n)])), tick) == (Failed(Internal), s)
  {
    assert TextField(JObject(map["text" := JNum(n)])) == JNum(n);
  }

  // ---------------------------------------------------------------------------
  // GET /comments/<id>

  /** The comments of one post, in table order. */
  function OfPost(comments: seq<Comment>, postId: int): (r: seq<Comment>)
    ensures forall c :: multiset(r)[c] == if c.postId == postId then multiset(comments)[c] else 0
  {
    if comments == [] then []
    else
      assert comments == [comments[0]] + comments[1..];
      (if comments[0].postId == postId then [comments[0]] else []) + OfPost(comments[1..], postId)
  }

  function CommentCreatedAt(c: Comment): int {
    c.createdAt
  }

  /** `get_comments(post_id)`: exactly that post's comments, newest first. */
  function ListComments(s: Store, postId: nat): (r: Response)
    ensures r.CommentList?
    ensures forall c :: multiset(r.comments)[c] == if c.postId == postId then multiset(s.comments)[c] else 0
    ensures SortedDesc(r.comments, CommentCreatedAt)
  {
    CommentList(SortDesc(OfPost(s.comments, postId), CommentCreatedAt))
  }

  /** A post id that names no post has no comments in a valid store. */
  lemma ListCommentsOfMissingPost(s: Store, postId: nat)
    requires Valid(s) && !HasPost(s.posts, postId)
    ensures ListComments(s, postId).comments == []
  {
    var r := ListComments(s, postId).comments;
    assert forall i :: 0 <= i < |s.comments| ==> s.comments[i].postId != postId;
    assert forall c :: c in multiset(s.comments) ==> c.postId != postId;
    assert multiset(r) == multiset{};
  }

  // ---------------------------------------------------------------------------
  // GET /ranking

  /** How many posts the ranking returns at most. */
  const RankingLimit: nat := 10

  function Likes(p: Post): int {
    p.likes
  }

  /** `ranking()`: the most-liked posts, at most ten, most likes first. */
  function Ranking(s: Store): (r: Response)
    ensures r.Ranked?
    ensures |r.posts| == if |s.posts| < RankingLimit then |s.posts| else RankingLimit
    ensures multiset(r.posts) <= multiset(s.posts)
    ensures SortedDesc(r.posts, Likes)
    ensures forall p :: p in s.posts && p !in r.posts ==>
      r.posts != [] && p.likes <= r.posts[|r.posts| - 1].likes
  {
    Ranked(TopDesc(s.posts, Likes, RankingLimit))
  }

  /** No duplicates in a sequence. */
  ghost predicate Distinct<T>(s: seq<T>) {
    forall i, j :: 0 <= i < j < |s| ==> s[i] != s[j]
  }

  lemma {:induction false} DistinctCountsOnce<T>(s: seq<T>, x: T)
    requires Distinct(s)
    ensures multiset(s)[x] <= 1
  {
    if s != [] {
      assert s == [s[0]] + s[1..];
      DistinctCountsOnce(s[1..], x);
      if s[0] == x {
        assert x !in s[1..];
      }
    }
  }

  lemma TwiceCountsTwice<T>(s: seq<T>, i: nat, j: nat)
    requires i < j < |s| && s[i] == s[j]
    ensures multiset(s)[s[i]] >= 2
  {
    assert s == s[..i] + [s[i]] + s[i + 1..j] + [s[j]] + s[j + 1..];
  }

  /** In a valid store the ranking lists no post twice. */
  lemma RankingDistinct(s: Store)
    requires Valid(s)
    ensures Distinct(Ranking(s).posts)
  {
    var r := Ranking(s).posts;
    forall i, j | 0 <= i < j < |r|
      ensures r[i] != r[j]
    {
      if r[i] == r[j] {
        TwiceCountsTwice(r, i, j);
        DistinctCountsOnce(s.posts, r[i]);
      }
    }
  }

  // ---------------------------------------------------------------------------
  // Request sequences

  datatype Request =
    | PostReq(body: Payload, tick: nat)
    | ListPostsReq
    | LikeReq(postId: nat)
    | CommentReq(postId: nat, body: Payload, tick: nat)
    | ListCommentsReq(postId: nat)
    | RankingReq

  /** Dispatches one request; the reads leave the store as it is. */
  function Step(s: Store, req: Request): (Response, Store) {
    match req
    case PostReq(body, tick) => CreatePost(s, body, tick)
    case ListPostsReq => (ListPosts(s), s)
    case LikeReq(id) => Like(s, id)
    case CommentReq(id, body, tick) => AddComment(s, id, body, tick)
    case ListCommentsReq(id) => (ListComments(s, id), s)
    case RankingReq => (Ranking(s), s)
  }

  /** The store after serving the requests in order. */
  function Run(s: Store, reqs: seq<Request>): Store
    decreases |reqs|
  {
    if reqs == [] then s else Run(Step(s, reqs[0]).1, reqs[1..])
  }

  /** `s'` extends `s`: old posts keep id, text and time and never lose likes,
      old comments are untouched, and the clock does not go back. */
  ghost predicate Extends(s: Store, s': Store) {
    && |s.posts| <= |s'.posts|
    && (forall i :: 0 <= i < |s.posts| ==>
          && s'.posts[i].id == s.posts[i].id
          && s'.posts[i].text == s.posts[i].text
          && s'.posts[i].createdAt == s.posts[i].createdAt
          && s'.posts[i].likes >= s.posts[i].likes)
    && |s.comments| <= |s'.comments|
    && s'.comments[..|s.comments|] == s.comments
    && s.clock <= s'.clock
  }

  /** A store extends itself. */
  lemma ExtendsItself(s: Store)
    ensures Extends(s, s)
  {
    assert s.comments[..|s.comments|] == s.comments;
  }

  /** Every request keeps the store valid and only ever extends it. */
  lemma StepPreservesValid(s: Store, req: Request)
    requires Valid(s)
    ensures Valid(Step(s, req).1)
    ensures Extends(s, Step(s, req).1)
  {
    match req
    case PostReq(body, tick) => CreatePostPreservesValid(s, body, tick);
    case LikeReq(id) => LikePreservesValid(s, id);
    case CommentReq(id, body, tick) => AddCommentPreservesValid(s, id, body, tick);
    case _ => assert s.comments[..|s.comments|] == s.comments;
  }

  /** Any sequence of requests from a valid store ends in a valid store that extends it. */
  lemma {:induction false} RunPreservesValid(s: Store, reqs: seq<Request>)
    requires Valid(s)
    ensures Valid(Run(s, reqs))
    ensures Extends(s, Run(s, reqs))
    decreases |reqs|
  {
    if reqs != [] {
      var mid := Step(s, reqs[0]).1;
      StepPreservesValid(s, reqs[0]);
      RunPreservesValid(mid, reqs[1..]);
      var fin := Run(mid, reqs[1..]);
      assert fin.comments[..|s.comments|] == fin.comments[..|mid.comments|][..|s.comments|];
    }
  }

  /** The empty database is valid. */
  lemma EmptyStoreValid()
    ensures Valid(EmptyStore)
  {
  }
}
