/** How the browser's guards and the server's routes fit together: what the
    page sends is what the server stores, the server stores markup verbatim,
    and escaping happens only when the page renders a listing. */
module EndToEnd {
  import opened Text
  import opened Escape
  import opened Client
  import opened Board

  /** A text with a non-whitespace character, as every text the page sends
      has (`SentTextIsNotBlank`), is never refused by the server's truthiness
      check, and is stored exactly as typed. */
  lemma SentPostIsStored(s: Store, text: string, tick: nat)
    requires !AllSpace(text)
    ensures CreatePost(s, TextBody(text), tick).0.Created?
    ensures CreatePost(s, TextBody(text), tick).1.posts == s.posts +
      [Post(CreatePost(s, TextBody(text), tick).0.postId, text, 0, s.clock + tick)]
  {
    assert text != [];
    CreatePostAcceptsNonEmpty(s, text, tick);
  }

  /** A comment with a non-whitespace character, as every comment the page
      sends has, is stored for an existing post and refused with 404, not 400,
      for a missing one. */
  lemma SentCommentOutcome(s: Store, postId: nat, text: string, tick: nat)
    requires !AllSpace(text)
    ensures HasPost(s.posts, postId) ==> AddComment(s, postId, TextBody(text), tick).0 == CommentAdded
    ensures !HasPost(s.posts, postId) ==> AddComment(s, postId, TextBody(text), tick).0 == Failed(NotFound)
  {
    assert text != [];
    AddCommentChecksTextFirst(s, postId, text, tick);
  }

  /** The page itself refuses to send `<script>`: it holds the first forbidden entry. */
  lemma ScriptTagRefusedByPage()
    ensures CheckSubmission("<script>") == Forbidden
  {
    var tag := "<script>";
    assert Lower(tag)[..7] == ForbiddenWords[0];
    assert OccursAt(ForbiddenWords[0], Lower(tag), 0);
    assert !IsJsSpace(tag[0]);
  }

  /** A `<script>` sent around the page is stored and listed raw; only the
      page's rendering turns it into inert entities. */
  lemma ScriptTagStoredRaw(s: Store, tick: nat)
    ensures var s' := CreatePost(s, TextBody("<script>"), tick).1;
      && |s'.posts| == |s.posts| + 1
      && s'.posts[|s.posts|].text == "<script>"
      && s'.posts[|s.posts|] in ListPosts(s').posts
      && EscapeHTML(s'.posts[|s.posts|].text) == "&lt;script&gt;"
  {
    var tag := "<script>";
    CreatePostAcceptsNonEmpty(s, tag, tick);
    var s' := CreatePost(s, TextBody(tag), tick).1;
    assert s'.posts[|s.posts|] in multiset(s'.posts);
    EscapeScriptTag(tag);
  }

  /** Every post text the page renders from either listing is a stored
      post's text with `<`, `>`, `"` and `'` turned into entities: the result
      holds none of the four, and equals the stored text exactly when that had none. */
  lemma RenderedPostsAreInert(s: Store)
    ensures forall p :: p in ListPosts(s).posts ==>
      p in s.posts && IsPlain(EscapeHTML(p.text)) && (EscapeHTML(p.text) == p.text <==> IsPlain(p.text))
    ensures forall p :: p in Ranking(s).posts ==>
      p in s.posts && IsPlain(EscapeHTML(p.text)) && (EscapeHTML(p.text) == p.text <==> IsPlain(p.text))
  {
    var latest, ranked := ListPosts(s).posts, Ranking(s).posts;
    forall p | p in latest
      ensures p in s.posts && (EscapeHTML(p.text) == p.text <==> IsPlain(p.text))
    {
      assert p in multiset(latest);
      EscapeFixedIffPlain(p.text);
    }
    forall p | p in ranked
      ensures p in s.posts && (EscapeHTML(p.text) == p.text <==> IsPlain(p.text))
    {
      assert p in multiset(ranked);
      EscapeFixedIffPlain(p.text);
    }
  }

  /** Every comment text the page renders under a post is the text of a
      comment stored for that post, free of the four markup characters once
      escaped, and unchanged exactly when it had none of them. */
  lemma RenderedCommentsAreInert(s: Store, postId: nat)
    ensures forall c :: c in ListComments(s, postId).comments ==>
      && c in s.comments && c.postId == postId
      && IsPlain(EscapeHTML(c.text)) && (EscapeHTML(c.text) == c.text <==> IsPlain(c.text))
  {
    forall c | c in ListComments(s, postId).comments
      ensures c in s.comments && c.postId == postId && (EscapeHTML(c.text) == c.text <==> IsPlain(c.text))
    {
      assert multiset(ListComments(s, postId).comments)[c] > 0;
      EscapeFixedIffPlain(c.text);
    }
  }
}
