/** comment-service's `CommentController`: CRUD over stored comments, and
    the listing of a post's comments enriched with the post fetched from
    post-service. */
module CommentController {
  import opened Wrappers
  import opened Responses
  import opened RecordStore
  import opened Enrichment

  /** A comment as stored and as sent over the wire; every field may be null */
  datatype Comment = Comment(id: Option<int>, postId: Option<int>, authorId: Option<int>, content: Option<string>)

  type Comments = Store<Comment>

  /** The body of GET /comments/post/{postId}: {"post": ..., "comments": [...]} */
  datatype CommentsOfPost<+V> = CommentsOfPost(post: Related<V>, comments: seq<Comment>)

  /** The placeholder's marker when post-service cannot be reached */
  const PostUnavailable: string := "unable to fetch post"

  /** A reachable comment store: valid, and every comment carries its own key as id */
  ghost predicate Consistent(s: Comments) {
    Valid(s) && forall k :: k in s.rows ==> s.rows[k].id == Some(k)
  }

  /** `a` is `b` with some elements left out and the rest in the same order */
  ghost predicate Subsequence<T>(a: seq<T>, b: seq<T>) {
    if |a| == 0 then true
    else if |b| == 0 then false
    else if a[0] == b[0] then Subsequence(a[1..], b[1..])
    else Subsequence(a, b[1..])
  }

  /** The comments of `cs` that reference post `postId`, in the order of
      `cs` and each as often as it occurs there. A comment with a null post
      id references no post. */
  function OnPost(cs: seq<Comment>, postId: int): (r: seq<Comment>)
    ensures forall c :: c in r <==> c in cs && c.postId == Some(postId)
    ensures forall c :: multiset(r)[c] == (if c.postId == Some(postId) then multiset(cs)[c] else 0)
    ensures Subsequence(r, cs)
  {
    if |cs| == 0 then []
    else
      var rest := OnPost(cs[1..], postId);
      assert forall c :: c in cs <==> c == cs[0] || c in cs[1..];
      assert cs == [cs[0]] + cs[1..];
      assert multiset(cs) == multiset([cs[0]]) + multiset(cs[1..]);
      if cs[0].postId == Some(postId) then [cs[0]] + rest
      else
        assert |rest| > 0 ==> rest[0] != cs[0];
        rest
  }

  /** `findByPostId`, taken to return matching comments in store order */
  function FindByPostId(s: Comments, postId: int): (r: seq<Comment>)
    requires Valid(s)
    ensures forall c :: c in r <==> c in s.rows.Values && c.postId == Some(postId)
    ensures Subsequence(r, FindAll(s))
    ensures forall c :: multiset(r)[c] == (if c.postId == Some(postId) then multiset(FindAll(s))[c] else 0)
  {
    var all := FindAll(s);
    assert forall c :: c in s.rows.Values ==> exists k :: k in s.rows && s.rows[k] == c;
    OnPost(all, postId)
  }

  /** GET /comments: every stored comment, in the order they were created */
  function All(s: Comments): (r: seq<Comment>)
    requires Consistent(s)
    ensures |r| == |s.order| == |s.rows|
    ensures forall i :: 0 <= i < |r| ==> s.order[i] in s.rows && r[i] == s.rows[s.order[i]]
    ensures forall c :: c in r <==> c in s.rows.Values
  {
    var r := FindAll(s);
    assert forall c :: c in s.rows.Values ==> exists k :: k in s.rows && s.rows[k] == c;
    r
  }

  /** GET /comments/{id}: the stored comment, or 404 */
  function Get(s: Comments, id: int): (r: Response<Comment>)
    ensures r.Ok? <==> id in s.rows
    ensures r.Ok? ==> r.body == s.rows[id]
    ensures Consistent(s) && r.Ok? ==> r.body.id == Some(id)
    ensures !r.NoContent?
  {
    match Find(s, id)
    case Some(c) => Ok(c)
    case None => NotFound
  }

  /** GET /comments/post/{postId}. Always a 200, even when no comment
      references the post; post-service is called exactly once, with
      `postId`; the comments are the stored ones on that post, in store
      order; the post is the fetched one or, when the call threw, the
      placeholder. */
  function ByPost<V>(s: Comments, postId: int, fetchPost: int -> Outcome<V>)
    : (r: Traced<Response<CommentsOfPost<V>>, int>)
    requires Valid(s)
    ensures r.calls == [postId]
    ensures r.result.Ok?
    ensures forall c :: c in r.result.body.comments <==> c in s.rows.Values && c.postId == Some(postId)
    ensures Subsequence(r.result.body.comments, FindAll(s))
    ensures forall c :: multiset(r.result.body.comments)[c]
                     == (if c.postId == Some(postId) then multiset(FindAll(s))[c] else 0)
    ensures fetchPost(postId).Returned? ==> r.result.body.post == Fetched(fetchPost(postId).value)
    ensures fetchPost(postId).Raised? ==> r.result.body.post == Unavailable(PostUnavailable)
  {
    var comments := FindByPostId(s, postId);
    var post := Enrich(postId, fetchPost, PostUnavailable);
    Traced(Ok(CommentsOfPost(post.result, comments)), post.calls)
  }

  /** POST /comments with no id in the body: the comment is stored under a
      fresh id and returned with it. */
  function Create(s: Comments, c: Comment): (r: (Comments, Comment))
    requires Consistent(s)
    requires c.id.None?
    ensures var (t, saved) := r;
      && saved.id == Some(s.nextId) && saved.id.value !in s.rows
      && saved.postId == c.postId && saved.authorId == c.authorId && saved.content == c.content
      && t.rows == s.rows[saved.id.value := saved]
      && Consistent(t)
      && t.nextId > s.nextId
      && All(t) == All(s) + [saved]
  {
    var saved := c.(id := Some(s.nextId));
    (Append(s, saved), saved)
  }

  /** PUT /comments/{id}: content, author id and post id are replaced by
      the body's, nulls included; the id stays; a missing id is a 404 with
      nothing changed. */
  function Update(s: Comments, id: int, c: Comment): (r: Handled<Comments, Comment>)
    requires Consistent(s)
    ensures id !in s.rows ==> r == Handled(s, NotFound)
    ensures id in s.rows ==>
      && r.response.Ok?
      && r.response.body == Comment(s.rows[id].id, c.postId, c.authorId, c.content)
      && r.store.rows == s.rows[id := r.response.body]
      && r.store.order == s.order
    ensures r.store.nextId == s.nextId
    ensures Consistent(r.store)
  {
    match Find(s, id)
    case None => Handled(s, NotFound)
    case Some(comment) =>
      var updated := comment.(content := c.content, authorId := c.authorId, postId := c.postId);
      Handled(Replace(s, id, updated), Ok(updated))
  }

  /** DELETE /comments/{id}: 204 and the comment gone, or 404 and nothing gone */
  function Delete(s: Comments, id: int): (r: Handled<Comments, ()>)
    requires Consistent(s)
    ensures id !in s.rows ==> r == Handled(s, NotFound)
    ensures id in s.rows ==> r.response == NoContent && r.store.rows == s.rows - {id}
    ensures id in s.rows ==> r.store.order == Without(s.order, id) && r.store.nextId == s.nextId
    ensures Consistent(r.store)
  {
    if id !in s.rows then Handled(s, NotFound)
    else Handled(Remove(s, id), NoContent)
  }

  /** Moving a comment to another post by an update moves it between the
      two listings: it is listed under its new post, and no listing of any
      other post `from` holds a comment with its id. */
  lemma ByPostAfterUpdate<V>(s: Comments, id: int, c: Comment, from: int, fetchPost: int -> Outcome<V>)
    requires Consistent(s) && id in s.rows && c.postId.Some?
    ensures var t := Update(s, id, c);
      t.response.body in ByPost(t.store, c.postId.value, fetchPost).result.body.comments
    ensures var t := Update(s, id, c).store;
      Some(from) != c.postId ==>
        forall x :: x in ByPost(t, from, fetchPost).result.body.comments ==> x.id != Some(id)
  {
    var t := Update(s, id, c);
    assert t.store.rows[id] == t.response.body;
    if Some(from) != c.postId {
      NoneCarries(t.store, id, from);
      assert ByPost(t.store, from, fetchPost).result.body.comments == FindByPostId(t.store, from);
    }
  }

  /** A created comment goes to the end of its post's listing; every other
      post's listing is unchanged. */
  lemma ByPostAfterCreate(s: Comments, c: Comment, postId: int)
    requires Consistent(s) && c.id.None?
    ensures var (t, saved) := Create(s, c);
      FindByPostId(t, postId)
        == FindByPostId(s, postId) + (if c.postId == Some(postId) then [saved] else [])
  {
    var (t, saved) := Create(s, c);
    assert FindAll(t) == FindAll(s) + [saved];
    OnPostSnoc(FindAll(s), saved, postId);
  }

  /** Filtering a sequence with one more comment at its end */
  lemma OnPostSnoc(cs: seq<Comment>, c: Comment, postId: int)
    ensures OnPost(cs + [c], postId)
      == OnPost(cs, postId) + (if c.postId == Some(postId) then [c] else [])
  {
    OnPostAppend(cs, [c], postId);
    OnPostStep([c], postId);
    assert [c][1..] == [];
  }

  /** Deleting the comment listed at position `k` drops exactly that entry
      from GET /comments; the others keep their order. */
  lemma AllAfterDelete(s: Comments, k: int, id: int)
    requires Consistent(s) && 0 <= k < |All(s)| && All(s)[k].id == Some(id)
    ensures All(Delete(s, id).store) == All(s)[..k] + All(s)[k + 1..]
  {
    assert s.order[k] in s.rows;
    assert id == s.order[k];
    FindAllAfterRemove(s, k);
  }

  /** A deleted comment is gone, others are untouched, and a second delete is a 404 */
  lemma GetAfterDelete(s: Comments, id: int, other: int)
    requires Consistent(s) && id in s.rows && other != id
    ensures var t := Delete(s, id).store;
      && Get(t, id) == NotFound
      && Get(t, other) == Get(s, other)
      && Delete(t, id) == Handled(t, NotFound)
  {
  }

  /** A deleted comment no longer appears under its post */
  lemma ByPostAfterDelete<V>(s: Comments, id: int, postId: int, fetchPost: int -> Outcome<V>)
    requires Consistent(s) && id in s.rows
    ensures var t := Delete(s, id).store;
      forall c :: c in ByPost(t, postId, fetchPost).result.body.comments ==> c.id != Some(id)
  {
    var t := Delete(s, id).store;
    NoneCarries(t, id, postId);
    assert ByPost(t, postId, fetchPost).result.body.comments == FindByPostId(t, postId);
  }

  /** A store in which `id` is gone, or stored on another post, lists no
      comment carrying `id` under `postId` */
  lemma NoneCarries(t: Comments, id: int, postId: int)
    requires Consistent(t) && (id in t.rows ==> t.rows[id].postId != Some(postId))
    ensures forall c :: c in FindByPostId(t, postId) ==> c.id != Some(id)
  {
    var all := FindAll(t);
    forall c | c in FindByPostId(t, postId)
      ensures c.id != Some(id)
    {
      var listed := FindByPostId(t, postId);
      assert multiset(listed)[c] > 0;
      assert c.postId == Some(postId);
      assert c in all;
      var i :| 0 <= i < |all| && all[i] == c;
      var k := t.order[i];
      assert k in t.rows && c == t.rows[k];
      assert c.id == Some(k) && t.rows[k].postId == Some(postId);
      assert k != id;
    }
  }

  /** Two comments created on post 100 are listed under it, in creation order */
  lemma TwoCommentsListed()
    ensures var (s1, a) := Create(Empty(), Comment(None, Some(100), Some(1), Some("Comment A")));
      var (s2, b) := Create(s1, Comment(None, Some(100), Some(2), Some("Comment B")));
      FindByPostId(s2, 100) == [a, b]
  {
    var s0: Comments := Empty();
    var (s1, a) := Create(s0, Comment(None, Some(100), Some(1), Some("Comment A")));
    var (s2, b) := Create(s1, Comment(None, Some(100), Some(2), Some("Comment B")));
    assert FindAll(s2) == [a, b];
    OnPostKeepsMatching([a, b], 100);
  }

  /** Two comments on post 100 and post-service answering with that post:
      a 200 with the post and both comments, in creation order. */
  lemma FetchedPostScenario<V>(fetchPost: int -> Outcome<V>, post: V)
    requires fetchPost(100) == Returned(post)
    ensures var (s1, a) := Create(Empty(), Comment(None, Some(100), Some(1), Some("Comment A")));
      var (s2, b) := Create(s1, Comment(None, Some(100), Some(2), Some("Comment B")));
      ByPost(s2, 100, fetchPost) == Traced(Ok(CommentsOfPost(Fetched(post), [a, b])), [100])
  {
    TwoCommentsListed();
  }

  /** The same two comments with post-service timing out: still a 200 with
      both comments, and the placeholder as the post. */
  lemma PostServiceDownScenario<V>(fetchPost: int -> Outcome<V>)
    requires fetchPost(100) == Raised
    ensures var (s1, a) := Create(Empty(), Comment(None, Some(100), Some(1), Some("Comment A")));
      var (s2, b) := Create(s1, Comment(None, Some(100), Some(2), Some("Comment B")));
      ByPost(s2, 100, fetchPost)
        == Traced(Ok(CommentsOfPost(Unavailable("unable to fetch post"), [a, b])), [100])
  {
    TwoCommentsListed();
  }

  /** Filtering distributes over concatenation */
  lemma {:induction false} OnPostAppend(a: seq<Comment>, b: seq<Comment>, postId: int)
    ensures OnPost(a + b, postId) == OnPost(a, postId) + OnPost(b, postId)
  {
    if |a| == 0 {
      assert a + b == b;
    } else {
      var ab := a + b;
      assert ab[0] == a[0] && ab[1..] == a[1..] + b;
      OnPostAppend(a[1..], b, postId);
      OnPostStep(ab, postId);
      OnPostStep(a, postId);
      var keep := if a[0].postId == Some(postId) then [a[0]] else [];
      var x, y := OnPost(a[1..], postId), OnPost(b, postId);
      ConcatAssoc(keep, x, y);
    }
  }

  lemma ConcatAssoc<T>(x: seq<T>, y: seq<T>, z: seq<T>)
    ensures x + (y + z) == (x + y) + z
  {
  }

  /** One step of the filter: the head is kept exactly when it is on the post */
  lemma OnPostStep(cs: seq<Comment>, postId: int)
    requires |cs| > 0
    ensures OnPost(cs, postId)
      == (if cs[0].postId == Some(postId) then [cs[0]] else []) + OnPost(cs[1..], postId)
  {
  }

  /** Filtering comments that are all on the post drops none */
  lemma {:induction false} OnPostKeepsMatching(cs: seq<Comment>, postId: int)
    requires forall i :: 0 <= i < |cs| ==> cs[i].postId == Some(postId)
    ensures OnPost(cs, postId) == cs
  {
    if |cs| > 0 {
      OnPostKeepsMatching(cs[1..], postId);
    }
  }
}
