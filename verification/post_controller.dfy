/** post-service's `PostController`: CRUD over stored posts, and the one
    endpoint that enriches a post with its author fetched from user-service. */
module PostController {
  import opened Wrappers
  import opened Responses
  import opened RecordStore
  import opened Enrichment

  /** A post as stored and as sent over the wire; every field may be null */
  datatype Post = Post(id: Option<int>, title: Option<string>, content: Option<string>, authorId: Option<int>)

  type Posts = Store<Post>

  /** The body of GET /posts/{id}/with-author: {"post": ..., "author": ...} */
  datatype PostWithAuthor<+V> = PostWithAuthor(post: Post, author: Related<V>)

  /** The placeholder's marker when user-service cannot be reached */
  const UserUnavailable: string := "unable to fetch user"

  /** A reachable post store: valid, and every post carries its own key as id */
  ghost predicate Consistent(s: Posts) {
    Valid(s) && forall k :: k in s.rows ==> s.rows[k].id == Some(k)
  }

  /** GET /posts: every stored post, in the order they were created */
  function All(s: Posts): (r: seq<Post>)
    requires Consistent(s)
    ensures |r| == |s.order| == |s.rows|
    ensures forall i :: 0 <= i < |r| ==> s.order[i] in s.rows && r[i] == s.rows[s.order[i]]
    ensures forall p :: p in r <==> p in s.rows.Values
  {
    var r := FindAll(s);
    assert forall p :: p in s.rows.Values ==> exists k :: k in s.rows && s.rows[k] == p;
    r
  }

  /** GET /posts/{id}: the stored post, or 404 */
  function Get(s: Posts, id: int): (r: Response<Post>)
    ensures r.Ok? <==> id in s.rows
    ensures r.Ok? ==> r.body == s.rows[id]
    ensures Consistent(s) && r.Ok? ==> r.body.id == Some(id)
    ensures !r.NoContent?
  {
    match Find(s, id)
    case Some(p) => Ok(p)
    case None => NotFound
  }

  /** GET /posts/{id}/with-author. A missing post is a 404 and user-service
      is never called. Otherwise user-service is called exactly once, with
      the post's author id as stored (possibly null), and the answer is a 200
      holding the post and either the fetched author or, when the call
      threw, the placeholder. */
  function GetWithAuthor<V>(s: Posts, id: int, fetchUser: Option<int> -> Outcome<V>)
    : (r: Traced<Response<PostWithAuthor<V>>, Option<int>>)
    ensures id !in s.rows ==> r.result == NotFound && r.calls == []
    ensures id in s.rows ==>
      && r.calls == [s.rows[id].authorId]
      && r.result.Ok?
      && r.result.body.post == s.rows[id]
    ensures id in s.rows && fetchUser(s.rows[id].authorId).Returned? ==>
      r.result == Ok(PostWithAuthor(s.rows[id], Fetched(fetchUser(s.rows[id].authorId).value)))
    ensures id in s.rows && fetchUser(s.rows[id].authorId).Raised? ==>
      r.result == Ok(PostWithAuthor(s.rows[id], Unavailable(UserUnavailable)))
  {
    match Find(s, id)
    case None => Traced(NotFound, [])
    case Some(p) =>
      var author := Enrich(p.authorId, fetchUser, UserUnavailable);
      Traced(Ok(PostWithAuthor(p, author.result)), author.calls)
  }

  /** POST /posts with no id in the body: the post is stored under a fresh
      id and returned with it. */
  function Create(s: Posts, p: Post): (r: (Posts, Post))
    requires Consistent(s)
    requires p.id.None?
    ensures var (t, saved) := r;
      && saved.id == Some(s.nextId) && saved.id.value !in s.rows
      && saved.title == p.title && saved.content == p.content && saved.authorId == p.authorId
      && t.rows == s.rows[saved.id.value := saved]
      && Consistent(t)
      && t.nextId > s.nextId
      && All(t) == All(s) + [saved]
  {
    var saved := p.(id := Some(s.nextId));
    (Append(s, saved), saved)
  }

  /** PUT /posts/{id}: title, content and author id are replaced by the
      body's, nulls included; the stored id stays and the body's id is
      ignored; a missing id is a 404 with nothing changed. */
  function Update(s: Posts, id: int, p: Post): (r: Handled<Posts, Post>)
    requires Consistent(s)
    ensures id !in s.rows ==> r == Handled(s, NotFound)
    ensures id in s.rows ==>
      && r.response.Ok?
      && r.response.body == Post(s.rows[id].id, p.title, p.content, p.authorId)
      && r.store.rows == s.rows[id := r.response.body]
      && r.store.order == s.order
    ensures r.store.nextId == s.nextId
    ensures Consistent(r.store)
  {
    match Find(s, id)
    case None => Handled(s, NotFound)
    case Some(post) =>
      var updated := post.(title := p.title, content := p.content, authorId := p.authorId);
      Handled(Replace(s, id, updated), Ok(updated))
  }

  /** DELETE /posts/{id}: 204 and the post gone, or 404 and nothing gone */
  function Delete(s: Posts, id: int): (r: Handled<Posts, ()>)
    requires Consistent(s)
    ensures id !in s.rows ==> r == Handled(s, NotFound)
    ensures id in s.rows ==> r.response == NoContent && r.store.rows == s.rows - {id}
    ensures id in s.rows ==> r.store.order == Without(s.order, id) && r.store.nextId == s.nextId
    ensures Consistent(r.store)
  {
    if id !in s.rows then Handled(s, NotFound)
    else Handled(Remove(s, id), NoContent)
  }

  /** Enrichment never loses the post: whatever user-service does, a stored
      post is answered with 200, and the author part tells exactly what the
      call did. */
  lemma WithAuthorDegrades<V>(s: Posts, id: int, fetchUser: Option<int> -> Outcome<V>)
    requires id in s.rows
    ensures var r := GetWithAuthor(s, id, fetchUser);
      && r.result == Ok(PostWithAuthor(s.rows[id], r.result.body.author))
      && Recover(r.result.body.author) == fetchUser(s.rows[id].authorId)
  {
    EnrichIsFaithful(s.rows[id].authorId, fetchUser, UserUnavailable);
  }

  /** The enriched post is the post GET /posts/{id} returns */
  lemma WithAuthorAgreesWithGet<V>(s: Posts, id: int, fetchUser: Option<int> -> Outcome<V>)
    ensures var r := GetWithAuthor(s, id, fetchUser).result;
      && (r.Ok? <==> Get(s, id).Ok?)
      && (r.Ok? ==> r.body.post == Get(s, id).body)
  {
  }

  /** An update followed by reading the post back with its author: user-service
      is asked for the new author. */
  lemma WithAuthorAfterUpdate<V>(s: Posts, id: int, p: Post, fetchUser: Option<int> -> Outcome<V>)
    requires Consistent(s) && id in s.rows
    ensures GetWithAuthor(Update(s, id, p).store, id, fetchUser).calls == [p.authorId]
  {
  }

  /** A post by author 42, stored first on an empty store, with user-service
      answering for 42: the answer holds the post and that user, after
      exactly one call for 42. */
  lemma AuthorScenario<V>(fetchUser: Option<int> -> Outcome<V>, user: V)
    requires fetchUser(Some(42)) == Returned(user)
    ensures var (s, saved) := Create(Empty(), Post(None, Some("Post with author"), Some("Author details"), Some(42)));
      GetWithAuthor(s, saved.id.value, fetchUser)
        == Traced(Ok(PostWithAuthor(saved, Fetched(user))), [Some(42)])
  {
  }

  /** Post 999 does not exist: 404, and user-service is not called */
  lemma MissingPostScenario<V>(fetchUser: Option<int> -> Outcome<V>)
    ensures GetWithAuthor(Empty(), 999, fetchUser) == Traced(NotFound, [])
  {
  }

  /** Deleting the post listed at position `k` drops exactly that entry
      from GET /posts; the others keep their order. */
  lemma AllAfterDelete(s: Posts, k: int, id: int)
    requires Consistent(s) && 0 <= k < |All(s)| && All(s)[k].id == Some(id)
    ensures All(Delete(s, id).store) == All(s)[..k] + All(s)[k + 1..]
  {
    assert s.order[k] in s.rows;
    assert id == s.order[k];
    FindAllAfterRemove(s, k);
  }

  /** A deleted post is gone, others are untouched, and a second delete is a 404 */
  lemma GetAfterDelete(s: Posts, id: int, other: int)
    requires Consistent(s) && id in s.rows && other != id
    ensures var t := Delete(s, id).store;
      && Get(t, id) == NotFound
      && Get(t, other) == Get(s, other)
      && Delete(t, id) == Handled(t, NotFound)
  {
  }
}
