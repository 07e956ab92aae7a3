# blog-microservices: a Dafny model of the composition layer

This project models the parts of blog-microservices that do more than
route and store:

- **`generatePost` in the ai-service.** The model's answer text is turned
  into a post. The brace-delimited span is cut out with the regex `\{.*\}`
  (DOTALL, first match). Typographic double quotes and backticks become
  plain double quotes, line feeds become spaces, and the text is trimmed as
  `String.trim` does. The result goes to the JSON decoder. When decoding
  throws, a fallback post is built from the topic and the normalised text.
- **The two enrichment endpoints.** `GET /posts/{id}/with-author` in the
  post-service and `GET /comments/post/{postId}` in the comment-service
  join local records with one best-effort call to a sibling service. When
  that call throws, the related part is replaced by the placeholder
  `{"error": "unable to fetch user"}` or `{"error": "unable to fetch post"}`.
- **The CRUD handlers** of the user, post and comment controllers, over a
  record store that stands in for the Spring Data JPA repository.

Layout, one module per file:

| file | module | what it holds |
|---|---|---|
| `wrappers.dfy` | `Wrappers` | `Option` |
| `responses.dfy` | `Responses` | HTTP outcomes: 200 with a body, 404, 204 |
| `record_store.dfy` | `RecordStore` | the repository: rows by id, first-save order (taken as the order `findAll` returns), an IDENTITY counter |
| `enrichment.dfy` | `Enrichment` | one guarded remote call: outcome, placeholder, call log |
| `post_text.dfy` | `PostText` | extraction, quote and line-feed replacement, trim, the whole pipeline |
| `chat_controller.dfy` | `ChatController` | `generatePost` after the model has answered |
| `user_controller.dfy` | `UserController` | `/users` handlers |
| `post_controller.dfy` | `PostController` | `/posts` handlers, including `with-author` |
| `comment_controller.dfy` | `CommentController` | `/comments` handlers, including `post/{postId}` |

Each remote client is a total function parameter from the key to an
`Outcome` (`Raised` or `Returned(v)`). An exception is then a value that
contracts can talk about. Each enrichment returns its result together with
the list of keys the client was called with. This states "called exactly
once, with this id" and "never called" as plain equalities. The JSON
decoder is also a function parameter. It maps a text to one of three
outcomes of `readValue`: it threw, it returned null, or it returned a post.
Java `null` fields are `Option` values.

### Notes on `generatePost` as written

- The fallback content is the normalised text, not the model's raw answer.
  Lines 83-88 of `ChatController.java` overwrite the variable holding the
  answer with its normalised form before decoding, and line 97 copies that
  variable. The model follows this: the fallback content is
  `Pipeline(aiText)`. For an answer with no braces, that is
  `Normalize(aiText)`.
- The fallback post always has both fields set, but a decoded post need
  not. A JSON object without `title` decodes to a post with a null title,
  and the handler returns it unchanged.
- The handler can return null. Jackson decodes the JSON literal `null` to
  null without throwing, so the catch block never runs: line 92 stores null
  and line 100 returns it. `GeneratePost` returns `None` exactly when the
  decoder returns null. With the default mapper, which reads the first
  value and ignores trailing text, that includes every answer whose
  normalisation opens with the `null` token (`null, sorry` as well as
  `null` itself).

## Model

| member | source | states |
|---|---|---|
| PostText.ExtractObject | ai-service/src/main/java/com/example/aiservice/ChatController.java:76-80 | if the first `{` comes before the last `}`, the result is exactly the span from that `{` through that `}`; if no `{` precedes a `}`, the text is returned unchanged; the result is never longer than the input |
| PostText.BracePairByEnds | ai-service/src/main/java/com/example/aiservice/ChatController.java:76-78 | the regex finds a match (some `{` before some `}`) exactly when the first `{` precedes the last `}` |
| PostText.MatchBounds | ai-service/src/main/java/com/example/aiservice/ChatController.java:76-79 | on a match, yields the first `{` and the last `}` positions, in that order, and the extracted text is the span between them, inclusive |
| PostText.ExtractIsRegexMatch | ai-service/src/main/java/com/example/aiservice/ChatController.java:76-79 | the extracted span is the match `Matcher.find` reports for `\{.*\}` under DOTALL: its start is the leftmost start of any match, and the greedy `.*` runs to the rightmost `}` after it |
| PostText.ExtractAround | ai-service/src/main/java/com/example/aiservice/ChatController.java:76-80 | an object with no `{` in the prose before it and no `}` after it is cut out exactly, whatever it holds inside |
| PostText.ExtractOfObject | ai-service/src/main/java/com/example/aiservice/ChatController.java:76-80 | text that already opens with `{` and closes with `}` is extracted whole |
| PostText.ExtractShape | ai-service/src/main/java/com/example/aiservice/ChatController.java:76-80 | the extracted text either is brace-delimited or contains no brace pair at all |
| PostText.ReplaceChar | ai-service/src/main/java/com/example/aiservice/ChatController.java:84-87 | `replaceAll` with a one-character literal: same length, each position holding the replacement where the input held the pattern character and the input character elsewhere |
| PostText.ReplaceAbsent | ai-service/src/main/java/com/example/aiservice/ChatController.java:84-87 | replacing a character that does not occur leaves the text unchanged |
| PostText.NormalizeQuotes | ai-service/src/main/java/com/example/aiservice/ChatController.java:84-86 | same length; U+201C, U+201D and the backtick become `"` at their positions, every other character is kept; none of the three remains |
| PostText.FoldNewlines | ai-service/src/main/java/com/example/aiservice/ChatController.java:87 | same length; each line feed becomes a space, every other character (carriage returns included) is kept; no line feed remains |
| PostText.Trim | ai-service/src/main/java/com/example/aiservice/ChatController.java:88 | the result is a slice of the input with no character at or below U+0020 at either end, and everything cut away is at or below U+0020 |
| PostText.TrimUnique | ai-service/src/main/java/com/example/aiservice/ChatController.java:88 | any slice with those two properties is the trim, so the trim is fully determined by its contract |
| PostText.TrimOfVisible | ai-service/src/main/java/com/example/aiservice/ChatController.java:88 | text with no trimmable character at either end is its own trim |
| PostText.TrimKeepsAbsent | ai-service/src/main/java/com/example/aiservice/ChatController.java:88 | trimming never introduces a character that was absent |
| PostText.JavaTrim | ai-service/src/main/java/com/example/aiservice/ChatController.java:88 | the JDK's two-index loop (advance the start, pull back the end, then cut) computes exactly `Trim` |
| PostText.Normalize | ai-service/src/main/java/com/example/aiservice/ChatController.java:83-88 | the normalised text is no longer than the input, contains no typographic quote, backtick or line feed, and has no trimmable character at either end |
| PostText.NormalizedIsFixed | ai-service/src/main/java/com/example/aiservice/ChatController.java:83-88 | text already in that normal form is left unchanged by normalisation |
| PostText.NormalizeIdempotent | ai-service/src/main/java/com/example/aiservice/ChatController.java:83-88 | normalising twice gives what normalising once gives |
| PostText.NormalizeKeepsBraces | ai-service/src/main/java/com/example/aiservice/ChatController.java:83-88 | brace-delimited text keeps its length and both braces through normalisation |
| PostText.NormalizeKeepsNoPair | ai-service/src/main/java/com/example/aiservice/ChatController.java:83-88 | normalisation never creates a `{` … `}` pair |
| PostText.Pipeline | ai-service/src/main/java/com/example/aiservice/ChatController.java:76-88 | the text handed to the decoder is the extracted span, then the three replacements and the trim in source order: no longer than the answer, in normal form, and just the normalised answer when the answer holds no `{` before a `}` |
| PostText.PipelineKeepsBraces | ai-service/src/main/java/com/example/aiservice/ChatController.java:76-88 | when the answer holds a `{` before a `}`, the decoder is handed text that opens with `{` and closes with `}` |
| PostText.PipelineWithoutBraces | ai-service/src/main/java/com/example/aiservice/ChatController.java:76-88 | an answer with no `{` skips extraction, and the decoder is handed its normalisation, which still has no `{` |
| PostText.ExtractOfPipeline | ai-service/src/main/java/com/example/aiservice/ChatController.java:76-88 | extraction finds nothing more to cut in the text the pipeline produces |
| PostText.PipelineIdempotent | ai-service/src/main/java/com/example/aiservice/ChatController.java:76-88 | running the extraction and normalisation steps over their own output changes nothing |
| ChatController.GeneratePost | ai-service/src/main/java/com/example/aiservice/ChatController.java:74-100 | a decoded post is returned as is; the response is null exactly when the decoder returned null; when the decoder threw, the post has a non-empty title starting with "AI Generated Post: " and normalised content no longer than the answer |
| ChatController.FallbackPost | ai-service/src/main/java/com/example/aiservice/ChatController.java:92-98 | on a decode failure the post is exactly ("AI Generated Post: " + topic, pipeline text); that content is brace-delimited when the answer held a brace pair, and otherwise is the whole normalised answer |
| ChatController.ProseFallsBack | ai-service/src/main/java/com/example/aiservice/ChatController.java:76-98 | for a decoder that throws on trimmed text unless it opens with `null` or opens with `{` and holds a `}`, an answer with no `{` before a `}` whose normalisation does not open with `null` always falls back, with the normalised answer as content |
| ChatController.WrappedJsonText | ai-service/src/main/java/com/example/aiservice/ChatController.java:76-88 | for `Here is json: {"title": "Hi", "content": "World"}`, the decoder is handed exactly the bare object |
| ChatController.WrappedJsonScenario | ai-service/src/main/java/com/example/aiservice/ChatController.java:74-100 | that wrapped answer yields the decoded post ("Hi", "World") |
| ChatController.RefusalScenario | ai-service/src/main/java/com/example/aiservice/ChatController.java:74-100 | the refusal "Sorry, I can't help." yields the fallback titled after the topic, with that sentence word for word as content |
| ChatController.EmptyAnswerScenario | ai-service/src/main/java/com/example/aiservice/ChatController.java:74-100 | an empty answer yields the fallback with empty content |
| ChatController.NullAnswer | ai-service/src/main/java/com/example/aiservice/ChatController.java:92-100 | an answer with no `{` that normalises to `null`, with the decoder returning null for it, gives a null response and no fallback |
| ChatController.NullAnswerScenario | ai-service/src/main/java/com/example/aiservice/ChatController.java:92-100 | the answer `null` gives a null response |
| Enrichment.Enrich | post-service/src/main/java/com/example/postservice/controller/PostController.java:33-34 | the client is called exactly once, with the given key; the value is fetched exactly when the call returned, and then equals what it returned; when the call threw, the placeholder carries the given marker |
| Enrichment.EnrichIsFaithful | comment-service/src/main/java/com/example/commentservice/controller/CommentController.java:42-43 | the degraded state is visible: the related part of the response determines exactly what the remote call did |
| RecordStore.Find | post-service/src/main/java/com/example/postservice/controller/PostController.java:27 | `findById` finds a record exactly when one is stored under the id, and it is that record |
| RecordStore.FindAll | post-service/src/main/java/com/example/postservice/controller/PostController.java:23 | every stored record appears exactly once (as many entries as stored ids), listed in first-save order |
| RecordStore.Append | user-service/src/main/java/com/example/userservice/controller/UserController.java:24-25 | saving a record with no id stores it under the next IDENTITY value, which no stored record holds; the counter moves forward; the record goes to the end of `findAll`; the store stays valid |
| RecordStore.Replace | user-service/src/main/java/com/example/userservice/controller/UserController.java:29-32 | re-saving a stored record changes only that row, and it keeps its place in `findAll` |
| RecordStore.Remove | user-service/src/main/java/com/example/userservice/controller/UserController.java:38-39 | `deleteById` drops exactly that row (and of a missing id, changes nothing), keeps the other ids in their order, keeps the store valid and does not rewind the counter, so ids are never reused |
| RecordStore.FindAllAfterRemove | user-service/src/main/java/com/example/userservice/controller/UserController.java:38-39 | deleting the record listed at position k removes exactly that entry from `findAll`, and the others keep their order |
| RecordStore.WithoutAt | user-service/src/main/java/com/example/userservice/controller/UserController.java:38-39 | in a list of distinct ids, dropping one id cuts exactly its position out, the rest in order |
| UserController.All | user-service/src/main/java/com/example/userservice/controller/UserController.java:16-17 | the listing holds exactly the stored users, one entry per stored id, in first-save order |
| UserController.Get | user-service/src/main/java/com/example/userservice/controller/UserController.java:19-22 | 200 with the stored user exactly when the id is stored (and the user carries that id); 404 otherwise |
| UserController.Create | user-service/src/main/java/com/example/userservice/controller/UserController.java:24-25 | the user, with its name and email, is stored under the IDENTITY counter's next value, an id no stored or deleted user has held; the returned user carries that id, nothing else changes, the counter moves on, and the user goes to the end of `GET /users` |
| UserController.Update | user-service/src/main/java/com/example/userservice/controller/UserController.java:27-34 | a stored user gets the body's name and email (nulls included) and keeps its id, with the listing order unchanged, and the counter is kept; a missing id is a 404 with the store untouched |
| UserController.Delete | user-service/src/main/java/com/example/userservice/controller/UserController.java:36-41 | a stored user is removed with a 204, the others keep their order and the counter is kept; a missing id is a 404 with the store untouched |
| UserController.GetAfterCreate | user-service/src/main/java/com/example/userservice/controller/UserController.java:19-25 | a created user reads back under its new id |
| UserController.AllAfterCreate | user-service/src/main/java/com/example/userservice/controller/UserController.java:16-25 | a created user is appended to the listing, so creation order is listing order |
| UserController.AllAfterDelete | user-service/src/main/java/com/example/userservice/controller/UserController.java:16-41 | deleting the user listed at position k removes exactly that entry from the listing, and the others keep their order |
| UserController.DeletedIdNotReused | user-service/src/main/java/com/example/userservice/controller/UserController.java:24-41 | a user created after a delete, with or without an update in between, never gets the deleted id |
| UserController.GetAfterUpdate | user-service/src/main/java/com/example/userservice/controller/UserController.java:19-34 | after an update the user reads back as the update returned it, and every other user reads back as before |
| UserController.GetAfterDelete | user-service/src/main/java/com/example/userservice/controller/UserController.java:19-41 | after a delete the user is a 404, others read back as before, and a second delete is a 404 |
| UserController.ListingScenario | user-service/src/test/java/com/example/userservice/controller/UserControllerIT.java:59-72 | John then Jane, created on an empty store, are listed as [John, Jane] |
| UserController.MissingUserScenario | user-service/src/test/java/com/example/userservice/controller/UserControllerIT.java:120-125 | user 999 on an empty store is a 404 |
| PostController.All | post-service/src/main/java/com/example/postservice/controller/PostController.java:22-23 | the listing holds exactly the stored posts, one entry per stored id, in first-save order |
| PostController.Get | post-service/src/main/java/com/example/postservice/controller/PostController.java:25-28 | 200 with the stored post exactly when the id is stored; 404 otherwise |
| PostController.GetWithAuthor | post-service/src/main/java/com/example/postservice/controller/PostController.java:30-37 | a missing post is a 404 and user-service is never called; a stored post is a 200 with that post, user-service is called once with its author id, and the author is the fetched user or, when the call threw, the "unable to fetch user" placeholder |
| PostController.WithAuthorDegrades | post-service/src/main/java/com/example/postservice/controller/PostController.java:30-37 | a stored post is always a 200 with the post, whatever user-service does, and the author part tells exactly what the call did |
| PostController.WithAuthorAgreesWithGet | post-service/src/main/java/com/example/postservice/controller/PostController.java:25-37 | `with-author` finds a post exactly when `GET /posts/{id}` does, and returns the same post |
| PostController.WithAuthorAfterUpdate | post-service/src/main/java/com/example/postservice/controller/PostController.java:30-50 | after an update, user-service is asked for the new author id |
| PostController.Create | post-service/src/main/java/com/example/postservice/controller/PostController.java:39-40 | the post, with its title, content and author id, is stored under the IDENTITY counter's next value, an id no stored or deleted post has held; the returned post carries that id, the counter moves on, and the post goes to the end of `GET /posts` |
| PostController.Update | post-service/src/main/java/com/example/postservice/controller/PostController.java:42-50 | a stored post gets the body's title, content and author id (nulls included) and keeps its id, and the counter is kept; a missing id is a 404 with the store untouched |
| PostController.Delete | post-service/src/main/java/com/example/postservice/controller/PostController.java:52-57 | a stored post is removed with a 204, the others keep their order and the counter is kept; a missing id is a 404 with the store untouched |
| PostController.AllAfterDelete | post-service/src/main/java/com/example/postservice/controller/PostController.java:23-57 | deleting the post listed at position k removes exactly that entry from `GET /posts`, and the others keep their order |
| PostController.GetAfterDelete | post-service/src/main/java/com/example/postservice/controller/PostController.java:25-57 | after a delete the post is a 404, others read back as before, and a second delete is a 404 |
| PostController.AuthorScenario | post-service/src/test/java/com/example/postservice/controller/PostControllerIT.java:125-141 | a post by author 42, with user-service answering for 42, comes back with that user, after exactly one call for 42 |
| PostController.MissingPostScenario | post-service/src/main/java/com/example/postservice/controller/PostController.java:30-36 | post 999 on an empty store is a 404 with no call to user-service |
| CommentController.OnPost | comment-service/src/main/java/com/example/commentservice/controller/CommentController.java:41 | the selected comments are exactly those referencing the post (a null post id references none), each as often as in the input, kept in their original order |
| CommentController.OnPostKeepsMatching | comment-service/src/main/java/com/example/commentservice/controller/CommentController.java:41 | when every comment references the post, the selection drops none |
| CommentController.FindByPostId | comment-service/src/main/java/com/example/commentservice/controller/CommentController.java:41 | exactly the stored comments on the post, each as often as in `findAll`, in store order |
| CommentController.All | comment-service/src/main/java/com/example/commentservice/controller/CommentController.java:28-29 | the listing holds exactly the stored comments, one entry per stored id, in first-save order |
| CommentController.Get | comment-service/src/main/java/com/example/commentservice/controller/CommentController.java:31-34 | 200 with the stored comment exactly when the id is stored; 404 otherwise |
| CommentController.ByPost | comment-service/src/main/java/com/example/commentservice/controller/CommentController.java:36-45 | always a 200, even with no comments; post-service is called exactly once, with the post id; the comments are exactly the stored ones on that post, each as often as in `findAll`, in store order; the post is the fetched one or, when the call threw, the "unable to fetch post" placeholder |
| CommentController.Create | comment-service/src/main/java/com/example/commentservice/controller/CommentController.java:47-48 | the comment, with its post id, author id and content, is stored under the IDENTITY counter's next value, an id no stored or deleted comment has held; the returned comment carries that id, the counter moves on, and the comment goes to the end of `GET /comments` |
| CommentController.Update | comment-service/src/main/java/com/example/commentservice/controller/CommentController.java:50-58 | a stored comment gets the body's content, author id and post id (nulls included) and keeps its id, and the counter is kept; a missing id is a 404 with the store untouched |
| CommentController.Delete | comment-service/src/main/java/com/example/commentservice/controller/CommentController.java:60-65 | a stored comment is removed with a 204, the others keep their order and the counter is kept; a missing id is a 404 with the store untouched |
| CommentController.AllAfterDelete | comment-service/src/main/java/com/example/commentservice/controller/CommentController.java:28-65 | deleting the comment listed at position k removes exactly that entry from `GET /comments`, and the others keep their order |
| CommentController.GetAfterDelete | comment-service/src/main/java/com/example/commentservice/controller/CommentController.java:31-65 | after a delete the comment is a 404, others read back as before, and a second delete is a 404 |
| CommentController.ByPostAfterCreate | comment-service/src/main/java/com/example/commentservice/controller/CommentController.java:36-48 | a created comment goes to the end of its post's listing, and every other post's listing is unchanged |
| CommentController.ByPostAfterUpdate | comment-service/src/main/java/com/example/commentservice/controller/CommentController.java:36-58 | a comment moved to another post by an update is listed under that post, and no other post's listing holds a comment with its id |
| CommentController.ByPostAfterDelete | comment-service/src/main/java/com/example/commentservice/controller/CommentController.java:36-65 | a deleted comment no longer appears under any post |
| CommentController.TwoCommentsListed | comment-service/src/test/java/com/example/commentservice/controller/CommentControllerIT.java:129-132 | two comments created on post 100 are listed under it in creation order |
| CommentController.FetchedPostScenario | comment-service/src/test/java/com/example/commentservice/controller/CommentControllerIT.java:128-145 | those two comments, with post-service answering for post 100, come back with the post, after exactly one call for 100 |
| CommentController.PostServiceDownScenario | comment-service/src/main/java/com/example/commentservice/controller/CommentController.java:41-44 | the same two comments, with post-service throwing, still come back in a 200, with the placeholder as the post |

## Left out

- The model call (`ChatController.java` lines 41-70), `getResponse` and `generateComment` are left out. They build a prompt and pass text to and from the chat model, which is I/O; `generateComment` has no fallback to model.
- ChatController.GeneratePost: the JSON decoder is a parameter. Which texts Jackson accepts is not modelled: malformed JSON, unknown properties, typographic quotes left inside strings, and non-string fields all depend on the library and on `PostDto`, and `PostDto` is not part of this model. Scenarios state the decoder's answer they rely on as a precondition. `RejectsNonObjects` assumes what the default mapper does for a plain bean, on trimmed text only: only text opening with `null`, or opening with `{` and holding a `}`, can avoid an exception.
- A null answer text (`getText()` returning null) is left out; the answer is always a string.
- Java strings count UTF-16 units, while a Dafny `char` is a Unicode scalar value. Every character the pipeline inspects or writes is a single unit in both, so the pipeline behaves the same; only the lengths of text outside the basic plane differ, and `GeneratePost`'s length bound on the fallback content counts scalar values.
- Enrichment.Enrich: a client that returns null is not modelled. In Java, `Map.of` then throws a `NullPointerException` and the endpoint fails. In the model a returned value is always passed through.
- Enrichment.Enrich: the placeholder is a distinct constructor, so it can never be confused with a fetched record. In Java, a remote map that happened to equal `{"error": …}` would be indistinguishable from it.
- UserController.Create, PostController.Create, CommentController.Create: they require a body with a null id. Saving a body that carries an id makes JPA merge into, or insert under, that id; that path is not modelled.
- RecordStore.FindAll: `findAll` has no ORDER BY either. The model takes it to return records in first-save order, which is the database's primary-key order when ids come from an IDENTITY column and are never reused.
- CommentController.FindByPostId: the derived query `findByPostId` has no ORDER BY. The model takes it to return comments in store order, the order `findAll` uses.
- Column lengths (`@Column(length = 4000)` on post content, `2000` on comment content) are not modelled; values are unbounded strings, and ids are unbounded integers rather than 64-bit `Long`.
- Logging, dependency wiring, routing and the JSON serialisation of responses are left out. A response is an outcome with its body, not bytes.
- The comment controller's user-service client is injected but never called, so it does not appear in the model.
- Each handler is one atomic step on the store. Concurrent requests are not modelled, including the window between `existsById` and `deleteById` and the one between `findById` and `save`.
