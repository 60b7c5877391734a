/** `routes/comment_routes.py`: comments on posts. */
module CommentRoutes {
  import opened Types
  import opened Store
  import Validation

  /** The JSON body; only key presence is checked, a JSON null content is read as "". */
  datatype CommentRequest = CommentRequest(content: Option<string>, postId: Option<PostId>)

  const CommentFieldsRequired := Response(BAD_REQUEST, "Content and post_id are required")
  const CommentAdded := Response(CREATED, "Comment added")
  const CommentFailed := Response(SERVER_ERROR, "Failed to add comment")

  /** What `add_comment` by `caller` at time `now` answers on store `s`, and the store `s'` it
      leaves: keys, then the post's existence, then 1 to 5000 characters of sanitised content.
      The post is looked up with `get_or_404` inside the route's `try`, so a missing post is
      caught as an exception and answered with the route's 500. The parent post's group is not
      consulted. */
  ghost predicate AddCommentOutcome(s: State, s': State, env: Env, caller: UserId, req: CommentRequest,
                                    now: nat, r: Response) {
    if req.content.None? || req.postId.None? then r == CommentFieldsRequired && s' == s
    else if req.postId.value !in s.posts then r == CommentFailed && s' == s
    else
      var content := env.sanitizeHtml(req.content.value);
      if !(1 <= |content| <= 5000) then
        r == Response(BAD_REQUEST, Validation.ValidateStringLength(content, 1, 5000, "Comment").message) && s' == s
      else
        && r == CommentAdded
        && s' == s.(comments := s.comments[s.nextCommentId := Comment(content, caller, req.postId.value, now)],
                    nextCommentId := s.nextCommentId + 1)
  }

  /** `add_comment`. */
  method AddComment(db: Store, env: Env, caller: UserId, req: CommentRequest, now: nat)
    returns (r: Response, created: Option<CommentId>)
    requires db.Valid()
    modifies db
    ensures db.Valid()
    ensures AddCommentOutcome(old(db.Snapshot()), db.Snapshot(), env, caller, req, now, r)
    ensures created == if r == CommentAdded then Some(old(db.nextCommentId)) else None
  {
    if req.content.None? || req.postId.None? {
      return CommentFieldsRequired, None;
    }
    if req.postId.value !in db.posts {
      return CommentFailed, None;
    }
    var content := env.sanitizeHtml(req.content.value);
    var check := Validation.ValidateStringLength(content, 1, 5000, "Comment");
    if !check.valid {
      return Response(BAD_REQUEST, check.message), None;
    }
    var id := db.nextCommentId;
    db.comments := db.comments[id := Comment(content, caller, req.postId.value, now)];
    db.nextCommentId := db.nextCommentId + 1;
    r, created := CommentAdded, Some(id);
  }

  /** `add_comment` answering a missing post with `get_or_404`'s 404. */
  method AddCommentOr404(db: Store, env: Env, caller: UserId, req: CommentRequest, now: nat)
    returns (r: Response, created: Option<CommentId>)
    requires db.Valid()
    modifies db
    ensures db.Valid()
    ensures req.content.Some? && req.postId.Some? && req.postId.value !in old(db.posts) ==>
              r == NotFound && created.None? && unchanged(db)
    ensures !(req.content.Some? && req.postId.Some? && req.postId.value !in old(db.posts)) ==>
              AddCommentOutcome(old(db.Snapshot()), db.Snapshot(), env, caller, req, now, r)
  {
    if req.content.Some? && req.postId.Some? && req.postId.value !in db.posts {
      return NotFound, None;
    }
    r, created := AddComment(db, env, caller, req, now);
  }
}
