/** `routes/post_routes.py`: the post listing with its visibility filter, post creation gated by
    group membership, and owner-only deletion. */
module PostRoutes {
  import opened Types
  import opened Store
  import Validation
  import Decorators

  // ---------------------------------------------------------------------------------------------
  // Visibility

  /** The listing's optional authentication: a missing or rejected token means an anonymous
      viewer, never an error. */
  function Viewer(header: Option<string>, verify: string -> Option<UserId>): (v: Option<UserId>)
    ensures v.Some? <==> Decorators.Authenticate(header, verify).Authenticated?
    ensures v.Some? ==> v.value == Decorators.Authenticate(header, verify).user
  {
    if Truthy(header) then verify(Decorators.StripBearer(header.value)) else None
  }

  /** A public post is visible to everyone; a group post only to a resolved viewer who is a
      member of its (existing) group. */
  predicate VisibleTo(p: Post, groups: map<GroupId, Group>, viewer: Option<UserId>) {
    || p.groupId.None?
    || (viewer.Some? && p.groupId.value in groups && viewer.value in groups[p.groupId.value].members)
  }

  /** The posts of `order` that `viewer` may see, in the same order. */
  function Listing(order: seq<PostId>, posts: map<PostId, Post>, groups: map<GroupId, Group>,
                   viewer: Option<UserId>): (r: seq<PostId>)
    requires forall id :: id in order ==> id in posts
    ensures forall id :: id in r ==> id in order
  {
    if order == [] then []
    else
      var last := order[|order| - 1];
      Listing(order[..|order| - 1], posts, groups, viewer)
        + (if VisibleTo(posts[last], groups, viewer) then [last] else [])
  }

  /** A post is listed exactly when it is in the store and visible to the viewer. */
  lemma {:induction false} ListingMembers(order: seq<PostId>, posts: map<PostId, Post>,
                                          groups: map<GroupId, Group>, viewer: Option<UserId>, id: PostId)
    requires forall id :: id in order ==> id in posts
    ensures id in Listing(order, posts, groups, viewer) <==> id in order && VisibleTo(posts[id], groups, viewer)
  {
    if order != [] {
      var init := order[..|order| - 1];
      assert forall x :: x in order <==> x in init || x == order[|order| - 1];
      ListingMembers(init, posts, groups, viewer, id);
    }
  }

  lemma PublicPostAlwaysListed(order: seq<PostId>, posts: map<PostId, Post>,
                               groups: map<GroupId, Group>, viewer: Option<UserId>, id: PostId)
    requires forall id :: id in order ==> id in posts
    requires id in order && posts[id].groupId.None?
    ensures id in Listing(order, posts, groups, viewer)
  {
    ListingMembers(order, posts, groups, viewer, id);
  }

  lemma GroupPostListedIffMember(order: seq<PostId>, posts: map<PostId, Post>,
                                 groups: map<GroupId, Group>, viewer: Option<UserId>, id: PostId)
    requires forall id :: id in order ==> id in posts
    requires id in order && posts[id].groupId.Some?
    ensures var g := posts[id].groupId.value;
            id in Listing(order, posts, groups, viewer) <==>
              viewer.Some? && g in groups && viewer.value in groups[g].members
  {
    ListingMembers(order, posts, groups, viewer, id);
  }

  lemma AnonymousSeesOnlyPublic(order: seq<PostId>, posts: map<PostId, Post>, groups: map<GroupId, Group>)
    requires forall id :: id in order ==> id in posts
    ensures forall id :: id in Listing(order, posts, groups, None) ==> posts[id].groupId.None?
  {
    forall id | id in Listing(order, posts, groups, None) ensures posts[id].groupId.None? {
      ListingMembers(order, posts, groups, None, id);
    }
  }

  /** `sub` is `s` restricted to the strictly increasing positions `idx`. */
  ghost predicate SubsequenceAt<T>(sub: seq<T>, s: seq<T>, idx: seq<nat>) {
    && |idx| == |sub|
    && (forall k :: 0 <= k < |idx| ==> idx[k] < |s| && sub[k] == s[idx[k]])
    && (forall k, l :: 0 <= k < l < |idx| ==> idx[k] < idx[l])
  }

  /** The listing keeps the query order: it picks posts at increasing positions. */
  lemma {:induction false} ListingIsSubsequence(order: seq<PostId>, posts: map<PostId, Post>,
                                                groups: map<GroupId, Group>, viewer: Option<UserId>)
    returns (idx: seq<nat>)
    requires forall id :: id in order ==> id in posts
    ensures SubsequenceAt(Listing(order, posts, groups, viewer), order, idx)
  {
    if order == [] {
      idx := [];
    } else {
      var n := |order| - 1;
      var init := order[..n];
      var prev := ListingIsSubsequence(init, posts, groups, viewer);
      if VisibleTo(posts[order[n]], groups, viewer) {
        idx := prev + [n];
      } else {
        idx := prev;
      }
    }
  }

  /** A post appears in the listing at most once. */
  lemma ListingDistinct(order: seq<PostId>, posts: map<PostId, Post>,
                        groups: map<GroupId, Group>, viewer: Option<UserId>)
    requires forall id :: id in order ==> id in posts
    requires Distinct(order)
    ensures Distinct(Listing(order, posts, groups, viewer))
  {
    var idx := ListingIsSubsequence(order, posts, groups, viewer);
  }

  /** `get_posts`: walks all posts in query order and keeps the visible ones. */
  method GetPosts(db: Store, env: Env, header: Option<string>) returns (listing: seq<PostId>)
    requires db.Valid()
    ensures listing == Listing(db.postOrder, db.posts, db.groups, Viewer(header, env.verifyToken))
    ensures forall id :: id in listing <==>
              id in db.posts && VisibleTo(db.posts[id], db.groups, Viewer(header, env.verifyToken))
    ensures Distinct(listing)
  {
    var currentUser: Option<UserId> := None;
    if header.Some? && header.value != "" {
      var token := header.value;
      if Decorators.StartsWith(token, Decorators.BearerPrefix) {
        token := token[7..];
      }
      currentUser := env.verifyToken(token);
    }
    var all := db.postOrder;
    listing := [];
    var i := 0;
    while i < |all|
      invariant 0 <= i <= |all|
      invariant listing == Listing(all[..i], db.posts, db.groups, currentUser)
    {
      assert all[..i + 1][..i] == all[..i];
      var p := db.posts[all[i]];
      if p.groupId.None? {
        listing := listing + [all[i]];
      } else if currentUser.Some? && p.groupId.value in db.groups {
        var isMember := currentUser.value in db.groups[p.groupId.value].members;
        if isMember {
          listing := listing + [all[i]];
        }
      }
      i := i + 1;
    }
    assert all[..i] == all;
    forall id ensures id in listing <==> id in db.posts && VisibleTo(db.posts[id], db.groups, currentUser) {
      ListingMembers(all, db.posts, db.groups, currentUser, id);
    }
    ListingDistinct(all, db.posts, db.groups, currentUser);
  }

  // ---------------------------------------------------------------------------------------------
  // Creation

  /** The JSON body of `POST /posts`; an absent key is None. */
  datatype PostRequest = PostRequest(
    title: Option<string>,
    content: Option<string>,
    tags: Option<seq<string>>,
    course: Option<string>,
    code: Option<string>,
    groupId: Option<nat>)

  const FieldsRequired := Response(BAD_REQUEST, "Title and content are required")
  const GroupNotFound := Response(NOT_FOUND, "Group not found")
  const NotAMember := Response(FORBIDDEN, "You must be a member of the group to post in it")
  const CreateFailed := Response(SERVER_ERROR, "Failed to create post")

  /** The body checks of `add_post`, in order: both keys present, then the sanitised title
      (1 to 200 characters), then the sanitised content (1 to 50000). */
  function PostInputError(env: Env, req: PostRequest): (err: Option<Response>)
    ensures err.None? <==>
              && req.title.Some? && req.content.Some?
              && 1 <= |env.sanitizePlainText(req.title.value)| <= 200
              && 1 <= |env.sanitizeHtml(req.content.value)| <= 50000
    ensures err.Some? ==> err.value.status == BAD_REQUEST
    ensures (req.title.None? || req.content.None?) ==> err == Some(FieldsRequired)
  {
    if req.title.None? || req.content.None? then Some(FieldsRequired)
    else
      var title := Validation.ValidateStringLength(env.sanitizePlainText(req.title.value), 1, 200, "Title");
      var content := Validation.ValidateStringLength(env.sanitizeHtml(req.content.value), 1, 50000, "Content");
      if !title.valid then Some(Response(BAD_REQUEST, title.message))
      else if !content.valid then Some(Response(BAD_REQUEST, content.message))
      else None
  }

  /** Python truthiness of `group_id`: 0 is falsy. */
  predicate GroupGiven(groupId: Option<nat>) {
    groupId.Some? && groupId.value != 0
  }

  /** Only a member may post in a group. */
  predicate MayPostIn(groups: map<GroupId, Group>, caller: UserId, g: GroupId) {
    g in groups && caller in groups[g].members
  }

  /** The row `add_post` inserts once its checks pass. */
  function NewPost(env: Env, req: PostRequest, caller: UserId, now: nat): (p: Post)
    requires req.title.Some? && req.content.Some?
    ensures p.userId == caller && p.groupId == req.groupId && p.createdAt == now
  {
    Post(
      env.sanitizePlainText(req.title.value),
      env.sanitizeHtml(req.content.value),
      if req.tags.Some? && req.tags.value != [] then
        seq(|req.tags.value|, i requires 0 <= i < |req.tags.value| => env.sanitizePlainText(req.tags.value[i]))
      else [],
      if Truthy(req.course) then Some(env.sanitizePlainText(req.course.value)) else None,
      if Truthy(req.code) then Some(env.sanitizeCode(req.code.value)) else None,
      caller,
      req.groupId,
      now)
  }

  const PostCreated := Response(CREATED, "")

  /** What `add_post` by `caller` at time `now` answers on store `s`, and the store `s'` it
      leaves. A falsy `group_id` of 0 is stored as given, and the posts-to-groups foreign key
      refuses it; on success exactly one post is added, at the end of the query order. */
  ghost predicate AddPostOutcome(s: State, s': State, env: Env, caller: UserId, req: PostRequest,
                                 now: nat, r: Response) {
    if PostInputError(env, req).Some? then r == PostInputError(env, req).value && s' == s
    else if GroupGiven(req.groupId) && req.groupId.value !in s.groups then r == GroupNotFound && s' == s
    else if GroupGiven(req.groupId) && !MayPostIn(s.groups, caller, req.groupId.value) then r == NotAMember && s' == s
    else if req.groupId == Some(0) then r == CreateFailed && s' == s
    else
      && r == PostCreated
      && s' == s.(posts := s.posts[s.nextPostId := NewPost(env, req, caller, now)],
                  postOrder := s.postOrder + [s.nextPostId],
                  nextPostId := s.nextPostId + 1)
  }

  /** `add_post` by the authenticated `caller`. */
  method AddPost(db: Store, env: Env, caller: UserId, req: PostRequest, now: nat)
    returns (r: Response, created: Option<PostId>)
    requires db.Valid()
    modifies db
    ensures db.Valid()
    ensures AddPostOutcome(old(db.Snapshot()), db.Snapshot(), env, caller, req, now, r)
    ensures created == if r == PostCreated then Some(old(db.nextPostId)) else None
  {
    var err := PostInputError(env, req);
    if err.Some? {
      return err.value, None;
    }
    if GroupGiven(req.groupId) {
      var g := req.groupId.value;
      if g !in db.groups {
        return GroupNotFound, None;
      }
      var isMember := caller in db.groups[g].members;
      if !isMember {
        return NotAMember, None;
      }
    } else if req.groupId.Some? {
      // the row references group 0, which no group has
      assert 0 !in db.groups;
      return CreateFailed, None;
    }
    var id := db.nextPostId;
    assert id !in db.postOrder;
    assert forall i :: 0 <= i < |db.postOrder| ==> db.postOrder[i] != id;
    db.posts := db.posts[id := NewPost(env, req, caller, now)];
    db.postOrder := db.postOrder + [id];
    db.nextPostId := db.nextPostId + 1;
    r, created := PostCreated, Some(id);
  }

  // ---------------------------------------------------------------------------------------------
  // Deletion

  const NotOwner := Response(FORBIDDEN, "Unauthorized to delete this post")
  const PostDeleted := Response(OK, "Post deleted")

  /** Only the author may delete a post. */
  predicate MayDelete(p: Post, caller: UserId) {
    p.userId == caller
  }

  /** What `delete_post` answers and leaves: `get_or_404` runs outside any `try`, so a missing
      post is a 404, before the owner check; the author removes exactly that post. */
  ghost predicate DeletePostOutcome(s: State, s': State, caller: UserId, id: PostId, r: Response) {
    if id !in s.posts then r == NotFound && s' == s
    else if !MayDelete(s.posts[id], caller) then r == NotOwner && s' == s
    else r == PostDeleted && s' == s.(posts := s.posts - {id}, postOrder := RemoveId(s.postOrder, id))
  }

  /** `delete_post`. */
  method DeletePost(db: Store, caller: UserId, id: PostId) returns (r: Response)
    requires db.Valid()
    modifies db
    ensures db.Valid()
    ensures DeletePostOutcome(old(db.Snapshot()), db.Snapshot(), caller, id, r)
  {
    if id !in db.posts {
      return NotFound;
    }
    if db.posts[id].userId != caller {
      return NotOwner;
    }
    db.posts := db.posts - {id};
    db.postOrder := RemoveId(db.postOrder, id);
    r := PostDeleted;
  }
}
