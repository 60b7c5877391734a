/** Client sequences over the routes: each method drives the store through several requests and
    states what the application answers along the way. */
module Scenarios {
  import opened Types
  import opened Store
  import Validation
  import PostRoutes
  import GroupRoutes
  import CourseRoutes
  import App

  /** A non-member is refused the group's posts, joins, and is then served them. */
  method JoinThenReadGroupPosts(db: Store, b: UserId, g: GroupId)
    returns (before: Response, joined: Response, after: Response, ids: seq<PostId>)
    requires db.Valid() && g in db.groups && b !in db.groups[g].members
    modifies db
    ensures before == GroupRoutes.MustBeMember
    ensures joined == GroupRoutes.MemberAdded
    ensures after == GroupRoutes.GroupPostsListed
    ensures forall x :: x in ids <==> x in db.posts && db.posts[x].groupId == Some(g)
    ensures db.posts == old(db.posts) && g in db.groups && db.groups[g].members == old(db.groups[g].members) + {b}
  {
    var none;
    before, none := GroupRoutes.GetGroupPosts(db, b, g);
    joined := GroupRoutes.AddGroupMember(db, b, g, None);
    after, ids := GroupRoutes.GetGroupPosts(db, b, g);
  }

  /** Adding oneself twice: the second request is refused and adds nothing. */
  method JoinTwice(db: Store, u: UserId, g: GroupId) returns (first: Response, second: Response)
    requires db.Valid() && g in db.groups && u !in db.groups[g].members
    modifies db
    ensures first == GroupRoutes.MemberAdded && second == GroupRoutes.AlreadyMember
    ensures g in db.groups && db.groups[g].members == old(db.groups[g].members) + {u}
  {
    first := GroupRoutes.AddGroupMember(db, u, g, None);
    second := GroupRoutes.AddGroupMember(db, u, g, None);
  }

  /** The creator cannot leave while a member remains; after removing that member the creator
      may leave, and the group survives with no members and the same creator. */
  method CreatorLeavesLast(db: Store, a: UserId, b: UserId, g: GroupId)
    returns (refused: Response, removedOther: Response, removedSelf: Response)
    requires db.Valid() && a in db.users && b in db.users && a != b
    requires g in db.groups && db.groups[g].creatorId == a && db.groups[g].members == {a, b}
    modifies db
    ensures refused == GroupRoutes.CreatorCannotLeave
    ensures removedOther == GroupRoutes.MemberRemoved && removedSelf == GroupRoutes.MemberRemoved
    ensures g in db.groups && db.groups[g].members == {} && db.groups[g].creatorId == a
  {
    assert |{a, b}| == 2;
    refused := GroupRoutes.RemoveGroupMember(db, a, g, a);
    removedOther := GroupRoutes.RemoveGroupMember(db, a, g, b);
    assert db.groups[g].members == {a};
    removedSelf := GroupRoutes.RemoveGroupMember(db, a, g, a);
  }

  /** A request about a group that does not exist: every group route, as written, answers its
      own 500, where `get_or_404` was meant to answer 404; the store is left as it was. */
  method MissingGroupIsServerError(db: Store, env: Env, caller: UserId, g: GroupId)
    returns (updated: Response, deleted: Response, added: Response, removed: Response, listed: Response,
             intended: Response)
    requires db.Valid() && g !in db.groups
    modifies db
    ensures updated == GroupRoutes.UpdateFailed && updated.status == SERVER_ERROR
    ensures deleted == GroupRoutes.DeleteFailed && added == GroupRoutes.AddMemberFailed
    ensures removed == GroupRoutes.RemoveMemberFailed && listed == GroupRoutes.FetchPostsFailed
    ensures intended == NotFound
    ensures db.Snapshot() == old(db.Snapshot())
  {
    updated := GroupRoutes.UpdateGroup(db, env, caller, g, GroupRoutes.GroupRequest(None, None));
    deleted := GroupRoutes.DeleteGroup(db, caller, g);
    added := GroupRoutes.AddGroupMember(db, caller, g, None);
    removed := GroupRoutes.RemoveGroupMember(db, caller, g, caller);
    var ids;
    listed, ids := GroupRoutes.GetGroupPosts(db, caller, g);
    intended := GroupRoutes.UpdateGroupOr404(db, env, caller, g, GroupRoutes.GroupRequest(None, None));
  }

  /** B cannot delete A's post; A can, and afterwards the post is gone. */
  method OnlyAuthorDeletes(db: Store, a: UserId, b: UserId, id: PostId)
    returns (byOther: Response, byAuthor: Response, again: Response)
    requires db.Valid() && id in db.posts && db.posts[id].userId == a && b != a
    modifies db
    ensures byOther == PostRoutes.NotOwner
    ensures byAuthor == PostRoutes.PostDeleted
    ensures again == NotFound
    ensures db.posts == old(db.posts) - {id}
  {
    byOther := PostRoutes.DeletePost(db, b, id);
    byAuthor := PostRoutes.DeletePost(db, a, id);
    again := PostRoutes.DeletePost(db, a, id);
  }

  /** Deleting a post right after creating it gives back the posts and their order. */
  method AddThenDelete(db: Store, env: Env, caller: UserId, req: PostRoutes.PostRequest, now: nat)
    returns (added: Response, deleted: Response)
    requires db.Valid() && PostRoutes.PostInputError(env, req).None? && req.groupId.None?
    modifies db
    ensures added.status == CREATED && deleted == PostRoutes.PostDeleted
    ensures db.posts == old(db.posts) && db.postOrder == old(db.postOrder)
  {
    var created;
    added, created := PostRoutes.AddPost(db, env, caller, req, now);
    assert created.value !in old(db.posts);
    RemoveAppended(old(db.postOrder), created.value);
    deleted := PostRoutes.DeletePost(db, caller, created.value);
  }

  /** Two course codes that differ only in case name one course: the second request finds the
      course the first one created or found. */
  method SameCourseInAnyCase(db: Store, env: Env, first: CourseRoutes.CourseRequest, second: CourseRoutes.CourseRequest)
    returns (a: Option<CourseId>, b: Option<CourseId>)
    requires db.Valid() && CourseRoutes.UniqueCodes(db.courses)
    requires CourseRoutes.CourseInputError(env, first).None? && CourseRoutes.CourseInputError(env, second).None?
    requires Validation.Upper(env.sanitizePlainText(first.code.value)) ==
             Validation.Upper(env.sanitizePlainText(second.code.value))
    modifies db
    ensures a.Some? && a == b
    ensures |db.courses| <= |old(db.courses)| + 1
  {
    var r;
    r, a := CourseRoutes.AddCourse(db, env, first);
    assert CourseRoutes.HasCode(db.courses, Validation.Upper(env.sanitizePlainText(second.code.value)));
    r, b := CourseRoutes.AddCourse(db, env, second);
  }

  /** The monolith's `add_course`, asked twice for the same lower-case code, creates two courses
      with equal codes. */
  method MonolithDuplicatesCourse(db: Store, env: Env) returns (a: Option<CourseId>, b: Option<CourseId>)
    requires db.Valid() && db.courses == map[]
    requires env.sanitizePlainText("cs101") == "cs101"
    modifies db
    ensures a.Some? && b.Some? && a != b
    ensures !CourseRoutes.UniqueCodes(db.courses)
  {
    var req := CourseRoutes.CourseRequest(Some("cs101"), None);
    assert Validation.ValidateCourseCode("cs101").valid by {
      assert forall i :: 0 <= i < |"cs101"| ==> Validation.IsAlnum("cs101"[i]);
    }
    var r;
    r, a := App.AddCourse(db, env, req);
    assert Validation.HasLower(db.courses[a.value].code) by {
      assert Validation.IsLower(db.courses[a.value].code[0]);
    }
    App.LowerCaseCodeIsNotFound(db.courses, "cs101");
    r, b := App.AddCourse(db, env, req);
    assert db.courses[a.value].code == db.courses[b.value].code;
  }

  /** One public post and one post of group 1, whose only member is user 7: an anonymous caller
      is listed the public post alone, the member both. */
  lemma PublicAndGroupPostListing(public: Post, private: Post, g: Group)
    requires public.groupId.None? && private.groupId == Some(1) && g.members == {7}
    ensures PostRoutes.Listing([1, 2], map[1 := public, 2 := private], map[1 := g], None) == [1]
    ensures PostRoutes.Listing([1, 2], map[1 := public, 2 := private], map[1 := g], Some(7)) == [1, 2]
  {
    var posts := map[1 := public, 2 := private];
    var groups := map[1 := g];
    assert [1, 2][..1] == [1];
    assert [1][..0] == [];
    assert PostRoutes.Listing([1], posts, groups, None) == [1];
    assert PostRoutes.Listing([1], posts, groups, Some(7)) == [1];
    assert !PostRoutes.VisibleTo(private, groups, None);
    assert PostRoutes.VisibleTo(private, groups, Some(7));
  }
}
