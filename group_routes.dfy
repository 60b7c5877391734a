/** `routes/group_routes.py`: groups, their member sets and their posts. Every check reads the
    live group row. Each route looks its rows up with `get_or_404` inside its own
    `try: ... except Exception`, which catches the 404 abort: a missing row is answered with the
    route's own 500, before any permission check (403), and a permission check comes before any
    input check (400). The `...Or404` methods are the answers `get_or_404` is meant to give. */
module GroupRoutes {
  import opened Types
  import opened Store
  import Validation

  // ---------------------------------------------------------------------------------------------
  // Authorisation rules

  predicate IsCreator(g: Group, u: UserId) { g.creatorId == u }
  predicate IsMember(g: Group, u: UserId) { u in g.members }

  /** Adding oneself is open to anyone; adding someone else is for the creator only. */
  predicate MayAdd(g: Group, caller: UserId, userId: Option<UserId>) {
    userId.None? || IsCreator(g, caller)
  }

  /** The user an add-member request is about: the one named in the body, else the caller. */
  function AddTarget(caller: UserId, userId: Option<UserId>): UserId {
    if userId.Some? then userId.value else caller
  }

  /** A member may remove themselves; the creator may remove anyone. */
  predicate MayRemove(g: Group, caller: UserId, target: UserId) {
    IsCreator(g, caller) || caller == target
  }

  /** The creator may not leave while the group has other members. */
  predicate CreatorMustStay(g: Group, target: UserId) {
    target == g.creatorId && |g.members| > 1
  }

  // ---------------------------------------------------------------------------------------------
  // Input checks

  /** The JSON body of group creation and update; an absent key is None, and a JSON null
      description is read as the empty string (both are falsy). */
  datatype GroupRequest = GroupRequest(name: Option<string>, description: Option<string>)

  const NameRequired := Response(BAD_REQUEST, "Group name is required")

  /** A description is kept, sanitised, only when the body gives a truthy one. */
  function DescriptionOf(env: Env, d: Option<string>): (r: Option<string>)
    ensures r.Some? <==> Truthy(d)
  {
    if Truthy(d) then Some(env.sanitizeHtml(d.value)) else None
  }

  /** A kept description is validated only when it is still non-empty after sanitising. */
  predicate DescriptionFits(d: Option<string>) {
    !Truthy(d) || |d.value| <= 1000
  }

  function NameError(name: string): (err: Option<Response>)
    ensures err.None? <==> 1 <= |name| <= 100
    ensures err.Some? ==> err.value.status == BAD_REQUEST
  {
    var v := Validation.ValidateStringLength(name, 1, 100, "Group name");
    if v.valid then None else Some(Response(BAD_REQUEST, v.message))
  }

  function DescriptionError(d: Option<string>): (err: Option<Response>)
    ensures err.None? <==> DescriptionFits(d)
    ensures err.Some? ==> err.value.status == BAD_REQUEST
  {
    if !Truthy(d) then None
    else
      var v := Validation.ValidateStringLength(d.value, 0, 1000, "Description");
      if v.valid then None else Some(Response(BAD_REQUEST, v.message))
  }

  /** `create_group`'s checks: a truthy name, 1 to 100 characters once sanitised, and a
      description of at most 1000 characters when one is kept. */
  function CreateInputError(env: Env, req: GroupRequest): (err: Option<Response>)
    ensures err.None? <==>
              && Truthy(req.name)
              && 1 <= |env.sanitizePlainText(req.name.value)| <= 100
              && DescriptionFits(DescriptionOf(env, req.description))
    ensures !Truthy(req.name) ==> err == Some(NameRequired)
    ensures err.Some? ==> err.value.status == BAD_REQUEST
  {
    if !Truthy(req.name) then Some(NameRequired)
    else if NameError(env.sanitizePlainText(req.name.value)).Some? then
      NameError(env.sanitizePlainText(req.name.value))
    else DescriptionError(DescriptionOf(env, req.description))
  }

  /** `update_group`'s checks, only on the keys present. */
  function UpdateInputError(env: Env, req: GroupRequest): (err: Option<Response>)
    ensures err.None? <==>
              && (req.name.Some? ==> 1 <= |env.sanitizePlainText(req.name.value)| <= 100)
              && (req.description.Some? ==> DescriptionFits(DescriptionOf(env, req.description)))
    ensures err.Some? ==> err.value.status == BAD_REQUEST
  {
    if req.name.Some? && NameError(env.sanitizePlainText(req.name.value)).Some? then
      NameError(env.sanitizePlainText(req.name.value))
    else if req.description.Some? then DescriptionError(DescriptionOf(env, req.description))
    else None
  }

  /** The group after an update: name and description follow the keys present in the body;
      the creator and the members are never touched. */
  function Updated(env: Env, g: Group, req: GroupRequest): (g': Group)
    ensures g'.creatorId == g.creatorId && g'.members == g.members
  {
    g.(name := if req.name.Some? then env.sanitizePlainText(req.name.value) else g.name,
       description := if req.description.Some? then DescriptionOf(env, req.description) else g.description)
  }

  lemma UpdateWithoutKeysChangesNothing(env: Env, g: Group)
    ensures Updated(env, g, GroupRequest(None, None)) == g
  {
  }

  // ---------------------------------------------------------------------------------------------
  // Routes

  const GroupCreated := Response(CREATED, "Group created successfully")
  const NotCreatorUpdate := Response(FORBIDDEN, "Only the group creator can update the group")
  const GroupUpdated := Response(OK, "Group updated successfully")
  const UpdateFailed := Response(SERVER_ERROR, "Failed to update group")
  const NotCreatorDelete := Response(FORBIDDEN, "Only the group creator can delete the group")
  const GroupDeleted := Response(OK, "Group deleted successfully")
  const DeleteFailed := Response(SERVER_ERROR, "Failed to delete group")
  const NotCreatorAdd := Response(FORBIDDEN, "Only the group creator can add other members")
  const AlreadyMember := Response(BAD_REQUEST, "User is already a member of this group")
  const MemberAdded := Response(OK, "Member added successfully")
  const AddMemberFailed := Response(SERVER_ERROR, "Failed to add member")
  const MayNotRemove := Response(FORBIDDEN, "You can only remove yourself or you must be the group creator")
  const CreatorCannotLeave := Response(BAD_REQUEST,
    "Group creator cannot leave while other members exist. Transfer ownership or delete the group.")
  const NotAMember := Response(BAD_REQUEST, "User is not a member of this group")
  const MemberRemoved := Response(OK, "Member removed successfully")
  const RemoveMemberFailed := Response(SERVER_ERROR, "Failed to remove member")
  const MustBeMember := Response(FORBIDDEN, "You must be a member of this group to view its posts")
  const GroupPostsListed := Response(OK, "")
  const FetchPostsFailed := Response(SERVER_ERROR, "Failed to fetch group posts")

  /** What `create_group` by `caller` answers on store `s`, and the store `s'` it leaves: the
      caller is the creator and the only member of the new group. */
  ghost predicate CreateGroupOutcome(s: State, s': State, env: Env, caller: UserId, req: GroupRequest, r: Response) {
    if CreateInputError(env, req).Some? then r == CreateInputError(env, req).value && s' == s
    else
      && r == GroupCreated
      && s' == s.(groups := s.groups[s.nextGroupId :=
                    Group(env.sanitizePlainText(req.name.value), DescriptionOf(env, req.description),
                          caller, {caller})],
                  nextGroupId := s.nextGroupId + 1)
  }

  /** `create_group`. */
  method CreateGroup(db: Store, env: Env, caller: UserId, req: GroupRequest)
    returns (r: Response, created: Option<GroupId>)
    requires db.Valid()
    modifies db
    ensures db.Valid()
    ensures CreateGroupOutcome(old(db.Snapshot()), db.Snapshot(), env, caller, req, r)
    ensures created == if r == GroupCreated then Some(old(db.nextGroupId)) else None
    ensures created.Some? ==>
              && created.value !in old(db.groups)
              && IsCreator(db.groups[created.value], caller) && db.groups[created.value].members == {caller}
  {
    var err := CreateInputError(env, req);
    if err.Some? {
      return err.value, None;
    }
    var id := db.nextGroupId;
    db.groups := db.groups[id := Group(env.sanitizePlainText(req.name.value), DescriptionOf(env, req.description),
                                       caller, {caller})];
    db.nextGroupId := db.nextGroupId + 1;
    r, created := GroupCreated, Some(id);
  }

  /** What `update_group` answers and leaves: a 400 after a name was assigned is never
      committed, so every refusal leaves the store as it was. */
  ghost predicate UpdateGroupOutcome(s: State, s': State, env: Env, caller: UserId, id: GroupId,
                                     req: GroupRequest, r: Response) {
    if id !in s.groups then r == UpdateFailed && s' == s
    else if !IsCreator(s.groups[id], caller) then r == NotCreatorUpdate && s' == s
    else if UpdateInputError(env, req).Some? then r == UpdateInputError(env, req).value && s' == s
    else r == GroupUpdated && s' == s.(groups := s.groups[id := Updated(env, s.groups[id], req)])
  }

  /** `update_group`. */
  method UpdateGroup(db: Store, env: Env, caller: UserId, id: GroupId, req: GroupRequest)
    returns (r: Response)
    requires db.Valid()
    modifies db
    ensures db.Valid()
    ensures UpdateGroupOutcome(old(db.Snapshot()), db.Snapshot(), env, caller, id, req, r)
  {
    if id !in db.groups {
      return UpdateFailed;
    }
    var group := db.groups[id];
    if group.creatorId != caller {
      return NotCreatorUpdate;
    }
    if req.name.Some? {
      var name := env.sanitizePlainText(req.name.value);
      var err := NameError(name);
      if err.Some? {
        return err.value;
      }
      group := group.(name := name);
    }
    if req.description.Some? {
      var description := DescriptionOf(env, req.description);
      var err := DescriptionError(description);
      if err.Some? {
        return err.value;
      }
      group := group.(description := description);
    }
    db.groups := db.groups[id := group];
    r := GroupUpdated;
  }

  /** `update_group` answering a missing group with `get_or_404`'s 404. */
  method UpdateGroupOr404(db: Store, env: Env, caller: UserId, id: GroupId, req: GroupRequest)
    returns (r: Response)
    requires db.Valid()
    modifies db
    ensures db.Valid()
    ensures id !in old(db.groups) ==> r == NotFound && unchanged(db)
    ensures id in old(db.groups) ==> UpdateGroupOutcome(old(db.Snapshot()), db.Snapshot(), env, caller, id, req, r)
  {
    if id !in db.groups {
      return NotFound;
    }
    r := UpdateGroup(db, env, caller, id, req);
  }

  /** What `delete_group` answers and leaves: only the creator removes the group. */
  ghost predicate DeleteGroupOutcome(s: State, s': State, caller: UserId, id: GroupId, r: Response) {
    if id !in s.groups then r == DeleteFailed && s' == s
    else if !IsCreator(s.groups[id], caller) then r == NotCreatorDelete && s' == s
    else r == GroupDeleted && s' == s.(groups := s.groups - {id})
  }

  /** `delete_group`. */
  method DeleteGroup(db: Store, caller: UserId, id: GroupId) returns (r: Response)
    requires db.Valid()
    modifies db
    ensures db.Valid()
    ensures DeleteGroupOutcome(old(db.Snapshot()), db.Snapshot(), caller, id, r)
  {
    if id !in db.groups {
      return DeleteFailed;
    }
    if db.groups[id].creatorId != caller {
      return NotCreatorDelete;
    }
    db.groups := db.groups - {id};
    r := GroupDeleted;
  }

  /** `delete_group` answering a missing group with `get_or_404`'s 404. */
  method DeleteGroupOr404(db: Store, caller: UserId, id: GroupId) returns (r: Response)
    requires db.Valid()
    modifies db
    ensures db.Valid()
    ensures id !in old(db.groups) ==> r == NotFound && unchanged(db)
    ensures id in old(db.groups) ==> DeleteGroupOutcome(old(db.Snapshot()), db.Snapshot(), caller, id, r)
  {
    if id !in db.groups {
      return NotFound;
    }
    r := DeleteGroup(db, caller, id);
  }

  /** What `add_group_member` answers and leaves; `userId` is the body's `user_id`, None when the
      body has none. Naming another user is for the creator only, and that user must exist. */
  ghost predicate AddGroupMemberOutcome(s: State, s': State, caller: UserId, id: GroupId,
                                        userId: Option<UserId>, r: Response) {
    if id !in s.groups then r == AddMemberFailed && s' == s
    else if !MayAdd(s.groups[id], caller, userId) then r == NotCreatorAdd && s' == s
    else if userId.Some? && userId.value !in s.users then r == AddMemberFailed && s' == s
    else if IsMember(s.groups[id], AddTarget(caller, userId)) then r == AlreadyMember && s' == s
    else
      var g := s.groups[id];
      r == MemberAdded && s' == s.(groups := s.groups[id := g.(members := g.members + {AddTarget(caller, userId)})])
  }

  /** `add_group_member`. */
  method AddGroupMember(db: Store, caller: UserId, id: GroupId, userId: Option<UserId>)
    returns (r: Response)
    requires db.Valid()
    modifies db
    ensures db.Valid()
    ensures AddGroupMemberOutcome(old(db.Snapshot()), db.Snapshot(), caller, id, userId, r)
  {
    if id !in db.groups {
      return AddMemberFailed;
    }
    var group := db.groups[id];
    var target := caller;
    if userId.Some? {
      if group.creatorId != caller {
        return NotCreatorAdd;
      }
      if userId.value !in db.users {
        return AddMemberFailed;
      }
      target := userId.value;
    }
    if target in group.members {
      return AlreadyMember;
    }
    db.groups := db.groups[id := group.(members := group.members + {target})];
    r := MemberAdded;
  }

  /** The creator names a user who does not exist. */
  predicate NamedUserMissing(g: Group, users: map<UserId, User>, caller: UserId, userId: Option<UserId>) {
    MayAdd(g, caller, userId) && userId.Some? && userId.value !in users
  }

  /** `add_group_member` answering a missing group or a missing named user with 404. */
  method AddGroupMemberOr404(db: Store, caller: UserId, id: GroupId, userId: Option<UserId>)
    returns (r: Response)
    requires db.Valid()
    modifies db
    ensures db.Valid()
    ensures id !in old(db.groups) ==> r == NotFound && unchanged(db)
    ensures id in old(db.groups) && NamedUserMissing(old(db.groups[id]), old(db.users), caller, userId) ==>
              r == NotFound && unchanged(db)
    ensures id in old(db.groups) && !NamedUserMissing(old(db.groups[id]), old(db.users), caller, userId) ==>
              AddGroupMemberOutcome(old(db.Snapshot()), db.Snapshot(), caller, id, userId, r)
  {
    if id !in db.groups {
      return NotFound;
    }
    if NamedUserMissing(db.groups[id], db.users, caller, userId) {
      return NotFound;
    }
    r := AddGroupMember(db, caller, id, userId);
  }

  /** What `remove_group_member` answers and leaves: the checks run in the order group, user,
      permission, creator leaving, membership; success removes exactly the target. */
  ghost predicate RemoveGroupMemberOutcome(s: State, s': State, caller: UserId, id: GroupId,
                                           target: UserId, r: Response) {
    if id !in s.groups || target !in s.users then r == RemoveMemberFailed && s' == s
    else
      var g := s.groups[id];
      if !MayRemove(g, caller, target) then r == MayNotRemove && s' == s
      else if CreatorMustStay(g, target) then r == CreatorCannotLeave && s' == s
      else if !IsMember(g, target) then r == NotAMember && s' == s
      else r == MemberRemoved && s' == s.(groups := s.groups[id := g.(members := g.members - {target})])
  }

  /** `remove_group_member`; a creator who leaves leaves an empty group. */
  method RemoveGroupMember(db: Store, caller: UserId, id: GroupId, target: UserId)
    returns (r: Response)
    requires db.Valid()
    modifies db
    ensures db.Valid()
    ensures RemoveGroupMemberOutcome(old(db.Snapshot()), db.Snapshot(), caller, id, target, r)
    ensures r == MemberRemoved && target == old(db.groups[id]).creatorId ==> db.groups[id].members == {}
  {
    if id !in db.groups {
      return RemoveMemberFailed;
    }
    if target !in db.users {
      return RemoveMemberFailed;
    }
    var group := db.groups[id];
    if caller != group.creatorId && caller != target {
      return MayNotRemove;
    }
    if target == group.creatorId && |group.members| > 1 {
      return CreatorCannotLeave;
    }
    if target !in group.members {
      return NotAMember;
    }
    db.groups := db.groups[id := group.(members := group.members - {target})];
    r := MemberRemoved;
    if target == group.creatorId {
      OnlyMember(group.members, target);
    }
  }

  /** `remove_group_member` answering a missing group or user with 404. */
  method RemoveGroupMemberOr404(db: Store, caller: UserId, id: GroupId, target: UserId)
    returns (r: Response)
    requires db.Valid()
    modifies db
    ensures db.Valid()
    ensures id !in old(db.groups) || target !in old(db.users) ==> r == NotFound && unchanged(db)
    ensures id in old(db.groups) && target in old(db.users) ==>
              RemoveGroupMemberOutcome(old(db.Snapshot()), db.Snapshot(), caller, id, target, r)
  {
    if id !in db.groups || target !in db.users {
      return NotFound;
    }
    r := RemoveGroupMember(db, caller, id, target);
  }

  // ---------------------------------------------------------------------------------------------
  // Group posts, newest first

  /** The posts of `order` that belong to group `g`, in query order. */
  function PostsInGroup(order: seq<PostId>, posts: map<PostId, Post>, g: GroupId): (r: seq<PostId>)
    requires forall id :: id in order ==> id in posts
    ensures forall id :: id in r <==> id in order && posts[id].groupId == Some(g)
    ensures Distinct(order) ==> Distinct(r)
  {
    if order == [] then []
    else
      var n := |order| - 1;
      var init := order[..n];
      assert forall x :: x in order <==> x in init || x == order[n];
      var rest := PostsInGroup(init, posts, g);
      assert Distinct(order) ==> Distinct(init) && order[n] !in init by {
        if Distinct(order) {
          forall i | 0 <= i < n ensures init[i] != order[n] { assert init[i] == order[i]; }
        }
      }
      if posts[order[n]].groupId == Some(g) then rest + [order[n]] else rest
  }

  predicate NewestFirst(ids: seq<PostId>, posts: map<PostId, Post>)
    requires forall id :: id in ids ==> id in posts
  {
    forall i, j :: 0 <= i < j < |ids| ==> posts[ids[i]].createdAt >= posts[ids[j]].createdAt
  }

  /** A post at least as new as every post of a newest-first sequence can go in front of it. */
  lemma PrependNewest(h: PostId, rest: seq<PostId>, posts: map<PostId, Post>)
    requires h in posts && forall x :: x in rest ==> x in posts
    requires NewestFirst(rest, posts)
    requires forall x :: x in rest ==> posts[x].createdAt <= posts[h].createdAt
    ensures NewestFirst([h] + rest, posts)
  {
    var s := [h] + rest;
    forall i, j | 0 <= i < j < |s| ensures posts[s[i]].createdAt >= posts[s[j]].createdAt {
      assert s[j] == rest[j - 1];
      if i > 0 {
        assert s[i] == rest[i - 1];
      }
    }
  }

  /** The head of a newest-first sequence is at least as new as all of it. */
  lemma HeadIsNewest(sorted: seq<PostId>, posts: map<PostId, Post>)
    requires |sorted| > 0 && forall x :: x in sorted ==> x in posts
    requires NewestFirst(sorted, posts)
    ensures forall x :: x in sorted ==> posts[x].createdAt <= posts[sorted[0]].createdAt
  {
    forall x | x in sorted ensures posts[x].createdAt <= posts[sorted[0]].createdAt {
      var k :| 0 <= k < |sorted| && sorted[k] == x;
      if k > 0 {
        assert posts[sorted[0]].createdAt >= posts[sorted[k]].createdAt;
      }
    }
  }

  lemma TailNewestFirst(sorted: seq<PostId>, posts: map<PostId, Post>)
    requires |sorted| > 0 && forall x :: x in sorted ==> x in posts
    requires NewestFirst(sorted, posts)
    ensures NewestFirst(sorted[1..], posts)
  {
    var tail := sorted[1..];
    forall i, j | 0 <= i < j < |tail| ensures posts[tail[i]].createdAt >= posts[tail[j]].createdAt {
      assert tail[i] == sorted[i + 1] && tail[j] == sorted[j + 1];
    }
  }

  /** Everything in `rest`, a permutation of the tail plus `id`, is no newer than the head. */
  lemma NoNewerThanHead(id: PostId, sorted: seq<PostId>, rest: seq<PostId>, posts: map<PostId, Post>)
    requires |sorted| > 0 && id in posts && forall x :: x in sorted ==> x in posts
    requires NewestFirst(sorted, posts)
    requires posts[id].createdAt < posts[sorted[0]].createdAt
    requires multiset(rest) == multiset(sorted[1..]) + multiset{id}
    ensures forall x :: x in rest ==> x in posts && posts[x].createdAt <= posts[sorted[0]].createdAt
  {
    HeadIsNewest(sorted, posts);
    forall x | x in rest ensures x in posts && posts[x].createdAt <= posts[sorted[0]].createdAt {
      assert x in multiset(rest);
      if x != id {
        assert x in multiset(sorted[1..]);
        assert x in sorted[1..];
        var k :| 0 <= k < |sorted[1..]| && sorted[1..][k] == x;
        assert sorted[1..][k] == sorted[k + 1];
      }
    }
  }

  /** Inserts `id` into a newest-first sequence, before the first post not newer than it. */
  function InsertNewestFirst(id: PostId, sorted: seq<PostId>, posts: map<PostId, Post>): (r: seq<PostId>)
    requires id in posts && forall x :: x in sorted ==> x in posts
    requires NewestFirst(sorted, posts)
    ensures multiset(r) == multiset(sorted) + multiset{id}
    ensures forall x :: x in r ==> x in posts
    ensures NewestFirst(r, posts)
  {
    if sorted == [] || posts[id].createdAt >= posts[sorted[0]].createdAt then
      if sorted != [] then HeadIsNewest(sorted, posts); PrependNewest(id, sorted, posts); [id] + sorted
      else [id]
    else
      TailNewestFirst(sorted, posts);
      var rest := InsertNewestFirst(id, sorted[1..], posts);
      NoNewerThanHead(id, sorted, rest, posts);
      PrependNewest(sorted[0], rest, posts);
      assert sorted == [sorted[0]] + sorted[1..];
      [sorted[0]] + rest
  }

  /** `order_by(Post.created_at.desc())`. */
  function SortNewestFirst(ids: seq<PostId>, posts: map<PostId, Post>): (r: seq<PostId>)
    requires forall x :: x in ids ==> x in posts
    ensures multiset(r) == multiset(ids)
    ensures forall x :: x in r ==> x in posts
    ensures NewestFirst(r, posts)
  {
    if ids == [] then []
    else
      assert ids == [ids[0]] + ids[1..];
      InsertNewestFirst(ids[0], SortNewestFirst(ids[1..], posts), posts)
  }

  /** A set of at most one element that holds `x` is `{x}`. */
  lemma OnlyMember(s: set<UserId>, x: UserId)
    requires |s| <= 1 && x in s
    ensures s == {x}
  {
    assert |s - {x}| == |s| - 1;
  }

  /** A permutation of a duplicate-free sequence is duplicate-free. */
  lemma DistinctByMultiset(a: seq<PostId>, b: seq<PostId>)
    requires Distinct(a) && multiset(a) == multiset(b)
    ensures Distinct(b)
  {
    forall x | x in multiset(a) ensures multiset(a)[x] == 1 {
      DistinctCountsOne(a, x);
    }
    forall i, j | 0 <= i < j < |b| ensures b[i] != b[j] {
      if b[i] == b[j] {
        var x := b[i];
        assert multiset(b)[x] >= 2 by { CountsTwo(b, i, j); }
      }
    }
  }

  lemma {:induction false} DistinctCountsOne(a: seq<PostId>, x: PostId)
    requires Distinct(a) && x in a
    ensures multiset(a)[x] == 1
  {
    assert a == [a[0]] + a[1..];
    assert Distinct(a[1..]) by {
      forall i, j | 0 <= i < j < |a[1..]| ensures a[1..][i] != a[1..][j] {
        assert a[1..][i] == a[i + 1] && a[1..][j] == a[j + 1];
      }
    }
    if a[0] == x {
      assert x !in a[1..] by {
        forall i | 0 <= i < |a[1..]| ensures a[1..][i] != x { assert a[1..][i] == a[i + 1]; }
      }
    } else {
      DistinctCountsOne(a[1..], x);
    }
  }

  lemma CountsTwo(b: seq<PostId>, i: nat, j: nat)
    requires i < j < |b| && b[i] == b[j]
    ensures multiset(b)[b[i]] >= 2
  {
    assert b == b[..i] + [b[i]] + b[i + 1..j] + [b[j]] + b[j + 1..];
  }

  /** What `get_group_posts` answers on store `s`; it only reads. */
  ghost predicate GetGroupPostsOutcome(s: State, caller: UserId, id: GroupId, r: Response) {
    if id !in s.groups then r == FetchPostsFailed
    else if !IsMember(s.groups[id], caller) then r == MustBeMember
    else r == GroupPostsListed
  }

  /** `get_group_posts`: members get exactly the group's posts, newest first. */
  method GetGroupPosts(db: Store, caller: UserId, id: GroupId) returns (r: Response, ids: seq<PostId>)
    requires db.Valid()
    ensures GetGroupPostsOutcome(db.Snapshot(), caller, id, r)
    ensures r != GroupPostsListed ==> ids == []
    ensures r == GroupPostsListed ==>
              && (forall x :: x in ids <==> x in db.posts && db.posts[x].groupId == Some(id))
              && Distinct(ids)
              && NewestFirst(ids, db.posts)
  {
    if id !in db.groups {
      return FetchPostsFailed, [];
    }
    var isMember := caller in db.groups[id].members;
    if !isMember {
      return MustBeMember, [];
    }
    var inGroup := PostsInGroup(db.postOrder, db.posts, id);
    ids := SortNewestFirst(inGroup, db.posts);
    assert forall x :: x in ids <==> x in inGroup by {
      forall x ensures x in ids <==> x in inGroup {
        assert x in ids <==> x in multiset(ids);
        assert x in inGroup <==> x in multiset(inGroup);
      }
    }
    DistinctByMultiset(inGroup, ids);
    r := GroupPostsListed;
  }

  /** `get_group_posts` answering a missing group with `get_or_404`'s 404. */
  method GetGroupPostsOr404(db: Store, caller: UserId, id: GroupId) returns (r: Response, ids: seq<PostId>)
    requires db.Valid()
    ensures id !in db.groups ==> r == NotFound && ids == []
    ensures id in db.groups ==> GetGroupPostsOutcome(db.Snapshot(), caller, id, r)
    ensures id in db.groups && r == GroupPostsListed ==>
              (forall x :: x in ids <==> x in db.posts && db.posts[x].groupId == Some(id))
  {
    if id !in db.groups {
      return NotFound, [];
    }
    r, ids := GetGroupPosts(db, caller, id);
  }
}
