/** The protected routes as the application serves them: every one is wrapped in
    `login_required`, which decides before the route runs. */
module Api {
  import opened Types
  import opened Store
  import Decorators
  import PostRoutes
  import GroupRoutes
  import CourseRoutes
  import CommentRoutes
  import AuthRoutes

  /** A request to one of the routes that carry `@login_required`. */
  datatype Request =
    | AddPost(post: PostRoutes.PostRequest)
    | DeletePost(postId: PostId)
    | CreateGroup(group: GroupRoutes.GroupRequest)
    | UpdateGroup(groupId: GroupId, changes: GroupRoutes.GroupRequest)
    | DeleteGroup(groupId: GroupId)
    | AddGroupMember(groupId: GroupId, userId: Option<UserId>)
    | RemoveGroupMember(groupId: GroupId, target: UserId)
    | GetGroupPosts(groupId: GroupId)
    | AddCourse(course: CourseRoutes.CourseRequest)
    | DeleteCourse(courseId: CourseId)
    | AddComment(comment: CommentRoutes.CommentRequest)
    | UpdateProfile(email: Option<string>)
    | ChangePassword(current: Option<string>, replacement: Option<string>)
    | Logout

  /** What the route `req` asks for answers and leaves when `caller` is its current user. */
  ghost predicate Served(s: State, s': State, env: Env, caller: UserId, req: Request, now: nat, r: Response)
    requires caller in s.users
  {
    match req
    case AddPost(post) => PostRoutes.AddPostOutcome(s, s', env, caller, post, now, r)
    case DeletePost(id) => PostRoutes.DeletePostOutcome(s, s', caller, id, r)
    case CreateGroup(group) => GroupRoutes.CreateGroupOutcome(s, s', env, caller, group, r)
    case UpdateGroup(id, changes) => GroupRoutes.UpdateGroupOutcome(s, s', env, caller, id, changes, r)
    case DeleteGroup(id) => GroupRoutes.DeleteGroupOutcome(s, s', caller, id, r)
    case AddGroupMember(id, userId) => GroupRoutes.AddGroupMemberOutcome(s, s', caller, id, userId, r)
    case RemoveGroupMember(id, target) => GroupRoutes.RemoveGroupMemberOutcome(s, s', caller, id, target, r)
    case GetGroupPosts(id) => s' == s && GroupRoutes.GetGroupPostsOutcome(s, caller, id, r)
    case AddCourse(course) => CourseRoutes.AddCourseOutcome(s, s', env, course, r)
    case DeleteCourse(id) => CourseRoutes.DeleteCourseOutcome(s, s', id, r)
    case AddComment(comment) => CommentRoutes.AddCommentOutcome(s, s', env, caller, comment, now, r)
    case UpdateProfile(email) => AuthRoutes.UpdateProfileOutcome(s, s', env, caller, email, r)
    case ChangePassword(current, replacement) =>
      AuthRoutes.ChangePasswordOutcome(s, s', env, caller, current, replacement, r)
    case Logout => s' == s && r == AuthRoutes.LoggedOut
  }

  /** Serves `req` with the Authorization header `header` at time `now`. A rejected token is
      answered by the gate alone: neither the store nor the request context changes. An accepted
      one runs the route with the verified user as caller, and its answer is the route's. */
  method Handle(db: Store, env: Env, ctx: Decorators.RequestContext, header: Option<string>,
                req: Request, now: nat) returns (r: Response)
    requires db.Valid()
    requires forall t :: env.verifyToken(t).Some? ==> env.verifyToken(t).value in db.users
    modifies db, ctx
    ensures db.Valid()
    ensures Decorators.Authenticate(header, env.verifyToken).Rejected? ==>
              && r == Decorators.Authenticate(header, env.verifyToken).response
              && unchanged(db) && ctx.currentUser == old(ctx.currentUser)
    ensures Decorators.Authenticate(header, env.verifyToken).Authenticated? ==>
              var user := Decorators.Authenticate(header, env.verifyToken).user;
              && ctx.currentUser == Some(user)
              && user in old(db.users)
              && Served(old(db.Snapshot()), db.Snapshot(), env, user, req, now, r)
  {
    var rejection := ctx.LoginRequired(header, env.verifyToken);
    if rejection.Some? {
      return rejection.value;
    }
    var caller := ctx.currentUser.value;
    match req {
      case AddPost(post) =>
        var created;
        r, created := PostRoutes.AddPost(db, env, caller, post, now);
      case DeletePost(id) =>
        r := PostRoutes.DeletePost(db, caller, id);
      case CreateGroup(group) =>
        var created;
        r, created := GroupRoutes.CreateGroup(db, env, caller, group);
      case UpdateGroup(id, changes) =>
        r := GroupRoutes.UpdateGroup(db, env, caller, id, changes);
      case DeleteGroup(id) =>
        r := GroupRoutes.DeleteGroup(db, caller, id);
      case AddGroupMember(id, userId) =>
        r := GroupRoutes.AddGroupMember(db, caller, id, userId);
      case RemoveGroupMember(id, target) =>
        r := GroupRoutes.RemoveGroupMember(db, caller, id, target);
      case GetGroupPosts(id) =>
        var ids;
        r, ids := GroupRoutes.GetGroupPosts(db, caller, id);
      case AddCourse(course) =>
        var id;
        r, id := CourseRoutes.AddCourse(db, env, course);
      case DeleteCourse(id) =>
        r := CourseRoutes.DeleteCourse(db, id);
      case AddComment(comment) =>
        var created;
        r, created := CommentRoutes.AddComment(db, env, caller, comment, now);
      case UpdateProfile(email) =>
        r := AuthRoutes.UpdateProfile(db, env, caller, email);
      case ChangePassword(current, replacement) =>
        r := AuthRoutes.ChangePassword(db, env, caller, current, replacement);
      case Logout =>
        r := AuthRoutes.Logout(db);
    }
  }
}
