/** `app.py`, the monolithic application that predates the blueprints. Its `login_required`,
    `add_comment` and `delete_course` are the same code as `Decorators`, `CommentRoutes.AddComment`
    and `CourseRoutes.DeleteCourse`; what differs is modelled here. */
module App {
  import opened Types
  import opened Store
  import Validation
  import PostRoutes
  import CourseRoutes

  /** `get_posts` of the monolith: every post, in query order, whoever asks. */
  method GetPosts(db: Store) returns (listing: seq<PostId>)
    requires db.Valid()
    ensures listing == db.postOrder
    ensures forall id :: id in listing <==> id in db.posts
    ensures Distinct(listing)
  {
    listing := db.postOrder;
  }

  /** With no group posts in the store, the blueprint's filtered listing is the monolith's. */
  lemma {:induction false} PublicOnlyListingIsEverything(order: seq<PostId>, posts: map<PostId, Post>,
                                                         groups: map<GroupId, Group>, viewer: Option<UserId>)
    requires forall id :: id in order ==> id in posts && posts[id].groupId.None?
    ensures PostRoutes.Listing(order, posts, groups, viewer) == order
  {
    if order != [] {
      var n := |order| - 1;
      var init := order[..n];
      assert order == init + [order[n]];
      forall id | id in init ensures id in posts && posts[id].groupId.None? {
        assert id in order;
      }
      PublicOnlyListingIsEverything(init, posts, groups, viewer);
    }
  }

  /** A group post that the monolith shows to every caller is hidden from anonymous callers by
      the blueprint's listing. */
  lemma GroupPostHiddenFromAnonymous(order: seq<PostId>, posts: map<PostId, Post>,
                                     groups: map<GroupId, Group>, id: PostId)
    requires forall id :: id in order ==> id in posts
    requires id in order && posts[id].groupId.Some?
    ensures id !in PostRoutes.Listing(order, posts, groups, None)
  {
    PostRoutes.ListingMembers(order, posts, groups, None, id);
  }

  const NotOwnPost := Response(FORBIDDEN, "You can only delete your own posts")

  /** `delete_post` of the monolith: 404, then owner-only 403, with its own message. */
  method DeletePost(db: Store, caller: UserId, id: PostId) returns (r: Response)
    requires db.Valid()
    modifies db
    ensures db.Valid()
    ensures id !in old(db.posts) ==> r == NotFound
    ensures id in old(db.posts) && !PostRoutes.MayDelete(old(db.posts[id]), caller) ==> r == NotOwnPost
    ensures r != PostRoutes.PostDeleted ==> unchanged(db)
    ensures id in old(db.posts) && PostRoutes.MayDelete(old(db.posts[id]), caller) ==>
              && r == PostRoutes.PostDeleted
              && db.Snapshot() == old(db.Snapshot()).(
                   posts := old(db.posts) - {id},
                   postOrder := RemoveId(old(db.postOrder), id))
  {
    if id !in db.posts {
      return NotFound;
    }
    if db.posts[id].userId != caller {
      return NotOwnPost;
    }
    db.posts := db.posts - {id};
    db.postOrder := RemoveId(db.postOrder, id);
    r := PostRoutes.PostDeleted;
  }

  /** The checks of the monolith's `add_course`: the code is required and validated; the name is
      optional, and validated to 1 to 100 characters only when given. */
  function CourseInputError(env: Env, req: CourseRoutes.CourseRequest): (err: Option<Response>)
    ensures err.None? <==>
              && Truthy(req.code)
              && Validation.ValidateCourseCode(env.sanitizePlainText(req.code.value)).valid
              && (Truthy(req.name) ==> 1 <= |env.sanitizePlainText(req.name.value)| <= 100)
    ensures !Truthy(req.code) ==> err == Some(CourseRoutes.CodeRequired)
    ensures err.Some? ==> err.value.status == BAD_REQUEST
  {
    if !Truthy(req.code) then Some(CourseRoutes.CodeRequired)
    else
      var codeCheck := Validation.ValidateCourseCode(env.sanitizePlainText(req.code.value));
      if !codeCheck.valid then Some(Response(BAD_REQUEST, codeCheck.message))
      else if !Truthy(req.name) then None
      else
        var nameCheck := Validation.ValidateStringLength(env.sanitizePlainText(req.name.value), 1, 100, "Course name");
        if !nameCheck.valid then Some(Response(BAD_REQUEST, nameCheck.message)) else None
  }

  /** `add_course` of the monolith, as written: it looks for the upper-cased code but creates the
      course with the code as given. */
  method AddCourse(db: Store, env: Env, req: CourseRoutes.CourseRequest) returns (r: Response, course: Option<CourseId>)
    requires db.Valid()
    modifies db
    ensures db.Valid()
    ensures CourseInputError(env, req).Some? ==>
              r == CourseInputError(env, req).value && course.None? && unchanged(db)
    ensures CourseInputError(env, req).None? ==>
              var code := env.sanitizePlainText(req.code.value);
              var name := if Truthy(req.name) then Some(env.sanitizePlainText(req.name.value)) else None;
              && r == CourseRoutes.CourseAvailable
              && course.Some? && course.value in db.courses
              && (CourseRoutes.HasCode(old(db.courses), Validation.Upper(code)) ==>
                    unchanged(db) && db.courses[course.value].code == Validation.Upper(code))
              && (!CourseRoutes.HasCode(old(db.courses), Validation.Upper(code)) ==>
                    && course.value == old(db.nextCourseId)
                    && db.Snapshot() == old(db.Snapshot()).(
                         courses := old(db.courses)[course.value := Course(code, name)],
                         nextCourseId := old(db.nextCourseId) + 1))
  {
    var err := CourseInputError(env, req);
    if err.Some? {
      return err.value, None;
    }
    var code := env.sanitizePlainText(req.code.value);
    var name: Option<string> := None;
    if Truthy(req.name) {
      name := Some(env.sanitizePlainText(req.name.value));
    }
    var found := CourseRoutes.FindCourse(db, Validation.Upper(code));
    if found.None? {
      var id := db.nextCourseId;
      db.courses := db.courses[id := Course(code, name)];
      db.nextCourseId := db.nextCourseId + 1;
      found := Some(id);
    }
    r, course := CourseRoutes.CourseAvailable, found;
  }

  /** No code holding a lower-case letter is the upper-cased form of any code: a course the
      monolith stored under such a code is never found again by its upper-cased lookup. */
  lemma LowerCaseCodeIsNotFound(courses: map<CourseId, Course>, code: string)
    ensures forall id :: id in courses && Validation.HasLower(courses[id].code) ==>
              courses[id].code != Validation.Upper(code)
  {
    forall id | id in courses && Validation.HasLower(courses[id].code)
      ensures courses[id].code != Validation.Upper(code)
    {
      var i :| 0 <= i < |courses[id].code| && Validation.IsLower(courses[id].code[i]);
      if |courses[id].code| == |code| {
        assert !Validation.IsLower(Validation.Upper(code)[i]);
      }
    }
  }
}
