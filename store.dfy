/** The persistent store the routes read and write through the database session: one map per
    table, keyed by row id, plus the order in which `Post.query.all()` yields posts and the next
    value of each SERIAL id column. */
module Store {
  import opened Types

  datatype User = User(
    username: string,
    email: string,
    credential: string,      // the stored password hash
    isActive: bool,
    lastLogin: Option<nat>)

  datatype Post = Post(
    title: string,
    content: string,
    tags: seq<string>,
    course: Option<string>,
    code: Option<string>,
    userId: UserId,          // the author
    groupId: Option<GroupId>, // None: a public post
    createdAt: nat)

  datatype Comment = Comment(content: string, userId: UserId, postId: PostId, createdAt: nat)

  datatype Course = Course(code: string, name: Option<string>)

  datatype Group = Group(
    name: string,
    description: Option<string>,
    creatorId: UserId,
    members: set<UserId>)

  /** The whole store as a value. */
  datatype State = State(
    users: map<UserId, User>,
    posts: map<PostId, Post>,
    postOrder: seq<PostId>,
    comments: map<CommentId, Comment>,
    courses: map<CourseId, Course>,
    groups: map<GroupId, Group>,
    nextUserId: nat,
    nextPostId: nat,
    nextCommentId: nat,
    nextCourseId: nat,
    nextGroupId: nat)

  predicate Distinct<T(==)>(s: seq<T>) {
    forall i, j :: 0 <= i < j < |s| ==> s[i] != s[j]
  }

  /** Every key was handed out by a SERIAL counter that started at 1 and now stands at `next`. */
  predicate KeysBelow<V>(m: map<nat, V>, next: nat) {
    1 <= next && forall k :: k in m ==> 1 <= k < next
  }

  predicate UniqueUsernames(users: map<UserId, User>) {
    forall a, b :: a in users && b in users && users[a].username == users[b].username ==> a == b
  }

  predicate UniqueEmails(users: map<UserId, User>) {
    forall a, b :: a in users && b in users && users[a].email == users[b].email ==> a == b
  }

  /** The database's integrity: every post is listed exactly once in query order, SERIAL ids
      are fresh, and usernames and e-mail addresses are unique columns. */
  ghost predicate StateValid(s: State) {
    && Distinct(s.postOrder)
    && (forall id :: id in s.postOrder <==> id in s.posts)
    && KeysBelow(s.users, s.nextUserId)
    && KeysBelow(s.posts, s.nextPostId)
    && KeysBelow(s.comments, s.nextCommentId)
    && KeysBelow(s.courses, s.nextCourseId)
    && KeysBelow(s.groups, s.nextGroupId)
    && UniqueUsernames(s.users)
    && UniqueEmails(s.users)
  }

  /** `s` without `x`, in the same order. */
  function RemoveId(s: seq<PostId>, x: PostId): (r: seq<PostId>)
    ensures forall y :: y in r <==> y in s && y != x
    ensures Distinct(s) ==> Distinct(r)
    ensures |r| <= |s|
  {
    if s == [] then []
    else
      var rest := RemoveId(s[1..], x);
      if s[0] == x then rest
      else
        assert Distinct(s) ==> s[0] !in s[1..] && Distinct(s[1..]) by {
          if Distinct(s) {
            forall i | 0 <= i < |s[1..]| ensures s[1..][i] != s[0] {
              assert s[1..][i] == s[i + 1];
            }
          }
        }
        [s[0]] + rest
  }

  /** Removing the id just appended gives back the sequence before the append. */
  lemma {:induction false} RemoveAppended(s: seq<PostId>, x: PostId)
    requires x !in s
    ensures RemoveId(s + [x], x) == s
  {
    if s == [] {
      assert [x][1..] == [];
    } else {
      assert (s + [x])[1..] == s[1..] + [x];
      RemoveAppended(s[1..], x);
    }
  }

  class Store {
    var users: map<UserId, User>
    var posts: map<PostId, Post>
    var postOrder: seq<PostId>
    var comments: map<CommentId, Comment>
    var courses: map<CourseId, Course>
    var groups: map<GroupId, Group>
    var nextUserId: nat
    var nextPostId: nat
    var nextCommentId: nat
    var nextCourseId: nat
    var nextGroupId: nat

    function Snapshot(): State
      reads this
    {
      State(users, posts, postOrder, comments, courses, groups,
            nextUserId, nextPostId, nextCommentId, nextCourseId, nextGroupId)
    }

    ghost predicate Valid()
      reads this
    {
      StateValid(Snapshot())
    }

    /** An empty database. */
    constructor ()
      ensures Valid()
      ensures Snapshot() == State(map[], map[], [], map[], map[], map[], 1, 1, 1, 1, 1)
    {
      users, posts, postOrder, comments, courses, groups := map[], map[], [], map[], map[], map[];
      nextUserId, nextPostId, nextCommentId, nextCourseId, nextGroupId := 1, 1, 1, 1, 1;
    }
  }
}
