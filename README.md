# Blog API request logic, modelled in Dafny

This project models the decision logic of a Flask blog API. The API has users, posts (public or
limited to a group), comments, courses and study groups. The model covers:

- the input validators (`utils/validation.py`);
- the `login_required` gate (`decorators.py`), which reads the Authorization header, strips one
  leading `Bearer `, asks the token service for the user and either answers 401 or records the
  request's current user;
- the blueprint routes for posts, groups, courses, comments and authentication;
- the older monolithic variants in `app.py`.

The database is a `Store` class with one map per table, the order in which posts are listed, and
the next value of each SERIAL id. Each route is a method over that store. Its contract is a
predicate named after the route (`GroupRoutes.UpdateGroupOutcome` and so on), relating the store
before, the store after and the response. The predicate gives the response for every branch of
the source, in the source's order: a missing row, then 403, then 400. A rejected request leaves
the store as it was. A successful one changes exactly the rows the source changes, stated as an
update of `Store.Snapshot()`.

How a missing row is answered depends on where the route looks it up:

- `delete_post` and `delete_course` call `get_or_404` outside any `try`, so they answer 404.
- The group routes and `add_comment` call it inside `try: ... except Exception`. The 404 abort is
  an exception, so their own handler catches it and answers the route's 500 ("Failed to update
  group" and so on). The model answers that 500.
- For these routes, the methods ending in `Or404` model the 404 that `get_or_404` is meant to
  give (see "## Findings").

The store invariant `Valid()` says:

- post ids are listed once each;
- ids are fresh;
- usernames and e-mail addresses are unique.

Every route preserves it. Code the routes call but whose source is not shown is passed in as
function values in `Types.Env`:

- token signing and verification;
- password hashing and checking;
- the bleach-based sanitisers.

Clock readings are a `now: nat` parameter.

The pure parts are functions, each with lemmas that connect it to an independent description:

- each validator is proved equivalent to its character-class definition;
- the post listing filter is proved to list exactly the visible posts, in order, each once;
- the group post listing is proved to be a newest-first permutation of the group's posts.

`Scenarios` drives the store through request sequences and states what each step answers.
`Api.Handle` wraps every protected route in the gate. When the gate accepts, `Api.Served` says
that the route ran with the verified user as caller and that the route's response is returned.

In `app.py`, several routes are the same code as their blueprint versions, so the blueprint members
model them as well:

- `login_required` (app.py:79-104) is the same code as `decorators.py`;
- `add_comment` (app.py:530-577) is the same as the comment route;
- `delete_course` (app.py:667-677) is the same as the course route;
- `add_post` (app.py:385-452) is `PostRoutes.AddPost` with no `group_id`;
- the authentication routes (app.py:145-365) differ from `auth_routes.py` only by rate-limit
  decorators.

## Model

| member | source | states |
|---|---|---|
| Validation.ValidatePassword | backend/utils/validation.py:28-43 | accepted exactly when the password has at least 8 characters, an upper-case letter, a lower-case letter and a digit; accepted exactly when the message is "Password is valid" |
| Validation.PasswordFailureOrder | backend/utils/validation.py:28-41 | each failure message is reported exactly when every earlier check passes and its own check fails: empty, shorter than 8, no upper-case, no lower-case, no digit |
| Validation.MatchesEmailSound | backend/utils/validation.py:59-60 | a string the matcher accepts has a local part, an '@', a domain and a final dot followed by at least two letters |
| Validation.MatchesEmailComplete | backend/utils/validation.py:59-60 | every split of a string into local@domain.tld with the pattern's character classes is accepted by the matcher |
| Validation.MatchesEmailIff | backend/utils/validation.py:59-60 | the matcher, which takes the first '@' and the last '.', accepts exactly the strings the e-mail pattern describes |
| Validation.ValidateEmail | backend/utils/validation.py:56-66 | valid exactly when the address matches the pattern and has at most 120 characters; "Email is required" exactly for the empty string; the format is checked before the length |
| Validation.LongMalformedEmailIsFormatError | backend/utils/validation.py:59-64 | an address over 120 characters that does not match is reported as "Invalid email format", not as too long |
| Validation.ValidateUsername | backend/utils/validation.py:83-96 | valid exactly when the length is 3 to 80 and every character is a letter, digit or underscore; "Username is required" exactly for the empty string; the length messages take precedence over the character message |
| Validation.ValidateCourseCode | backend/utils/validation.py:113-120 | valid exactly when the code has 3 to 10 characters, all letters or digits; "Course code is required" exactly for the empty code; "Course code must be 3-10 alphanumeric characters" exactly for a non-empty invalid code |
| Validation.ValidateStringLength | backend/utils/validation.py:137-146 | valid exactly when the text is non-empty and its length is within the bounds; the message for each failing check, in order |
| Validation.EmptyFailsWithZeroMinimum | backend/utils/validation.py:137-138 | the empty string is rejected even when the minimum length is 0 |
| Validation.Upper | backend/routes/course_routes.py:62 | upper-casing keeps the length and maps each character on its own |
| Validation.UpperIdempotent | backend/routes/course_routes.py:62-67 | upper-casing a stored, already upper-cased code changes nothing |
| Validation.UpperIgnoresCase | backend/routes/course_routes.py:62 | two codes that differ only in the case of their letters give the same lookup key |
| Decorators.StripBearer | backend/decorators.py:28-29 | a header that starts with "Bearer " is that prefix followed by the token; any other header is the token unchanged |
| Decorators.StripBearerOnce | backend/decorators.py:28-29 | only one prefix is removed, so a token that itself begins with "Bearer " keeps it |
| Decorators.Authenticate | backend/decorators.py:22-38 | a rejection is always 401; an accepted request had a non-empty header whose stripped token the token service resolved to that user |
| Decorators.MissingHeaderRejected | backend/decorators.py:22-25 | an absent or empty header gets "Authorization token required", whatever the token service would say |
| Decorators.TokenPassedToVerify | backend/decorators.py:28-34 | a non-empty header is verified after removing a leading "Bearer " and not otherwise changed; a token the service refuses gets "Invalid or expired token" |
| Decorators.BearerTokenAuthenticates | backend/decorators.py:28-38 | "Bearer t" authenticates as the user that t resolves to, and is refused with "Invalid or expired token" when t resolves to none |
| Decorators.RequestContext.LoginRequired | backend/decorators.py:21-38 | the imperative gate agrees with Authenticate; on success the current user is the verified user; on rejection the current user is not written |
| Api.Handle | backend/decorators.py:21-38 | a protected route rejected by the gate answers with the gate's 401 and leaves the store and the current user unchanged; an accepted one runs the requested route with the verified user, who is in the store, as caller, and answers and changes the store exactly as that route does; every route keeps the store valid |
| Store.RemoveId | backend/routes/post_routes.py:180 | removing a post from the listing order keeps every other id, drops that one, and keeps the order free of duplicates |
| Store.RemoveAppended | backend/routes/post_routes.py:180 | deleting the id that creation just appended restores the previous listing order |
| PostRoutes.Viewer | backend/routes/post_routes.py:33-40 | the listing's viewer is the user the gate would authenticate, and is anonymous exactly when the gate would reject: a bad token is never an error here |
| PostRoutes.Listing | backend/routes/post_routes.py:43-77 | the filtered listing only contains posts from the query order |
| PostRoutes.ListingMembers | backend/routes/post_routes.py:46-75 | a post is listed exactly when it is in the store and visible to the viewer |
| PostRoutes.PublicPostAlwaysListed | backend/routes/post_routes.py:47-59 | a post with no group is listed for every viewer, anonymous or not |
| PostRoutes.GroupPostListedIffMember | backend/routes/post_routes.py:61-75 | a group post is listed exactly when the viewer is resolved and is a member of the post's existing group |
| PostRoutes.AnonymousSeesOnlyPublic | backend/routes/post_routes.py:61-64 | an anonymous viewer is listed public posts only |
| PostRoutes.ListingIsSubsequence | backend/routes/post_routes.py:43-77 | the listing picks posts at strictly increasing positions of the query order |
| PostRoutes.ListingDistinct | backend/routes/post_routes.py:43-77 | no post is listed twice |
| PostRoutes.GetPosts | backend/routes/post_routes.py:33-77 | the loop builds exactly the filtered listing for the header's viewer: every visible post, only those, each once |
| PostRoutes.PostInputError | backend/routes/post_routes.py:93-109 | a post passes the body checks exactly when title and content are present and, once sanitised, the title has 1 to 200 characters and the content 1 to 50000; missing keys give "Title and content are required" |
| PostRoutes.NewPost | backend/routes/post_routes.py:111-140 | the inserted row has the caller as author, the requested group and the creation time |
| PostRoutes.AddPost | backend/routes/post_routes.py:93-157 | body errors first; with a truthy group_id, 404 "Group not found" for a missing group, then 403 for a non-member; a group_id of 0 reaches the insert, which the foreign key refuses (500); on success exactly one post is added at the end of the listing order, authored by the caller, under the next id, and nothing else changes |
| PostRoutes.DeletePost | backend/routes/post_routes.py:174-185 | 404 for a missing post before 403 for a non-author, and then nothing changes; the author removes exactly that post |
| GroupRoutes.DescriptionOf | backend/routes/group_routes.py:49 | a description is kept exactly when the body gives a truthy one |
| GroupRoutes.NameError | backend/routes/group_routes.py:52-54 | a group name passes exactly when it has 1 to 100 characters |
| GroupRoutes.DescriptionError | backend/routes/group_routes.py:57-60 | a kept description is only checked when non-empty, and passes exactly when at most 1000 characters long |
| GroupRoutes.CreateInputError | backend/routes/group_routes.py:44-60 | creation passes its checks exactly when the name is truthy, 1 to 100 characters once sanitised, and a kept description fits 1000 characters; a missing name is "Group name is required" |
| GroupRoutes.UpdateInputError | backend/routes/group_routes.py:118-131 | an update passes exactly when each key present in the body is valid; absent keys are not checked |
| GroupRoutes.Updated | backend/routes/group_routes.py:118-131 | an update never changes the creator or the members |
| GroupRoutes.UpdateWithoutKeysChangesNothing | backend/routes/group_routes.py:118-131 | a body with neither key leaves the group as it was |
| GroupRoutes.CreateGroup | backend/routes/group_routes.py:44-80 | on success a new group exists under the next id, whose creator is the caller and whose only member is the caller, and nothing else changes; on a 400 nothing changes |
| GroupRoutes.UpdateGroup | backend/routes/group_routes.py:109-145 | a missing group is caught by the route's own handler: 500 "Failed to update group"; then 403 for a non-creator, then the 400s; only a full success changes the store, and then only the name and description of that group |
| GroupRoutes.UpdateGroupOr404 | backend/routes/group_routes.py:110 | the intended answer: a missing group gives 404 and changes nothing; otherwise exactly what `update_group` answers and does |
| GroupRoutes.DeleteGroup | backend/routes/group_routes.py:157-174 | a missing group gives 500 "Failed to delete group"; then the creator-only 403; nothing changes on either; the creator removes exactly that group |
| GroupRoutes.DeleteGroupOr404 | backend/routes/group_routes.py:158 | the intended answer: a missing group gives 404 and changes nothing; otherwise exactly what `delete_group` answers and does |
| GroupRoutes.AddGroupMember | backend/routes/group_routes.py:188-221 | a missing group gives 500 "Failed to add member"; with user_id only the creator may add (403), and a missing named user again gives that 500; without user_id the caller is the target; an existing member gives 400; nothing changes on a refusal; success sets members to members plus the target |
| GroupRoutes.AddGroupMemberOr404 | backend/routes/group_routes.py:189-198 | the intended answer: a missing group, or a missing user the creator names, gives 404 and changes nothing; otherwise exactly what `add_group_member` answers and does |
| GroupRoutes.RemoveGroupMember | backend/routes/group_routes.py:234-264 | a missing group or user gives 500 "Failed to remove member"; then permission (creator or self), creator-must-stay (count above 1), membership, in that order; success removes exactly the target; a creator who leaves leaves an empty group |
| GroupRoutes.RemoveGroupMemberOr404 | backend/routes/group_routes.py:235-236 | the intended answer: a missing group or user gives 404 and changes nothing; otherwise exactly what `remove_group_member` answers and does |
| GroupRoutes.PostsInGroup | backend/routes/group_routes.py:287 | the group's posts are exactly the posts whose group is that group, with no duplicates |
| GroupRoutes.InsertNewestFirst | backend/routes/group_routes.py:287 | inserting into a newest-first sequence keeps it newest-first and adds exactly that post |
| GroupRoutes.SortNewestFirst | backend/routes/group_routes.py:287 | the result is newest-first and a permutation of the input |
| GroupRoutes.DistinctByMultiset | backend/routes/group_routes.py:287 | sorting cannot introduce duplicates |
| GroupRoutes.GetGroupPosts | backend/routes/group_routes.py:276-314 | a missing group gives 500 "Failed to fetch group posts", a non-member 403, each with no posts; a member gets exactly the group's posts, each once, newest first |
| GroupRoutes.GetGroupPostsOr404 | backend/routes/group_routes.py:278 | the intended answer: a missing group gives 404 with no posts; otherwise what `get_group_posts` answers, and a member gets exactly the group's posts |
| CourseRoutes.CourseInputError | backend/routes/course_routes.py:43-59 | code required, then name required, then the code 3 to 10 alphanumerics, then the name 1 to 100 characters, in that order, each after sanitising |
| CourseRoutes.StoredCodeIsValid | backend/routes/course_routes.py:62-67 | the upper-cased code that gets stored is itself a valid course code |
| CourseRoutes.FindCourse | backend/routes/course_routes.py:62 | the lookup finds a course with that exact code, and finds none exactly when no course has it |
| CourseRoutes.AddCourse | backend/routes/course_routes.py:43-77 | 200 "Course available" whether found or created; a course is created only when none has the upper-cased code, and stores that code; codes stay unique |
| CourseRoutes.DeleteCourse | backend/routes/course_routes.py:94-100 | 404 for a missing course; otherwise any caller removes exactly that course |
| CommentRoutes.AddComment | backend/routes/comment_routes.py:29-65 | keys first; a missing post is caught by the route's own handler: 500 "Failed to add comment"; then 1 to 5000 characters of sanitised content; nothing changes on a refusal; the comment has the caller as author and the given post, whatever that post's group, under the next id |
| CommentRoutes.AddCommentOr404 | backend/routes/comment_routes.py:35 | the intended answer: a missing post gives 404 and changes nothing; otherwise exactly what `add_comment` answers and does |
| AuthRoutes.FindUser | backend/routes/auth_routes.py:109 | the lookup by username finds the one user with that name, or none exactly when there is none |
| AuthRoutes.RegisterInputError | backend/routes/auth_routes.py:38-58 | all three keys required; then username, e-mail and password validation in that order, the first failure's message returned |
| AuthRoutes.InsertUserKeepsValid | backend/routes/auth_routes.py:61-67 | a new user with a fresh id, unused username and unused e-mail keeps the store valid |
| AuthRoutes.InsertUser | backend/routes/auth_routes.py:66-67 | the insert adds exactly that user under the next id |
| AuthRoutes.Register | backend/routes/auth_routes.py:38-83 | validation errors first; a taken username or e-mail gives "Username or email already exists" and adds no user; success adds one active user with the hashed password and returns a token for it |
| AuthRoutes.Login | backend/routes/auth_routes.py:103-132 | an unknown username and a wrong password give the same 401; the active flag is checked only for matching credentials; success records the login time for that user only and issues a token |
| AuthRoutes.UpdateProfile | backend/routes/auth_routes.py:166-184 | only the e-mail changes, only when the key is present; an invalid address or one another user holds gives 400 and changes nothing |
| AuthRoutes.ChangePassword | backend/routes/auth_routes.py:207-226 | keys, then the current password (401), then the new password's strength (400); the credential changes only on success, to the hash of the new password |
| AuthRoutes.Logout | backend/routes/auth_routes.py:243-245 | answers "Logout successful"; the store is only read |
| App.GetPosts | backend/app.py:374-383 | the monolith lists every post in query order, each once, with no visibility filter |
| App.PublicOnlyListingIsEverything | backend/app.py:374-383 | when no post belongs to a group, the blueprint's filtered listing equals the monolith's full listing |
| App.GroupPostHiddenFromAnonymous | backend/app.py:374-383 | a group post that the monolith lists for everyone is absent from the blueprint's anonymous listing |
| App.DeletePost | backend/app.py:464-472 | 404 before the owner-only 403 "You can only delete your own posts"; the author removes exactly that post |
| App.CourseInputError | backend/app.py:619-634 | the code is required and validated; the name is optional and checked for 1 to 100 characters only when given |
| App.AddCourse | backend/app.py:619-652 | as written: the lookup uses the upper-cased code, but a created course stores the code as given |
| App.LowerCaseCodeIsNotFound | backend/app.py:637-643 | no stored code containing a lower-case letter equals the upper-cased form of any code, so such a course is never found by the upper-cased lookup |
| Scenarios.JoinThenReadGroupPosts | backend/routes/group_routes.py:199-287 | a non-member is refused the group's posts, adds themselves, and is then served exactly the group's posts |
| Scenarios.JoinTwice | backend/routes/group_routes.py:204-209 | adding oneself twice: the second request is refused as already a member, and the members grow by one user only |
| Scenarios.CreatorLeavesLast | backend/routes/group_routes.py:239-251 | the creator cannot leave while another member remains; after removing that member the creator may leave, and the group survives, empty, with the same creator |
| Scenarios.MissingGroupIsServerError | backend/routes/group_routes.py:109-314 | for a group that does not exist, update, delete, add member, remove member and list posts each answer their own 500 and change nothing, where the intended route answers 404 |
| Scenarios.OnlyAuthorDeletes | backend/routes/post_routes.py:174-181 | another user is refused; the author deletes; a later delete of that post gets 404 |
| Scenarios.AddThenDelete | backend/routes/post_routes.py:132-181 | deleting a post right after creating it restores the posts and their order |
| Scenarios.SameCourseInAnyCase | backend/routes/course_routes.py:62-71 | two codes that differ only in case name a single course, and at most one course is created |
| Scenarios.MonolithDuplicatesCourse | backend/app.py:637-645 | the monolith, asked twice for the same lower-case code, creates two courses with equal codes |
| Scenarios.PublicAndGroupPostListing | backend/routes/post_routes.py:46-75 | with one public and one group post, an anonymous caller is listed the public post alone and a member is listed both |

## Left out

- Logging, rate limiting, CORS, response headers and JSON serialisation. The response is the status and the "error" or "message" string only. The JSON projections of rows are not modelled.
- The generic 500 paths for unexpected exceptions are left out, except two kinds the model has. One is the `get_or_404` abort caught by the route's own `except Exception`. The other comes from a group_id of 0: it is falsy, so the post is inserted referencing group 0, and no group has id 0.
- Exceptions and rollback: each method commits or changes nothing. Writes a route made before returning a 400, such as `group.name` in `update_group`, are never committed, so they are modelled as no change.
- Token signing and verification, password hashing and checking, and the bleach sanitisers (`utils/sanitization.py`) are arbitrary function values. No expiry, tamper-resistance or hash property is assumed. In particular, the model does not assume that a sanitiser maps "" to "".
- Decorators.Authenticate: the token service's answer is taken as the user. `User.verify_token` is not part of this model, so whether it also checks that the user still exists is not modelled. `Api.Handle` requires that every user the service resolves is in the store.
- The regular expressions are modelled over ASCII character classes. Python's `\d` also matches non-ASCII digits, and `$` also accepts one trailing newline; neither is modelled.
- Validation.Upper: it upper-cases ASCII letters only, which is what `str.upper()` does on the codes the validator accepts. It does not model `str.upper()` on other characters.
- JSON values of the wrong type are not modelled. A JSON null for a string field is read as the empty string, which the sanitisers and truthiness checks treat alike. A null `user_id` or `post_id` is not modelled.
- Timestamps are a `now: nat` parameter. `created_at` is used only to order group posts; ties between equal timestamps may come in any order.
- Foreign-key cascades are not modelled. Deleting a group, post or course does not touch comments, posts or members that refer to it. `models.py` gives `Comment.post` a `comments` backref and a NOT NULL `post_id`. With the default cascade, deleting a post that has comments would null their `post_id`, and the commit at post_routes.py:180-181 would fail. So the source may refuse a delete of a commented post that the model performs. `models.py` may not match the deployed schema, so this is not modelled.
- Scenarios.MonolithDuplicatesCourse: assumes `courses.code` has no unique constraint. The Course schema is not part of this model, and `StateValid` does not constrain codes. If the column is unique, the second request fails at commit and answers 500 "Failed to add course" (app.py:654-657), with no duplicate.
- Read-only routes outside the named core are not modelled: `get_groups`, `get_group`, `get_courses`, `get_profile`, post comments and `user_routes.py`. Also left out: `models.py` (field reference only), the migration scripts and the configuration.
- `app.py` routes other than the ones listed above are not part of this model.
- Concurrency: each request runs alone against the store.

## Findings

| source | as written | input that shows it | evidently intended | confidence | as-written member | corrected member |
|---|---|---|---|---|---|---|
| backend/app.py:637-643 | the lookup is by `code.upper()`, but a new course is created with `code` as given | `POST /courses {"code": "cs101"}` twice: neither lookup finds "CS101", so two courses with code "cs101" are created. This assumes `courses.code` has no unique constraint; with one, the second request answers 500 "Failed to add course" instead | store the upper-cased code, so that the get-or-create finds it next time; `course_routes.py:66-67` does exactly this | not executed | Scenarios.MonolithDuplicatesCourse | CourseRoutes.AddCourse |
| backend/routes/group_routes.py:109-145 | `get_or_404` runs inside `try`, and `except Exception` catches its 404 abort | `PUT /groups/999` when there is no group 999: 500 "Failed to update group" | 404 for a missing group, as `get_or_404` is meant to answer | not executed | GroupRoutes.UpdateGroup | GroupRoutes.UpdateGroupOr404 |
| backend/routes/group_routes.py:157-174 | as above | `DELETE /groups/999`: 500 "Failed to delete group" | 404 for a missing group | not executed | GroupRoutes.DeleteGroup | GroupRoutes.DeleteGroupOr404 |
| backend/routes/group_routes.py:188-221 | as above, for the group and for the named user | `POST /groups/999/members`, or `{"user_id": 999}` from the creator of an existing group: 500 "Failed to add member" | 404 for a missing group or user | not executed | GroupRoutes.AddGroupMember | GroupRoutes.AddGroupMemberOr404 |
| backend/routes/group_routes.py:234-264 | as above, for the group and for the user | `DELETE /groups/999/members/1`: 500 "Failed to remove member" | 404 for a missing group or user | not executed | GroupRoutes.RemoveGroupMember | GroupRoutes.RemoveGroupMemberOr404 |
| backend/routes/group_routes.py:276-314 | as above | `GET /groups/999/posts`: 500 "Failed to fetch group posts" | 404 for a missing group | not executed | GroupRoutes.GetGroupPosts | GroupRoutes.GetGroupPostsOr404 |
| backend/routes/comment_routes.py:29-65 | as above; app.py:545,572-577 is the same code | `POST /comments {"content": "x", "post_id": 999}`: 500 "Failed to add comment" | 404 for a missing post | not executed | CommentRoutes.AddComment | CommentRoutes.AddCommentOr404 |

In the six `get_or_404` rows, the as-written member models the code as it stands, and it is the
one `Api.Handle` serves. The corrected member states the intended answer.

The model also follows these behaviours of the code:

- a comment may be added to any existing post, whatever the post's group: comment_routes.py:35-49 looks up the post and never checks its group or the caller's membership;
- the creator-must-stay check counts all members, whether or not the creator is still one of them (group_routes.py:243);
- a course code clash is not a conflict: `add_course` returns the existing course with 200 (course_routes.py:62-77).
