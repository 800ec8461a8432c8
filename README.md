# Blog backend request handlers, modelled in Dafny

This project models the decision logic of a small blog backend's REST handlers:
- the post handlers: create, list, list by category, list by author, read one, edit, delete;
- the user handlers: register, log in, read profile, list authors, change avatar, edit profile.

The handlers run against an abstract in-memory store, the class `Store.Db`. It holds:
- a map of users;
- a map of posts;
- the set of file names in the uploads directory;
- the next fresh id for users and for posts.

Each handler becomes one of two things:
- a method that checks, then changes the store, returning an `Outcome`: `Ok(status, body)` or `Err(error)`;
- a function that only reads the store.

Errors come in three kinds:
- `Coded(code, message)`: an `HttpError` with a status code;
- `Uncoded(message)`: an `HttpError` built without a code;
- `Crashed`: an exception. Either it is forwarded to `next` as `new HttpError(error)`, or it escapes the handler (or an un-awaited callback inside it) and no reply is sent at all.

Request-body fields are `Option<string>`, and JavaScript truthiness of a field is `Filled`. The authenticated caller's id, the uuid suffix, the clock and the success of each file operation are method parameters.

Modules:
- `Http`: fields, errors and outcomes.
- `Text`: the string functions the handlers use (`trim`, ASCII `toLowerCase`, `split('.')`).
- `Uploads`: uploaded files, the two size limits, and the stored-file-name rule `split('.')[0] + uuid + "." + split('.')[last]`.
- `UserModel` and `PostModel`: the records. `UserModel` also holds the hash, `findOne({ email })` and the password-free projection.
- `Listing`: `find(filter).sort({ field: -1 })`, stated as "every match exactly once, newest first".
- `Store`: the database class, its invariants, and file unlink and move.
- `PostController` and `UserController`: the handlers.

Two invariants are proved about the store:
- `Db.Valid`: ids are fresh and emails are unique. Every handler preserves it.
- `Db.Consistent`: each user's denormalised `posts` counter equals the number of stored posts naming that user as creator. Edit and delete preserve it. Create preserves it whenever the caller is a stored user.

Both invariants are proved for requests handled one at a time (see "## Left out").

## Model

| member | source | states |
|---|---|---|
| PostModel.CategoryEnumeration | models/postModel.js:5 | a category is valid exactly when it is one of the eight schema spellings ("Bussinise", "Entertaiment" kept), and the eight are distinct |
| Listing.Find | controllers/postController.js:93 | the scan returns every stored post matching the filter exactly once, and nothing else |
| Listing.Insert | controllers/postController.js:57 | inserting into a newest-first list keeps it newest-first and adds exactly the one element |
| Listing.Sort | controllers/postController.js:57 | `sort({ field: -1 })` yields a permutation of its input with non-increasing timestamps |
| PostController.GetPosts | controllers/postController.js:55-62 | 200 with every stored post exactly once, ordered by non-increasing `updatedAt` |
| PostController.GetPost | controllers/postController.js:70-81 | 200 with the stored post exactly when the id is stored; otherwise 404 "Post No Found." |
| PostController.GetCatPosts | controllers/postController.js:90-98 | 200 with exactly the posts of that category, each once, by non-increasing `createdAt` |
| PostController.GetUserPosts | controllers/postController.js:107-115 | 200 with exactly the posts whose creator is the id, each once, by non-increasing `createdAt` |
| PostController.UserPostsCount | controllers/postController.js:110 | the length of an author's post list is the number the author's `posts` counter stands for |
| PostController.EditFieldsCheck | controllers/postController.js:134-136 | accepted exactly when title and category are filled and the description has at least 12 characters; an absent description after a filled title and category throws; every other failure is 422 "Fill In All Fields." |
| PostController.MissingTitleBeforeDescription | controllers/postController.js:134 | the short-circuit reports 422 for a missing title before it would read an absent description's length |
| PostController.CreatePosts | controllers/postController.js:14-47 | missing field or no files gives 422 and no change; a missing thumbnail field throws; a size over 2000000 gives 422 (exactly 2000000 passes); the upload is stored under the derived name before `Post.create`; a failed move or a category outside the enum gives `Crashed`; a caller who is not a stored user gets `Crashed` after the post is stored (creator = caller, both timestamps = now) with no user changed; success needs a successful move, a valid category and a stored caller; then the reply is 201 with the new post (creator = caller, both timestamps = now), exactly that post is added, and the caller's counter goes up by one while all other users are unchanged; an invalid category or a failed move leaves posts and users untouched; the counter invariant is kept |
| PostController.EditPost | controllers/postController.js:124-178 | the field check decides first; an absent post throws; a non-creator gets 400 "Couldn't update post." and nothing changes; without files only title, category, description and `updatedAt` change; with files the old thumbnail is unlinked before the size check, an oversized file gives the uncoded "Thumbanail too big..." error with the post unchanged, otherwise the thumbnail becomes the derived name whether or not the move succeeded; users are never touched and the counter invariant is kept |
| PostController.DeletePost | controllers/postController.js:187-216 | no id gives 400; an absent post throws; a non-creator gets 403 and nothing changes; the creator always gets 200 "Post <id> delete successsfully."; only a successful unlink removes the file and the post and takes one from the caller's counter, otherwise nothing changes; the counter invariant is kept |
| Store.CountAfterInsert | controllers/postController.js:37-39 | adding a post raises its creator's post count by one and no other user's |
| Store.CountAfterRemove | controllers/postController.js:203-205 | removing a post lowers its creator's post count by one and no other user's |
| Store.CountAfterRewrite | controllers/postController.js:165 | rewriting a post with the same creator changes nobody's post count |
| Store.Db.Unlink | controllers/postController.js:144-148 | the unlink succeeds exactly when the file exists and the file system allows it, and then removes only that name |
| Store.Db.Move | controllers/postController.js:28-31 | a successful move adds exactly the new name; a failed one changes nothing |
| Uploads.BaseAndExtension | controllers/postController.js:25-27 | the base is the text before the first dot and the extension the text after the last dot; neither contains a dot |
| Uploads.StoredNameWithoutDot | controllers/postController.js:25-27 | a dot-free name is its own base and extension: `photo` is stored as `photo<uuid>.photo` |
| Uploads.StoredNameOfDottedName | controllers/postController.js:156-158 | inner dots are dropped: `a.b.png` is stored as `a<uuid>.png` |
| Uploads.StoredNameSplit | controllers/userControllers.js:127-129 | with a dot-free uuid the stored name splits into exactly the base plus uuid and the original extension |
| Uploads.StoredNameInjective | controllers/userControllers.js:127-129 | for one original name, distinct uuids give distinct stored names |
| Text.Split | controllers/postController.js:26 | `split('.')` gives at least one piece, and no piece contains the separator |
| Text.JoinSplit | controllers/postController.js:26 | joining the pieces of a split with the separator gives back the original string |
| Text.SplitJoin | controllers/postController.js:26 | splitting a join of separator-free pieces gives back the pieces |
| Text.SplitWithoutSep | controllers/postController.js:26 | a string without the separator splits into itself alone |
| Text.FirstPiece | controllers/postController.js:27 | `split('.')[0]` is the longest separator-free prefix |
| Text.LastPiece | controllers/postController.js:27 | `split('.')[length - 1]` is the longest separator-free suffix |
| Text.TrimStart | controllers/userControllers.js:30 | the result is the suffix starting at the first non-space character, and only white space was dropped |
| Text.TrimEnd | controllers/userControllers.js:30 | the result is the prefix ending at the last non-space character, and only white space was dropped |
| Text.Trim | controllers/userControllers.js:30 | the trimmed string is no longer than the input and neither starts nor ends with white space |
| Text.TrimIsSlice | controllers/userControllers.js:30 | trimming drops only surrounding white space: the result is a slice of the input with only white space before and after it |
| Text.TrimEmptyIffBlank | controllers/userControllers.js:30-32 | trimming leaves nothing exactly when the password is all white space |
| Text.ToLower | controllers/userControllers.js:23 | lower-casing keeps the length, maps each character on its own and leaves no upper-case ASCII letter |
| Text.ToLowerIdempotent | controllers/userControllers.js:59 | lower-casing an already lower-cased email changes nothing |
| UserModel.VerifyHash | controllers/userControllers.js:66-69 | a stored hash verifies exactly the password it was made from |
| UserModel.PublicHidesOnlyPassword | controllers/userControllers.js:88 | the `select('-password')` view is the same for users differing only in their hash, and it determines every other field |
| UserModel.FindByEmail | controllers/userControllers.js:25 | `findOne({ email })` finds the first stored user whose email equals the key exactly, and finds none exactly when no user has it |
| UserModel.Authors | controllers/userControllers.js:200 | `find().select('-password')` lists every stored user exactly once, each in its password-free view |
| UserController.RegisterCheck | controllers/userControllers.js:19-36 | checks in order, each failure 422: name, email and password present (`password2` not required); lower-cased email unused; trimmed password at least 6 characters; `password2` equal to `password` ("Passwords Do Not Macth."); each error exactly when the earlier checks pass and its own fails; accepted exactly when all pass |
| UserController.BlankPasswordRefused | controllers/userControllers.js:30-32 | a password of only white space is refused as too short whatever its length |
| UserController.RegisterUser | controllers/userControllers.js:16-45 | a failed check gives its 422 and changes nothing; success adds exactly one user at a fresh id with the lower-cased email, the hashed password, no avatar and a zero counter, replies 201 "New User <email> registered.", and that user can then log in with the same credentials |
| UserController.LoginUser | controllers/userControllers.js:52-78 | 200 with the token, id and name of a stored user exactly when both fields are filled and a user with the lower-cased email has a matching hash; 422 "Fill In All Fieleds.", 422 "Invalid Credentials." (no such email) and 422 "Invalid credentials." (wrong password) each exactly in its own case |
| UserController.StoredCredentialsLogIn | controllers/userControllers.js:61-74 | with unique emails, a user whose stored email is the lower-cased input and whose hash matches is the one a login returns |
| UserController.LoginMessagesDifferInCase | controllers/userControllers.js:62-69 | the unknown-email and wrong-password messages differ, but only in the case of one letter |
| UserController.MixedCaseEmailCannotLogIn | controllers/userControllers.js:59-61 | a user whose stored email has an upper-case letter, which only an edit can store, can never be the user a login returns |
| UserController.GetUser | controllers/userControllers.js:85-96 | 200 with the password-free view exactly when the id is stored; otherwise 404 "User not found." |
| UserController.GetAuthors | controllers/userControllers.js:198-206 | 200 with every stored user exactly once, without passwords |
| UserController.ChangeAvatar | controllers/userControllers.js:103-144 | no files throws; no avatar field gives 422 "PLease Choose An Image."; an unknown caller throws; the old avatar, if any, is unlinked before the size check; over 500000 bytes gives the uncoded size error; a failed move gives `Crashed`; success changes only the caller's avatar to the derived name and returns the whole record; posts never change and the counter invariant is kept |
| UserController.EditUserCheck | controllers/userControllers.js:154-179 | checks in order: the four fields present (422), caller stored (403), email as given unused or the caller's own (422), current password verifies (422), confirmation equals the new password (422 "New Password Do Not Match."); each error exactly when the earlier checks pass and its own fails; accepted exactly when all pass |
| UserController.EditUser | controllers/userControllers.js:151-191 | a failed check gives its error and changes no user; success replaces exactly the caller's name, email (not lower-cased) and password hash, and returns the whole record |

## Left out

- Routing and the authentication middleware are left out. A protected handler (create, edit and delete post; change avatar; edit user) receives the authenticated caller's id.
- JWT signing and the one-day expiry are left out. A token is the pair of claims `Token(id, name)`.
- UserModel.Hash: bcrypt's salt and work factor are not modelled. The hash is a deterministic, injective function of the password, so `Verify` holds exactly for the password hashed. bcrypt reads only the first 72 bytes of a password, so two passwords that agree on those bytes verify against each other's hash; that truncation is not modelled, and `UserModel.VerifyHash` states the idealised equivalence.
- uuid generation is a parameter.
- The file system is the set `Db.files`. Whether an unlink or move succeeds is a parameter. Absolute paths are not modelled.
- Async ordering: the fire-and-forget unlink and move calls happen in program order.
  - deletePost sends its reply before the unlink callback runs.
  - In editPost a failed unlink or a failed move, and in changeAvatra a failed unlink, report their error to `next` from a callback that is not awaited. That callback may run before or after the success reply. If it runs first, the client gets that error, and the later success reply throws because the headers were already sent, although the post or avatar was updated. The model ignores that error and returns the success outcome (`EditPost` and `ChangeAvatar` reply `Ok(200, …)`). changeAvatra's move is different: its success reply is sent from inside the move callback, so a failed move is that handler's only outcome, modelled as `Crashed`.
- Mongoose's query and sort implementation is not modelled.
  - A list is specified by its contents (each match exactly once) and its order (non-increasing timestamp).
  - The relative order of posts with equal timestamps is not specified by the source. The model fixes one order.
- `models/userModel.js` and `models/errorModel.js` are not part of this model.
  - A new user is assumed to get an empty avatar and a post counter of 0.
  - User timestamps are not modelled.
  - The status of an uncoded `HttpError` is left to that file.
  - Any schema constraint there beyond what the handlers check is not modelled.
- A malformed id string that Mongoose cannot cast to an ObjectId throws. Ids here are natural numbers, so that path is left out.
- Request bodies are assumed to hold strings when present. A non-string value, such as a number or an array, would reach `toLowerCase`, `trim` or `length` with different behaviour.
- Text.ToLower: only ASCII letters are lower-cased. JavaScript's full Unicode case mapping is not modelled.
- Lengths are counted in Dafny characters, not UTF-16 code units. This concerns `trim().length` and `description.length`.
- Every crash path collapses to the single error `Crashed`. The exception's message is left out, and so is whether a reply is sent. Forwarded to `next` as `new HttpError(error)`:
  - a TypeError on a null post or user caught by a handler's own `catch`;
  - `req.files.avatar` with no files;
  - a failed move (its callback calls `next`).

  Escaping the handler, so that `next` is never called and no reply is sent:
  - the enum validator rejecting `Post.create`, and `currentUser.posts` on a null user, both inside createPosts' un-awaited `mv` callback (controllers/postController.js:28-43);
  - the ReferenceError on `err` thrown from deletePost's `catch` (controllers/postController.js:214).
- The catch-all replies are not separate outcomes. These are "User Register Failed." and "Login failed. Please Check Your Credentials.". They are reached through store or bcrypt failures, which are not modelled, and through a non-string `email` or `password` reaching `toLowerCase` or `trim` (controllers/userControllers.js:23, 30, 59), which the model excludes by taking fields as strings.
- The "Post Couldn't Be Created." and "Avatar Couldn't Be Changed." branches are not modelled. They need the store to return nothing right after a successful write, which the in-memory store never does.
- Registration compares `password2` with `password` but never requires it to be present, and the category enum keeps the schema's spellings "Bussinise" and "Entertaiment".
- Requests are handled one at a time: each handler is one atomic method on `Db`. In the server, handlers interleave at every `await`. Two concurrent creates or deletes by one user can then lose an update to `User.posts`, which is read and written in separate steps (controllers/postController.js:37-39, 203-205). Two concurrent registrations can both pass the email check before either creates its user (controllers/userControllers.js:25-40). `Db.Consistent` and the unique-email part of `Db.Valid` are proved only under the one-at-a-time assumption.
