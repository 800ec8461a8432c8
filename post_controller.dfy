/** The post handlers. Protected handlers receive the authenticated caller's id;
    the unique suffix of a stored file name, the clock and the outcome of each file
    operation are parameters. */
module PostController {
  import opened Http
  import opened Text
  import opened Uploads
  import opened UserModel
  import opened PostModel
  import opened Listing
  import opened Store

  const FillPostMsg := "Fill In All Fields And Choose Thumbanail."
  const BigThumbnailMsg := "Thumbanail Too Big. File Should Be Less Than 2mb."
  const PostNotFoundMsg := "Post No Found."
  const FillEditMsg := "Fill In All Fields."
  const EditBigThumbnailMsg := "Thumbanail too big. Should be less than 2mb"
  const NotUpdatedMsg := "Couldn't update post."
  const UnavailableMsg := "Post Unavailable."
  const NotDeletedMsg := "Post Couldn't be deleted."

  /** The plain-text reply of a delete. */
  function DeletedMsg(id: PostId): string {
    "Post " + NatToString(id) + " delete successsfully."
  }

  /** The guard of createPosts: a title, category or description that is missing
      or empty, or no file at all. */
  predicate CreateFieldsMissing(title: Field, category: Field, description: Field, files: Files) {
    !Filled(title) || !Filled(category) || !Filled(description) || files.NoFiles?
  }

  /** The guard of editPost, `!title || !category || description.length < 12`,
      evaluated left to right: reading the length of an absent description throws. */
  function EditFieldsCheck(title: Field, category: Field, description: Field): (r: Option<HttpErr>)
    ensures r.None? <==> Filled(title) && Filled(category) && description.Some? && |description.value| >= 12
    ensures r == Some(Crashed) <==> Filled(title) && Filled(category) && description.None?
    ensures r.Some? && r != Some(Crashed) ==> r == Some(Coded(422, FillEditMsg))
  {
    if !Filled(title) || !Filled(category) then Some(Coded(422, FillEditMsg))
    else if description.None? then Some(Crashed)
    else if |description.value| < 12 then Some(Coded(422, FillEditMsg))
    else None
  }

  /** A missing title or category is reported as a validation error even when the
      description is absent too: the short-circuit never reaches the length. */
  lemma MissingTitleBeforeDescription(category: Field)
    ensures EditFieldsCheck(None, category, None) == Some(Coded(422, FillEditMsg))
  {
  }

  // ================ GET api/posts

  /** Every post exactly once, most recently updated first. */
  function GetPosts(db: Db): (r: Outcome<seq<PostDoc>>)
    reads db
    requires db.Valid()
    ensures r.Ok? && r.status == 200
    ensures NewestFirst(r.body, UpdatedAt)
    ensures forall d :: multiset(r.body)[d] == if Stored(db.posts, d) then 1 else 0
  {
    Ok(200, Sort(Find(db.posts, db.nextPostId, AnyPost), UpdatedAt))
  }

  // ================ GET api/posts/:id

  function GetPost(db: Db, id: PostId): (r: Outcome<PostDoc>)
    reads db
    ensures r.Ok? <==> id in db.posts
    ensures r.Ok? ==> r.status == 200 && r.body.id == id && Stored(db.posts, r.body)
    ensures r.Err? ==> r.error == Coded(404, PostNotFoundMsg)
  {
    if id in db.posts then Ok(200, PostDoc(id, db.posts[id]))
    else Err(Coded(404, PostNotFoundMsg))
  }

  // ================ GET api/posts/categories/:category

  /** Exactly the posts of one category, each once, most recently created first. */
  function GetCatPosts(db: Db, category: string): (r: Outcome<seq<PostDoc>>)
    reads db
    requires db.Valid()
    ensures r.Ok? && r.status == 200
    ensures NewestFirst(r.body, CreatedAt)
    ensures forall d :: multiset(r.body)[d] == if Stored(db.posts, d) && d.post.category == category then 1 else 0
  {
    Ok(200, Sort(Find(db.posts, db.nextPostId, CategoryIs(category)), CreatedAt))
  }

  // ================ GET api/posts/users/:id

  /** Exactly the posts whose creator is `id`, each once, most recently created first. */
  function GetUserPosts(db: Db, id: UserId): (r: Outcome<seq<PostDoc>>)
    reads db
    requires db.Valid()
    ensures r.Ok? && r.status == 200
    ensures NewestFirst(r.body, CreatedAt)
    ensures forall d :: multiset(r.body)[d] == if Stored(db.posts, d) && d.post.creator == id then 1 else 0
  {
    Ok(200, Sort(Find(db.posts, db.nextPostId, CreatorIs(id)), CreatedAt))
  }

  /** The number of posts a user's list shows is what the user's counter stands for. */
  lemma UserPostsCount(db: Db, id: UserId)
    requires db.Valid()
    ensures |GetUserPosts(db, id).body| == PostCount(db.posts, id)
  {
    var r := GetUserPosts(db, id).body;
    var docs := set k | k in CreatedBy(db.posts, id) :: PostDoc(k, db.posts[k]);
    forall d ensures multiset(r)[d] == if d in docs then 1 else 0 {
      assert d in docs <==> Stored(db.posts, d) && d.post.creator == id;
    }
    ExactlyOnceLength(r, docs);
    IdsOfDocs(db.posts, CreatedBy(db.posts, id));
  }

  /** A list holding each element of a set exactly once, and nothing else, is as long as the set. */
  lemma ExactlyOnceLength(r: seq<PostDoc>, docs: set<PostDoc>)
    requires forall d :: multiset(r)[d] == if d in docs then 1 else 0
    ensures |r| == |docs|
  {
    assert multiset(r) == multiset(docs);
    assert |r| == |multiset(r)|;
  }

  lemma IdsOfDocs(posts: map<PostId, Post>, ids: set<PostId>)
    requires ids <= posts.Keys
    ensures |set k | k in ids :: PostDoc(k, posts[k])| == |ids|
    decreases ids
  {
    if ids != {} {
      var k :| k in ids;
      var rest := ids - {k};
      IdsOfDocs(posts, rest);
      var docs := set j | j in ids :: PostDoc(j, posts[j]);
      var restDocs := set j | j in rest :: PostDoc(j, posts[j]);
      assert docs == restDocs + {PostDoc(k, posts[k])};
    }
  }

  // ================ POST api/posts (protected)

  method CreatePosts(db: Db, caller: UserId, title: Field, category: Field, description: Field,
                     files: Files, uuid: string, mvOk: bool, now: nat)
    returns (r: Outcome<PostDoc>)
    requires db.Valid()
    modifies db
    ensures db.Valid()
    ensures db.nextUserId == old(db.nextUserId)
    // validation failures change nothing
    ensures CreateFieldsMissing(title, category, description, files) ==>
              r == Err(Coded(422, FillPostMsg)) && unchanged(db)
    ensures !CreateFieldsMissing(title, category, description, files) && files.field.None? ==>
              r == Err(Crashed) && unchanged(db)
    ensures !CreateFieldsMissing(title, category, description, files) && files.field.Some?
            && TooBig(files.field.value, ThumbnailLimit) ==>
              r == Err(Coded(422, BigThumbnailMsg)) && unchanged(db)
    // the upload is saved before the post is created, and stays when creation fails
    ensures !CreateFieldsMissing(title, category, description, files) && files.field.Some?
            && !TooBig(files.field.value, ThumbnailLimit) ==>
              db.files == old(db.files) + (if mvOk then {StoredName(files.field.value.name, uuid)} else {})
    ensures !mvOk || (category.Some? && !ValidCategory(category.value)) ==>
              db.posts == old(db.posts) && db.users == old(db.users)
    // a failed move, and the enum validator refusing the category, both end in a thrown error
    ensures !CreateFieldsMissing(title, category, description, files) && files.field.Some?
            && !TooBig(files.field.value, ThumbnailLimit) && (!mvOk || !ValidCategory(category.value)) ==>
              r == Err(Crashed)
    ensures r.Ok? <==>
              && !CreateFieldsMissing(title, category, description, files)
              && files.field.Some? && !TooBig(files.field.value, ThumbnailLimit)
              && mvOk && ValidCategory(category.value) && caller in old(db.users)
    // a successful create: one new post owned by the caller, whose counter goes up by one
    ensures r.Ok? ==>
              var id := old(db.nextPostId);
              var name := StoredName(files.field.value.name, uuid);
              && id !in old(db.posts)
              && r == Ok(201, PostDoc(id, Post(title.value, category.value, description.value, caller, name, now, now)))
              && db.posts == old(db.posts)[id := r.body.post]
              && db.users == old(db.users)[caller := old(db.users)[caller].(posts := old(db.users)[caller].posts + 1)]
              && GetPost(db, id) == Ok(200, r.body)
    // a caller that is not a stored user: the post is created, then reading the counter throws
    ensures !CreateFieldsMissing(title, category, description, files) && files.field.Some?
            && !TooBig(files.field.value, ThumbnailLimit) && mvOk && ValidCategory(category.value)
            && caller !in old(db.users) ==>
              var id := old(db.nextPostId);
              && r == Err(Crashed)
              && db.users == old(db.users)
              && db.posts == old(db.posts)[id := Post(title.value, category.value, description.value, caller,
                                                      StoredName(files.field.value.name, uuid), now, now)]
    ensures r.Err? && db.posts != old(db.posts) ==>
              r.error == Crashed && caller !in old(db.users) && db.users == old(db.users)
              && old(db.nextPostId) in db.posts
              && db.posts == old(db.posts)[old(db.nextPostId) := db.posts[old(db.nextPostId)]]
    ensures old(db.Consistent()) && caller in old(db.users) ==> db.Consistent()
  {
    if CreateFieldsMissing(title, category, description, files) {
      return Err(Coded(422, FillPostMsg));
    }
    if files.field.None? {
      // `thumbanail.size` on an undefined thumbnail
      return Err(Crashed);
    }
    var thumbanail := files.field.value;
    if TooBig(thumbanail, ThumbnailLimit) {
      return Err(Coded(422, BigThumbnailMsg));
    }
    var newFileName := StoredName(thumbanail.name, uuid);
    var moved := db.Move(newFileName, mvOk);
    if !moved {
      return Err(Crashed);
    }
    if !ValidCategory(category.value) {
      // the schema's enum validator rejects `Post.create`
      return Err(Crashed);
    }
    var id := db.nextPostId;
    var newPost := Post(title.value, category.value, description.value, caller, newFileName, now, now);
    ghost var before := db.posts;
    db.posts := db.posts[id := newPost];
    db.nextPostId := id + 1;
    if caller !in db.users {
      // `currentUser.posts` on a null user
      return Err(Crashed);
    }
    var currentUser := db.users[caller];
    var userPostCount := currentUser.posts + 1;
    db.users := db.users[caller := currentUser.(posts := userPostCount)];
    forall u | u in db.users ensures db.users[u].posts == PostCount(db.posts, u) || !old(db.Consistent()) {
      CountAfterInsert(before, id, newPost, u);
    }
    r := Ok(201, PostDoc(id, newPost));
  }

  // ================ PATCH api/posts/:id (protected)

  method EditPost(db: Db, caller: UserId, id: PostId, title: Field, category: Field, description: Field,
                  files: Files, uuid: string, unlinkOk: bool, mvOk: bool, now: nat)
    returns (r: Outcome<PostDoc>)
    requires db.Valid()
    modifies db
    ensures db.Valid()
    ensures db.users == old(db.users) && db.nextUserId == old(db.nextUserId) && db.nextPostId == old(db.nextPostId)
    ensures EditFieldsCheck(title, category, description).Some? ==>
              r == Err(EditFieldsCheck(title, category, description).value) && unchanged(db)
    ensures EditFieldsCheck(title, category, description).None? && id !in old(db.posts) ==>
              r == Err(Crashed) && unchanged(db)
    // a caller who is not the creator changes nothing
    ensures EditFieldsCheck(title, category, description).None? && id in old(db.posts)
            && caller != old(db.posts[id].creator) ==>
              r == Err(Coded(400, NotUpdatedMsg)) && unchanged(db)
    ensures r.Ok? <==>
              && EditFieldsCheck(title, category, description).None?
              && id in old(db.posts) && caller == old(db.posts[id].creator)
              && (files.NoFiles? || (files.field.Some? && !TooBig(files.field.value, ThumbnailLimit)))
    // the new thumbnail is checked only after the old one was unlinked
    ensures EditFieldsCheck(title, category, description).None? && id in old(db.posts)
            && caller == old(db.posts[id].creator) && files.Files? && r.Err? ==>
              && r.error == (if files.field.None? then Crashed else Uncoded(EditBigThumbnailMsg))
              && db.posts == old(db.posts)
              && db.files == old(db.files) - (if unlinkOk then {old(db.posts[id].thumbanail)} else {})
    // success: only title, category, description (and the thumbnail when a file came) change
    ensures r.Ok? ==>
              var p := old(db.posts[id]);
              var thumb := if files.NoFiles? then p.thumbanail else StoredName(files.field.value.name, uuid);
              && r == Ok(200, PostDoc(id, p.(title := title.value, category := category.value,
                                            description := description.value, thumbanail := thumb,
                                            updatedAt := now)))
              && db.posts == old(db.posts)[id := r.body.post]
              && GetPost(db, id) == Ok(200, r.body)
    ensures r.Ok? && files.NoFiles? ==> db.files == old(db.files)
    ensures r.Ok? && files.Files? ==>
              db.files == (old(db.files) - (if unlinkOk then {old(db.posts[id].thumbanail)} else {}))
                          + (if mvOk then {StoredName(files.field.value.name, uuid)} else {})
    ensures old(db.Consistent()) ==> db.Consistent()
  {
    var check := EditFieldsCheck(title, category, description);
    if check.Some? {
      return Err(check.value);
    }
    if id !in db.posts {
      // `oldPost.creator` on a null post
      return Err(Crashed);
    }
    var oldPost := db.posts[id];
    var updatedPost: Option<Post> := None;
    if caller == oldPost.creator {
      if files.NoFiles? {
        updatedPost := Some(oldPost.(title := title.value, category := category.value,
                                     description := description.value, updatedAt := now));
      } else {
        // the unlink is not awaited: its failure does not stop the update
        var _ := db.Unlink(oldPost.thumbanail, unlinkOk);
        if files.field.None? {
          // `thumbanail.size` on an undefined thumbnail
          return Err(Crashed);
        }
        var thumbanail := files.field.value;
        if TooBig(thumbanail, ThumbnailLimit) {
          return Err(Uncoded(EditBigThumbnailMsg));
        }
        var newFilename := StoredName(thumbanail.name, uuid);
        // the move is not awaited either
        var _ := db.Move(newFilename, mvOk);
        updatedPost := Some(oldPost.(title := title.value, category := category.value,
                                     description := description.value, thumbanail := newFilename,
                                     updatedAt := now));
      }
    }
    if updatedPost.None? {
      return Err(Coded(400, NotUpdatedMsg));
    }
    ghost var before := db.posts;
    db.posts := db.posts[id := updatedPost.value];
    forall u | u in db.users ensures db.users[u].posts == PostCount(db.posts, u) || !old(db.Consistent()) {
      CountAfterRewrite(before, id, updatedPost.value, u);
    }
    r := Ok(200, PostDoc(id, updatedPost.value));
  }

  // ================ DELETE api/posts/:id (protected)

  method DeletePost(db: Db, caller: UserId, id: Option<PostId>, unlinkOk: bool)
    returns (r: Outcome<string>)
    requires db.Valid()
    modifies db
    ensures db.Valid()
    ensures db.nextUserId == old(db.nextUserId) && db.nextPostId == old(db.nextPostId)
    ensures id.None? ==> r == Err(Coded(400, UnavailableMsg)) && unchanged(db)
    ensures id.Some? && id.value !in old(db.posts) ==> r == Err(Crashed) && unchanged(db)
    // a caller who is not the creator is refused and the post stays
    ensures id.Some? && id.value in old(db.posts) && caller != old(db.posts[id.value].creator) ==>
              r == Err(Coded(403, NotDeletedMsg)) && unchanged(db)
    // the creator always gets the confirmation, whether or not the unlink succeeded
    ensures r.Ok? <==> id.Some? && id.value in old(db.posts) && caller == old(db.posts[id.value].creator)
    ensures r.Ok? ==> r == Ok(200, DeletedMsg(id.value))
    ensures r.Ok? && !(unlinkOk && old(db.posts[id.value].thumbanail) in old(db.files)) ==> unchanged(db)
    // a successful unlink removes the file and the post and takes one from the creator's counter
    ensures r.Ok? && unlinkOk && old(db.posts[id.value].thumbanail) in old(db.files) ==>
              && db.files == old(db.files) - {old(db.posts[id.value].thumbanail)}
              && db.posts == old(db.posts) - {id.value}
              && db.users == (if caller in old(db.users)
                              then old(db.users)[caller := old(db.users)[caller].(posts := old(db.users)[caller].posts - 1)]
                              else old(db.users))
              && GetPost(db, id.value) == Err(Coded(404, PostNotFoundMsg))
    ensures old(db.Consistent()) ==> db.Consistent()
  {
    if id.None? {
      return Err(Coded(400, UnavailableMsg));
    }
    var postId := id.value;
    if postId !in db.posts {
      // `post.creator` on a null post
      return Err(Crashed);
    }
    var post := db.posts[postId];
    var fileName := post.thumbanail;
    if caller != post.creator {
      return Err(Coded(403, NotDeletedMsg));
    }
    var unlinked := db.Unlink(fileName, unlinkOk);
    if unlinked {
      ghost var before := db.posts;
      db.posts := db.posts - {postId};
      if caller in db.users {
        var currentUser := db.users[caller];
        var userPostCount := currentUser.posts - 1;
        db.users := db.users[caller := currentUser.(posts := userPostCount)];
      }
      forall u | u in db.users ensures db.users[u].posts == PostCount(db.posts, u) || !old(db.Consistent()) {
        CountAfterRemove(before, postId, u);
      }
    }
    r := Ok(200, DeletedMsg(postId));
  }
}
