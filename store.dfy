/** The state the handlers work on: the user and post collections of the document
    store and the set of file names in the uploads directory. */
module Store {
  import opened UserModel
  import opened PostModel

  /** The ids of the stored posts that name `u` as their creator. */
  ghost function CreatedBy(posts: map<PostId, Post>, u: UserId): set<PostId> {
    set id | id in posts && posts[id].creator == u
  }

  /** How many stored posts name `u` as their creator: the number the
      denormalised `User.posts` counter stands for. */
  ghost function PostCount(posts: map<PostId, Post>, u: UserId): nat {
    |CreatedBy(posts, u)|
  }

  /** A new post adds one to its creator's count and nothing to anyone else's. */
  lemma CountAfterInsert(posts: map<PostId, Post>, id: PostId, p: Post, u: UserId)
    requires id !in posts
    ensures PostCount(posts[id := p], u) == PostCount(posts, u) + (if p.creator == u then 1 else 0)
  {
    var after := posts[id := p];
    if p.creator == u {
      assert CreatedBy(after, u) == CreatedBy(posts, u) + {id};
    } else {
      assert CreatedBy(after, u) == CreatedBy(posts, u);
    }
  }

  /** Removing a post takes one from its creator's count and nothing from anyone else's. */
  lemma CountAfterRemove(posts: map<PostId, Post>, id: PostId, u: UserId)
    requires id in posts
    ensures PostCount(posts - {id}, u) == PostCount(posts, u) - (if posts[id].creator == u then 1 else 0)
  {
    var after := posts - {id};
    if posts[id].creator == u {
      assert CreatedBy(posts, u) == CreatedBy(after, u) + {id};
    } else {
      assert CreatedBy(after, u) == CreatedBy(posts, u);
    }
  }

  /** Rewriting a post without changing its creator changes no count. */
  lemma CountAfterRewrite(posts: map<PostId, Post>, id: PostId, p: Post, u: UserId)
    requires id in posts && p.creator == posts[id].creator
    ensures PostCount(posts[id := p], u) == PostCount(posts, u)
  {
    var after := posts[id := p];
    assert CreatedBy(after, u) == CreatedBy(posts, u);
  }

  class Db {
    var users: map<UserId, User>
    var posts: map<PostId, Post>
    /** Names of the files in the uploads directory. */
    var files: set<string>
    /** Ids the store has not handed out yet. */
    var nextUserId: nat
    var nextPostId: nat

    /** The store's invariant: ids are below the next fresh id, and no two users
        share an email string. */
    ghost predicate Valid()
      reads this
    {
      && (forall id :: id in users ==> id < nextUserId)
      && (forall id :: id in posts ==> id < nextPostId)
      && EmailsUnique(users)
    }

    /** The counters agree with the posts: every post's creator is a stored user,
        and each user's `posts` field is the number of posts they created. The
        handlers keep this by separate writes, not as part of `Valid`. */
    ghost predicate Consistent()
      reads this
    {
      && (forall id :: id in posts ==> posts[id].creator in users)
      && (forall u :: u in users ==> users[u].posts == PostCount(posts, u))
    }

    constructor ()
      ensures Valid() && Consistent()
      ensures users == map[] && posts == map[] && files == {}
    {
      users, posts, files := map[], map[], {};
      nextUserId, nextPostId := 0, 0;
    }

    /** `fs.unlink`: fails when the file is absent or the file system reports an
        error (`ioOk` false). */
    method Unlink(name: string, ioOk: bool) returns (ok: bool)
      modifies this`files
      ensures ok <==> ioOk && name in old(files)
      ensures files == if ok then old(files) - {name} else old(files)
    {
      ok := ioOk && name in files;
      if ok {
        files := files - {name};
      }
    }

    /** `file.mv`: moves an upload into the uploads directory under `name`,
        unless the file system reports an error. */
    method Move(name: string, ioOk: bool) returns (ok: bool)
      modifies this`files
      ensures ok == ioOk
      ensures files == if ok then old(files) + {name} else old(files)
    {
      ok := ioOk;
      if ok {
        files := files + {name};
      }
    }
  }
}
