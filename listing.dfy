/** The post queries behind the list endpoints: `Post.find(filter).sort({ field: -1 })`.
    The store's own search and sort are not modelled; a query is stated as "every
    matching post exactly once, most recent first", and computed by a scan in id
    order followed by an insertion sort. */
module Listing {
  import opened UserModel
  import opened PostModel

  /** The filter object passed to `Post.find`. */
  datatype Filter = AnyPost | CategoryIs(category: string) | CreatorIs(creator: UserId)

  predicate Matches(f: Filter, p: Post) {
    match f
    case AnyPost => true
    case CategoryIs(c) => p.category == c
    case CreatorIs(u) => p.creator == u
  }

  /** The timestamp a list is sorted on. */
  datatype SortField = CreatedAt | UpdatedAt

  function Stamp(d: PostDoc, field: SortField): nat {
    match field
    case CreatedAt => d.post.createdAt
    case UpdatedAt => d.post.updatedAt
  }

  /** Sorted by `field` descending (`-1`): timestamps never increase along the list. */
  predicate NewestFirst(s: seq<PostDoc>, field: SortField) {
    forall i, j :: 0 <= i < j < |s| ==> Stamp(s[j], field) <= Stamp(s[i], field)
  }

  /** `d` is a stored post with its own id. */
  ghost predicate Stored(posts: map<PostId, Post>, d: PostDoc) {
    d.id in posts && posts[d.id] == d.post
  }

  /** The stored posts with id below `n` that match `f`, each exactly once. */
  function Find(posts: map<PostId, Post>, n: nat, f: Filter): (r: seq<PostDoc>)
    ensures forall d :: multiset(r)[d] == if d.id < n && Stored(posts, d) && Matches(f, d.post) then 1 else 0
    decreases n
  {
    if n == 0 then []
    else
      var k := n - 1;
      Find(posts, k, f) + if k in posts && Matches(f, posts[k]) then [PostDoc(k, posts[k])] else []
  }

  /** Putting in front an element no older than anything in a sorted list keeps it sorted. */
  lemma PrependNewest(x: PostDoc, s: seq<PostDoc>, field: SortField)
    requires NewestFirst(s, field)
    requires forall y :: y in s ==> Stamp(y, field) <= Stamp(x, field)
    ensures NewestFirst([x] + s, field)
  {
    var r := [x] + s;
    forall i, j | 0 <= i < j < |r| ensures Stamp(r[j], field) <= Stamp(r[i], field) {
      assert r[j] == s[j - 1];
      if i > 0 {
        assert r[i] == s[i - 1];
      }
    }
  }

  /** Inserts `d` into a list sorted newest first, keeping it sorted. */
  function Insert(d: PostDoc, s: seq<PostDoc>, field: SortField): (r: seq<PostDoc>)
    requires NewestFirst(s, field)
    ensures NewestFirst(r, field)
    ensures multiset(r) == multiset(s) + multiset{d}
    ensures forall x :: x in r ==> x == d || x in s
    decreases |s|
  {
    if s == [] then [d]
    else if Stamp(s[0], field) <= Stamp(d, field) then
      assert forall y :: y in s ==> Stamp(y, field) <= Stamp(s[0], field) by {
        forall y | y in s ensures Stamp(y, field) <= Stamp(s[0], field) {
          var j :| 0 <= j < |s| && s[j] == y;
        }
      }
      PrependNewest(d, s, field);
      [d] + s
    else
      var t := s[1..];
      assert s == [s[0]] + t;
      var rest := Insert(d, t, field);
      assert forall y :: y in rest ==> Stamp(y, field) <= Stamp(s[0], field) by {
        forall y | y in rest ensures Stamp(y, field) <= Stamp(s[0], field) {
          if y != d {
            var j :| 0 <= j < |t| && t[j] == y;
            assert s[j + 1] == y;
          }
        }
      }
      PrependNewest(s[0], rest, field);
      [s[0]] + rest
  }

  /** `.sort({ field: -1 })`: a newest-first permutation of the input. */
  function Sort(s: seq<PostDoc>, field: SortField): (r: seq<PostDoc>)
    ensures NewestFirst(r, field)
    ensures multiset(r) == multiset(s)
    decreases |s|
  {
    if s == [] then []
    else
      assert s == [s[0]] + s[1..];
      Insert(s[0], Sort(s[1..], field), field)
  }
}
