/** The Post record of the schema: its fields, the category enumeration and the
    timestamps the store maintains. */
module PostModel {
  import opened UserModel

  type PostId = nat

  /** The category enumeration, spelled as the schema spells it. */
  const Categories: seq<string> :=
    ["Agriculture", "Bussinise", "Education", "Entertaiment", "Art", "Investment", "Uncategorized", "Weather"]

  /** The enum validator the store runs when a post is created. */
  predicate ValidCategory(c: string) {
    c in Categories
  }

  /** Exactly these eight spellings are accepted, and they are eight distinct strings. */
  lemma CategoryEnumeration(c: string)
    ensures ValidCategory(c) <==>
      c == "Agriculture" || c == "Bussinise" || c == "Education" || c == "Entertaiment" ||
      c == "Art" || c == "Investment" || c == "Uncategorized" || c == "Weather"
    ensures forall i, j :: 0 <= i < j < |Categories| ==> Categories[i] != Categories[j]
  {
  }

  /** A stored post. `creator` is the id of a user, not an embedded user;
      `createdAt` is set on creation and `updatedAt` on creation and on every update.
      The schema's `require` options are not Mongoose's `required`, so nothing here
      forces title, description or thumbnail to be present: only the handlers check them. */
  datatype Post = Post(
    title: string,
    category: string,
    description: string,
    creator: UserId,
    thumbanail: string,
    createdAt: nat,
    updatedAt: nat)

  /** A post document as returned to clients: the post and its id. */
  datatype PostDoc = PostDoc(id: PostId, post: Post)
}
