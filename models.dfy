/** The blog post record of models.js: the schema's shape and required paths,
    the `authorName` virtual and the `serialize` method. */
module Models {
  import opened JsValues

  /** The `created` date, an opaque point in time (milliseconds since the epoch). */
  type Timestamp = int

  datatype Author = Author(firstName: string, lastName: string)

  /** A stored post; `id` is the store-generated `_id` in its string form. */
  datatype Post = Post(id: string, title: string, content: string, author: Author, created: Timestamp)

  /** The API-facing shape: exactly the five keys `id`, `title`, `content`,
      `author` (a display string) and `created`. */
  datatype SerializedPost = SerializedPost(id: string, title: string, content: string, author: string, created: Timestamp)

  /** The fields handed to the schema when a document is built; any path may be absent. */
  datatype AuthorDraft = AuthorDraft(firstName: Option<string>, lastName: Option<string>)
  datatype PostDraft = PostDraft(title: Option<string>, content: Option<string>, author: AuthorDraft, created: Option<Timestamp>)

  /** A `{type: String, required: true}` path is satisfied by a non-empty string
      (the required validator of a string path rejects the empty string). */
  predicate RequiredString(v: Option<string>)
  {
    v.Some? && v.value != ""
  }

  /** The schema's required paths: `title`, `content`, `author.firstName`, `author.lastName`.
      `created` is not required. */
  predicate Valid(d: PostDraft)
  {
    && RequiredString(d.title)
    && RequiredString(d.content)
    && RequiredString(d.author.firstName)
    && RequiredString(d.author.lastName)
  }

  /** The invariant of a post created through the schema. An update is written
      without running the required validators, so an updated post need not keep it. */
  predicate Persisted(p: Post)
  {
    p.title != "" && p.content != "" && p.author.firstName != "" && p.author.lastName != ""
  }

  /** Building a document from a draft: validation against the required paths, then
      the `created` default (the current time `now`) when the draft has none. */
  function Materialize(d: PostDraft, id: string, now: Timestamp): (r: Option<Post>)
    ensures r.Some? <==> Valid(d)
    ensures r.Some? ==> Persisted(r.value)
    ensures r.Some? ==> && r.value.id == id
                        && d.title == Some(r.value.title)
                        && d.content == Some(r.value.content)
                        && d.author == AuthorDraft(Some(r.value.author.firstName), Some(r.value.author.lastName))
    ensures r.Some? ==> r.value.created == (if d.created.Some? then d.created.value else now)
  {
    if Valid(d) then
      Some(Post(id, d.title.value, d.content.value,
                Author(d.author.firstName.value, d.author.lastName.value),
                match d.created case Some(t) => t case None => now))
    else None
  }

  /** The draft that holds every field of a post. */
  function DraftOf(p: Post): PostDraft
  {
    PostDraft(Some(p.title), Some(p.content), AuthorDraft(Some(p.author.firstName), Some(p.author.lastName)), Some(p.created))
  }

  /** A post survives the schema unchanged exactly when it satisfies the persisted invariant. */
  lemma MaterializeDraftOf(p: Post, now: Timestamp)
    ensures Materialize(DraftOf(p), p.id, now) == (if Persisted(p) then Some(p) else None)
  {
  }

  /** The `authorName` virtual. */
  function AuthorName(a: Author): string
  {
    a.firstName + " " + a.lastName
  }

  /** Reads a display name back: everything before the first space is the first
      name, everything after it the last name. */
  function SplitAuthorName(name: string): (a: Author)
    ensures |a.firstName| <= |name|
    ensures ' ' !in a.firstName
  {
    if name == [] then Author("", "")
    else if name[0] == ' ' then Author("", name[1..])
    else
      var rest := SplitAuthorName(name[1..]);
      Author([name[0]] + rest.firstName, rest.lastName)
  }

  /** `authorName` loses nothing when the first name has no space in it. */
  lemma {:induction false} SplitAuthorNameRoundTrip(a: Author)
    requires ' ' !in a.firstName
    ensures SplitAuthorName(AuthorName(a)) == a
    decreases |a.firstName|
  {
    if a.firstName != [] {
      var tail := Author(a.firstName[1..], a.lastName);
      SplitAuthorNameRoundTrip(tail);
      assert AuthorName(a) == [a.firstName[0]] + AuthorName(tail);
      assert AuthorName(a)[1..] == AuthorName(tail);
      assert [a.firstName[0]] + a.firstName[1..] == a.firstName;
    } else {
      assert AuthorName(a) == [' '] + a.lastName;
      assert AuthorName(a)[1..] == a.lastName;
    }
  }

  /** The display name starts with the first name and ends with the last name,
      separated by exactly one space. */
  lemma AuthorNameParts(a: Author)
    ensures |AuthorName(a)| == |a.firstName| + 1 + |a.lastName|
    ensures AuthorName(a)[..|a.firstName|] == a.firstName
    ensures AuthorName(a)[|a.firstName|] == ' '
    ensures AuthorName(a)[|a.firstName| + 1..] == a.lastName
  {
  }

  /** The `serialize` method. */
  function Serialize(p: Post): SerializedPost
  {
    SerializedPost(p.id, p.title, p.content, AuthorName(p.author), p.created)
  }

  /** Two posts serialise alike exactly when they agree on id, title, content and
      created and their authors have the same display name. */
  lemma SerializeAgreement(p: Post, q: Post)
    ensures Serialize(p) == Serialize(q) <==>
              && p.id == q.id && p.title == q.title && p.content == q.content
              && p.created == q.created && AuthorName(p.author) == AuthorName(q.author)
  {
  }

  /** The composite author can be read back from the serialised display string
      when the first name has no space in it. */
  lemma SerializedAuthorRecoversAuthor(p: Post)
    requires ' ' !in p.author.firstName
    ensures SplitAuthorName(Serialize(p).author) == p.author
  {
    SplitAuthorNameRoundTrip(p.author);
  }

  /** Serialisation is injective on posts whose first names contain no space. */
  lemma SerializeInjective(p: Post, q: Post)
    requires ' ' !in p.author.firstName && ' ' !in q.author.firstName
    requires Serialize(p) == Serialize(q)
    ensures p == q
  {
    SplitAuthorNameRoundTrip(p.author);
    SplitAuthorNameRoundTrip(q.author);
  }

  /** `posts.map(post => post.serialize())`. */
  function SerializeAll(posts: seq<Post>): (r: seq<SerializedPost>)
    ensures |r| == |posts|
    ensures forall i :: 0 <= i < |posts| ==> r[i] == Serialize(posts[i])
  {
    if posts == [] then [] else [Serialize(posts[0])] + SerializeAll(posts[1..])
  }
}
