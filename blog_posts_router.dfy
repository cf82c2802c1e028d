/** The decisions of the five route handlers of blogPostsRouter.js. Each handler
    is a function of the request and of what the store answered; it says which
    store call it makes (if any) and which response it sends. The store's answer
    is only consulted when a call is made. */
module BlogPostsRouter {
  import opened JsValues
  import opened Models

  /** What a store operation settled with: a value, nothing (`null`), or a rejection. */
  datatype Outcome<T> = Ok(value: T) | NotFound | Err

  /** The author sub-document of a create call: the two properties read from `body.author`. */
  datatype AuthorDoc = AuthorDoc(firstName: Option<Json>, lastName: Option<Json>)

  /** The document a create call passes to the store. */
  datatype CreateDoc = CreateDoc(title: Json, content: Json, author: AuthorDoc)

  /** The store calls the handlers make. */
  datatype StoreOp =
    | FindRecent(limit: nat)
    | FindById(id: string)
    | Insert(doc: CreateDoc)
    | UpdateById(id: string, changes: map<string, Json>)
    | RemoveById(id: string)

  datatype Payload =
    | NoBody                              // `res.end()`
    | Text(text: string)                  // `res.send(text)`
    | Message(message: string)            // `res.json({message})`
    | One(post: SerializedPost)           // `res.json(post.serialize())`
    | Many(posts: seq<SerializedPost>)    // `res.json({posts})`
    | ErrorPage                           // the framework's default page for an uncaught throw

  datatype Response = Response(status: int, payload: Payload)

  /** The handling of one request: the store call made, if any, and the response sent. */
  datatype Handled = Handled(call: Option<StoreOp>, response: Response)

  const ListLimit: nat := 20
  const RequiredFields: seq<string> := ["title", "content", "author"]
  const UpdatableFields: seq<string> := ["title", "content", "author"]
  const InternalError: Response := Response(500, Message("Internal server error"))

  // ---------------------------------------------------------------- create

  /** The first of `fields` that is not a key of `body`, if any. */
  function FirstMissing(fields: seq<string>, body: Body): (r: Option<string>)
    ensures r.None? <==> forall i :: 0 <= i < |fields| ==> fields[i] in body
    ensures r.Some? ==> exists i :: && 0 <= i < |fields| && fields[i] == r.value && fields[i] !in body
                                    && forall j :: 0 <= j < i ==> fields[j] in body
  {
    if fields == [] then None
    else if fields[0] !in body then Some(fields[0])
    else
      var r := FirstMissing(fields[1..], body);
      assert r.Some? ==> exists i :: && 0 <= i < |fields| && fields[i] == r.value && fields[i] !in body
                                     && forall j :: 0 <= j < i ==> fields[j] in body by {
        if r.Some? {
          var k :| && 0 <= k < |fields[1..]| && fields[1..][k] == r.value && fields[1..][k] !in body
                   && forall j :: 0 <= j < k ==> fields[1..][j] in body;
          assert forall j :: 0 <= j < k + 1 ==> fields[j] in body by {
            forall j | 0 <= j < k + 1 ensures fields[j] in body {
              if j > 0 { assert fields[j] == fields[1..][j - 1]; }
            }
          }
        }
      }
      r
  }

  /** The required-field loop of the create handler: key presence (`field in body`),
      checked in order, stopping at the first key that is absent. */
  method FindMissingField(fields: seq<string>, body: Body) returns (missing: Option<string>)
    ensures missing == FirstMissing(fields, body)
  {
    var i := 0;
    while i < |fields|
      invariant 0 <= i <= |fields|
      invariant FirstMissing(fields, body) == FirstMissing(fields[i..], body)
    {
      var field := fields[i];
      if field !in body {
        return Some(field);
      }
      assert fields[i..][1..] == fields[i + 1..];
      i := i + 1;
    }
    return None;
  }

  /** The 400 text naming a missing field. */
  function MissingFieldMessage(field: string): string
  {
    "Missing `" + field + "` in request body"
  }

  /** Different fields give different messages, so a client can tell which one was missing. */
  lemma MissingFieldMessageInjective(f: string, g: string)
    requires MissingFieldMessage(f) == MissingFieldMessage(g)
    ensures f == g
  {
    var m := MissingFieldMessage(f);
    assert |f| == |g|;
    assert m[9..9 + |f|] == f;
    assert MissingFieldMessage(g)[9..9 + |g|] == g;
  }

  /** The document sent to the store: `title` and `content` as given, and an
      author holding only `firstName` and `lastName` read from `body.author`. */
  function CreateDocument(title: Json, content: Json, author: Json): CreateDoc
    requires !author.JNull?
  {
    CreateDoc(title, content, AuthorDoc(Property(author, "firstName"), Property(author, "lastName")))
  }

  /** `POST /`. */
  function CreatePost(body: Body, created: Outcome<Post>): Handled
  {
    match FirstMissing(RequiredFields, body)
    case Some(field) => Handled(None, Response(400, Text(MissingFieldMessage(field))))
    case None =>
      assert RequiredFields[0] == "title" && RequiredFields[1] == "content" && RequiredFields[2] == "author";
      if body["author"].JNull? then
        // reading `firstName` of `null` throws before the store is called
        Handled(None, Response(500, ErrorPage))
      else
        var doc := CreateDocument(body["title"], body["content"], body["author"]);
        Handled(Some(Insert(doc)),
                match created
                case Ok(post) => Response(201, One(Serialize(post)))
                case _ => InternalError)
  }

  // ---------------------------------------------------------------- update

  /** The id guard of the update handler: both ids truthy and strictly equal. */
  predicate IdsMatch(pathId: string, body: Body)
  {
    var bodyId := Lookup(body, "id");
    Truthy(Some(JStr(pathId))) && Truthy(bodyId) && StrictEqualsString(pathId, bodyId)
  }

  /** The guard holds exactly when the path id is non-empty and the body holds
      the very same string under `id`. */
  lemma IdsMatchIff(pathId: string, body: Body)
    ensures IdsMatch(pathId, body) <==> pathId != "" && "id" in body && body["id"] == JStr(pathId)
  {
  }

  /** The 400 message of a rejected update, quoting the path id and the text the
      template literal made of the body id. */
  function MismatchMessage(pathId: string, bodyIdText: string): string
  {
    "Request path id (" + pathId + ") and request body id " + "(" + bodyIdText + ") must match"
  }

  /** The message quotes the path id at a fixed place and the body id right after
      the path id's fixed text. */
  lemma MismatchMessageQuotesIds(pathId: string, bodyIdText: string)
    ensures var m := MismatchMessage(pathId, bodyIdText);
            var k := 17 + |pathId| + 23;
            && m[17..17 + |pathId|] == pathId
            && k + |bodyIdText| <= |m|
            && m[k..k + |bodyIdText|] == bodyIdText
  {
    var head := "Request path id (";
    var middle := ") and request body id " + "(";
    var m := MismatchMessage(pathId, bodyIdText);
    assert |head| == 17 && |middle| == 23;
    assert m == head + pathId + middle + bodyIdText + ") must match";
  }

  /** The `toUpdate` object built by the `forEach` over `fields`: each field present
      in the body is copied, in order. */
  function UpdateDocument(fields: seq<string>, body: Body): (r: map<string, Json>)
    ensures forall k :: k in r <==> k in fields && k in body
    ensures forall k :: k in r ==> r[k] == body[k]
  {
    if fields == [] then map[]
    else
      var done := UpdateDocument(fields[..|fields| - 1], body);
      var field := fields[|fields| - 1];
      assert forall k :: k in fields <==> k in fields[..|fields| - 1] || k == field by {
        assert fields == fields[..|fields| - 1] + [field];
      }
      if field in body then done[field := body[field]] else done
  }

  /** The `forEach` loop that fills `toUpdate`. */
  method BuildUpdate(fields: seq<string>, body: Body) returns (toUpdate: map<string, Json>)
    ensures toUpdate == UpdateDocument(fields, body)
  {
    toUpdate := map[];
    var i := 0;
    while i < |fields|
      invariant 0 <= i <= |fields|
      invariant toUpdate == UpdateDocument(fields[..i], body)
    {
      var field := fields[i];
      assert fields[..i + 1][..i] == fields[..i];
      if field in body {
        toUpdate := toUpdate[field := body[field]];
      }
      i := i + 1;
    }
    assert fields[..|fields|] == fields;
  }

  /** `PUT /:id`. The store answering `null` (no such post) still ends in 204. The
      changes go to the store without the schema's required validators. */
  function UpdatePost(pathId: string, body: Body, updated: Outcome<Post>): Handled
  {
    if !IdsMatch(pathId, body) then
      match Interpolate(Lookup(body, "id"))
      case Some(bodyIdText) => Handled(None, Response(400, Message(MismatchMessage(pathId, bodyIdText))))
      case None =>
        // building the message throws before any response is sent
        Handled(None, Response(500, ErrorPage))
    else
      Handled(Some(UpdateById(pathId, UpdateDocument(UpdatableFields, body))),
              if updated.Err? then InternalError else Response(204, NoBody))
  }

  // ---------------------------------------------------------------- list, get, delete

  /** `GET /`. A `null` answer would make `posts.map` throw inside the promise chain. */
  function ListPosts(found: Outcome<seq<Post>>): Handled
  {
    Handled(Some(FindRecent(ListLimit)),
            match found
            case Ok(posts) => Response(200, Many(SerializeAll(posts)))
            case _ => InternalError)
  }

  /** `GET /:id`. No post found makes `post.serialize()` throw inside the promise chain. */
  function GetPost(id: string, found: Outcome<Post>): Handled
  {
    Handled(Some(FindById(id)),
            match found
            case Ok(post) => Response(200, One(Serialize(post)))
            case _ => InternalError)
  }

  /** `DELETE /:id`. Removing an id that is not there still ends in 204. */
  function DeletePost(id: string, removed: Outcome<Post>): Handled
  {
    Handled(Some(RemoveById(id)), if removed.Err? then InternalError else Response(204, NoBody))
  }
}
