/** What the route handlers promise, stated over all requests and all store answers. */
module RouterProperties {
  import opened JsValues
  import opened Models
  import opened BlogPostsRouter

  /** Two bodies agree on `key`: both lack it, or both hold the same value under it. */
  predicate AgreeOn(b1: Body, b2: Body, key: string)
  {
    (key in b1 <==> key in b2) && (key in b1 ==> b1[key] == b2[key])
  }

  /** The first missing field depends only on which of `fields` are present. */
  lemma {:induction false} FirstMissingOnlyReadsFields(fields: seq<string>, b1: Body, b2: Body)
    requires forall i :: 0 <= i < |fields| ==> (fields[i] in b1 <==> fields[i] in b2)
    ensures FirstMissing(fields, b1) == FirstMissing(fields, b2)
  {
    if fields != [] {
      FirstMissingOnlyReadsFields(fields[1..], b1, b2);
    }
  }

  /** The required-field check of create, unrolled over its three fields. */
  lemma FirstRequiredMissing(body: Body)
    ensures FirstMissing(RequiredFields, body) ==
              if "title" !in body then Some("title")
              else if "content" !in body then Some("content")
              else if "author" !in body then Some("author")
              else None
  {
    var f0 := RequiredFields;
    var f1 := ["content", "author"];
    var f2 := ["author"];
    assert f0[1..] == f1 && f1[1..] == f2 && f2[1..] == [];
    assert FirstMissing(f2, body) == if "author" !in body then Some("author") else FirstMissing([], body);
    assert FirstMissing(f1, body) == if "content" !in body then Some("content") else FirstMissing(f2, body);
    assert FirstMissing(f0, body) == if "title" !in body then Some("title") else FirstMissing(f1, body);
  }

  /** The update document depends only on the body's values under `fields`. */
  lemma UpdateDocumentOnlyReadsFields(fields: seq<string>, b1: Body, b2: Body)
    requires forall k :: k in fields ==> AgreeOn(b1, b2, k)
    ensures UpdateDocument(fields, b1) == UpdateDocument(fields, b2)
  {
    var r1, r2 := UpdateDocument(fields, b1), UpdateDocument(fields, b2);
    assert r1.Keys == r2.Keys;
    assert forall k :: k in r1 ==> r1[k] == r2[k];
  }

  // ---------------------------------------------------------------- create

  /** Create checks `title`, `content`, `author` by key presence, in that order, and
      rejects with a 400 naming the first absent one, before any store call; with all
      three present it never answers 400 (an empty-string title is accepted). */
  lemma CreateChecksFieldsInOrder(body: Body, created: Outcome<Post>)
    ensures "title" !in body ==>
              CreatePost(body, created) == Handled(None, Response(400, Text("Missing `title` in request body")))
    ensures "title" in body && "content" !in body ==>
              CreatePost(body, created) == Handled(None, Response(400, Text("Missing `content` in request body")))
    ensures "title" in body && "content" in body && "author" !in body ==>
              CreatePost(body, created) == Handled(None, Response(400, Text("Missing `author` in request body")))
    ensures "title" in body && "content" in body && "author" in body ==>
              CreatePost(body, created).response.status != 400
  {
    FirstRequiredMissing(body);
    assert MissingFieldMessage("title") == "Missing `title` in request body";
    assert MissingFieldMessage("content") == "Missing `content` in request body";
    assert MissingFieldMessage("author") == "Missing `author` in request body";
  }

  /** A create rejected without a store call answers the same whatever the store would have said. */
  lemma CreateRejectionIgnoresStore(body: Body, o1: Outcome<Post>, o2: Outcome<Post>)
    requires CreatePost(body, o1).call.None?
    ensures CreatePost(body, o2) == CreatePost(body, o1)
    ensures CreatePost(body, o1).response.status == 400 || CreatePost(body, o1).response == Response(500, ErrorPage)
  {
  }

  /** The create document holds the body's `title` and `content` unchanged and, of
      `body.author`, only its `firstName` and `lastName`. */
  lemma CreateForwardsNamedFields(body: Body, created: Outcome<Post>)
    requires CreatePost(body, created).call.Some?
    ensures "title" in body && "content" in body && "author" in body
    ensures CreatePost(body, created).call.value.Insert?
    ensures var doc := CreatePost(body, created).call.value.doc;
            && doc.title == body["title"] && doc.content == body["content"]
            && (body["author"].JObj? ==>
                  doc.author == AuthorDoc(Lookup(body["author"].fields, "firstName"),
                                          Lookup(body["author"].fields, "lastName")))
            && (!body["author"].JObj? ==> doc.author == AuthorDoc(None, None))
  {
    CreateReachesStoreOnlyWithRequired(body, created);
  }

  /** A create reaches the store only when its body holds `title`, `content` and a
      non-null `author`. */
  lemma CreateReachesStoreOnlyWithRequired(body: Body, created: Outcome<Post>)
    requires CreatePost(body, created).call.Some?
    ensures "title" in body && "content" in body && "author" in body
    ensures !body["author"].JNull?
  {
    FirstRequiredMissing(body);
  }

  /** Every body holding `title`, `content` and a non-null `author` reaches the store
      with the create document built from it, and the answer follows the store's. */
  lemma CreateSendsCompleteBody(body: Body, created: Outcome<Post>)
    requires "title" in body && "content" in body && "author" in body && !body["author"].JNull?
    ensures CreatePost(body, created).call ==
              Some(Insert(CreateDocument(body["title"], body["content"], body["author"])))
    ensures CreatePost(body, created).response ==
              if created.Ok? then Response(201, One(Serialize(created.value))) else InternalError
  {
    FirstRequiredMissing(body);
  }

  /** Nothing in the body but `title`, `content` and `author` affects the create handler. */
  lemma CreateIgnoresOtherKeys(b1: Body, b2: Body, created: Outcome<Post>)
    requires AgreeOn(b1, b2, "title") && AgreeOn(b1, b2, "content") && AgreeOn(b1, b2, "author")
    ensures CreatePost(b1, created) == CreatePost(b2, created)
  {
    FirstRequiredMissing(b1);
    FirstRequiredMissing(b2);
  }

  /** A well-formed create whose stored post is the schema's document for the
      forwarded strings (with `created` defaulted to the store's clock `now`) answers
      201 with that post serialised: its author is `firstName + " " + lastName`. */
  lemma CreateAnswersWithAuthorName(body: Body, t: string, c: string, f: string, l: string,
                                    id: string, now: Timestamp, post: Post)
    requires "title" in body && "content" in body && "author" in body
    requires body["title"] == JStr(t) && body["content"] == JStr(c)
    requires body["author"].JObj?
             && Lookup(body["author"].fields, "firstName") == Some(JStr(f))
             && Lookup(body["author"].fields, "lastName") == Some(JStr(l))
    requires Materialize(PostDraft(Some(t), Some(c), AuthorDraft(Some(f), Some(l)), None), id, now) == Some(post)
    ensures CreatePost(body, Ok(post)).call ==
              Some(Insert(CreateDoc(JStr(t), JStr(c), AuthorDoc(Some(JStr(f)), Some(JStr(l))))))
    ensures CreatePost(body, Ok(post)).response ==
              Response(201, One(SerializedPost(id, t, c, f + " " + l, now)))
  {
    FirstRequiredMissing(body);
  }

  // ---------------------------------------------------------------- update

  /** Update answers 400, without a store call and with a message quoting both ids,
      exactly when the ids are not both truthy and strictly equal and the body id can
      be turned into a string. */
  lemma UpdateRequiresMatchingIds(pathId: string, body: Body, updated: Outcome<Post>)
    ensures var h := UpdatePost(pathId, body, updated);
            h.response.status == 400 <==>
              && !(pathId != "" && "id" in body && body["id"] == JStr(pathId))
              && !("id" in body && ToStringThrows(body["id"]))
    ensures var h := UpdatePost(pathId, body, updated);
            h.response.status == 400 ==>
              && Interpolate(Lookup(body, "id")).Some?
              && h == Handled(None, Response(400, Message(MismatchMessage(pathId, Interpolate(Lookup(body, "id")).value))))
  {
    IdsMatchIff(pathId, body);
  }

  /** A body id whose string conversion throws (an object with its own `toString`
      key, or an array holding one) ends in the framework's error page, with no
      store call, whatever the path id; nothing else does. */
  lemma UpdateThrowingBodyIdIsErrorPage(pathId: string, body: Body, updated: Outcome<Post>)
    ensures UpdatePost(pathId, body, updated).response.payload.ErrorPage? <==>
              "id" in body && ToStringThrows(body["id"])
    ensures "id" in body && ToStringThrows(body["id"]) ==>
              UpdatePost(pathId, body, updated) == Handled(None, Response(500, ErrorPage))
  {
    IdsMatchIff(pathId, body);
  }

  /** A rejected update answers the same whatever the store would have said, so
      whether the path id exists does not matter: 400, or 500 when the body id
      cannot be turned into a string. */
  lemma UpdateMismatchIgnoresStore(pathId: string, body: Body, o1: Outcome<Post>, o2: Outcome<Post>)
    requires !IdsMatch(pathId, body)
    ensures UpdatePost(pathId, body, o1) == UpdatePost(pathId, body, o2)
    ensures UpdatePost(pathId, body, o1).call.None?
    ensures UpdatePost(pathId, body, o1).response.status ==
              if "id" in body && ToStringThrows(body["id"]) then 500 else 400
  {
  }

  /** `{"id": {"toString": 1}}` and `{"id": [{"toString": 1}]}` make the update
      handler throw while it builds its 400 message. */
  lemma ThrowingBodyIdScenario(pathId: string, updated: Outcome<Post>)
    ensures var obj := JObj(map["toString" := JNum(1)]);
            && UpdatePost(pathId, map["id" := obj], updated) == Handled(None, Response(500, ErrorPage))
            && UpdatePost(pathId, map["id" := JArr([JNull, obj])], updated) == Handled(None, Response(500, ErrorPage))
  {
    var obj := JObj(map["toString" := JNum(1)]);
    assert ToStringThrows(JArr([JNull, obj])) by {
      assert JArr([JNull, obj]).items[1] == obj;
    }
  }

  /** The update document holds exactly the whitelisted keys present in the body,
      with their values unchanged; `id` and any other key never appear. */
  lemma UpdateDocumentIsWhitelist(body: Body)
    ensures UpdateDocument(UpdatableFields, body).Keys == body.Keys * {"title", "content", "author"}
    ensures forall k :: k in UpdateDocument(UpdatableFields, body) ==> UpdateDocument(UpdatableFields, body)[k] == body[k]
    ensures "id" !in UpdateDocument(UpdatableFields, body)
  {
    var r := UpdateDocument(UpdatableFields, body);
    assert forall k :: k in UpdatableFields <==> k in {"title", "content", "author"} by {
      assert UpdatableFields == ["title", "content", "author"];
    }
    assert r.Keys == body.Keys * {"title", "content", "author"};
  }

  /** An accepted update sends the whitelist projection of the body to the store. */
  lemma UpdateSendsWhitelist(pathId: string, body: Body, updated: Outcome<Post>)
    requires pathId != "" && "id" in body && body["id"] == JStr(pathId)
    ensures UpdatePost(pathId, body, updated).call ==
              Some(UpdateById(pathId, map k | k in body.Keys * {"title", "content", "author"} :: body[k]))
  {
    IdsMatchIff(pathId, body);
    UpdateDocumentIsWhitelist(body);
    var r := UpdateDocument(UpdatableFields, body);
    assert r == map k | k in body.Keys * {"title", "content", "author"} :: body[k];
  }

  /** An accepted update with none of the whitelisted fields sends an empty document
      and still answers 204 unless the store fails. */
  lemma EmptyUpdateStillSucceeds(pathId: string, body: Body, updated: Outcome<Post>)
    requires pathId != "" && "id" in body && body["id"] == JStr(pathId)
    requires "title" !in body && "content" !in body && "author" !in body
    requires !updated.Err?
    ensures UpdatePost(pathId, body, updated) == Handled(Some(UpdateById(pathId, map[])), Response(204, NoBody))
  {
    IdsMatchIff(pathId, body);
    UpdateDocumentIsWhitelist(body);
    assert UpdateDocument(UpdatableFields, body).Keys == {};
  }

  /** Nothing in the body but `id`, `title`, `content` and `author` affects the update handler. */
  lemma UpdateIgnoresOtherKeys(pathId: string, b1: Body, b2: Body, updated: Outcome<Post>)
    requires AgreeOn(b1, b2, "id") && AgreeOn(b1, b2, "title")
             && AgreeOn(b1, b2, "content") && AgreeOn(b1, b2, "author")
    ensures UpdatePost(pathId, b1, updated) == UpdatePost(pathId, b2, updated)
  {
    IdsMatchIff(pathId, b1);
    IdsMatchIff(pathId, b2);
    assert forall k :: k in UpdatableFields ==> AgreeOn(b1, b2, k) by {
      assert UpdatableFields == ["title", "content", "author"];
    }
    UpdateDocumentOnlyReadsFields(UpdatableFields, b1, b2);
  }

  // ---------------------------------------------------------------- all handlers

  /** Every store failure, on every route that reached the store, answers the fixed 500. */
  lemma StoreFailureIsInternalError(id: string, body: Body)
    ensures ListPosts(Err).response == InternalError
    ensures GetPost(id, Err).response == InternalError
    ensures CreatePost(body, Err).call.Some? ==> CreatePost(body, Err).response == InternalError
    ensures UpdatePost(id, body, Err).call.Some? ==> UpdatePost(id, body, Err).response == InternalError
    ensures DeletePost(id, Err).response == InternalError
    ensures InternalError.status == 500
  {
  }

  /** Get and delete address the store with the path id, for every store answer, and
      list always asks for the 20 most recent posts. */
  lemma StoreCallsFollowRequest(id: string, o: Outcome<Post>, found: Outcome<seq<Post>>)
    ensures GetPost(id, o).call == Some(FindById(id))
    ensures DeletePost(id, o).call == Some(RemoveById(id))
    ensures ListPosts(found).call == Some(FindRecent(20))
  {
  }

  /** A list or get that finds nothing answers the same fixed 500 as a store failure; update
      and delete of an id with no post answer 204. */
  lemma NotFoundAnswers(id: string, body: Body)
    ensures ListPosts(NotFound).response == InternalError
    ensures GetPost(id, NotFound).response == InternalError
    ensures UpdatePost(id, body, NotFound).call.Some? ==> UpdatePost(id, body, NotFound).response == Response(204, NoBody)
    ensures DeletePost(id, NotFound).response == Response(204, NoBody)
  {
  }

  /** The success answers: 200 for list and get, 201 with the serialised post for create,
      204 with no body for update and delete. */
  lemma SuccessStatuses(id: string, body: Body, posts: seq<Post>, post: Post)
    ensures ListPosts(Ok(posts)).response.status == 200
    ensures GetPost(id, Ok(post)).response == Response(200, One(Serialize(post)))
    ensures CreatePost(body, Ok(post)).call.Some? ==>
              CreatePost(body, Ok(post)).response == Response(201, One(Serialize(post)))
    ensures UpdatePost(id, body, Ok(post)).call.Some? ==> UpdatePost(id, body, Ok(post)).response == Response(204, NoBody)
    ensures DeletePost(id, Ok(post)).response == Response(204, NoBody)
  {
  }

  /** The list asks for at most 20 posts and serialises what it gets in order; a store
      that honours the limit yields at most 20 serialised posts. */
  lemma ListSerializesInOrder(posts: seq<Post>)
    ensures ListPosts(Ok(posts)).call == Some(FindRecent(20))
    ensures var p := ListPosts(Ok(posts)).response.payload;
            && p.Many? && |p.posts| == |posts|
            && (forall i :: 0 <= i < |posts| ==> p.posts[i] == Serialize(posts[i]))
    ensures |posts| <= ListLimit ==> |ListPosts(Ok(posts)).response.payload.posts| <= 20
  {
  }

  // ---------------------------------------------------------------- scenarios

  /** A create without `content` answers 400 with ``Missing `content` in request body``. */
  lemma MissingContentScenario(created: Outcome<Post>)
    ensures var body := map["title" := JStr("T"),
                            "author" := JObj(map["firstName" := JStr("A"), "lastName" := JStr("B")])];
            CreatePost(body, created) == Handled(None, Response(400, Text("Missing `content` in request body")))
  {
    var body := map["title" := JStr("T"),
                    "author" := JObj(map["firstName" := JStr("A"), "lastName" := JStr("B")])];
    CreateChecksFieldsInOrder(body, created);
  }

  /** Updating only the title sends just the new title to the store and answers 204. */
  lemma UpdateTitleScenario(id: string, updated: Outcome<Post>)
    requires id != "" && !updated.Err?
    ensures UpdatePost(id, map["id" := JStr(id), "title" := JStr("T2")], updated) ==
              Handled(Some(UpdateById(id, map["title" := JStr("T2")])), Response(204, NoBody))
  {
    var body := map["id" := JStr(id), "title" := JStr("T2")];
    UpdateSendsWhitelist(id, body, updated);
    assert body.Keys * {"title", "content", "author"} == {"title"};
    assert (map k | k in body.Keys * {"title", "content", "author"} :: body[k]) == map["title" := JStr("T2")];
  }
}
