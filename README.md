# Blog posts API: request decisions and post serialisation

This project models the logic of a small REST API for blog posts. The API has five
routes under `/blog-posts`: list, get by id, create, update and delete. The model
covers two things:

- **The route handlers' decisions** (`blogPostsRouter.js`). Each handler is a pure
  function of the request (path id and parsed JSON body) and of what the store
  answered. It returns a `Handled` value: the store call it makes, if any, and the
  response (status and payload). The store's answer is an abstract `Outcome`:
  `Ok(value)`, `NotFound` (the store settled with `null`) or `Err` (the store
  rejected). A handler that answers before calling the store has `call == None`, and
  then its response does not depend on the outcome.
- **The post record** (`models.js`). This covers the schema's required paths as a
  validity predicate, the `created` default, the `authorName` virtual and `serialize`.

The two loops in the create and update handlers are modelled as methods with `while`
loops: the required-field check and the `forEach` that builds `toUpdate`. Each method
is proved equal to a recursive specification function (`FirstMissing`,
`UpdateDocument`). The handler functions use those specification functions.

Modules:

- `JsValues` (`js_values.dfy`): the JSON values a body may hold, JavaScript
  truthiness, strict equality with a string, and template-literal stringification.
- `Models` (`models.dfy`): `Post`, `Author`, `SerializedPost`, schema validity,
  `Materialize`, `AuthorName`, `Serialize`.
- `BlogPostsRouter` (`blog_posts_router.dfy`): the handlers, the two loops and
  their specification functions, and the messages.
- `RouterProperties` (`router_properties.dfy`): lemmas about the handlers over
  all requests and all store answers.

Some behaviour of the code differs from what a REST client might expect. The model
follows the code:

- An update or delete of an id that has no post answers 204, not 500. The store
  settles with `null` and the `then` branch ends the response with 204.
- A get of an id that has no post answers 500. `post.serialize()` throws on `null`
  inside `then`, and the `catch` sends the fixed 500.
- A create whose `author` is JSON `null` reads a property of `null`. That throws
  synchronously, before the store is called. The framework's default error page is
  then sent with status 500 (payload `ErrorPage`), not the JSON 500.
- A required string path counts as satisfied only when the string is non-empty.
  The required validator for string paths rejects the empty string. The create
  handler itself checks only that the key is present, so an empty `title` passes
  the handler and is left for the store to reject.
- An update is written with `$set` and without the schema's validators, so an update
  may leave a post that no longer satisfies `Persisted`. For example
  `{"id": "x", "title": ""}` on path `x` sends `UpdateById("x", {title: ""})` and
  answers 204.
- A rejected update whose body `id` is an object with its own `toString` key (or an
  array holding one, at any depth) does not answer 400. Building the message turns
  the body id into a string. That conversion throws a `TypeError`, because the
  parsed `toString` is data, not a function. The framework's default error page is
  then sent with status 500 (payload `ErrorPage`), and no store call is made.

## Model

| member | source | states |
|---|---|---|
| `JsValues.Property` | blogPostsRouter.js:60-61 | reading `firstName`/`lastName` of a non-null body value yields a value only for an object that has that key, and then that key's value |
| `JsValues.Interpolate` | blogPostsRouter.js:77-78 | the interpolation throws exactly when the body id's string conversion throws; a string id is inserted as itself, and an absent body id as `undefined` |
| `JsValues.ToStringThrows` | blogPostsRouter.js:77-78 | when `String(j)` throws for a parsed JSON value: an object with its own `toString` key, or an array with such an element; `JsonToString` fails exactly then |
| `Models.Materialize` | models.js:5-13 | a draft becomes a post exactly when `title`, `content`, `author.firstName` and `author.lastName` are present and non-empty; the post keeps those values and the given id, satisfies the persisted invariant, and `created` defaults to `now` when absent |
| `Models.MaterializeDraftOf` | models.js:5-13 | a post taken as a draft is rebuilt unchanged exactly when it satisfies the persisted invariant |
| `Models.AuthorNameParts` | models.js:15-17 | `authorName` is the first name, one space, then the last name |
| `Models.SplitAuthorNameRoundTrip` | models.js:15-17 | splitting `authorName` at its first space gives back the author, when the first name has no space |
| `Models.SerializeAgreement` | models.js:19-27 | two posts serialise alike exactly when id, title, content and created agree and the authors' display names agree |
| `Models.SerializedAuthorRecoversAuthor` | models.js:24 | the serialised `author` is the flat display string, and the composite author can be read back from it when the first name has no space |
| `Models.SerializeInjective` | models.js:19-27 | serialisation loses nothing for posts whose first names have no space |
| `Models.Valid` | models.js:5-13 | the schema's required paths as a predicate on drafts; its meaning is stated by `Materialize` |
| `Models.Persisted` | models.js:5-13 | the invariant of a post created through the schema (all four required strings non-empty); established by `Materialize`, characterised by `MaterializeDraftOf`; an update does not re-check it |
| `Models.AuthorName` | models.js:15-17 | the `authorName` virtual; its layout is stated by `AuthorNameParts` and its round trip by `SplitAuthorNameRoundTrip` |
| `Models.Serialize` | models.js:19-27 | the `serialize` method; its properties are stated by `SerializeAgreement`, `SerializedAuthorRecoversAuthor` and `SerializeInjective` |
| `Models.SerializeAll` | blogPostsRouter.js:21-22 | mapping `serialize` over the posts keeps their length and order, element by element |
| `BlogPostsRouter.MissingFieldMessage` | blogPostsRouter.js:49 | the 400 text of create; its exact form per field is stated by `CreateChecksFieldsInOrder`, its injectivity by `MissingFieldMessageInjective` |
| `BlogPostsRouter.CreateDocument` | blogPostsRouter.js:55-63 | the document create sends; what it holds is stated by `CreateForwardsNamedFields` and `CreateSendsCompleteBody` |
| `BlogPostsRouter.CreatePost` | blogPostsRouter.js:43-69 | the create handler; its behaviour is stated by `CreateChecksFieldsInOrder`, `CreateRejectionIgnoresStore`, `CreateReachesStoreOnlyWithRequired`, `CreateSendsCompleteBody`, `CreateForwardsNamedFields`, `CreateIgnoresOtherKeys` and `CreateAnswersWithAuthorName` |
| `BlogPostsRouter.IdsMatch` | blogPostsRouter.js:75 | the update guard as written (both ids truthy, strictly equal); reduced by `IdsMatchIff` |
| `BlogPostsRouter.MismatchMessage` | blogPostsRouter.js:76-78 | the 400 message of update, given the body id's string form; where it quotes both ids is stated by `MismatchMessageQuotesIds` |
| `BlogPostsRouter.UpdatePost` | blogPostsRouter.js:73-95 | the update handler; its behaviour is stated by `UpdateRequiresMatchingIds`, `UpdateThrowingBodyIdIsErrorPage`, `UpdateMismatchIgnoresStore`, `UpdateSendsWhitelist`, `EmptyUpdateStillSucceeds` and `UpdateIgnoresOtherKeys` |
| `BlogPostsRouter.ListPosts` | blogPostsRouter.js:15-29 | the list handler; its behaviour is stated by `ListSerializesInOrder`, `StoreCallsFollowRequest` and the status lemmas |
| `BlogPostsRouter.GetPost` | blogPostsRouter.js:32-40 | the get handler; its behaviour is stated by `StoreCallsFollowRequest`, `NotFoundAnswers`, `StoreFailureIsInternalError` and `SuccessStatuses` |
| `BlogPostsRouter.DeletePost` | blogPostsRouter.js:98-103 | the delete handler; its behaviour is stated by `StoreCallsFollowRequest`, `NotFoundAnswers`, `StoreFailureIsInternalError` and `SuccessStatuses` |
| `JsValues.Truthy` | blogPostsRouter.js:75 | JavaScript truthiness of the two ids in the guard; its effect is stated by `IdsMatchIff` |
| `JsValues.JsonToString` | blogPostsRouter.js:77-78 | the string the template literal makes of a body id of any JSON type; it fails exactly when `ToStringThrows` holds, gives a string as itself and a plain object as `[object Object]` |
| `BlogPostsRouter.FirstMissing` | blogPostsRouter.js:45-53 | the result is absent exactly when every field is a key of the body; otherwise it is the absent field that comes first, with all earlier fields present |
| `BlogPostsRouter.FindMissingField` | blogPostsRouter.js:46-53 | the index loop with early return yields the first absent field, as `FirstMissing` defines it |
| `BlogPostsRouter.MissingFieldMessageInjective` | blogPostsRouter.js:49 | different missing fields give different 400 messages |
| `BlogPostsRouter.IdsMatchIff` | blogPostsRouter.js:75 | the guard (both ids truthy and strictly equal) holds exactly when the path id is non-empty and the body's `id` is that same string |
| `BlogPostsRouter.MismatchMessageQuotesIds` | blogPostsRouter.js:76-78 | the mismatch message holds the path id and then the body id, each at a fixed offset |
| `BlogPostsRouter.UpdateDocument` | blogPostsRouter.js:83-89 | the update document's keys are exactly the listed fields present in the body, with the body's values |
| `BlogPostsRouter.BuildUpdate` | blogPostsRouter.js:83-89 | the `forEach` loop builds exactly `UpdateDocument` of the whitelist |
| `RouterProperties.FirstMissingOnlyReadsFields` | blogPostsRouter.js:45-53 | the required-field check depends only on which checked keys are present |
| `RouterProperties.FirstRequiredMissing` | blogPostsRouter.js:45-53 | the check tries `title`, then `content`, then `author` |
| `RouterProperties.UpdateDocumentOnlyReadsFields` | blogPostsRouter.js:83-89 | the update document depends only on the body's values under the whitelisted keys |
| `RouterProperties.CreateChecksFieldsInOrder` | blogPostsRouter.js:45-53 | create answers 400 with ``Missing `<field>` in request body`` for the first absent field, in order, with no store call; with all three keys present it never answers 400 |
| `RouterProperties.CreateRejectionIgnoresStore` | blogPostsRouter.js:46-53 | a create answered without a store call is a 400 or the uncaught-throw 500, whatever the store would have said |
| `RouterProperties.CreateReachesStoreOnlyWithRequired` | blogPostsRouter.js:45-63 | a create reaches the store only when its body holds `title`, `content` and a non-null `author` |
| `RouterProperties.CreateSendsCompleteBody` | blogPostsRouter.js:46-68 | every body holding `title`, `content` and a non-null `author` reaches the store with the document built from it, answering 201 with the serialised post or the fixed 500 |
| `RouterProperties.CreateForwardsNamedFields` | blogPostsRouter.js:55-63 | the create document holds the body's `title` and `content` unchanged, and only `firstName`/`lastName` of `body.author` |
| `RouterProperties.CreateIgnoresOtherKeys` | blogPostsRouter.js:45-63 | no body key other than `title`, `content`, `author` affects the create handler |
| `RouterProperties.CreateAnswersWithAuthorName` | blogPostsRouter.js:55-64 | for any author object whose `firstName` and `lastName` are strings (other keys allowed), when the store builds the post from the forwarded strings, create answers 201 with that post serialised, author `firstName + " " + lastName` and `created` defaulted |
| `RouterProperties.UpdateRequiresMatchingIds` | blogPostsRouter.js:75-81 | update answers 400 exactly when the ids are not both truthy and equal and the body id can be made a string; then it makes no store call and its JSON message quotes both ids |
| `RouterProperties.UpdateThrowingBodyIdIsErrorPage` | blogPostsRouter.js:75-78 | update ends in the default error page (500, no store call) exactly when the body id's string conversion throws |
| `RouterProperties.ThrowingBodyIdScenario` | blogPostsRouter.js:75-78 | `{"id": {"toString": 1}}` and `{"id": [null, {"toString": 1}]}` end in the 500 error page |
| `RouterProperties.UpdateMismatchIgnoresStore` | blogPostsRouter.js:75-81 | a rejected update makes no store call and answers the same whether or not the path id exists: 400, or 500 when the body id's conversion throws |
| `RouterProperties.UpdateDocumentIsWhitelist` | blogPostsRouter.js:83-89 | the update document's keys are the body's keys among `title`, `content`, `author`, with unchanged values, and never `id` |
| `RouterProperties.UpdateSendsWhitelist` | blogPostsRouter.js:83-92 | an accepted update sends the whitelist projection of the body for the path id |
| `RouterProperties.EmptyUpdateStillSucceeds` | blogPostsRouter.js:83-94 | an accepted update with no whitelisted field sends an empty document and answers 204 unless the store fails |
| `RouterProperties.UpdateIgnoresOtherKeys` | blogPostsRouter.js:75-92 | no body key other than `id`, `title`, `content`, `author` affects the update handler |
| `RouterProperties.StoreFailureIsInternalError` | blogPostsRouter.js:25-102 | every store failure on every route answers 500 with `Internal server error` |
| `RouterProperties.StoreCallsFollowRequest` | blogPostsRouter.js:16-100 | for every store answer, get asks for the path id, delete removes the path id, and list asks for 20 posts |
| `RouterProperties.NotFoundAnswers` | blogPostsRouter.js:19-102 | list or get that finds nothing answers the fixed 500; update and delete of an id with no post answer 204 |
| `RouterProperties.SuccessStatuses` | blogPostsRouter.js:19-101 | list and get answer 200, create 201 with the serialised post, update and delete 204 with no body |
| `RouterProperties.ListSerializesInOrder` | blogPostsRouter.js:16-23 | list asks for at most 20 posts and answers their serialisations in order; a store that honours the limit gives at most 20 |
| `RouterProperties.MissingContentScenario` | blogPostsRouter.js:45-51 | a create body without `content` answers 400 with ``Missing `content` in request body`` |
| `RouterProperties.UpdateTitleScenario` | blogPostsRouter.js:83-93 | an update of only `title` sends `{title}` alone and answers 204 |

## Left out

- `server.js` is not part of this model. It holds the application wiring, the
  request logging, the catch-all 404, database connect/disconnect and the
  listen/close lifecycle. All of it is I/O and process lifecycle.
- The store operations (`find`/`limit`, `findById`, `create`, `findByIdAndUpdate`
  with `$set`, `findByIdAndRemove`) are recorded only as the `StoreOp` a handler
  issues. Their answer is the `Outcome` parameter. No concrete store and no `$set`
  merge are modelled.
- RouterProperties.CreateAnswersWithAuthorName: it assumes the store keeps the
  forwarded strings unchanged. The store's type casting of non-string values
  (numbers, booleans) is not modelled.
- The body parser and HTTP transport are not modelled. The body is taken as an
  already-parsed JSON object. A body that is a JSON array is not modelled.
- JSON numbers are modelled as exact, unbounded integers. JavaScript parses them to
  doubles, so fractional numbers, integers beyond 2^53 (which lose precision) and
  values of 1e21 or more (which print in exponent form) are not modelled; a body `id`
  of that kind is quoted differently in the update's 400 message.
- The `in` operator is modelled as a lookup of the body's own keys. The prototype
  chain plays no part for the keys checked here.
- `console.error` logging is not modelled.
- The clock behind the `created` default is a parameter (`now`), and timestamps are
  opaque integers. Their ISO-8601 rendering in the JSON response is not modelled.
- Generation of `_id` is not modelled. The id is an opaque string parameter.
- The response body is a `Payload` value, not rendered JSON text. The five keys of
  a serialised post are the five fields of `SerializedPost`.
- The content of the framework's default error page is not modelled.
