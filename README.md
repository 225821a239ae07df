# Video catalogue service — a Dafny model

The service keeps one collection of videos (`id`, `title`, `duration`, `upload`) in a
`videos` table and offers list, create, update and delete over HTTP under `/videos`.
This project models two things:

- the `Video` entity: four fields, a getter and a setter for each, and an `upload`
  that defaults to the time of construction;
- the rules of the four `/videos` handlers, with the table reduced to a map from id to
  row.

Layout:

- `js.dfy` (module `Js`): the JavaScript values a request body can carry, and the
  operators the handlers apply to them: `typeof`, truthiness and `||`.
- `video.dfy` (module `Models`): the `Video` class, and the `Row` datatype of one
  table row.
- `http.dfy` (module `Http`): responses, thrown values, injected database failures
  and the catch block that every handler shares.
- `rules.dfy` (module `Rules`): each handler as a pure function from the table and the
  request to the response and the new table.
  - `ValidateCreate`, `ValidateUpdate` and `MergedRow` are the validators and the
    update merge.
  - `Step` and `Run` replay any sequence of requests, so that lemmas can speak about
    whole histories.
- `service.dfy` (module `Service`): the class `VideoService`. Its field `videos` is the
  table, and its four methods are the handlers written step by step.
  - Each method keeps the status set so far, stops at the first throw and passes it
    to the catch block.
  - The three methods that write (`PostVideo`, `PutVideo`, `DeleteVideo`) are each
    proved to produce exactly the outcome of their rule in `Rules`.
  - `GetVideos` has no rule; its contract states the listed videos directly.

Handler inputs:

- The request body is a `map<string, JsValue>`. A property that is missing reads as
  `undefined`.
- `req.statusCode` is an `Option<int>`. On a request received by a server it is
  `null`, here `None`.
- The clock reading is a `now` parameter.
- A database failure is a `Fault`: the n-th awaited query of the handler (counting
  from 0) throws.

Behaviour kept as the code has it:

- **The catch block tests the request's status.** It checks `req.statusCode === 200`,
  not the response's status. The status set before the throw is kept, and becomes 500
  only when the request's status is 200. A request received by a server has a `null`
  status (`None`), so in practice:
  - a 400 or 404 is sent as set;
  - a database failure before any `res.status(...)` is sent with status 200 and the
    error message as body.
- **Updates use truthiness in two places.**
  - The emptiness check treats every falsy value as absent: `""`, `0`, `null`,
    `false` and `undefined`. `{title: "", duration: 0}` is therefore refused as
    empty.
  - The merge (`title || old`) discards a supplied `""` or `0`, so
    `{title: "", duration: 5}` keeps the old title.
  - A `null` or `false` field is not `undefined`. When the other field is truthy, it
    fails the type check: `{title: false, duration: 5}` is refused with
    "'title' deve ser string".
- **An update checks the id first.** The lookup comes before any check of the body,
  so a missing id gives 404 even when the body is invalid.
- **A create is not atomic.** It inserts and then reads the row back. When the
  read-back fails, the row stays inserted and the response is an error.

## Model

| member | source | states |
|---|---|---|
| `Models.Video.constructor` | src/models/Video.ts:2-7 | After construction the getters return exactly the given id, title and duration. The upload is the given one when supplied, and the current time otherwise. |
| `Models.Video.SetId` | src/models/Video.ts:13-15 | `getId` returns the new id. The row the object stands for is the old one with only `id` replaced. |
| `Models.Video.SetTitle` | src/models/Video.ts:21-23 | `getTitle` returns the new title. Id, duration and upload are unchanged. |
| `Models.Video.SetDuration` | src/models/Video.ts:29-31 | `getDuration` returns the new duration, with no validation (negative values included). The other three fields are unchanged. |
| `Models.Video.SetUpload` | src/models/Video.ts:37-39 | `getUpload` returns the new upload. The other three fields are unchanged. |
| `Js.Truthy` | src/index.ts:131 | A value is falsy exactly when it is `""`, `0`, `false`, `null` or `undefined`; every other value is truthy. |
| `Js.Or` | src/index.ts:152-153 | JavaScript's or-operator on `a` and `b` gives `a` when `a` is truthy and `b` otherwise, so the result is truthy exactly when one operand is. |
| `Js.TypeOf` | src/index.ts:66-79 | `typeof` is "string" exactly for strings and "number" exactly for numbers. It is "undefined" exactly for undefined, and "object" for null and objects. |
| `Js.Field` | src/index.ts:64 | Destructuring the body yields the property when present, and `undefined` when it is missing. |
| `Http.CatchResponse` | src/index.ts:103-115 | The status is 500 when the request's status is 200, and otherwise the status set before the throw. The body is the error's message for an `Error`, and "Erro inesperado" for anything else. |
| `Rules.ValidateCreate` | src/index.ts:64-79 | The checks run in a fixed order and stop at the first failure: id not a string, then title not a string, then duration not a number. The request passes exactly when all three hold, and the validated fields are those of the body. |
| `Rules.ValidateUpdate` | src/index.ts:131-150 | The request is refused with the "must exist" message when both title and duration are falsy. It is refused when a title other than undefined is not a string, and likewise for the duration. It passes exactly when one field is truthy and both have the right type. |
| `Rules.MergedRow` | src/index.ts:152-163 | The written row keeps its id and upload. Its title is the supplied title when that is a non-empty string, and the old title otherwise. Its duration is chosen the same way, by a non-zero number. |
| `Rules.CreateRule` | src/index.ts:62-116 | A failed type check gives 400 with that check's message and the table unchanged. An existing id gives 400 "'id' já existe" with the table unchanged. These 400s become 500 when the request's status is 200. A query that throws (lookup, insert or read-back) gives the catch block's response with the default status 200, or 500 when the request's status is 200. The table is unchanged, except that a failed read-back leaves the row inserted. Otherwise exactly one entry is added, at the new id, holding the given title and duration and `upload = now`. Every existing entry is kept. The status is 201, with the stored row, exactly when the insert and the read-back both complete. |
| `Rules.UpdateRule` | src/index.ts:118-181 | An id not in the table gives 404 with the table unchanged, whatever the body holds. An invalid body gives 400 with its message and the table unchanged. These become 500 when the request's status is 200. A lookup or write that throws gives the catch block's response with the default status and the table unchanged. Otherwise only the entry at the id changes, to the merged row, and the status is 200 with that row. The keys of the table never change, and every entry keeps its id and upload. |
| `Rules.DeleteRule` | src/index.ts:183-210 | An absent id gives 404 with the table unchanged; this becomes 500 when the request's status is 200. A lookup or delete that throws gives the catch block's response with the default status and the table unchanged. A present id loses exactly its own key, every other entry is unchanged, and the status is 200 with the success message. The key goes exactly when the delete completes. |
| `Rules.RunKeepsWellKeyed` | src/index.ts:62-210 | Over any sequence of requests, every row stays stored under its own id. |
| `Rules.RowIdentityStable` | src/index.ts:118-167 | A stored row keeps its id and its upload across any sequence of requests that never asks to delete it. Create never overwrites a row, and update changes only title and duration. |
| `Rules.CreateUpdateDeleteScenario` | src/index.ts:62-196 | Creating "v1" gives 201 with `upload = now`. Updating only its duration to 180 gives 200 and keeps the title "Intro". Deleting it gives 200, removes "v1" and restores the original table. |
| `Service.VideoService.GetVideos` | src/index.ts:33-60 | The response holds one `Video` per row, each field copied from its row, with no id twice and every id present. The status is 200. When the query throws, the response is that of the catch block. |
| `Service.VideoService.PostVideo` | src/index.ts:62-116 | The response and the new table are exactly those of `CreateRule`, and rows stay under their own ids. |
| `Service.VideoService.PutVideo` | src/index.ts:118-181 | The response and the new table are exactly those of `UpdateRule`. The handler builds a `Video` from the stored row and applies `setTitle` and `setDuration`. |
| `Service.VideoService.DeleteVideo` | src/index.ts:183-210 | The response and the new table are exactly those of `DeleteRule`. |

The getters `Models.Video.GetId`, `GetTitle`, `GetDuration` and `GetUpload`
(src/models/Video.ts:9-11, 17-19, 25-27, 33-35) are modelled as plain field reads.
What they return is stated in the contracts of the constructor and the setters above.

## Left out

- The Express app setup (`cors`, JSON body parsing, `app.listen`) and logging to the
  console: framework and I/O plumbing.
- The `/ping` handler: it sends a constant and has nothing to verify.
- The knex query builder: it is replaced by map lookup, insert, overwrite and remove.
  - A database failure is only an abstract throw at a chosen query (`Fault`).
  - Column types and SQL collation of ids are not modelled; ids compare as exact
    strings.
- The system clock: `new Date().toISOString()` is the `now` parameter. Its ISO-8601
  format is not checked.
- Concurrency: handlers of different requests can interleave at each `await`. The
  lookup-then-insert of create and the lookup-then-overwrite of update are therefore
  not atomic. The model runs each request to completion before the next one starts.
- JavaScript numbers as floating point: `duration` is an integer. NaN, Infinity and
  fractions are not modelled. NaN would be falsy, and the merge would ignore it.
- JSON serialisation of responses: a response body is a datatype, not text.
- The order of listed rows: the database returns rows in an order of its own, and
  `GetVideos` lists them in an unspecified order.
