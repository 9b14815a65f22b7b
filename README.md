# Card images: the image index and its create/delete contract

A model of the core of a small web service that maps card ids to images
stored on an external image host. The service keeps an index table. Each
row holds an image id, the card it belongs to and the hosted URL. The
service lists, fetches, creates and deletes rows.

- `models.dfy`: the record shapes. `CardImage` is a row, `CardImageNew` is a
  create request, `NewImageId` is the create response, and `Option` stands
  for Python's `Optional`.
- `database.dfy`: the index. Each query and update is a pure function over
  the row sequence, with its contract. Rows are kept in insertion order, so
  `first()` means the first row. `CardImageTable` is the table behind a
  database session: a class holding `rows: seq<CardImage>`, whose invariant
  is that ids are pairwise distinct (the primary key). Queries are read-only
  methods. `InsertNewCardImage` and `DeleteCardImage` update `rows` in place.
  Raising `DBException` is modelled as the `NotFound` result.
- `service.dfy`: the HTTP handlers that combine the index with the image
  host.
  - Create is strict. The upload comes first. A non-200 reply fails with
    500 before the index is touched. So does an upload request that raises,
    or a reply body without a URL.
  - Delete is lenient. It looks the row up (404 if absent, with no remote
    call), then asks the host to delete the file named by the last
    `/`-segment of the URL. If the host answers, a non-200 status is only
    logged, and the row is removed whatever the status. If the remote
    request raises, the exception escapes the handler: the answer is 500
    and the row stays.
  - The host is an oracle. The upload outcome (`UploadOutcome`: raised, or
    a status code and an optional URL) and the remote-delete outcome
    (`RemoteOutcome`: raised, or a status code) are parameters.
  - `RemoveCardImage` returns `remoteFile`, the file name it asked the host
    to delete (`None` when it made no remote call), and `logged`, whether it
    printed the host's error.

`app/database.py:69` calls `.fi11rst()`, a misspelling of `.first()`. As
written, every insert would fail with an attribute error. The model follows
the evident intent, which line 70 spells out: take the largest id, or none
for an empty table.

Facts about the code that the model keeps:
- The code does not check that a URL is non-empty, so the model does not
  require it.
- The code does not reserve ids. Deleting the row with the largest id lets
  a later insert take that id, or a smaller one (`DeleteMaxAllowsReuse`).
- A deleted largest id m comes back on the next insert exactly when id
  m - 1 is still present, or when m is 0 and no other row remains
  (`DeleteMaxReusedIff`). The table keeps no history, so how it got there
  plays no part. For example, insert 0, 1 and 2, delete 2, delete 1, and
  the next insert gets 1 again. One special case: deleting the row just
  inserted and inserting again gives the same id
  (`InsertDeleteInsertReusesId`).
- Deleting an id below the maximum never changes the next id
  (`DeleteBelowMaxKeepsNextId`).

## Model

| member | source | states |
|---|---|---|
| `Database.FilterById` | app/database.py:45 | the filter keeps exactly the rows with the given id |
| `Database.FilterByCard` | app/database.py:53-54 | the filter keeps exactly the rows of the given card, each as often as in the table, and no other row |
| `Database.FilterByCardHead` | app/database.py:59-62 | the first row of a card filter is the first row of that card in table order |
| `Database.CardImageById` | app/database.py:44-48 | lookup succeeds iff some row has the id; the row found is in the table and has that id |
| `Database.LookupFindsRow` | app/database.py:44-48 | with distinct ids, looking up any row's id returns exactly that row |
| `Database.AllCardImages` | app/database.py:51-55 | the listing holds exactly the rows that pass the card filter, each as often as in the table; with no card id it is the whole table; an empty list is a normal result |
| `Database.AnyCardImage` | app/database.py:58-65 | NotFound iff no row passes the filter; otherwise the row returned is the first in table order that passes it |
| `Database.MaxId` | app/database.py:69 | None iff the table is empty; otherwise an id present in the table and at least every id in it |
| `Database.NextId` | app/database.py:69-70 | 0 for an empty table; otherwise one more than some id present, and above every id present |
| `Database.WithoutId` | app/database.py:82-85 | the rows left are exactly the rows whose id differs; with the id absent, the table is unchanged |
| `Database.InsertKeepsUniqueIds` | app/database.py:69-77 | appending a row with the id NextId picks keeps ids pairwise distinct |
| `Database.WithoutIdKeepsUniqueIds` | app/database.py:82-86 | deleting by id keeps ids pairwise distinct |
| `Database.InsertThenLookup` | app/database.py:71-78 | after an insert, looking up the new id gives exactly the supplied card id and URL, and every earlier row is still found under its id |
| `Database.DeleteThenLookup` | app/database.py:81-86 | after a delete, the id is not found, and every other row is still found under its id |
| `Database.InsertDeleteInsertReusesId` | app/database.py:69-70 | insert, delete of the new row, insert again: the table returns to its old rows and the second insert gets the same id |
| `Database.DeleteBelowMaxKeepsNextId` | app/database.py:69-70 | deleting an id below the largest one leaves the next assigned id unchanged |
| `Database.DeleteMaxAllowsReuse` | app/database.py:69-70 | deleting the row with the largest (non-negative) id makes the next assigned id at most that id |
| `Database.DeleteMaxReusedIff` | app/database.py:69-70 | after deleting the largest id m, the next assigned id is m iff id m - 1 is still present, or m is 0 and no row remains |
| `Database.CardImageTable.GetCardImageById` | app/database.py:44-48 | answers CardImageById of the current rows |
| `Database.CardImageTable.GetAllCardImages` | app/database.py:51-55 | answers AllCardImages of the current rows |
| `Database.CardImageTable.GetAnyCardImage` | app/database.py:58-65 | answers AnyCardImage of the current rows |
| `Database.CardImageTable.InsertNewCardImage` | app/database.py:68-78 | returns NextId of the old rows, an id no old row has; the table grows by exactly that one row, and the earlier rows are unchanged; ids stay distinct |
| `Database.CardImageTable.DeleteCardImage` | app/database.py:81-86 | NotFound iff the id is absent; then the table is unchanged; otherwise exactly the row with that id is removed; ids stay distinct |
| `Service.Split` | app/main.py:141 | `split("/")` gives at least one piece, and no piece contains '/' |
| `Service.JoinSplit` | app/main.py:141 | joining the pieces of a split with '/' gives the string back |
| `Service.SplitLast` | app/main.py:141 | the last piece of a split is a suffix of the string, preceded by '/' unless it is the whole string |
| `Service.FileName` | app/main.py:141 | the remote file name contains no '/', is the text after the last '/', and is the whole URL when the URL has no '/' |
| `Service.ReturnAllCardImages` | app/main.py:72-76 | returns exactly the rows that pass the card filter |
| `Service.ReturnAnyCardImage` | app/main.py:79-90 | 404 "No suitable image found" iff no row matches; otherwise a redirect to the URL of the first matching row |
| `Service.ReturnSpecificCardImage` | app/main.py:93-104 | 404 iff no row has the id; otherwise a redirect to that row's URL |
| `Service.UploadNewCardImage` | app/main.py:107-132 | an upload that raises, a non-200 reply or a reply without a URL gives 500 and leaves the index unchanged; it succeeds iff the reply is 200 with a URL, and then appends exactly one row with the request's card id and the uploaded URL and returns the id insert assigned |
| `Service.RemoveCardImage` | app/main.py:135-151 | an absent id gives 404, with no remote call, no log and no change; otherwise it requests deletion of the remote file named after the row's URL; if that request raises, 500 and the row stays; if the host answers, it logs iff the status is not 200, removes the row and succeeds whatever the status |

## Left out

- HTTP and framework plumbing: routing, `RedirectResponse` (modelled as the
  `Redirect` value), the CORS middleware and its origin pattern.
- Token verification (`get_current_user_from_token`): it calls the JWT
  library. Every handler is modelled as already authenticated.
- Network calls to the image host and the token provider: only their
  outcomes are modelled, as parameters. The upload's request body and the
  host's API key are not modelled.
- `print` of host errors: modelled as the `logged` result of
  `RemoveCardImage`. The create flow's error print is not modelled.
- Configuration and startup: environment variables, `exit(-1)`, and building
  the database URL and engine.
- The session lifecycle (`get_db`), `test_connection` and the readiness and
  liveness checks: they concern reachability of the backends, not the index.
- `initBase` (test-only table reset) and `SampleImageModel` (a table that no
  operation uses).
- The race between concurrent inserts computing the same max+1 id: the model
  is sequential.
- The `str`/`int` conversion of `image_id` in the fetch-by-id handler, and
  the pydantic conversion from ORM row to response model: ids are `int`
  throughout, and rows are returned as they are.
- Integer width: ids and card ids are unbounded integers. A database column
  limit is not part of this model.
- Row order: the database promises no order for an unordered query. The
  model fixes insertion order, so "first" means the earliest matching row.
- Unhandled exceptions: an exception that escapes a handler is modelled as
  the framework's plain 500 answer. The framework's own error page and the
  traceback it logs are not modelled.
