# mysocialapp — a Dafny model of the post workflows and the frontend URL helpers

mysocialapp is a small social-media backend (FastAPI, SQLAlchemy, ImageKit as
the media store) with a Streamlit frontend. This project models the parts of
it that carry behaviour of their own:

- **The Post table** (`posts.dfy`, module `Posts`): a `PostTable` class whose
  `rows` map a post id to its `Post` record. `Upload` is the `upload_file`
  handler. `DeletePost` is the `delete_post` handler. Both change the table in
  place, behind the same guards as the handlers.
- **Post ids** (`uuid.dfy`, module `Uuid`): the `uuid.UUID(post_id)` parse
  followed by `str(...)`, as a partial function onto the canonical lower-case
  8-4-4-4-12 form that `str(uuid4())` gives every stored id.
- **The feed** (`feed.dfy`, module `Feed`): `get_feed` joins the
  newest-first post listing with the user-id to email map. `FeedOf` is the
  specification; `GetFeed` builds it with the handler's loop.
- **The frontend helpers** (`frontend.dfy`, `base64.dfy`, `percent.dfy`):
  `get_headers`, `encode_text_for_overlay` (base 64 as in section 4 of
  RFC 4648, then percent-encoding as in section 2.1 of RFC 3986 with `/`
  kept) and `create_transformed_url`. Split and join on `/` are modelled
  with their round trips.

The media store, the clock, `uuid4` and the database queries are not
called. Their results are parameters:

- the ImageKit upload reply is a `StoreReply` (raised, or status + url + name);
- whether the ImageKit delete raised is not an input, because the handler swallows it;
- the new id and `created_at` are arguments of `Upload`;
- the feed query result is a sequence of posts, and the user table is a map.

Three behaviours of the code differ from what a design for this system would
usually promise; the model follows the code:

- A media-store reply other than 200 makes `upload_file` return nothing (HTTP
  200 with a `null` body). It is not an upload error, and no post is added.
- A malformed post id in `delete_post` is an HTTP 500, not a client error.
- The feed query orders by `created_at` alone. No tie-break by insertion
  order is promised, so the model only assumes non-increasing `created_at`.

## Model

| member | source | states |
|---|---|---|
| `Posts.PostTable.Upload` | app/application.py:60-100 | store raised: 500 with its message, table unchanged; status not 200: no body, table unchanged; status 200: exactly one new row under the fresh id with the requester's id, the caption, the store's url and name, and the classified file type, every old row unchanged; no content type or a reused id: 500, table unchanged |
| `Posts.FileTypeOf` | app/application.py:87 | the file type is `"video"` exactly when the content type starts with `video/`, otherwise `"image"` |
| `Posts.PostTable.DeletePost` | app/application.py:129-158 | unparseable id: 500 whose detail is the parse's `ValueError` message, table unchanged; no such post: 404; other owner: 403, table unchanged; owner: the success body, exactly that row removed, and the store delete asked for its file name whatever the store did |
| `Posts.StoredIdResolves` | app/db.py:24 | the id of every stored post parses back to itself, so a delete by that id finds the post |
| `Posts.UploadThenDelete` | app/application.py:82-153 | an upload accepted by the store followed by its uploader's delete succeeds and restores the table exactly |
| `Posts.UploadThenForeignDelete` | app/application.py:137-141 | another user's delete of a fresh upload gets 403 and the post stays, still owned by its uploader |
| `Uuid.Parse` | app/application.py:133 | every accepted id is turned into the canonical 36-character lower-case hyphenated form |
| `Uuid.ParseFailure` | app/application.py:133-158 | where the parse fails, the 500's detail is the constructor's `badly formed hexadecimal UUID string` exactly when the digits are not 32 long; otherwise it is `int()`'s message quoting the digits, one of which is then not hexadecimal |
| `Uuid.ShortTextIsBadLength` | app/application.py:133 | text shorter than 32 characters always fails with the constructor's length message |
| `Uuid.NotHexMessage` | app/application.py:157-158 | 32 plain characters with nothing to strip and a non-hexadecimal one (such as 32 `g`) fail with `invalid literal for int() with base 16: '<text>'` |
| `StringRepr.Repr` | app/application.py:158 | `repr` of the digits inside `int()`'s message: between matching quotes, double only when the text has a single quote and no double one, each character taking one to four characters |
| `StringRepr.UnescapeEscape` | app/application.py:158 | whatever `repr` writes for a text between either kind of quotes reads back, escape by escape (`\\`, `\'`, `\"`, `\t`, `\n`, `\r`, `\xHH`), as exactly that text |
| `StringRepr.ReprReadsBack` | app/application.py:158 | the inside of `repr(s)` is a string literal that reads back as `s` |
| `StringRepr.ReprPlain` | app/application.py:158 | text of printable ASCII without quotes or backslashes is shown as itself between single quotes |
| `Uuid.CanonicalParsesToItself` | app/db.py:24 | a canonical id parses to itself |
| `Uuid.ParseIdempotent` | app/application.py:133-134 | parsing the parsed id gives the same id again |
| `Feed.GetFeed` | app/application.py:103-126 | the loop produces exactly `FeedOf`: one item per post in query order; no posts gives `{"posts": []}` |
| `Feed.EmailOf` | app/application.py:110-123 | the owner's email when the owner is in the user table, `"Unknown"` otherwise, so always a table email or `"Unknown"` |
| `Feed.ItemOf` | app/application.py:114-124 | an item copies its post's id, owner, caption, url, file type, file name and time, is marked as the requester's iff the requester owns the post, and shows a table email or `"Unknown"` |
| `Feed.FeedOf` | app/application.py:112-124 | one item per post, in the query's order, each with its post's id and time and the ownership flag |
| `Feed.FeedIsNewestFirst` | app/application.py:105-124 | a newest-first listing gives a feed of the same length that is non-increasing in `created_at` |
| `Feed.FeedOwnership` | app/application.py:114-123 | item i carries post i's fields; `is_owner` holds iff the post's owner is the requester; `email` is the owner's email, or `"Unknown"` when the owner is not in the map |
| `Feed.FeedHasOneItemPerRow` | app/application.py:105-124 | a listing of the whole table gives exactly as many items as the table has rows |
| `Feed.StoredPostInFeed` | app/application.py:112-124 | every stored post has its item in the feed, marked as the requester's iff the requester owns it |
| `Feed.NewestPostLeadsFeed` | app/application.py:105-113 | the post strictly newer than all others is first in the listing and its item is first in the feed |
| `Feed.UploadedPostShownAsOwn` | app/application.py:84-122 | after an upload by U the new post appears in U's feed with `is_owner` true and its caption and file type |
| `Base64.Letter` | frontend.py:30 | each six-bit value maps to an ASCII alphabet character, never `=`, that indexes back to the value |
| `Base64.Encode` | frontend.py:30 | the encoding has 4 characters per started group of 3 bytes, uses only alphabet characters and `=`, and is empty only for empty input |
| `Base64.DecodeEncode` | frontend.py:30 | decoding the encoding of any bytes gives those bytes back |
| `Base64.EncodeIsAscii` | frontend.py:30 | the encoding is ASCII, so `.decode('utf-8')` and re-encoding by `quote` keep it byte for byte |
| `HexDigits.UpperDigit` | frontend.py:31 | each escape digit is `0`-`9` or `A`-`F` (upper case) and reads back as its value |
| `PercentEncoding.Quote` | frontend.py:31 | the output is one to three characters per byte, each `%` or an unreserved character or `/` |
| `PercentEncoding.QuoteSafe` | frontend.py:31 | text made only of safe bytes (letters, digits, `_.-~` and `/`) comes out unchanged |
| `PercentEncoding.UnquoteQuote` | frontend.py:31 | percent-decoding the quoted bytes gives those bytes back |
| `Frontend.GetHeaders` | frontend.py:22-25 | an `Authorization` header is present iff a non-empty token is set, is `"Bearer " + token`, and is the only header |
| `Frontend.EncodeTextForOverlay` | frontend.py:27-31 | the encoding is empty exactly when the text is `None` or empty |
| `Frontend.OverlayRoundTrip` | frontend.py:27-31 | for non-empty text, undoing the percent-encoding and then the base 64 gives back the text's bytes |
| `Frontend.OverlayEscapes` | frontend.py:31 | of the base 64 characters only `+` and `=` are escaped, as `%2B` and `%3D` |
| `Frontend.Split` | frontend.py:42 | splitting yields at least one piece and no piece contains `/` |
| `Frontend.Join` | frontend.py:43-44 | joining n pieces puts at least n - 1 slashes into the text |
| `Frontend.JoinSplit` | frontend.py:42-44 | joining the pieces of a split with `/` gives back the text |
| `Frontend.SplitJoin` | frontend.py:42-44 | splitting the join of slash-free pieces gives back the pieces |
| `Frontend.PiecesAreSlashesPlusOne` | frontend.py:42 | a text has one more piece than it has slashes |
| `Frontend.EffectiveParams` | frontend.py:34-37 | a non-empty caption yields a non-empty `l-text,ie-...` overlay directive; otherwise the passed parameters stand |
| `Frontend.InsertSegment` | frontend.py:42-45 | the rewritten URL is 4 to 5 characters longer than the URL and the parameters together: `/tr:` and a `/` are added, and a URL of five or more pieces reuses its own `/` after the fourth piece |
| `Frontend.CreateTransformedUrl` | frontend.py:33-45 | the URL comes back unchanged exactly when no parameters are in force; otherwise it grows by at least the parameters plus `/tr:` and `/` |
| `Frontend.NothingToApply` | frontend.py:39-40 | with no caption and empty parameters the URL is returned unchanged |
| `Frontend.CaptionOverridesParams` | frontend.py:34-37 | a non-empty caption discards the passed parameters; they become the text-overlay directive around the non-empty encoded caption |
| `Frontend.InsertionIsAfterFourthSlash` | frontend.py:42-45 | for five or more pieces, `tr:<params>/` sits right after the URL's fourth `/`, and cutting it out gives the original URL |
| `Frontend.ShortUrlGetsTrailingSegment` | frontend.py:42-45 | for four pieces or fewer the result is the URL followed by `/tr:<params>/` |

## Left out

- Uuid.Parse: rejects some texts that Python's `int(hex, 16)` would accept (surrounding whitespace, `_` between digits, a `0x` prefix, a leading `+`, non-ASCII Unicode digits), because that leniency belongs to a library that is not modelled; every other input gets the same answer as the UUID constructor.
- Streamlit pages, session state and the HTTP calls made with `requests` (frontend.py:1-19, 48-178): user interface, not logic. The session token is a parameter of `GetHeaders`.
- FastAPI wiring, CORS and the authentication routers (app/application.py:20-57): the requester arrives as the string `str(user.id)`.
- Asynchronous sessions, `commit`, `refresh`, `expire_all` and table creation: the table is a map. The only commit failure modelled is a reused primary key. Its detail string is shortened to SQLite's message.
- Temporary-file staging and cleanup, and closing the uploaded file (app/application.py:67-71, 97-100): filesystem I/O. A staging failure is caught at line 95 and answered with a 500 carrying its message, like a raised store call; `StoreReply.Raised` stands for both.
- The ImageKit client and its configuration (app/images.py): the upload reply is a parameter. The delete's effect on the store itself is not modelled, only the file name it is asked to remove.
- The warning printed when the ImageKit delete raises (app/application.py:144-147): console output; the handler goes on to delete the row either way, and so does `DeletePost`.
- StringRepr.Repr: characters above U+00FF are copied as they are, while Python escapes the ones its Unicode database calls non-printable; that database is not modelled.
- `datetime.utcnow` and the rendering of `created_at` with `isoformat()`: a timestamp is a natural number, and feed items carry it as such.
- The `ORDER BY` and the user query themselves: the listing and the email map are inputs. `NewestFirst` and `ListsTable` state what the database guarantees about them.
- UTF-8 encoding of arbitrary Unicode text: captions and overlay text start as their UTF-8 bytes. A Python string is empty exactly when its bytes are.
- Percent-decoding and base 64 decoding are reference inverses. The application never decodes; the media store does.
