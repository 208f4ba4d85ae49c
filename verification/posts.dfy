/**
 * The Post table and the two workflows that change it: `upload_file`
 * (adds one post when the media store accepted the file) and `delete_post`
 * (a 500/404/403/owner decision that removes the post).
 *
 * The media store (ImageKit), the clock and `uuid4` are outside the model:
 * their results arrive as parameters.
 */
module Posts {
  import opened Wrappers
  import Uuid

  /** `created_at`; only its order matters here. */
  type Timestamp = nat

  /** A row of the `posts` table. */
  datatype Post = Post(
    id: string,
    userId: string,
    caption: string,
    url: string,
    fileType: string,
    fileName: string,
    createdAt: Timestamp)

  /** What the media store's upload call did: raised, or answered with a status, a URL and a stored name. */
  datatype StoreReply = Raised(message: string) | Replied(status: int, url: string, name: string)

  /**
   * What `upload_file` answers: the stored post, nothing at all (the handler
   * falls off its end and the framework sends `null`), or an HTTP 500 whose
   * detail is the message of the exception that was caught.
   */
  datatype UploadReply = Created(post: Post) | NoBody | ServerError(detail: string)

  /** What `delete_post` answers: the success body, or an HTTP error with its status and detail. */
  datatype DeleteReply = Deleted(success: bool, message: string) | Refused(status: int, detail: string)

  /** The message of the `AttributeError` raised by `None.startswith`. */
  const NoContentTypeDetail := "'NoneType' object has no attribute 'startswith'"
  /** The gist of the primary-key violation the commit raises when an id is reused. */
  const DuplicateIdDetail := "UNIQUE constraint failed: posts.id"

  predicate StartsWith(s: string, prefix: string)
  {
    |prefix| <= |s| && s[..|prefix|] == prefix
  }

  /** The `file_type` column: `"video"` for a `video/...` content type, `"image"` for anything else. */
  function FileTypeOf(contentType: string): (t: string)
    ensures t == "video" || t == "image"
    ensures t == "video" <==> StartsWith(contentType, "video/")
  {
    if StartsWith(contentType, "video/") then "video" else "image"
  }

  /** Every row is stored under its own id, and that id is in `str(uuid4())` form. */
  ghost predicate WellFormed(rows: map<string, Post>)
  {
    forall id | id in rows :: rows[id].id == id && Uuid.IsCanonical(id)
  }

  /** A post's own id, sent back to `delete_post`, looks that post up again. */
  lemma StoredIdResolves(rows: map<string, Post>, id: string)
    requires WellFormed(rows) && id in rows
    ensures Uuid.Parse(rows[id].id) == Some(id)
  {
    Uuid.CanonicalParsesToItself(id);
  }

  /** The `posts` table, keyed by `id`. */
  class PostTable {
    var rows: map<string, Post>

    ghost predicate Valid()
      reads this
    {
      WellFormed(rows)
    }

    constructor ()
      ensures Valid() && rows == map[]
    {
      rows := map[];
    }

    /**
     * `upload_file`. The store's reply, the content type of the uploaded
     * file, the id `uuid4` draws and the time of the insert are inputs.
     * Only a 200 reply with a content type adds a row, and then exactly one.
     */
    method Upload(userId: string, caption: string, contentType: Option<string>,
                  store: StoreReply, freshId: string, now: Timestamp)
      returns (r: UploadReply)
      requires Valid()
      requires Uuid.IsCanonical(freshId)
      modifies this
      ensures Valid()
      ensures store.Raised? ==> r == ServerError(store.message) && rows == old(rows)
      ensures store.Replied? && store.status != 200 ==> r == NoBody && rows == old(rows)
      ensures store.Replied? && store.status == 200 && contentType.None? ==>
                r == ServerError(NoContentTypeDetail) && rows == old(rows)
      ensures store.Replied? && store.status == 200 && contentType.Some? && freshId in old(rows) ==>
                r == ServerError(DuplicateIdDetail) && rows == old(rows)
      ensures store.Replied? && store.status == 200 && contentType.Some? && freshId !in old(rows) ==>
                r.Created? &&
                r.post == Post(freshId, userId, caption, store.url, FileTypeOf(contentType.value), store.name, now) &&
                rows == old(rows)[freshId := r.post]
      ensures r.Created? <==> rows != old(rows)
      ensures r.Created? ==> rows.Keys == old(rows).Keys + {r.post.id} && r.post.id !in old(rows)
      ensures forall id | id in old(rows) :: id in rows && rows[id] == old(rows)[id]
    {
      match store {
        case Raised(message) =>
          r := ServerError(message);
        case Replied(status, url, name) =>
          if status == 200 {
            if contentType.None? {
              r := ServerError(NoContentTypeDetail);
            } else if freshId in rows {
              r := ServerError(DuplicateIdDetail);
            } else {
              var post := Post(freshId, userId, caption, url, FileTypeOf(contentType.value), name, now);
              rows := rows[freshId := post];
              r := Created(post);
            }
          } else {
            r := NoBody;
          }
      }
    }

    /**
     * `delete_post`. The handler swallows a failure of the media-store delete,
     * so its outcome is not an input. `storeRequest` is the stored name the
     * media-store delete was asked to remove. A malformed id gets a 500 whose
     * detail is the message of the `ValueError` the UUID parse raised.
     */
    method DeletePost(postId: string, requester: string)
      returns (r: DeleteReply, storeRequest: Option<string>)
      requires Valid()
      modifies this
      ensures Valid()
      ensures Uuid.Parse(postId).None? ==>
                r == Refused(500, Uuid.ParseFailure(postId)) && rows == old(rows) && storeRequest == None
      ensures Uuid.Parse(postId).Some? && Uuid.Parse(postId).value !in old(rows) ==>
                r == Refused(404, "post not found") && rows == old(rows) && storeRequest == None
      ensures Uuid.Parse(postId).Some? && Uuid.Parse(postId).value in old(rows) &&
              old(rows)[Uuid.Parse(postId).value].userId != requester ==>
                r == Refused(403, "do not have permission to delete this post") &&
                rows == old(rows) && storeRequest == None
      ensures Uuid.Parse(postId).Some? && Uuid.Parse(postId).value in old(rows) &&
              old(rows)[Uuid.Parse(postId).value].userId == requester ==>
                r == Deleted(true, "post deleted") &&
                rows == old(rows) - {Uuid.Parse(postId).value} &&
                storeRequest == Some(old(rows)[Uuid.Parse(postId).value].fileName)
    {
      var parsed := Uuid.Parse(postId);
      if parsed.None? {
        return Refused(500, Uuid.ParseFailure(postId)), None;
      }
      var key := parsed.value;
      if key !in rows {
        return Refused(404, "post not found"), None;
      }
      var post := rows[key];
      if post.userId != requester {
        return Refused(403, "do not have permission to delete this post"), None;
      }
      // The media-store delete is attempted first; whether it raised or not, the row goes.
      storeRequest := Some(post.fileName);
      rows := rows - {key};
      r := Deleted(true, "post deleted");
    }
  }

  /** A post created by an upload can be deleted by its uploader, which restores the table. */
  method UploadThenDelete(table: PostTable, userId: string, caption: string, contentType: string,
                          url: string, name: string, freshId: string, now: Timestamp)
    returns (up: UploadReply, down: DeleteReply)
    requires table.Valid() && Uuid.IsCanonical(freshId) && freshId !in table.rows
    modifies table
    ensures table.Valid()
    ensures up.Created? && down == Deleted(true, "post deleted")
    ensures table.rows == old(table.rows)
  {
    up := table.Upload(userId, caption, Some(contentType), Replied(200, url, name), freshId, now);
    StoredIdResolves(table.rows, freshId);
    var storeRequest;
    down, storeRequest := table.DeletePost(up.post.id, userId);
    assert table.rows == old(table.rows)[freshId := up.post] - {freshId};
  }

  /** Another user's delete request leaves a freshly uploaded post in place and gets 403. */
  method UploadThenForeignDelete(table: PostTable, owner: string, other: string, caption: string,
                                 contentType: string, url: string, name: string, freshId: string,
                                 now: Timestamp)
    returns (down: DeleteReply)
    requires table.Valid() && Uuid.IsCanonical(freshId) && freshId !in table.rows && owner != other
    modifies table
    ensures table.Valid()
    ensures down == Refused(403, "do not have permission to delete this post")
    ensures freshId in table.rows && table.rows[freshId].userId == owner
  {
    var up := table.Upload(owner, caption, Some(contentType), Replied(200, url, name), freshId, now);
    StoredIdResolves(table.rows, freshId);
    var storeRequest;
    down, storeRequest := table.DeletePost(freshId, other);
  }
}
