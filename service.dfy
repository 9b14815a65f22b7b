/** The request handlers that compose the image index with the external image
    host: strict create (upload first, index second), lenient delete (index
    lookup, best-effort remote delete, index delete whatever status the host
    returns), and the lookups that answer with a redirect or a 404. The host is an oracle: its
    replies are parameters. */
module Service {
  import opened Models
  import opened Database

  const HTTP_200_OK := 200
  const HTTP_404_NOT_FOUND := 404
  const HTTP_500_INTERNAL_SERVER_ERROR := 500

  /** The framework's answer to an exception no handler catches. */
  const UNHANDLED_STATUS := HTTP_500_INTERNAL_SERVER_ERROR
  const UNHANDLED_DETAIL := "Internal Server Error"

  /** A handler's answer: a value, or an HTTPException's status and detail. */
  datatype HttpResult<T> = Success(value: T) | HttpError(status: int, detail: string)

  /** A RedirectResponse to a hosted image. */
  datatype Redirect = Redirect(location: string)

  /** What the upload request to the host yields: the request itself raises
      (no connection, timeout), or a reply with its status code and the "url"
      field of its JSON body, None when the body is not JSON or has no "url"
      (the field is read only when the status is 200). */
  datatype UploadOutcome = UploadRaised | UploadReply(statusCode: int, url: Option<string>)

  /** What the remote-delete request yields: it raises, or the host replies
      with a status code. */
  datatype RemoteOutcome = RemoteRaised | RemoteStatus(code: int)

  // ---------------------------------------------- file names from URLs

  /** `s.split("/")`: the pieces between separators, at least one. */
  function Split(s: string): (parts: seq<string>)
    ensures |parts| >= 1
    ensures forall k :: 0 <= k < |parts| ==> '/' !in parts[k]
  {
    if s == [] then [[]]
    else
      var rest := Split(s[1..]);
      if s[0] == '/' then [[]] + rest
      else [[s[0]] + rest[0]] + rest[1..]
  }

  /** `"/".join(parts)`: the inverse of Split. */
  function Join(parts: seq<string>): string
    requires |parts| >= 1
  {
    if |parts| == 1 then parts[0] else parts[0] + "/" + Join(parts[1..])
  }

  /** Splitting at '/' loses nothing: joining the pieces gives the string back. */
  lemma {:induction false} JoinSplit(s: string)
    ensures Join(Split(s)) == s
  {
    if s != [] {
      var rest := Split(s[1..]);
      JoinSplit(s[1..]);
      if s[0] == '/' {
        assert ([[]] + rest)[1..] == rest;
      } else if |rest| > 1 {
        var parts := [[s[0]] + rest[0]] + rest[1..];
        assert parts[1..] == rest[1..];
        assert Join(rest) == rest[0] + "/" + Join(rest[1..]);
      }
    }
  }

  /** The last piece of a split is the suffix after the last '/'. */
  lemma {:induction false} SplitLast(s: string)
    ensures var parts := Split(s); var name := parts[|parts| - 1];
            |name| <= |s| && s[|s| - |name|..] == name &&
            (|name| < |s| ==> s[|s| - |name| - 1] == '/')
    ensures |Split(s)| == 1 ==> Split(s)[0] == s
    ensures |Split(s)| > 1 ==> '/' in s
  {
    if s != [] {
      var rest := Split(s[1..]);
      var t := s[1..];
      SplitLast(t);
      var name := rest[|rest| - 1];
      assert s[|s| - |name|..] == t[|t| - |name|..];
      if |name| < |t| {
        assert s[|s| - |name| - 1] == t[|t| - |name| - 1];
      }
      if s[0] != '/' {
        if |rest| == 1 {
          assert [s[0]] + t == s;
        } else {
          assert '/' in t;
          assert name != t;
        }
      }
    }
  }

  /** `url.split("/")[-1]`: the remote file name is the text after the last
      '/', contains no '/', and is the whole URL when there is no '/'. */
  function FileName(url: string): (name: string)
    ensures '/' !in name
    ensures |name| <= |url| && url[|url| - |name|..] == name
    ensures |name| < |url| ==> url[|url| - |name| - 1] == '/'
    ensures '/' !in url ==> name == url
  {
    SplitLast(url);
    var parts := Split(url);
    parts[|parts| - 1]
  }

  // ------------------------------------------------------------- queries

  /** GET /v1/card-images: the index's listing, unchanged. */
  method ReturnAllCardImages(db: CardImageTable, cardId: Option<int>) returns (r: seq<CardImage>)
    ensures forall x :: x in r <==> x in db.rows && MatchesCard(x, cardId)
    ensures r == AllCardImages(db.rows, cardId)
  {
    r := db.GetAllCardImages(cardId);
  }

  /** GET /v1/card-images/any: a redirect to the first matching row's URL,
      404 exactly when no row matches. */
  method ReturnAnyCardImage(db: CardImageTable, cardId: Option<int>) returns (r: HttpResult<Redirect>)
    ensures r.HttpError? <==> forall x :: x in db.rows ==> !MatchesCard(x, cardId)
    ensures r.HttpError? ==> r == HttpError(HTTP_404_NOT_FOUND, "No suitable image found")
    ensures r.Success? ==> AnyCardImage(db.rows, cardId).Ok? &&
                           r.value == Redirect(AnyCardImage(db.rows, cardId).value.url)
  {
    var img := db.GetAnyCardImage(cardId);
    match img
    case Ok(found) =>
      r := Success(Redirect(found.url));
    case NotFound =>
      r := HttpError(HTTP_404_NOT_FOUND, "No suitable image found");
  }

  /** GET /v1/card-images/{id}: a redirect to that row's URL, 404 exactly
      when no row has the id. */
  method ReturnSpecificCardImage(db: CardImageTable, imageId: int) returns (r: HttpResult<Redirect>)
    requires db.Valid()
    ensures r.HttpError? <==> !HasId(db.rows, imageId)
    ensures r.HttpError? ==> r == HttpError(HTTP_404_NOT_FOUND, "Image with given ID not found")
    ensures forall x :: x in db.rows && x.id == imageId ==> r == Success(Redirect(x.url))
  {
    var img := db.GetCardImageById(imageId);
    match img
    case Ok(found) =>
      r := Success(Redirect(found.url));
      forall x | x in db.rows && x.id == imageId ensures r == Success(Redirect(x.url)) {
        LookupFindsRow(db.rows, x);
      }
    case NotFound =>
      r := HttpError(HTTP_404_NOT_FOUND, "Image with given ID not found");
  }

  // -------------------------------------------------------- create, delete

  /** POST /v1/card-images: upload first. A raising upload, a non-200 reply
      or a reply without a URL fails with 500 and the index is never touched;
      otherwise exactly one row with the request's card id and the uploaded
      URL is appended and its new id returned. */
  method UploadNewCardImage(db: CardImageTable, cardId: int, upload: UploadOutcome)
    returns (r: HttpResult<NewImageId>)
    requires db.Valid()
    modifies db
    ensures db.Valid()
    ensures upload.UploadRaised? ==>
              r == HttpError(UNHANDLED_STATUS, UNHANDLED_DETAIL) && db.rows == old(db.rows)
    ensures upload.UploadReply? && upload.statusCode != HTTP_200_OK ==>
              r == HttpError(HTTP_500_INTERNAL_SERVER_ERROR, "Couldn't upload image") &&
              db.rows == old(db.rows)
    ensures upload.UploadReply? && upload.statusCode == HTTP_200_OK && upload.url.None? ==>
              r == HttpError(UNHANDLED_STATUS, UNHANDLED_DETAIL) && db.rows == old(db.rows)
    ensures r.Success? <==> upload.UploadReply? && upload.statusCode == HTTP_200_OK && upload.url.Some?
    ensures r.Success? ==>
              r.value.id == NextId(old(db.rows)) &&
              !HasId(old(db.rows), r.value.id) &&
              db.rows == old(db.rows) + [CardImage(r.value.id, cardId, upload.url.value)]
  {
    if upload.UploadRaised? {
      return HttpError(UNHANDLED_STATUS, UNHANDLED_DETAIL);
    }
    if upload.statusCode != HTTP_200_OK {
      return HttpError(HTTP_500_INTERNAL_SERVER_ERROR, "Couldn't upload image");
    }
    if upload.url.None? {
      return HttpError(UNHANDLED_STATUS, UNHANDLED_DETAIL);
    }
    var imgUrl := upload.url.value;
    var newId := db.InsertNewCardImage(CardImageNew(cardId, imgUrl));
    r := Success(NewImageId(newId));
  }

  /** DELETE /v1/card-images/{id}. An absent id fails with 404 before any
      remote call and changes nothing. Otherwise the remote delete of the
      URL's file name is requested (remoteFile). If that request raises, the
      exception escapes the handler: 500, and the row stays. If the host
      answers, a non-200 status is only logged and the row is removed from
      the index whatever the status. */
  method RemoveCardImage(db: CardImageTable, imageId: int, remote: RemoteOutcome)
    returns (r: HttpResult<()>, remoteFile: Option<string>, logged: bool)
    requires db.Valid()
    modifies db
    ensures db.Valid()
    ensures !HasId(old(db.rows), imageId) ==>
              r == HttpError(HTTP_404_NOT_FOUND, "Image with given ID not found") &&
              remoteFile == None && !logged && db.rows == old(db.rows)
    ensures HasId(old(db.rows), imageId) && remote.RemoteRaised? ==>
              r == HttpError(UNHANDLED_STATUS, UNHANDLED_DETAIL) &&
              !logged && db.rows == old(db.rows)
    ensures HasId(old(db.rows), imageId) && remote.RemoteStatus? ==>
              r == Success(()) &&
              logged == (remote.code != HTTP_200_OK) &&
              db.rows == WithoutId(old(db.rows), imageId)
    ensures forall x :: x in old(db.rows) && x.id == imageId ==> remoteFile == Some(FileName(x.url))
  {
    var img := db.GetCardImageById(imageId);
    if img.NotFound? {
      return HttpError(HTTP_404_NOT_FOUND, "Image with given ID not found"), None, false;
    }
    forall x | x in db.rows && x.id == imageId ensures img == Ok(x) {
      LookupFindsRow(db.rows, x);
    }
    var name := FileName(img.value.url);
    remoteFile := Some(name);
    if remote.RemoteRaised? {
      return HttpError(UNHANDLED_STATUS, UNHANDLED_DETAIL), remoteFile, false;
    }
    logged := remote.code != HTTP_200_OK;
    var deleted := db.DeleteCardImage(imageId);
    match deleted
    case Ok(_) =>
      r := Success(());
    case NotFound =>
      assert false;
      r := HttpError(HTTP_404_NOT_FOUND, "Image with given ID not found");
  }
}
