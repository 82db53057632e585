/** The `POST /upload` handler (index.js lines 38-53 and 64-67) and the
    `GET /` handler (lines 27-36). The storage service is not modelled: what
    the upload and the listing would do is passed in as an outcome, and the
    handler reports which storage calls it made, in order. */
module UploadHandler {
  import opened Options
  import opened Text
  import opened Config
  import opened Client
  import opened Pages

  /** The multer file record the handler reads (`req.file`). */
  datatype UploadedFile = UploadedFile(originalname: string, buffer: seq<bv8>, size: nat)

  /** One entry of the flat listing; only its name is read. */
  datatype BlobItem = BlobItem(name: string)

  /** What the store answers to the upload. */
  datatype UploadOutcome = Uploaded | UploadFailed

  /** What the store answers to the listing: every item in enumeration
      order, or a failure at some point of the enumeration. */
  datatype ListOutcome = Listed(items: seq<BlobItem>) | ListFailed

  /** A call made to the storage service. */
  datatype StorageCall =
    | Upload(containerName: Option<string>, blobName: string, body: seq<bv8>, length: nat)
    | ListFlat(containerName: Option<string>)

  datatype Response = Response(status: nat, body: string)

  const OkStatus: nat := 200
  const ErrorStatus: nat := 500
  const ErrorBody: string := "Error uploading file to Azure Blob Storage"

  /** `listBlobs` (lines 38-44): pushes the name of each enumerated item. */
  function ListBlobs(items: seq<BlobItem>): (names: seq<string>)
    ensures |names| == |items|
    ensures forall i :: 0 <= i < |items| ==> names[i] == items[i].name
  {
    if items == [] then [] else ListBlobs(items[..|items| - 1]) + [items[|items| - 1].name]
  }

  /** `GET /`. */
  function HandleIndex(app: App): (r: Response)
    ensures r.status == OkStatus
    ensures r.body == LandingPage(app.customEndpoint)
    ensures Contains(r.body, Banner) <==> Truthy(app.customEndpoint)
  {
    BannerIffCustomEndpoint(app.customEndpoint);
    Response(OkStatus, LandingPage(app.customEndpoint))
  }

  /** `POST /upload`: the response and the storage calls made. A missing
      file throws at line 48, inside the `try`, before any call; a failed
      upload or listing throws at line 51 or 53; all three end in the one
      catch block (lines 65-67). */
  function HandleUpload(app: App, file: Option<UploadedFile>, upload: UploadOutcome, listing: ListOutcome)
    : (r: (Response, seq<StorageCall>))
    ensures r.0.status == OkStatus <==> file.Some? && upload == Uploaded && listing.Listed?
    ensures r.0.status != OkStatus ==> r.0 == Response(ErrorStatus, ErrorBody)
    ensures r.0.status == OkStatus ==> r.0.body == ResultPage(file.value.originalname, ListBlobs(listing.items))
    ensures file.None? ==> r.1 == []
    ensures file.Some? ==> |r.1| >= 1 && r.1[0] == Upload(app.container.containerName, file.value.originalname, file.value.buffer, file.value.size)
    ensures |r.1| == (if file.None? then 0 else if upload == UploadFailed then 1 else 2)
    ensures file.Some? && upload == Uploaded ==> r.1[1] == ListFlat(app.container.containerName)
  {
    match file
    case None => (Response(ErrorStatus, ErrorBody), [])
    case Some(f) =>
      var container := app.container.containerName;
      var put := Upload(container, f.originalname, f.buffer, f.size);
      match upload
      case UploadFailed => (Response(ErrorStatus, ErrorBody), [put])
      case Uploaded =>
        match listing
        case ListFailed => (Response(ErrorStatus, ErrorBody), [put, ListFlat(container)])
        case Listed(items) =>
          (Response(OkStatus, ResultPage(f.originalname, ListBlobs(items))), [put, ListFlat(container)])
  }

  /** The listing is only requested after an upload that succeeded, and
      straight after it. */
  lemma ListOnlyAfterUpload(app: App, file: Option<UploadedFile>, upload: UploadOutcome, listing: ListOutcome, k: nat)
    requires k < |HandleUpload(app, file, upload, listing).1|
    requires HandleUpload(app, file, upload, listing).1[k].ListFlat?
    ensures upload == Uploaded && file.Some?
    ensures k == 1 && HandleUpload(app, file, upload, listing).1[0].Upload?
  {
  }

  /** Every failure gives the same response, which is not a result page. */
  lemma FailureIsNotAResultPage(app: App, file: Option<UploadedFile>, upload: UploadOutcome, listing: ListOutcome)
    requires !(file.Some? && upload == Uploaded && listing.Listed?)
    ensures HandleUpload(app, file, upload, listing).0 == Response(ErrorStatus, ErrorBody)
    ensures ParseResultPage(HandleUpload(app, file, upload, listing).0.body).None?
  {
    assert !(ResultIntro <= ErrorBody) by {
      assert ErrorBody[0] != ResultIntro[0];
    }
  }

  /** Whatever the names contain, a successful response starts with the
      uploaded file's name, verbatim, and holds the items of the listed
      names in enumeration order, verbatim too. */
  lemma SuccessPageEmbedsNames(app: App, f: UploadedFile, items: seq<BlobItem>)
    ensures var body := HandleUpload(app, Some(f), Uploaded, Listed(items)).0.body;
            ResultIntro + f.originalname <= body && Contains(body, ListItems(ListBlobs(items)))
  {
    SuccessBody(app, f, items);
    ResultPageEmbeds(f.originalname, ListBlobs(items));
  }

  lemma SuccessBody(app: App, f: UploadedFile, items: seq<BlobItem>)
    ensures HandleUpload(app, Some(f), Uploaded, Listed(items)).0.body == ResultPage(f.originalname, ListBlobs(items))
  {
  }

  /** When none of the names contains markup, the success page reads back
      to exactly the uploaded name and the listed names. */
  lemma SuccessPageShowsListing(app: App, f: UploadedFile, items: seq<BlobItem>)
    requires '<' !in f.originalname
    requires forall i :: 0 <= i < |items| ==> '<' !in items[i].name
    ensures ParseResultPage(HandleUpload(app, Some(f), Uploaded, Listed(items)).0.body)
         == Some((f.originalname, ListBlobs(items)))
  {
    PlainItemsGivePlainNames(items);
    ResultPageRoundTrip(f.originalname, ListBlobs(items));
    SuccessBody(app, f, items);
  }

  /** Stated on its own so the round-trip proof above stays cheap. */
  lemma PlainItemsGivePlainNames(items: seq<BlobItem>)
    requires forall i :: 0 <= i < |items| ==> '<' !in items[i].name
    ensures PlainNames(ListBlobs(items))
  {
  }

  /** The listing outcome is not even consulted when the upload fails. */
  lemma ListingIgnoredAfterFailedUpload(app: App, file: Option<UploadedFile>, l1: ListOutcome, l2: ListOutcome)
    ensures HandleUpload(app, file, UploadFailed, l1) == HandleUpload(app, file, UploadFailed, l2)
  {
  }

}
