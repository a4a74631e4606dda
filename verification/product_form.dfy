/**
 * The image list of the admin product form, as a state machine.
 *
 * The state is the list of image entries the form holds. Every handler
 * of the form that touches it (loading a product, selecting files, an
 * upload finishing, editing a field, removing an entry) becomes a pure
 * function from the old list to the new one. What the network answered
 * is an input: an upload's outcome, a deletion's outcome. Events are
 * applied one after the other.
 */
module ProductForm {
  import opened Js

  /**
   * A file the user selected. `token` stands for the object's identity:
   * the form recognises its entry by comparing file objects, and two
   * selections are the same object exactly when they are equal here.
   */
  datatype File = File(token: nat, name: string)

  /** One entry of the list (`FormImageType`); `None` is a property left `undefined`. */
  datatype FormImage = FormImage(
    id: Option<string>,
    url: string,
    altText: Option<string>,
    order: Option<int>,
    providerImageId: Option<string>,
    file: Option<File>,
    isUploading: bool,
    uploadError: Option<string>)

  /** An image row of the product being edited, as the database returns it. */
  datatype StoredImage = StoredImage(
    id: string,
    url: string,
    altText: Option<string>,
    order: int,
    providerImageId: Option<string>)

  /** One image as the form sends it (`ProductImageSubmitData`). */
  datatype SubmittedImage = SubmittedImage(
    id: Option<string>,
    url: string,
    altText: Option<string>,
    order: Option<int>,
    providerImageId: Option<string>)

  /** A value thrown inside a `try`: an `Error` carries a message, anything else does not. */
  datatype Thrown = ErrorObject(message: string) | OtherValue

  /** What the upload endpoint answered for one file. */
  datatype UploadResponse =
    | Uploaded(url: string, fileId: string)    // a 2xx answer with the stored file's address and id
    | Rejected(message: Option<string>)        // a non-2xx answer; `message` is the one its JSON body carries
    | Failed(thrown: Thrown)                   // the request, or reading its body, threw

  /** What the delete endpoint answered. The form logs it and goes on. */
  datatype DeleteResponse =
    | Deleted
    | DeleteRejected(message: Option<string>)
    | DeleteFailed(thrown: Thrown)

  /** The fields `updateImageDetail` can be asked to set. */
  datatype Field = IdField | UrlField | AltTextField | OrderField | ProviderImageIdField
                 | FileField | IsUploadingField | UploadErrorField

  /** The value passed to `updateImageDetail`: a string, or a number (`None` for NaN). */
  datatype EditValue = Text(s: string) | Number(n: Option<int>)

  /** The outcome of `removeImage`. */
  datatype Removal =
    | Removal(images: seq<FormImage>, deleteRequest: Option<string>)
    | TypeErrorThrown  // the index names no entry: reading its `providerImageId` throws

  // ---------------------------------------------------------------------
  // Loading a product
  // ---------------------------------------------------------------------

  /** The entry for one stored image: `altText || ''`, `order || undefined`. */
  function Loaded(s: StoredImage): (e: FormImage)
    ensures e.id == Some(s.id) && e.url == s.url && e.providerImageId == s.providerImageId
    ensures e.altText.Some? && (TruthyText(s.altText) ==> e.altText == s.altText)
    ensures !TruthyText(s.altText) ==> e.altText == Some("")
    ensures e.order.Some? <==> s.order != 0
    ensures s.order != 0 ==> e.order == Some(s.order)
    ensures !e.isUploading && e.file.None? && e.uploadError.None?
  {
    FormImage(Some(s.id), s.url, Some(OrText(s.altText, "")),
              if s.order != 0 then Some(s.order) else None,
              s.providerImageId, None, false, None)
  }

  /** The initial list: the product's stored images, or nothing for a new product. */
  function InitialImages(stored: Option<seq<StoredImage>>): (r: seq<FormImage>)
    ensures stored.None? ==> r == []
    ensures stored.Some? ==> |r| == |stored.value|
    ensures stored.Some? ==> forall i | 0 <= i < |r| :: r[i] == Loaded(stored.value[i])
  {
    match stored
    case None => []
    case Some(images) => seq(|images|, i requires 0 <= i < |images| => Loaded(images[i]))
  }

  // ---------------------------------------------------------------------
  // Selecting files
  // ---------------------------------------------------------------------

  /** The placeholder entry for a file whose upload has started. */
  function Placeholder(file: File, order: int): FormImage {
    FormImage(None, "", Some(file.name), Some(order), None, Some(file), true, None)
  }

  /** Placeholders for `files`, numbered from `count + 1` on. */
  function Placeholders(files: seq<File>, count: nat): (r: seq<FormImage>)
    ensures |r| == |files|
    ensures forall i | 0 <= i < |files| :: r[i] == Placeholder(files[i], count + i + 1)
    decreases |files|
  {
    if files == [] then []
    else [Placeholder(files[0], count + 1)] + Placeholders(files[1..], count + 1)
  }

  /**
   * The first update of `handleImageFileChange`: one placeholder per
   * selected file, appended after the existing entries. Selecting no file
   * changes nothing.
   */
  function AddPlaceholders(images: seq<FormImage>, files: seq<File>): (r: seq<FormImage>)
    ensures |r| == |images| + |files|
    ensures r[..|images|] == images
    ensures forall i | 0 <= i < |files| ::
      var e := r[|images| + i];
      && e.url == "" && e.isUploading && e.altText == Some(files[i].name)
      && e.order == Some(|images| + i + 1) && e.file == Some(files[i])
      && e.uploadError.None? && e.providerImageId.None? && e.id.None?
  {
    if files == [] then images else images + Placeholders(files, |images|)
  }

  // ---------------------------------------------------------------------
  // An upload finishing
  // ---------------------------------------------------------------------

  /** The entry waits for the upload of `file`. */
  predicate Awaits(e: FormImage, file: File) {
    e.file == Some(file) && e.isUploading
  }

  /** `find(img => img.file === file && img.isUploading)`, as an index. */
  function FindUploading(images: seq<FormImage>, file: File): (r: Option<nat>)
    ensures r.Some? ==> r.value < |images| && Awaits(images[r.value], file)
    ensures r.Some? ==> forall j | 0 <= j < r.value :: !Awaits(images[j], file)
    ensures r.None? ==> forall j | 0 <= j < |images| :: !Awaits(images[j], file)
    decreases |images|
  {
    if images == [] then None
    else if Awaits(images[0], file) then Some(0)
    else match FindUploading(images[1..], file)
      case None => None
      case Some(i) => Some(i + 1)
  }

  /** The message recorded for a failed upload. */
  function FailureMessage(file: File, response: UploadResponse): (m: string)
    requires !response.Uploaded?
    ensures response.Rejected? ==> m != ""
    ensures response.Rejected? && !TruthyText(response.message) ==> m == "Error al subir " + file.name
    ensures response.Rejected? && TruthyText(response.message) ==> m == response.message.value
    ensures response.Failed? && response.thrown.ErrorObject? ==> m == response.thrown.message
    ensures response == Failed(OtherValue) ==> m == "Error desconocido"
  {
    match response
    case Rejected(message) => OrText(message, "Error al subir " + file.name)
    case Failed(ErrorObject(message)) => message
    case Failed(OtherValue) => "Error desconocido"
  }

  /** The success update for the entry of `file`, if one still waits. */
  function UploadSucceeded(images: seq<FormImage>, file: File, url: string, fileId: string): (r: seq<FormImage>)
    ensures |r| == |images|
    ensures FindUploading(images, file).None? ==> r == images
    ensures FindUploading(images, file).Some? ==>
      var i := FindUploading(images, file).value;
      && (forall j | 0 <= j < |images| && j != i :: r[j] == images[j])
      && r[i].url == url && r[i].providerImageId == Some(fileId)
      && !r[i].isUploading && r[i].file.None? && r[i].uploadError.None?
      && r[i].id == images[i].id && r[i].altText == images[i].altText && r[i].order == images[i].order
  {
    match FindUploading(images, file)
    case None => images
    case Some(i) =>
      images[i := images[i].(url := url, providerImageId := Some(fileId), isUploading := false,
                             file := None, uploadError := None)]
  }

  /** The failure update for the entry of `file`, if one still waits. */
  function UploadFailed(images: seq<FormImage>, file: File, message: string): (r: seq<FormImage>)
    ensures |r| == |images|
    ensures FindUploading(images, file).None? ==> r == images
    ensures FindUploading(images, file).Some? ==>
      var i := FindUploading(images, file).value;
      && (forall j | 0 <= j < |images| && j != i :: r[j] == images[j])
      && !r[i].isUploading && r[i].uploadError == Some(message)
      && r[i].url == images[i].url && r[i].file == images[i].file
      && r[i].providerImageId == images[i].providerImageId
      && r[i].id == images[i].id && r[i].altText == images[i].altText && r[i].order == images[i].order
  {
    match FindUploading(images, file)
    case None => images
    case Some(i) => images[i := images[i].(isUploading := false, uploadError := Some(message))]
  }

  /** The update that follows the upload request for `file`. */
  function UploadFinished(images: seq<FormImage>, file: File, response: UploadResponse): (r: seq<FormImage>)
    ensures |r| == |images|
    ensures FindUploading(images, file).None? ==> r == images
    ensures FindUploading(images, file).Some? ==>
      var i := FindUploading(images, file).value;
      && (forall j | 0 <= j < |images| && j != i :: r[j] == images[j])
      && !r[i].isUploading
      && (response.Uploaded? ==> r[i].url == response.url && r[i].providerImageId == Some(response.fileId))
      && (!response.Uploaded? ==> r[i].uploadError == Some(FailureMessage(file, response)))
  {
    match response
    case Uploaded(url, fileId) => UploadSucceeded(images, file, url, fileId)
    case _ => UploadFailed(images, file, FailureMessage(file, response))
  }

  /** The uploads of `files`, awaited one after the other. */
  function UploadAll(images: seq<FormImage>, files: seq<File>, outcome: File -> UploadResponse): (r: seq<FormImage>)
    ensures |r| == |images|
    decreases |files|
  {
    if files == [] then images
    else UploadAll(UploadFinished(images, files[0], outcome(files[0])), files[1..], outcome)
  }

  /**
   * `handleImageFileChange`: append the placeholders, then upload the
   * files in order; `outcome` says what the endpoint answered for each.
   */
  function SelectFiles(images: seq<FormImage>, files: seq<File>, outcome: File -> UploadResponse): (r: seq<FormImage>)
    ensures |r| == |images| + |files|
  {
    if files == [] then images
    else UploadAll(AddPlaceholders(images, files), files, outcome)
  }

  // ---------------------------------------------------------------------
  // Editing and removing
  // ---------------------------------------------------------------------

  /** The fields `updateImageDetail` assigns its value to as it is. */
  predicate TakesText(field: Field) {
    field == IdField || field == UrlField || field == AltTextField || field == ProviderImageIdField
  }

  /**
   * `updateImageDetail(index, field, value)`. An index that names no entry
   * changes nothing. For `order` a string is parsed, and NaN or 0 leave it
   * unset, while a number changes nothing. `file`, `isUploading` and
   * `uploadError` are never written. `parseInt` is `parseInt(_, 10)`,
   * with NaN as `None`.
   */
  function EditDetail(images: seq<FormImage>, index: int, field: Field, value: EditValue,
                      parseInt: string -> Option<int>): (r: seq<FormImage>)
    requires TakesText(field) ==> value.Text?
    ensures |r| == |images|
    ensures !(0 <= index < |images|) ==> r == images
    ensures forall j | 0 <= j < |images| && j != index :: r[j] == images[j]
    ensures 0 <= index < |images| ==>
      && r[index].file == images[index].file
      && r[index].isUploading == images[index].isUploading
      && r[index].uploadError == images[index].uploadError
    ensures field == OrderField && value.Text? && 0 <= index < |images| ==>
      r[index] == images[index].(order := if TruthyNumber(parseInt(value.s)) then parseInt(value.s) else None)
    ensures field == OrderField && value.Number? ==> r == images
    ensures field == IdField && 0 <= index < |images| ==>
      r[index] == images[index].(id := Some(value.s))
    ensures field == UrlField && 0 <= index < |images| ==>
      r[index] == images[index].(url := value.s)
    ensures field == AltTextField && 0 <= index < |images| ==>
      r[index] == images[index].(altText := Some(value.s))
    ensures field == ProviderImageIdField && 0 <= index < |images| ==>
      r[index] == images[index].(providerImageId := Some(value.s))
    ensures field == FileField || field == IsUploadingField || field == UploadErrorField ==> r == images
  {
    if !(0 <= index < |images|) then images
    else
      var e := images[index];
      match (field, value)
      case (OrderField, Text(s)) =>
        var n := parseInt(s);
        images[index := e.(order := if TruthyNumber(n) then n else None)]
      case (IdField, Text(s)) => images[index := e.(id := Some(s))]
      case (UrlField, Text(s)) => images[index := e.(url := s)]
      case (AltTextField, Text(s)) => images[index := e.(altText := Some(s))]
      case (ProviderImageIdField, Text(s)) => images[index := e.(providerImageId := Some(s))]
      case _ => images
  }

  /**
   * `removeImage(index)`: ask the provider to delete the file when the
   * entry has a truthy `providerImageId`, then drop the entry whatever
   * the provider answered.
   */
  function RemoveImage(images: seq<FormImage>, index: int, deleteResponse: DeleteResponse): (r: Removal)
    ensures r.TypeErrorThrown? <==> !(0 <= index < |images|)
    ensures r.Removal? ==> r.images == images[..index] + images[index + 1..]
    ensures r.Removal? ==> (r.deleteRequest.Some? <==> TruthyText(images[index].providerImageId))
    ensures r.Removal? && r.deleteRequest.Some? ==> r.deleteRequest.value == images[index].providerImageId.value
  {
    if !(0 <= index < |images|) then TypeErrorThrown
    else
      var e := images[index];
      var request := if TruthyText(e.providerImageId) then e.providerImageId else None;
      Removal(images[..index] + images[index + 1..], request)
  }

  // ---------------------------------------------------------------------
  // Submitting
  // ---------------------------------------------------------------------

  /** `img.url && !img.isUploading && !img.uploadError`. */
  predicate Submittable(e: FormImage) {
    e.url != "" && !e.isUploading && !TruthyText(e.uploadError)
  }

  /** The fields of an entry that are sent. */
  function Project(e: FormImage): SubmittedImage {
    SubmittedImage(e.id, e.url, e.altText, e.order, e.providerImageId)
  }

  /** The `images` of `handleSubmit`: the submittable entries, projected, in list order. */
  function SubmitImages(images: seq<FormImage>): (r: seq<SubmittedImage>)
    ensures |r| <= |images|
    decreases |images|
  {
    if images == [] then []
    else
      var rest := SubmitImages(images[1..]);
      if Submittable(images[0]) then [Project(images[0])] + rest else rest
  }

  /** `x` is the projection of some submittable entry of `images`. */
  predicate ProjectedFrom(images: seq<FormImage>, x: SubmittedImage) {
    exists i | 0 <= i < |images| :: Submittable(images[i]) && x == Project(images[i])
  }

  /** Everything sent is the projection of a submittable entry, and every submittable entry is sent. */
  lemma SubmitMembers(images: seq<FormImage>)
    ensures forall k | 0 <= k < |SubmitImages(images)| :: ProjectedFrom(images, SubmitImages(images)[k])
    ensures forall i | 0 <= i < |images| && Submittable(images[i]) :: Project(images[i]) in SubmitImages(images)
  {
    forall k | 0 <= k < |SubmitImages(images)|
      ensures ProjectedFrom(images, SubmitImages(images)[k])
    {
      var i := SubmitSource(images, k);
    }
    SubmitComplete(images);
  }

  /** The position of the entry that the `k`-th submitted image was projected from. */
  lemma {:induction false} SubmitSource(images: seq<FormImage>, k: nat) returns (i: nat)
    requires k < |SubmitImages(images)|
    ensures i < |images| && Submittable(images[i]) && SubmitImages(images)[k] == Project(images[i])
    decreases |images|
  {
    var tail := images[1..];
    if Submittable(images[0]) && k == 0 {
      i := 0;
    } else {
      var k' := if Submittable(images[0]) then k - 1 else k;
      assert SubmitImages(images)[k] == SubmitImages(tail)[k'];
      var j := SubmitSource(tail, k');
      assert tail[j] == images[j + 1];
      i := j + 1;
    }
  }

  /** Every submittable entry's projection is among the submitted images. */
  lemma {:induction false} SubmitComplete(images: seq<FormImage>)
    ensures forall i | 0 <= i < |images| && Submittable(images[i]) :: Project(images[i]) in SubmitImages(images)
    decreases |images|
  {
    if images != [] {
      var tail := images[1..];
      SubmitComplete(tail);
      forall i | 0 <= i < |images| && Submittable(images[i])
        ensures Project(images[i]) in SubmitImages(images)
      {
        if i > 0 {
          assert images[i] == tail[i - 1];
        }
      }
    }
  }

  /** `formDataImages.some(img => !!img.isUploading)`. */
  function AnyUploading(images: seq<FormImage>): (r: bool)
    ensures r <==> exists i | 0 <= i < |images| :: images[i].isUploading
    decreases |images|
  {
    if images == [] then false
    else
      assert forall i | 0 <= i < |images[1..]| :: images[1..][i] == images[i + 1];
      images[0].isUploading || AnyUploading(images[1..])
  }

  /** The submit button is disabled while submitting or while some upload is in flight. */
  function SubmitDisabled(isSubmitting: bool, images: seq<FormImage>): (r: bool)
    ensures r <==> isSubmitting || exists i | 0 <= i < |images| :: images[i].isUploading
  {
    isSubmitting || AnyUploading(images)
  }

  // ---------------------------------------------------------------------
  // Properties
  // ---------------------------------------------------------------------

  /** Submission splits over concatenation: it filters entry by entry, keeping order. */
  lemma {:induction false} SubmitAppend(a: seq<FormImage>, b: seq<FormImage>)
    ensures SubmitImages(a + b) == SubmitImages(a) + SubmitImages(b)
    decreases |a|
  {
    if a == [] {
      assert a + b == b;
    } else {
      assert (a + b)[0] == a[0];
      assert (a + b)[1..] == a[1..] + b;
      SubmitAppend(a[1..], b);
    }
  }

  /** Submission of one entry: its projection when submittable, nothing otherwise. */
  lemma SubmitSingle(e: FormImage)
    ensures SubmitImages([e]) == if Submittable(e) then [Project(e)] else []
  {
    assert [e][1..] == [];
  }

  /** An entry that is uploading or carries an error is never sent. */
  lemma PendingOrFailedNotSubmitted(e: FormImage)
    requires e.isUploading || TruthyText(e.uploadError)
    ensures SubmitImages([e]) == []
  {
    SubmitSingle(e);
  }

  /** What an entry becomes once the answer for its file has been applied. */
  function Settled(file: File, order: int, response: UploadResponse): FormImage {
    match response
    case Uploaded(url, fileId) =>
      FormImage(None, url, Some(file.name), Some(order), Some(fileId), None, false, None)
    case _ =>
      FormImage(None, "", Some(file.name), Some(order), None, Some(file), false,
                Some(FailureMessage(file, response)))
  }

  /** The settled entries of `files`, numbered from `count + 1` on. */
  function SettledAll(files: seq<File>, count: nat, outcome: File -> UploadResponse): (r: seq<FormImage>)
    ensures |r| == |files|
    ensures forall i | 0 <= i < |files| :: r[i] == Settled(files[i], count + i + 1, outcome(files[i]))
    decreases |files|
  {
    if files == [] then []
    else [Settled(files[0], count + 1, outcome(files[0]))] + SettledAll(files[1..], count + 1, outcome)
  }

  predicate Distinct(files: seq<File>) {
    forall i, j | 0 <= i < j < |files| :: files[i] != files[j]
  }

  /** No entry of `images` waits for a file of `files`. */
  predicate NoneAwaits(images: seq<FormImage>, files: seq<File>) {
    forall i, k | 0 <= i < |images| && 0 <= k < |files| :: !Awaits(images[i], files[k])
  }

  /** The upload of the first waiting file settles exactly its own placeholder. */
  lemma {:induction false} FinishFirst(pre: seq<FormImage>, files: seq<File>, count: nat, outcome: File -> UploadResponse)
    requires files != []
    requires NoneAwaits(pre, files)
    ensures UploadFinished(pre + Placeholders(files, count), files[0], outcome(files[0]))
         == pre + [Settled(files[0], count + 1, outcome(files[0]))] + Placeholders(files[1..], count + 1)
  {
    var f, post := files[0], Placeholders(files[1..], count + 1);
    assert Placeholders(files, count) == [Placeholder(f, count + 1)] + post;
    assert pre + Placeholders(files, count) == pre + [Placeholder(f, count + 1)] + post;
    FindFirstPlaceholder(pre, f, count, post);
    FinishAt(pre, f, count, post, outcome(f));
  }

  /** Past entries that wait for nothing, the first placeholder of `file` is the one found. */
  lemma FindFirstPlaceholder(pre: seq<FormImage>, file: File, count: nat, post: seq<FormImage>)
    requires forall j | 0 <= j < |pre| :: !Awaits(pre[j], file)
    ensures FindUploading(pre + [Placeholder(file, count + 1)] + post, file) == Some(|pre|)
  {
    var state := pre + [Placeholder(file, count + 1)] + post;
    assert state[|pre|] == Placeholder(file, count + 1);
    assert forall j | 0 <= j < |pre| :: state[j] == pre[j];
  }

  /** Applying an answer to the placeholder found at `|pre|` settles that entry alone. */
  lemma FinishAt(pre: seq<FormImage>, file: File, count: nat, post: seq<FormImage>, response: UploadResponse)
    requires FindUploading(pre + [Placeholder(file, count + 1)] + post, file) == Some(|pre|)
    ensures UploadFinished(pre + [Placeholder(file, count + 1)] + post, file, response)
         == pre + [Settled(file, count + 1, response)] + post
  {
    var state := pre + [Placeholder(file, count + 1)] + post;
    var settled := Settled(file, count + 1, response);
    var r := UploadFinished(state, file, response);
    assert r[|pre|] == settled;
    ReplaceMiddle(pre, Placeholder(file, count + 1), settled, post, r);
  }

  /** A sequence that differs from `pre + [x] + post` only at `|pre|`, where it holds `y`. */
  lemma ReplaceMiddle<T>(pre: seq<T>, x: T, y: T, post: seq<T>, r: seq<T>)
    requires |r| == |pre| + 1 + |post| && r[|pre|] == y
    requires forall j | 0 <= j < |r| && j != |pre| :: r[j] == (pre + [x] + post)[j]
    ensures r == pre + [y] + post
  {
    var expected := pre + [y] + post;
    assert forall j | 0 <= j < |r| :: r[j] == expected[j];
  }

  lemma DistinctTail(files: seq<File>)
    requires files != [] && Distinct(files)
    ensures Distinct(files[1..])
  {
    var rest := files[1..];
    forall i, j | 0 <= i < j < |rest|
      ensures rest[i] != rest[j]
    {
      assert rest[i] == files[i + 1] && rest[j] == files[j + 1];
    }
  }

  /** A settled entry waits for nothing, so it can join the entries no file waits on. */
  lemma NoneAwaitsStep(pre: seq<FormImage>, files: seq<File>, settled: FormImage)
    requires files != [] && NoneAwaits(pre, files)
    requires !settled.isUploading
    ensures NoneAwaits(pre + [settled], files[1..])
  {
    var pre', rest := pre + [settled], files[1..];
    forall i, k | 0 <= i < |pre'| && 0 <= k < |rest|
      ensures !Awaits(pre'[i], rest[k])
    {
      if i < |pre| {
        assert pre'[i] == pre[i] && rest[k] == files[k + 1];
      }
    }
  }

  /** Uploading every waiting file settles every placeholder, each by the answer for its own file. */
  lemma {:induction false} UploadAllSettles(pre: seq<FormImage>, files: seq<File>, count: nat, outcome: File -> UploadResponse)
    requires Distinct(files)
    requires NoneAwaits(pre, files)
    ensures UploadAll(pre + Placeholders(files, count), files, outcome) == pre + SettledAll(files, count, outcome)
    decreases |files|
  {
    if files == [] {
      assert pre + [] == pre;
    } else {
      var settled := Settled(files[0], count + 1, outcome(files[0]));
      UploadFirst(pre, files, count, outcome);
      DistinctTail(files);
      NoneAwaitsStep(pre, files, settled);
      UploadAllSettles(pre + [settled], files[1..], count + 1, outcome);
      SettledAllCons(pre, files, count, outcome);
    }
  }

  /** The first upload of a batch, then the rest. */
  lemma UploadFirst(pre: seq<FormImage>, files: seq<File>, count: nat, outcome: File -> UploadResponse)
    requires files != [] && NoneAwaits(pre, files)
    ensures UploadAll(pre + Placeholders(files, count), files, outcome)
         == UploadAll(pre + [Settled(files[0], count + 1, outcome(files[0]))] + Placeholders(files[1..], count + 1),
                      files[1..], outcome)
  {
    FinishFirst(pre, files, count, outcome);
  }

  lemma SettledAllCons(pre: seq<FormImage>, files: seq<File>, count: nat, outcome: File -> UploadResponse)
    requires files != []
    ensures pre + [Settled(files[0], count + 1, outcome(files[0]))] + SettledAll(files[1..], count + 1, outcome)
         == pre + SettledAll(files, count, outcome)
  {
    assert SettledAll(files, count, outcome)
        == [Settled(files[0], count + 1, outcome(files[0]))] + SettledAll(files[1..], count + 1, outcome);
  }

  /**
   * Selecting N distinct files that no entry is waiting for appends
   * exactly N entries after the untouched old ones. Each settles by the
   * answer for its own file, whatever the other files' answers are: a
   * success carries the returned address and id, a failure keeps an empty
   * address and records the message.
   */
  lemma SelectFilesOutcome(images: seq<FormImage>, files: seq<File>, outcome: File -> UploadResponse)
    requires Distinct(files)
    requires NoneAwaits(images, files)
    ensures SelectFiles(images, files, outcome) == images + SettledAll(files, |images|, outcome)
  {
    if files != [] {
      UploadAllSettles(images, files, |images|, outcome);
    }
  }

  /** After a selection has settled, the new entries are no longer uploading, so submitting is enabled again. */
  lemma SelectFilesSettlesUploads(images: seq<FormImage>, files: seq<File>, outcome: File -> UploadResponse)
    requires Distinct(files)
    requires NoneAwaits(images, files)
    ensures SubmitDisabled(false, SelectFiles(images, files, outcome)) == SubmitDisabled(false, images)
  {
    SelectFilesOutcome(images, files, outcome);
    var settled := SettledAll(files, |images|, outcome);
    assert forall i | 0 <= i < |settled| :: !settled[i].isUploading;
    AnyUploadingAppend(images, settled);
  }

  /** Some entry of `a + b` is uploading exactly when one of `a` or one of `b` is. */
  lemma AnyUploadingAppend(a: seq<FormImage>, b: seq<FormImage>)
    ensures AnyUploading(a + b) <==> AnyUploading(a) || AnyUploading(b)
  {
    var s := a + b;
    if AnyUploading(s) {
      var i :| 0 <= i < |s| && s[i].isUploading;
      if i < |a| {
        assert a[i] == s[i];
      } else {
        assert b[i - |a|] == s[i];
      }
    }
    if AnyUploading(b) {
      var i :| 0 <= i < |b| && b[i].isUploading;
      assert s[|a| + i] == b[i];
    }
    if AnyUploading(a) {
      var i :| 0 <= i < |a| && a[i].isUploading;
      assert s[i] == a[i];
    }
  }

  /** After a selection has settled, the form sends the old submission followed by every successful upload, in selection order. */
  lemma SelectFilesSubmission(images: seq<FormImage>, files: seq<File>, outcome: File -> UploadResponse)
    requires Distinct(files)
    requires NoneAwaits(images, files)
    ensures SubmitImages(SelectFiles(images, files, outcome))
         == SubmitImages(images) + SubmitImages(SettledAll(files, |images|, outcome))
  {
    SelectFilesOutcome(images, files, outcome);
    SubmitAppend(images, SettledAll(files, |images|, outcome));
  }

  /**
   * Two files, the first uploaded, the second failing with "network
   * error": two entries, and only the first is sent.
   */
  lemma TwoFileScenario(a: File, b: File, outcome: File -> UploadResponse)
    requires a != b
    requires outcome(a) == Uploaded("https://cdn/x.jpg", "abc123")
    requires outcome(b) == Failed(ErrorObject("network error"))
    ensures |SelectFiles([], [a, b], outcome)| == 2
    ensures SubmitImages(SelectFiles([], [a, b], outcome))
         == [SubmittedImage(None, "https://cdn/x.jpg", Some(a.name), Some(1), Some("abc123"))]
  {
    var files := [a, b];
    SelectFilesSubmission([], files, outcome);
    var settled := SettledAll(files, 0, outcome);
    assert settled == [settled[0]] + [settled[1]];
    SubmitAppend([settled[0]], [settled[1]]);
    SubmitSingle(settled[0]);
    SubmitSingle(settled[1]);
  }

  /** Editing `altText` or `order` never changes which entries are sent. */
  lemma EditKeepsSubmittable(images: seq<FormImage>, index: int, field: Field, value: EditValue,
                             parseInt: string -> Option<int>)
    requires field == AltTextField || field == OrderField
    requires TakesText(field) ==> value.Text?
    ensures var r := EditDetail(images, index, field, value, parseInt);
      forall j | 0 <= j < |images| :: Submittable(r[j]) == Submittable(images[j])
  {
  }

  /** No edit starts or ends an upload: the submit button's state is unchanged. */
  lemma EditKeepsSubmitDisabled(images: seq<FormImage>, index: int, field: Field, value: EditValue,
                                parseInt: string -> Option<int>, isSubmitting: bool)
    requires TakesText(field) ==> value.Text?
    ensures SubmitDisabled(isSubmitting, EditDetail(images, index, field, value, parseInt))
        == SubmitDisabled(isSubmitting, images)
  {
    var r := EditDetail(images, index, field, value, parseInt);
    assert forall j | 0 <= j < |images| :: r[j].isUploading == images[j].isUploading;
  }

  lemma SubmitSplit(before: seq<FormImage>, e: FormImage, after: seq<FormImage>)
    ensures SubmitImages(before + [e] + after)
         == SubmitImages(before) + SubmitImages([e]) + SubmitImages(after)
  {
    SubmitAppend(before + [e], after);
    SubmitAppend(before, [e]);
  }

  /**
   * Removing an entry removes its projection from what is sent, and
   * nothing else: the entries before and after it are sent as before, in
   * the same order.
   */
  lemma RemoveSubmission(before: seq<FormImage>, e: FormImage, after: seq<FormImage>, deleteResponse: DeleteResponse)
    ensures SubmitImages(RemoveImage(before + [e] + after, |before|, deleteResponse).images)
         == SubmitImages(before) + SubmitImages(after)
    ensures SubmitImages(before + [e] + after)
         == SubmitImages(before) + SubmitImages([e]) + SubmitImages(after)
  {
    var images := before + [e] + after;
    assert images[..|before|] == before && images[|before| + 1..] == after;
    SubmitAppend(before, after);
    SubmitSplit(before, e, after);
  }

  /** The provider's answer to the deletion has no effect on the list. */
  lemma RemoveIgnoresDeleteOutcome(images: seq<FormImage>, index: int, d1: DeleteResponse, d2: DeleteResponse)
    ensures RemoveImage(images, index, d1) == RemoveImage(images, index, d2)
  {
  }

  /**
   * Loading a product and submitting it unchanged sends back every stored
   * image that has an address, with its id, address and provider id, and
   * the submit button starts enabled.
   */
  lemma LoadThenSubmit(stored: seq<StoredImage>)
    requires forall i | 0 <= i < |stored| :: stored[i].url != ""
    ensures |SubmitImages(InitialImages(Some(stored)))| == |stored|
    ensures forall i | 0 <= i < |stored| ::
      var s := SubmitImages(InitialImages(Some(stored)))[i];
      s.id == Some(stored[i].id) && s.url == stored[i].url && s.providerImageId == stored[i].providerImageId
    ensures !SubmitDisabled(false, InitialImages(Some(stored)))
  {
    var images := InitialImages(Some(stored));
    AllSubmittable(images);
  }

  /** When every entry is submittable, every entry is sent, in order. */
  lemma {:induction false} AllSubmittable(images: seq<FormImage>)
    requires forall i | 0 <= i < |images| :: Submittable(images[i])
    ensures |SubmitImages(images)| == |images|
    ensures forall i | 0 <= i < |images| :: SubmitImages(images)[i] == Project(images[i])
    decreases |images|
  {
    if images != [] {
      assert forall i | 0 <= i < |images[1..]| :: images[1..][i] == images[i + 1];
      AllSubmittable(images[1..]);
    }
  }
}
