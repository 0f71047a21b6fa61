/** The image dialog (goog.editor.plugins.ImageDialog): a two-tab dialog that
    either uploads a file or takes an image URL, keeps its OK button in step
    with the current tab's candidate URL, and emits one OK URL when it is
    confirmed. The pure rules come first; the class holds the dialog state
    that the event handlers update. */
module Dialog {
  import opened JsStrings
  import opened Dom

  /** The tab the tab pane reports as current. `OtherTab` stands for any id
      that is neither of the two tabs (for instance before `show` selects
      one). */
  datatype Tab = UploadTab | OnWebTab | OtherTab

  /** A child appended to the upload tab's region: an uploaded image, or a
      red error message. */
  datatype UploadItem = Img(src: string) | ErrorMsg(text: string)

  /** A decoded JSON value, as far as the dialog distinguishes them. JSON
      numbers are taken to be integers. */
  datatype JsonValue = Number(n: int) | Text(s: string) | Boolean(b: bool) | Null | Undefined

  /** The decoded body of an upload response, `{status, imageUrl, errorMsg}`. */
  datatype UploadResponse = UploadResponse(status: JsonValue, imageUrl: string, errorMsg: string)

  /** The dialog's configuration object, `{actionUrl, extraCode}`. */
  datatype DialogConfig = DialogConfig(actionUrl: JsonValue, extraCode: JsonValue)

  /** The message shown when the upload transport reports an error. */
  const UploadFailedMessage: string := "Upload failed."

  /** The scheme prefixed to a URL typed without a colon. */
  const DefaultScheme: string := "http://"

  /** buildTabUpload_ builds the upload form only when `actionUrl` is not
      `undefined`; `null` and the empty string still give a form. Without the
      form no upload can start, so no upload handler can ever run. */
  predicate HasUploadForm(config: DialogConfig): (r: bool)
    ensures r <==> config.actionUrl != Undefined
  {
    !config.actionUrl.Undefined?
  }

  /** `rspJson['status'] === 0`: strict equality, so only the number zero. */
  predicate IsSuccessStatus(status: JsonValue): (r: bool)
    ensures r <==> status.Number? && status.n == 0
  {
    status == Number(0)
  }

  /** isNewLink_: the dialog was opened without an existing image
      (`image_ == null`, which also holds for `undefined`). */
  predicate IsNewLink(image: Option<Element>): (r: bool)
    ensures r <==> image == None
  {
    image.None?
  }

  /** The URL the dialog emits from the on-the-web tab for input `input`:
      verbatim when it holds a colon, otherwise `http://` before the input
      with its leading white space removed. Either way the result has a
      colon and is never empty. */
  function NormalizeUrl(input: string): (r: string)
    ensures HasColon(r)
    ensures !IsEmpty(r)
    ensures HasColon(input) ==> r == input
  {
    if HasColon(input) then
      input
    else
      SchemeIsNotWhitespace(TrimLeft(input));
      DefaultScheme + TrimLeft(input)
  }

  /** Anything after the default scheme holds a colon and is not empty in
      the isEmpty sense. */
  lemma SchemeIsNotWhitespace(t: string)
    ensures HasColon(DefaultScheme + t) && !IsEmpty(DefaultScheme + t)
  {
    var r := DefaultScheme + t;
    assert r[4] == ':';
  }

  /** getUploadedImage_ followed by getAttribute('src'): the `src` of the
      first image in the upload region, if there is one. */
  function FirstImage(items: seq<UploadItem>): (r: Option<string>)
    ensures r.None? <==> forall i :: 0 <= i < |items| ==> !items[i].Img?
    ensures r.Some? ==> exists i :: 0 <= i < |items| && items[i] == Img(r.value) &&
                                    forall j :: 0 <= j < i ==> !items[j].Img?
  {
    if items == [] then None
    else if items[0].Img? then Some(items[0].src)
    else FirstImage(items[1..])
  }

  /** The upload tab's candidate URL: the first image's `src`, or `''` when
      the region holds no image. */
  function UploadedUrl(items: seq<UploadItem>): (r: string)
    ensures FirstImage(items).Some? ==> r == FirstImage(items).value
    ensures (forall i :: 0 <= i < |items| ==> !items[i].Img?) ==> r == ""
    ensures r != "" ==> exists i :: 0 <= i < |items| && items[i] == Img(r) &&
                                    forall j :: 0 <= j < i ==> !items[j].Img?
  {
    FirstImage(items).GetOr("")
  }

  /** The URL syncOkButton_ judges: the raw input on the on-the-web tab, the
      uploaded image's `src` on the upload tab (the same URL createOkEvent
      emits from that tab), and none on any other tab. */
  function CandidateUrl(tab: Tab, items: seq<UploadItem>, input: string): (r: Option<string>)
    ensures r.None? <==> tab == OtherTab
    ensures tab == OnWebTab ==> r == Some(input)
    ensures tab == UploadTab ==> r == Some(OkUrl(UploadTab, items, input))
  {
    match tab
    case OnWebTab => Some(input)
    case UploadTab => Some(UploadedUrl(items))
    case OtherTab => None
  }

  /** The OK button's disabled flag after syncOkButton_, given the flag
      `current` before it. */
  function SyncedOkDisabled(tab: Tab, items: seq<UploadItem>, input: string, current: bool): (d: bool)
    ensures tab == OtherTab ==> d == current
    ensures tab != OtherTab ==> (d <==> IsEmpty(CandidateUrl(tab, items, input).value))
  {
    match CandidateUrl(tab, items, input)
    case Some(url) => IsEmpty(url)
    case None => current
  }

  /** The OK flag agrees with the current tab's candidate URL (trivially so
      on a tab that is neither of the two). */
  predicate OkFlagInSync(tab: Tab, items: seq<UploadItem>, input: string, disabled: bool)
  {
    CandidateUrl(tab, items, input).Some? ==> disabled == IsEmpty(CandidateUrl(tab, items, input).value)
  }

  /** The URL createOkEvent puts in the OK event: from the upload tab the
      first uploaded image's `src` (or `''`); from any other tab the
      normalised URL input, which always has a colon. */
  function OkUrl(tab: Tab, items: seq<UploadItem>, input: string): (r: string)
    ensures tab != UploadTab ==> r == NormalizeUrl(input) && HasColon(r) && !IsEmpty(r)
    ensures tab == UploadTab ==> (r == "" && FirstImage(items).None?) ||
                                 (exists i :: 0 <= i < |items| && items[i] == Img(r) &&
                                              forall j :: 0 <= j < i ==> !items[j].Img?)
  {
    if tab == UploadTab then UploadedUrl(items) else NormalizeUrl(input)
  }

  /** Only an `undefined` actionUrl suppresses the upload form. */
  lemma UploadFormGuard(extraCode: JsonValue)
    ensures !HasUploadForm(DialogConfig(Undefined, extraCode))
    ensures HasUploadForm(DialogConfig(Null, extraCode))
    ensures HasUploadForm(DialogConfig(Text(""), extraCode))
    ensures HasUploadForm(DialogConfig(Text("/upload"), extraCode))
  {
  }

  /** Strict equality: the string "0", `false` and `null` are not success. */
  lemma StrictZeroStatus()
    ensures IsSuccessStatus(Number(0))
    ensures !IsSuccessStatus(Text("0")) && !IsSuccessStatus(Boolean(false))
    ensures !IsSuccessStatus(Null) && !IsSuccessStatus(Undefined) && !IsSuccessStatus(Number(1))
  {
  }

  // ---------------------------------------------------------------------
  // URL normalisation

  /** Normalising an already normalised URL changes nothing. */
  lemma NormalizeUrlIdempotent(input: string)
    ensures NormalizeUrl(NormalizeUrl(input)) == NormalizeUrl(input)
  {
  }

  /** A URL without a colon becomes `http://` followed by the input minus
      its leading run of white space; nothing at the right end is trimmed. */
  lemma NormalizeUrlOfBareUrl(input: string)
    requires !HasColon(input)
    ensures exists k :: 0 <= k <= |input| &&
                        NormalizeUrl(input) == DefaultScheme + input[k..] &&
                        (forall i :: 0 <= i < k ==> IsWhitespace(input[i])) &&
                        (k == |input| || !IsWhitespace(input[k]))
  {
    var t := TrimLeft(input);
    var k := |input| - |t|;
    assert t == input[k..];
    if k < |input| {
      assert input[k] == t[0];
    }
  }

  /** The empty input yields exactly the default scheme. */
  lemma NormalizeUrlOfEmpty()
    ensures NormalizeUrl("") == "http://"
  {
  }

  /** A bare host and path gets the default scheme. */
  lemma NormalizeUrlAddsScheme()
    ensures NormalizeUrl("a.png") == "http://a.png"
  {
    var s := "a.png";
    assert forall i :: 0 <= i < |s| ==> s[i] != ':';
    assert !IsWhitespace(s[0]);
  }

  /** A URL that has a scheme is kept as it is. */
  lemma NormalizeUrlKeepsScheme()
    ensures NormalizeUrl("https://example.com/a.png") == "https://example.com/a.png"
  {
    assert "https://example.com/a.png"[5] == ':';
  }

  /** With a colon present nothing is trimmed at all. */
  lemma NormalizeUrlColonKeepsSpaces()
    ensures NormalizeUrl(" http://x/a.png ") == " http://x/a.png "
  {
    assert " http://x/a.png "[5] == ':';
  }

  // ---------------------------------------------------------------------
  // The upload region

  /** The first image of a concatenation is the first image of the front
      part when it has one, else the first image of the back part. */
  lemma {:induction false} FirstImageConcat(a: seq<UploadItem>, b: seq<UploadItem>)
    ensures FirstImage(a + b) == if FirstImage(a).Some? then FirstImage(a) else FirstImage(b)
  {
    if a != [] {
      assert (a + b)[1..] == a[1..] + b;
      FirstImageConcat(a[1..], b);
    } else {
      assert a + b == b;
    }
  }

  /** Later items never override an earlier image. */
  lemma EarlierImageWins(items: seq<UploadItem>, later: seq<UploadItem>)
    requires FirstImage(items).Some?
    ensures FirstImage(items + later) == FirstImage(items)
  {
    FirstImageConcat(items, later);
  }

  /** Appending an error message leaves the upload tab's candidate URL as it
      was. */
  lemma ErrorMsgKeepsUploadedUrl(items: seq<UploadItem>, text: string)
    ensures UploadedUrl(items + [ErrorMsg(text)]) == UploadedUrl(items)
  {
    FirstImageConcat(items, [ErrorMsg(text)]);
    assert FirstImage([ErrorMsg(text)]) == FirstImage([ErrorMsg(text)][1..]);
  }

  /** Appending an image makes it the candidate only if no image was there
      before. */
  lemma ImgAppendUploadedUrl(items: seq<UploadItem>, url: string)
    ensures UploadedUrl(items + [Img(url)]) == if FirstImage(items).Some? then FirstImage(items).value else url
  {
    FirstImageConcat(items, [Img(url)]);
  }

  // ---------------------------------------------------------------------
  // Confirmation

  /** The URL of the auto-confirm that follows a successful upload of `url`:
      it is taken from whichever tab is current, and on the upload tab from
      the first image, which is `url` only when no image came before. */
  lemma AutoConfirmUrl(tab: Tab, items: seq<UploadItem>, input: string, url: string)
    ensures OkUrl(tab, items + [Img(url)], input) ==
            if tab != UploadTab then NormalizeUrl(input)
            else if FirstImage(items).Some? then FirstImage(items).value
            else url
  {
    ImgAppendUploadedUrl(items, url);
  }

  /** The uploaded URL is emitted when the upload tab is current and no
      image was uploaded before. */
  lemma AutoConfirmEmitsUploadedUrl(items: seq<UploadItem>, input: string, url: string)
    requires FirstImage(items).None?
    ensures OkUrl(UploadTab, items + [Img(url)], input) == url
  {
    AutoConfirmUrl(UploadTab, items, input, url);
  }

  /** On the on-the-web tab an auto-confirm ignores the upload: with an
      empty URL input it emits `http://`, not the uploaded URL. */
  lemma AutoConfirmOnWebTabIgnoresUpload()
    ensures OkUrl(OnWebTab, [Img("http://x/y.png")], "") == "http://"
  {
  }

  /** The auto-confirm does not consult the OK flag: an upload reporting
      success with an empty `imageUrl` disables OK and still emits `''`. */
  lemma AutoConfirmBypassesDisabledOk(input: string)
    ensures SyncedOkDisabled(UploadTab, [Img("")], input, false)
    ensures OkUrl(UploadTab, [Img("")], input) == ""
  {
  }

  /** When the flag is in step with the current tab and OK is enabled, the
      URL a confirmation emits is not empty in the sense of isEmpty. */
  lemma EnabledOkUrlNotEmpty(tab: Tab, items: seq<UploadItem>, input: string, disabled: bool)
    requires OkFlagInSync(tab, items, input, disabled) && !disabled
    ensures !IsEmpty(OkUrl(tab, items, input))
  {
  }

  /** Appending an error message keeps the OK flag in step. */
  lemma ErrorMsgKeepsOkInSync(tab: Tab, items: seq<UploadItem>, input: string, disabled: bool, text: string)
    requires OkFlagInSync(tab, items, input, disabled)
    ensures OkFlagInSync(tab, items + [ErrorMsg(text)], input, disabled)
  {
    ErrorMsgKeepsUploadedUrl(items, text);
  }

  /** The state of one image dialog. */
  class ImageDialog {
    /** image_: the image being edited, `None` for a new image. */
    const image: Option<Element>
    /** Whether buildTabUpload_ built an upload form. */
    const canUpload: bool
    /** The tab pane's current tab. */
    var tab: Tab
    /** The value of the on-the-web URL input. */
    var urlInput: string
    /** The items appended to the upload tab's region, in order. */
    var uploadRegion: seq<UploadItem>
    /** The OK button's `disabled` property. */
    var okDisabled: bool
    /** Whether processOkAndClose has closed the dialog. */
    var closed: bool
    /** The URLs of the OK events dispatched so far, in order. */
    var emitted: seq<string>

    /** The OK flag agrees with the current tab's candidate URL. */
    predicate OkInSync()
      reads this
    {
      OkFlagInSync(tab, uploadRegion, urlInput, okDisabled)
    }

    /** A dialog for `image` (or a new image), built with `config`, before
        `show`: no tab selected, empty input, empty upload region, OK
        enabled. */
    constructor (image: Option<Element>, config: DialogConfig)
      ensures this.image == image && canUpload == HasUploadForm(config)
      ensures tab == OtherTab && urlInput == "" && uploadRegion == []
      ensures !okDisabled && !closed && emitted == []
      ensures OkInSync()
    {
      this.image := image;
      canUpload := HasUploadForm(config);
      tab := OtherTab;
      urlInput := "";
      uploadRegion := [];
      okDisabled := false;
      closed := false;
      emitted := [];
    }

    /** show: a new image opens the upload tab with an empty URL input; an
        existing image opens the on-the-web tab with its `src` in the input
        (an absent `src` reads as `''`). OK is then resynced. */
    method Show()
      modifies this
      ensures tab == (if IsNewLink(image) then UploadTab else OnWebTab)
      ensures urlInput == (if IsNewLink(image) then "" else image.value.src.GetOr(""))
      ensures okDisabled == IsEmpty(if IsNewLink(image) then UploadedUrl(uploadRegion) else urlInput)
      ensures OkInSync()
      ensures uploadRegion == old(uploadRegion) && emitted == old(emitted) && !closed
    {
      closed := false;
      if IsNewLink(image) {
        tab := UploadTab;
      } else {
        tab := OnWebTab;
      }
      urlInput := if IsNewLink(image) then "" else image.value.src.GetOr("");
      SyncOkButton();
    }

    /** syncOkButton_: on either tab, OK is disabled exactly when that tab's
        candidate URL is empty; on any other tab nothing changes. */
    method SyncOkButton()
      modifies this`okDisabled
      ensures okDisabled == SyncedOkDisabled(tab, uploadRegion, urlInput, old(okDisabled))
      ensures OkInSync()
    {
      var imageUrl: string;
      if tab == OnWebTab {
        imageUrl := urlInput;
      } else if tab == UploadTab {
        var image := FirstImage(uploadRegion);
        imageUrl := if image.None? then "" else image.value;
      } else {
        return;
      }
      okDisabled := IsEmpty(imageUrl);
    }

    /** createOkEvent: the URL of the OK event for the current state. */
    method CreateOkEvent() returns (imageUrl: string)
      ensures imageUrl == OkUrl(tab, uploadRegion, urlInput)
    {
      if tab == UploadTab {
        var image := FirstImage(uploadRegion);
        imageUrl := if image.None? then "" else image.value;
      } else {
        imageUrl := urlInput;
        if !HasColon(imageUrl) {
          imageUrl := DefaultScheme + TrimLeft(imageUrl);
        }
      }
    }

    /** processOkAndClose (framework): dispatch the OK event built by
        createOkEvent, then close. */
    method ProcessOkAndClose()
      modifies this`emitted, this`closed
      ensures emitted == old(emitted) + [OkUrl(tab, uploadRegion, urlInput)]
      ensures closed
    {
      var imageUrl := CreateOkEvent();
      emitted := emitted + [imageUrl];
      closed := true;
    }

    /** The framework's OK button: a click is only received while the
        button is enabled, and then confirms the dialog. */
    method ClickOk()
      modifies this`emitted, this`closed
      ensures old(okDisabled) ==> emitted == old(emitted) && closed == old(closed)
      ensures !old(okDisabled) ==> emitted == old(emitted) + [OkUrl(tab, uploadRegion, urlInput)] && closed
      ensures OkInSync() && !okDisabled ==>
                |emitted| == |old(emitted)| + 1 && !IsEmpty(emitted[|emitted| - 1])
    {
      if !okDisabled {
        ProcessOkAndClose();
        if OkInSync() {
          EnabledOkUrlNotEmpty(tab, uploadRegion, urlInput, okDisabled);
        }
      }
    }

    /** onUrlInputChange_: the browser has stored `value` in the URL input;
        the handler only resyncs OK. */
    method OnUrlInputChange(value: string)
      modifies this`urlInput, this`okDisabled
      ensures urlInput == value
      ensures okDisabled == SyncedOkDisabled(tab, uploadRegion, value, old(okDisabled))
      ensures OkInSync()
    {
      urlInput := value;
      SyncOkButton();
    }

    /** onChangeTab_: the tab pane has made `selected` current; the handler
        only resyncs OK. */
    method OnChangeTab(selected: Tab)
      modifies this`tab, this`okDisabled
      ensures tab == selected
      ensures okDisabled == SyncedOkDisabled(selected, uploadRegion, urlInput, old(okDisabled))
      ensures OkInSync()
    {
      tab := selected;
      SyncOkButton();
    }

    /** onFileUploadSuccess_ with the decoded response `rsp`. Status exactly
        `0`: append the image, resync OK, then confirm and close. Any other
        status: append the server's error message and change nothing else. */
    method OnFileUploadSuccess(rsp: UploadResponse)
      requires canUpload
      modifies this`uploadRegion, this`okDisabled, this`emitted, this`closed
      ensures IsSuccessStatus(rsp.status) ==>
                && uploadRegion == old(uploadRegion) + [Img(rsp.imageUrl)]
                && okDisabled == SyncedOkDisabled(tab, uploadRegion, urlInput, old(okDisabled))
                && emitted == old(emitted) + [OkUrl(tab, uploadRegion, urlInput)]
                && closed
                && OkInSync()
      ensures !IsSuccessStatus(rsp.status) ==>
                && uploadRegion == old(uploadRegion) + [ErrorMsg(rsp.errorMsg)]
                && okDisabled == old(okDisabled)
                && emitted == old(emitted)
                && closed == old(closed)
                && (old(OkInSync()) ==> OkInSync())
      ensures IsSuccessStatus(rsp.status) && tab == UploadTab && FirstImage(old(uploadRegion)).None? ==>
                emitted == old(emitted) + [rsp.imageUrl]
    {
      if IsSuccessStatus(rsp.status) {
        uploadRegion := uploadRegion + [Img(rsp.imageUrl)];
        SyncOkButton();
        ProcessOkAndClose();
        if tab == UploadTab && FirstImage(old(uploadRegion)).None? {
          AutoConfirmEmitsUploadedUrl(old(uploadRegion), urlInput, rsp.imageUrl);
        }
      } else {
        if OkInSync() {
          ErrorMsgKeepsOkInSync(tab, uploadRegion, urlInput, okDisabled, rsp.errorMsg);
        }
        uploadRegion := uploadRegion + [ErrorMsg(rsp.errorMsg)];
      }
    }

    /** onFileUploadError_: append the generic failure message; the dialog
        stays open and nothing else changes. */
    method OnFileUploadError()
      requires canUpload
      modifies this`uploadRegion
      ensures uploadRegion == old(uploadRegion) + [ErrorMsg(UploadFailedMessage)]
      ensures old(OkInSync()) ==> OkInSync()
    {
      if OkInSync() {
        ErrorMsgKeepsOkInSync(tab, uploadRegion, urlInput, okDisabled, UploadFailedMessage);
      }
      uploadRegion := uploadRegion + [ErrorMsg(UploadFailedMessage)];
    }
  }
}
