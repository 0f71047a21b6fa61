# Image dialog and image bubble of the Closure editor plugins

This project models two plugins of an image-editing add-on for the Closure
rich-text editor:

- **The image dialog** (`goog.editor.plugins.ImageDialog`). It has two tabs,
  "My Computer" (upload) and "On the web" (URL input). It keeps its OK button
  in step with the current tab's candidate URL. It shows upload results in
  the upload tab. A successful upload confirms the dialog at once. It emits
  one OK URL per confirmation.
- **The image bubble** (`goog.editor.plugins.ImageBubble`). It finds the
  image a selection is anchored to and offers two options, Edit and Remove.
  Edit re-issues the IMAGE command on the image. Remove deletes the image
  inside a before-change/change bracket.

Files:

- `js_strings.dfy`, module `JsStrings`: the Closure string helpers the dialog
  calls. `IsWhitespace` is the JavaScript class `[\s\xa0]`. `IsEmpty` is
  `goog.string.isEmpty`: empty or white space only. `TrimLeft` is
  `goog.string.trimLeft`. `HasColon` is the `search(/:/)` test.
- `dom.dfy`, module `Dom`: `Option`, node ids, and the element record. A
  record holds a tag, a parent, an ordered child list and the `src`/`alt`
  attributes. Both plugins share it.
- `image_dialog.dfy`, module `Dialog`: the pure rules of the dialog and
  the class `ImageDialog`. The rules are URL normalisation, the first
  uploaded image, the candidate URL, the OK flag and the OK URL. The class
  holds the current tab, the URL input, the upload region's items in order,
  the OK button's `disabled` flag, the closed flag and the log of emitted
  OK URLs. Its event handlers update that state.
- `image_bubble.dfy`, module `Bubble`: parent chains, previous siblings,
  the bubble-target rule, `goog.dom.removeNode`, the document
  well-formedness invariant, the bubble options, and the class
  `ImageBubble`. The class holds the field's document, the target and the
  field's event log. Its methods are `DeleteImage` and `ShowImageDialog`.

Modelling choices:

- The document is a map from node ids to element records. `previousSibling`
  is derived: it is the entry before the node in its parent's child list.
- `getAncestorByTagNameAndClass` walks at most `|doc|` parent links. When
  parent links are acyclic, that walk is proved to reach the root (`ChainReachesRoot`).
  `SelfOrAncestorsComplete` shows that a longer walk then finds nothing
  more.
- The tab pane and the browser change the current tab and the URL input
  before the handlers run. `OnChangeTab` and `OnUrlInputChange` therefore
  take the new value as a parameter. Apart from storing it, they only
  resync OK.
- An upload arrives as `OnFileUploadSuccess` with a decoded response
  record, or as `OnFileUploadError`. Both handlers require `canUpload`. Their
  listeners exist only when `buildTabUpload_` built the form. That happens
  when `actionUrl` is not `undefined`; `null` and `''` still build a form.
- The config is a constructor parameter. It stands for `setConfig`, which the plugin calls before the dialog is shown. With no config the default `{}` applies: `actionUrl` is `undefined`, so there is no upload form.
- Upload handlers do not require the dialog to be open. In the model, a
  response that arrives after the dialog closed is still appended and can
  confirm again. The program may allow less: `disposeInternal`
  (editor/imagedialog.js:200-202) disposes the handler that owns the upload
  listeners, so once the framework disposes a closed dialog a late response
  reaches no handler. Whether that happens depends on the dialog lifecycle,
  which is not modelled.
- `processOkAndClose` is framework code. It is modelled as: emit
  `createOkEvent()`'s URL, then close. `ClickOk` models the framework's OK
  button: a disabled button receives no click. `Show` reopens the dialog,
  which is what the framework's `show` does.

Rules of the code worth knowing:

- The URL input is trimmed only at its left end, and only when it has no
  colon. An input with a colon is kept verbatim, spaces at both ends
  included (`NormalizeUrlColonKeepsSpaces`).
- OK is disabled when the candidate URL is empty in the sense of
  `goog.string.isEmpty`, so an input of white space only also disables OK.
- The upload tab's URL is the `src` of the first image in the upload
  region. Later uploads never override it (`EarlierImageWins`).
- After a successful upload the code resyncs OK and then confirms from
  **whichever tab is current**. On the on-the-web tab the upload is ignored
  (`AutoConfirmOnWebTabIgnoresUpload`). The confirmation does not look at
  the OK flag, so an empty `imageUrl` is emitted as `''` while OK is
  disabled (`AutoConfirmBypassesDisabledOk`).
- A failed upload leaves the OK flag exactly as it was, whatever its value.

## Model

| member | source | states |
|---|---|---|
| `JsStrings.IsEmpty` | editor/imagedialog.js:470 | The empty string is empty. A string with any character that is not white space is not. |
| `JsStrings.HasColon` | editor/imagedialog.js:190 | True exactly when some position of the string holds a colon. Such a string is never empty in the `isEmpty` sense. |
| `JsStrings.TrimLeft` | editor/imagedialog.js:191 | The result is a suffix of the input. Everything cut off is white space. The result does not start with white space. |
| `JsStrings.TrimLeftIdempotent` | editor/imagedialog.js:191 | Trimming the left end twice equals trimming it once. |
| `JsStrings.IsEmptyIffTrimLeftEmpty` | editor/imagedialog.js:470 | A string is empty in the `isEmpty` sense exactly when trimming its left end leaves nothing. |
| `Dialog.HasUploadForm` | editor/imagedialog.js:303-305 | The upload form exists exactly when `actionUrl` is not `undefined`. |
| `Dialog.IsSuccessStatus` | editor/imagedialog.js:390 | A status is success exactly when it is the number 0. |
| `Dialog.IsNewLink` | editor/imagedialog.js:491-493 | The link is new exactly when the dialog has no image. |
| `Dialog.UploadFormGuard` | editor/imagedialog.js:303-305 | Only an `undefined` `actionUrl` suppresses the upload form. `null`, `''` and a real URL all give one. |
| `Dialog.StrictZeroStatus` | editor/imagedialog.js:390 | Only the number 0 is a success status. The string "0", `false`, `null`, `undefined` and 1 are failures. |
| `Dialog.NormalizeUrl` | editor/imagedialog.js:186-193 | The on-the-web URL always contains a colon and is never empty, not even in the `isEmpty` sense. An input that already has a colon is returned verbatim. |
| `Dialog.SchemeIsNotWhitespace` | editor/imagedialog.js:191 | Whatever follows the `http://` prefix, the result has a colon and is not empty in the `isEmpty` sense. |
| `Dialog.NormalizeUrlIdempotent` | editor/imagedialog.js:190-192 | Normalising twice equals normalising once. |
| `Dialog.NormalizeUrlOfBareUrl` | editor/imagedialog.js:190-192 | An input without a colon becomes `http://` followed by the input minus its leading white-space run. The right end is kept. |
| `Dialog.NormalizeUrlOfEmpty` | editor/imagedialog.js:190-191 | An empty input yields `http://`. |
| `Dialog.NormalizeUrlAddsScheme` | editor/imagedialog.js:190-191 | `a.png` becomes `http://a.png`. |
| `Dialog.NormalizeUrlKeepsScheme` | editor/imagedialog.js:189-190 | `https://example.com/a.png` is kept unchanged. |
| `Dialog.NormalizeUrlColonKeepsSpaces` | editor/imagedialog.js:189-193 | With a colon present, leading and trailing spaces are both kept. |
| `Dialog.FirstImage` | editor/imagedialog.js:478-484 | None exactly when the upload region holds no image. Otherwise it is the `src` of an image with no image before it. |
| `Dialog.UploadedUrl` | editor/imagedialog.js:182-185 | The `src` of the first image in the region, or `''` when the region holds no image. |
| `Dialog.FirstImageConcat` | editor/imagedialog.js:481-483 | Over a concatenation, the first image comes from the front part if that part has one, else from the back part. |
| `Dialog.EarlierImageWins` | editor/imagedialog.js:483 | Once the region has an image, appending more items never changes the first image. |
| `Dialog.ErrorMsgKeepsUploadedUrl` | editor/imagedialog.js:398-401 | Appending an error message leaves the upload tab's candidate URL unchanged. |
| `Dialog.ImgAppendUploadedUrl` | editor/imagedialog.js:391-394 | Appending an image makes its `src` the candidate only when no image came before. |
| `Dialog.CandidateUrl` | editor/imagedialog.js:456-469 | `syncOkButton_` judges a URL exactly when the tab is the upload tab or the on-the-web tab. On the on-the-web tab it judges the raw input. On the upload tab it judges the same URL `createOkEvent` emits from that tab. |
| `Dialog.SyncedOkDisabled` | editor/imagedialog.js:456-471 | On either tab, OK is disabled iff that tab's candidate URL is empty per `isEmpty`. On any other tab the flag is unchanged. |
| `Dialog.OkUrl` | editor/imagedialog.js:181-196 | Off the upload tab, the OK URL is the normalised input, so it has a colon and is not empty. On the upload tab it is `''` with no image, or the `src` of the first image. |
| `Dialog.AutoConfirmUrl` | editor/imagedialog.js:390-396 | The auto-confirm after an upload uses the current tab. Off the upload tab it emits the normalised input. On it, it emits the earlier first image if any, else the new URL. |
| `Dialog.AutoConfirmEmitsUploadedUrl` | editor/imagedialog.js:390-396 | On the upload tab with no earlier image, the auto-confirm emits the uploaded URL. |
| `Dialog.AutoConfirmOnWebTabIgnoresUpload` | editor/imagedialog.js:396 | On the on-the-web tab with an empty input, the auto-confirm emits `http://` and ignores the upload. |
| `Dialog.AutoConfirmBypassesDisabledOk` | editor/imagedialog.js:394-396 | A success response with an empty `imageUrl` disables OK, yet the auto-confirm still emits `''`. |
| `Dialog.EnabledOkUrlNotEmpty` | editor/imagedialog.js:456-471 | On any tab, when OK is enabled and in step with the candidate URL, the OK URL is not empty per `isEmpty`. |
| `Dialog.ErrorMsgKeepsOkInSync` | editor/imagedialog.js:397-402 | Appending an error message keeps the OK flag in step with the candidate URL. |
| `Dialog.ImageDialog.constructor` | editor/imagedialog.js:54-65 | A new dialog keeps its image. It has no tab selected, an empty input, an empty region, OK enabled and nothing emitted. It can upload iff the config's `actionUrl` is defined. |
| `Dialog.ImageDialog.Show` | editor/imagedialog.js:118-131 | With no image: upload tab and input `''`. With an image: on-the-web tab and input set to its `src` (`''` when missing). OK is then resynced. The dialog is open again. The upload region and the log are unchanged. |
| `Dialog.ImageDialog.SyncOkButton` | editor/imagedialog.js:456-471 | Only the OK flag changes. It becomes the synced flag, so the flag is in step with the candidate URL. |
| `Dialog.ImageDialog.CreateOkEvent` | editor/imagedialog.js:181-196 | Returns the OK URL of the current tab, region and input, and changes nothing. |
| `Dialog.ImageDialog.ProcessOkAndClose` | editor/imagedialog.js:396 | Appends exactly one OK URL to the emitted log, then the dialog is closed. |
| `Dialog.ImageDialog.ClickOk` | editor/imagedialog.js:470 | A disabled OK does nothing. An enabled OK emits one URL and closes. When the flag is in step, that URL is not empty, on any tab. |
| `Dialog.ImageDialog.OnUrlInputChange` | editor/imagedialog.js:358-360 | Only the input and the OK flag change. The new flag is in step with the new input. |
| `Dialog.ImageDialog.OnChangeTab` | editor/imagedialog.js:428-448 | Only the tab and the OK flag change. The new flag is in step with the new tab. |
| `Dialog.ImageDialog.OnFileUploadSuccess` | editor/imagedialog.js:384-403 | Status exactly 0: append one image, resync OK, emit one URL, close. On the upload tab with no earlier image, that URL is the one uploaded. Other statuses: append one error message; nothing else changes. |
| `Dialog.ImageDialog.OnFileUploadError` | editor/imagedialog.js:411-420 | Appends one "Upload failed." message. Tab, input, OK flag, closed flag and log are unchanged, and an in-step OK flag stays in step. |
| `Bubble.Chain` | editor/imagebubble.js:114-115 | The walk starts at the node and follows parent links. It stops at a node without a parent or when the fuel runs out. |
| `Bubble.SelfOrAncestors` | editor/imagebubble.js:114-115 | The chain starts at the node, each entry's parent is the next entry, and it has at most one more entry than the document has nodes. In an acyclic document it ends at a node without a parent. |
| `Bubble.ChainSuffix` | editor/imagebubble.js:114-115 | The chain from the `i`-th node of a chain is the rest of that chain. |
| `Bubble.AcyclicChainDistinct` | editor/imagebubble.js:114-115 | In an acyclic document no node occurs twice in a chain. |
| `Bubble.DistinctWithin` | editor/imagebubble.js:114-115 | A sequence without repeats, drawn from a set, is no longer than the set is large. |
| `Bubble.ChainReachesRoot` | editor/imagebubble.js:114-115 | In an acyclic document, a walk of as many parent links as the document has nodes ends at a node without a parent. |
| `Bubble.ChainComplete` | editor/imagebubble.js:114-115 | Once a walk has reached a node without a parent, extra fuel yields the same chain. |
| `Bubble.SelfOrAncestorsComplete` | editor/imagebubble.js:114-115 | When the chain reaches a root, a longer walk finds no further ancestor. |
| `Bubble.FirstImgIndex` | editor/imagebubble.js:114-115 | Gives the position of an image with no image before it, or none when the chain holds no image. |
| `Bubble.NearestImgAncestor` | editor/imagebubble.js:114-115 | The result is an image among the node and its ancestors, with no image nearer. It is none only when no node of the chain is an image. |
| `Bubble.IndexOf` | editor/imagebubble.js:129 | Gives the first position of the node in a child list, or none when the node is not in the list. |
| `Bubble.PrevSibling` | editor/imagebubble.js:128-129 | A previous sibling is the child just before the node in its parent's child list. |
| `Bubble.FallbackTarget` | editor/imagebubble.js:126-133 | A target exists iff a range exists, is collapsed, starts at offset 0 and its start node's previous sibling is an IMG. The target is that sibling. |
| `Bubble.BubbleTarget` | editor/imagebubble.js:112-137 | A target is always an IMG. An IMG ancestor takes precedence. Only when there is none is the fallback consulted. |
| `Bubble.SelectedImageIsTarget` | editor/imagebubble.js:114-115 | A selected image is its own target, whatever the range. |
| `Bubble.NearestAncestorImageIsTarget` | editor/imagebubble.js:114-115 | The IMG nearest to the selection among self and ancestors is the target, whatever the range. |
| `Bubble.FallbackWithoutImageAncestor` | editor/imagebubble.js:117-136 | With no IMG among self and ancestors, a target exists exactly under the fallback conditions, and it is the previous sibling. Otherwise the target is null. |
| `Bubble.Without` | editor/imagebubble.js:198 | A child list loses exactly the removed node. A list without that node is unchanged. |
| `Bubble.WithoutConcat` | editor/imagebubble.js:198 | Removing a node from a concatenation removes it from each part. |
| `Bubble.WithoutSingle` | editor/imagebubble.js:198 | Removing a node that occurs once cuts it out at its position. |
| `Bubble.RemoveNode` | editor/imagebubble.js:198 | The node set is unchanged. The target loses its parent. Only the parent's child list changes, losing the target. A node without a parent leaves the document as it was. |
| `Bubble.RemoveKeepsParentsListChildren` | editor/imagebubble.js:198 | After a removal, every parent still lists its children. |
| `Bubble.RemoveKeepsChildrenNameParent` | editor/imagebubble.js:198 | After a removal, every listed child still names its parent. |
| `Bubble.WithoutKeepsDistinct` | editor/imagebubble.js:198 | A child list without repeats still has none after a removal. |
| `Bubble.RemoveKeepsChildListsDistinct` | editor/imagebubble.js:198 | After a removal, no child list repeats a node. |
| `Bubble.RemoveNodeKeepsWf` | editor/imagebubble.js:198 | Removal keeps a well-formed document well formed. |
| `Bubble.CutPrevAt` | editor/imagebubble.js:198 | Cutting one entry out of a list keeps every other entry's predecessor, except the next entry, which inherits the cut entry's predecessor. |
| `Bubble.PrevSiblingAt` | editor/imagebubble.js:129 | In a child list without repeats, the previous sibling of the child at position i is the child at i - 1. |
| `Bubble.RemoveNodeSiblingUnderParent` | editor/imagebubble.js:198 | After a removal, a sibling of the target keeps its previous sibling. The only exception is the next sibling, which gets the target's previous sibling. |
| `Bubble.RemoveNodeSiblingElsewhere` | editor/imagebubble.js:198 | A removal does not change the previous sibling of any node under another parent. |
| `Bubble.RemoveNodeSiblings` | editor/imagebubble.js:198 | After a removal, the target has no previous sibling. Its former next sibling follows the target's previous sibling. Every other node keeps its own. |
| `Bubble.ChainAfterRemove` | editor/imagebubble.js:198 | A removal does not change the parent chain of a node whose chain avoids the target. |
| `Bubble.NearestImgAncestorAfterRemove` | editor/imagebubble.js:114-115 | A removal does not change the nearest IMG ancestor of a selection whose chain avoids the target. |
| `Bubble.FirstImgIndexSameImages` | editor/imagebubble.js:114-115 | Two documents that agree on which nodes of a chain are images find the same first image. |
| `Bubble.ImageToText` | editor/imagebubble.js:184-189 | `imageSrc` is the `src` attribute, or `''` when absent. `imageAlt` is the `alt` attribute, or `''` when absent. |
| `Bubble.BubbleOptions` | editor/imagebubble.js:153-175 | There are two options. Edit, which shows the image dialog, comes before Remove, which deletes the image. |
| `Bubble.ImageBubble.constructor` | editor/imagebubble.js:35-37 | A bubble starts on the given document and target, with an empty event log. |
| `Bubble.ImageBubble.DeleteImage` | editor/imagebubble.js:196-201 | The log gains before-change, removal of the target, bubble close and change, in that order. The document becomes `RemoveNode` of the target, and a well-formed document stays well formed. |
| `Bubble.ImageBubble.ShowImageDialog` | editor/imagebubble.js:208-211 | The log gains exactly one IMAGE command carrying the target, then bubble close. The document is unchanged. |

## Left out

- Upload transport: `onFileInputChange_`, `goog.net.IframeIo` and `sendFromForm` are network I/O. They are modelled only as the `canUpload` guard on the upload handlers.
- `getResponseJson`: the JSON decoding is library code. A `null` response, on which editor/imagedialog.js:390 throws, is not modelled. A string, number or boolean response reads `status` as `undefined` and takes the failure branch with an `undefined` error message; that is the missing-field case, which is not modelled either: the record always carries strings. JSON numbers are integers, so `0.0` and `-0` both read as 0.
- `extraCode`: the markup goes into the upload form verbatim. The model assumes it holds no `<img>`; one would become the upload tab's first image.
- DOM construction and styling are not modelled: the tables, the labels, the IE width and focus workaround in `onChangeTab_`, localized messages, `disposeInternal` and listener registration.
- Framework internals are not modelled: the dialog lifecycle, the cancellable OK event inside `processOkAndClose`, bubble positioning, and how `closeBubble` and the undo/redo listeners react to change events.
- `editor.js` is not part of this model. It only wires plugins and toolbar buttons together.
- `editor/imagedialogplugin.js` is not part of this model. Its `handleOk_` brackets the insertion with before-change, range replacement, change, cursor placement and a selection-change event (editor/imagedialogplugin.js:97-118). The range semantics it relies on belong to the framework.
- Node names are upper-case strings compared exactly. XHTML documents with lower-case names are not modelled.
- Parent links that form a cycle are not modelled: a DOM cannot hold one. `Wf` does not rule them out. The ancestor walk covers every ancestor only in an `Acyclic` document (`ChainReachesRoot`). On a cyclic one the source would not stop, while the model stops after as many links as the document has nodes.
- Show and OnUrlInputChange: the URL input is modelled as a plain text field that stores any string verbatim. On browsers other than IE the source makes it an `<input type='url'>` (editor/imagedialog.js:274-278). Such a field sanitises its value: it strips line breaks and leading and trailing ASCII white space. So the value `show` writes at editor/imagedialog.js:128, and the value the browser reports to `onUrlInputChange_`, may differ from what the model stores.
