# HEIC converter controller — a Dafny model

The page converts a HEIC/HEIF photo to JPEG or PNG in the browser. Its controller
(`app.js`) keeps two variables, the selected file and the converted blob. It also
switches a handful of page flags: the convert button, the upload area, the spinner, the
success and error messages, the preview and the upload label. Four handlers move the
page between states:
- picking a file;
- converting, split at its single `await` of the external decoder `heic2any`;
- downloading;
- starting a new conversion.

The model has four layers:

- `Selection`, `Formats`, `Decoder`: the pure logic inside the handlers. These are the
  case-insensitive `.heic`/`.heif` name check, the format-to-MIME map, the
  format-to-file-name map, and the rule "element 0 of an array result, the result itself
  otherwise". An empty array gives `None`, because element 0 of an empty array is
  `undefined`.
- `Page`: the page as a value (`PageState`) and one function per handler and helper.
  The `Event` datatype lists what can happen. `Dispatch` applies the gating the page
  does: the upload area ignores clicks while disabled, a disabled or absent button
  cannot be clicked, and a completion needs something pending. `Run` applies a sequence
  of events.
- `PageProperties`: lemmas over handlers and over whole event sequences.
- `Converter.Controller`: the controller as a class. Its fields are the page's variables
  and flags, and each handler updates them in place. Each handler and UI helper method
  is proved to leave `Snapshot()` exactly as the corresponding `Page` function says.
  The smaller steps the handlers are built from have no `Page` function of their own:
  `AdoptFile`, `StartPreview`, `ClearSelection`, `ClearPreview` and
  `RestoreConvertButton`. Each of them states its new snapshot as a field update of the
  old one. `PickingFiles` and `ConvertingToPng` are client methods. They state the
  scenario "pick `photo.HEIC`, pick `photo.png`, convert to PNG, click twice, download"
  as assertions about the class, which the verifier proves.

The predicates `Page.ConvertClickable`, `Page.Idle`, `Page.Consistent`,
`PageProperties.Frozen` and `PageProperties.Retired` name page conditions. The function
`Decoder.Blobs` lists what a resolution carries, and `Converter.Controller.Snapshot`
reads the fields as a `PageState`. These are definitions used by the contracts below,
so they have no rows of their own.

The bound button and the live button are kept apart. `convertBtn` is bound once, at
load time, to the page's own button. Two things replace that button through
`innerHTML`: showing the download buttons, and the reset. So the model keeps two things:
- `convertBtnDisabled`: the `disabled` flag of the bound element, whether or not that
  element is still on the page.
- `buttons`: what the button group holds now. This is `OriginalConvert`,
  `DownloadActions(format)` or `ReplacementConvert`.

The replacement button is created disabled, and no handler ever enables it.

## Where the code differs from what it evidently means to do

Three handlers leave the page in a state that their own code and comments show was not
meant: `handleConvert`, `resetConverter` (together with the next `handleFileSelect`) and
`downloadImage`. The page model and the controller follow the code as written. The
module `Corrected` holds the evidently intended version of each of those handlers, a
dispatcher `FixedDispatch` that differs from `Dispatch` only in them, and a proof that
each correction has the intended effect (see "## Findings").

- After a rejection, the catch branch (app.js:90-94) calls `hideLoading`, which only
  hides the spinner (app.js:169-171). `showLoading` had disabled the convert button and
  the upload area (app.js:164-165), and nothing undoes that. Nor does any download or
  new-conversion button appear. Every later event then leaves the file selected and
  unconvertible (`RejectionFreezes`, `FrozenForever`).
- The reset rewrites the button group with a convert button written `disabled`
  (app.js:145-149) and attaches the handler to it, under the comment that the listener
  is re-attached (app.js:151-152). That shows the reset is meant to leave a usable
  button. But `convertBtn` was bound once, at load time (app.js:7), to the old element.
  So the "Enable convert button" step of a later file pick (app.js:53-54) enables the
  detached element, and the replacement stays disabled. No event sequence after a reset
  ever asks the decoder again (`SelectAfterResetEnablesDetachedButton`, `RetiredForever`).
- The download feedback saves the current success markup and restores it 2 seconds
  later (app.js:128-132). Suppose a second download comes within that window: it saves
  the feedback itself. Once both timers have fired, the feedback stays
  (`DoubleDownloadKeepsFeedback`).

## Findings

| source | as written | input that shows it | evidently intended | confidence | as-written member | corrected member |
|---|---|---|---|---|---|---|
| app.js:90-94 | the catch branch only hides the spinner, so the convert button and the upload area that `showLoading` disabled stay disabled | pick `photo.heic`, click "Convertir", the decoder rejects: no later click or pick has any effect | the page returns to "file selected": the same file can be converted again, or another one picked and converted | not executed; high | `PageProperties.FrozenForever` | `Corrected.RetryAfterRejection` |
| app.js:145-152 | `convertBtn` still names the removed button; the replacement is written `disabled` and nothing enables it | convert, click "Nueva conversión", pick `photo.heic`, click "Convertir": the decoder is never asked | the next accepted pick enables the button on the page, and a click on it converts the file | not executed; high | `PageProperties.RetiredForever` | `Corrected.ConvertAfterReset` |
| app.js:128-132 | every click saves the current markup, so a click within 2 seconds of another saves the feedback itself | click "Descargar" twice within 2 seconds: the feedback stays after both timers | once every timer has fired, the markup from before the first click is back | not executed; medium | `PageProperties.DoubleDownloadKeepsFeedback` | `Corrected.FeedbackRestoredAfterTimers` |

## Model

| member | source | states |
|---|---|---|
| `Selection.LowerChar` | app.js:35 | the result is never an upper-case letter; `A`-`Z` map to `a`-`z`, every other character is kept |
| `Selection.Lower` | app.js:35 | lower-casing keeps the length and lower-cases each character in place |
| `Selection.LowerSlice` | app.js:35 | lower-casing a slice equals slicing the lower-cased string |
| `Selection.LowerIdempotent` | app.js:35 | lower-casing twice equals lower-casing once |
| `Selection.EndsWith` | app.js:36 | `endsWith` holds exactly when some stem followed by the suffix is the string |
| `Selection.IsHeifName` | app.js:35-36 | an accepted name has at least five characters, the fifth from last being `.`; the full characterisation is `IsHeifNameLastFive` |
| `Selection.IsHeifNameLastFive` | app.js:35-36 | a name is accepted exactly when it has at least five characters and its last five, lower-cased, are `.heic` or `.heif` |
| `Selection.IsHeifNameIgnoresCase` | app.js:35-36 | a name and its lower-cased form are accepted alike |
| `Selection.AcceptsUpperCaseHeic` | app.js:35-36 | every name ending in `.HEIC` (e.g. `photo.HEIC`) is accepted |
| `Selection.AcceptsMixedCaseHeif` | app.js:35-36 | every name ending in `.HeIf` is accepted |
| `Selection.LowerUpperHeic` | app.js:35 | `.HEIC` lower-cases to `.heic` |
| `Selection.LowerMixedHeif` | app.js:35 | `.HeIf` lower-cases to `.heif` |
| `Selection.RejectsPng` | app.js:35-36 | every name ending in `.png` is rejected |
| `Selection.RejectsHeicFollowedByJpg` | app.js:35-36 | every name ending in `.heic.jpg` is rejected |
| `Formats.MimeType` | app.js:78 | the requested type is `image/jpeg` exactly for format `JPEG`, and `image/png` for any other format |
| `Formats.DownloadName` | app.js:121 | the suggested name is `converted-image.jpg` exactly for format `JPEG`, and `converted-image.png` otherwise |
| `Formats.DownloadNameAgreesWithMimeType` | app.js:121 | the suggested name ends in `.jpg` exactly when `image/jpeg` was requested, and in `.png` exactly when `image/png` was |
| `Decoder.FirstBlob` | app.js:83 | the kept blob is the first of the blobs the decoder resolved with, and there is none when it resolved with an empty array |
| `Page.Initial` | app.js:15-16 | on the loaded page there is no file, no result and no conversion; the label, the bound button's flag and the success markup are the given ones, and the error text is empty; the page's own convert button is in place, and the upload area is enabled; spinner, messages and preview are hidden; nothing is pending |
| `Page.HideMessages` | app.js:184-187 | both messages are hidden and nothing else changes |
| `Page.ShowLoading` | app.js:162-167 | the spinner is shown; the bound button and the upload area are disabled; both messages are hidden; nothing else changes |
| `Page.HideLoading` | app.js:169-171 | only the spinner is hidden; the button and the upload area keep their state |
| `Page.ShowSuccess` | app.js:173-176 | exactly the success message is visible and nothing else changes |
| `Page.ShowError` | app.js:178-182 | exactly the error message is visible, with the given text, and nothing else changes |
| `Page.ShowDownloadButton` | app.js:98-112 | the button group now holds the download buttons for the given format and nothing else changes |
| `Page.Select` | app.js:29-58 | an empty selection changes nothing; a rejected name shows the invalid-file error and changes nothing else (file, result and button kept); an accepted file is selected, the result is dropped, the label shows the file name, a preview read starts, the bound button is enabled, both messages are hidden, and nothing else changes |
| `Page.ConvertRequest` | app.js:76-80 | the decoder is called exactly when a file is selected; it gets that file, `image/jpeg` exactly for `JPEG` (else `image/png`), and quality 1 |
| `Page.BeginConvert` | app.js:61-72 | without a file: the no-file error is shown and nothing else changes; with a file: loading is shown, the button and the upload area are disabled, messages are hidden, and the conversion awaits the decoder |
| `Page.FinishConvert` | app.js:82-94 | the spinner goes, while the button, the upload area and the file stay; on resolution the first blob is kept, success is shown and the download is offered in the awaited format; on rejection the result is untouched and the conversion error is shown |
| `Page.DownloadResult` | app.js:115-121 | with no result nothing is offered; otherwise the suggested name is that of the format |
| `Page.Download` | app.js:127-132 | with no result nothing changes; otherwise the feedback text replaces the success markup, and a timer is queued to restore the replaced markup |
| `Page.RestoreSuccessMessage` | app.js:130-132 | the oldest timer puts back the markup it captured and leaves the queue |
| `Page.PreviewLoaded` | app.js:47-50 | a loaded reader makes the preview visible, showing its file, and leaves the pending reads |
| `Page.Reset` | app.js:136-159 | every page ends in the same idle state: no file, no result, the idle label, no preview, a new convert button that cannot be clicked, the upload area enabled, no message; the bound button's flag and everything pending are left alone |
| `Page.Requested` | app.js:26 | the decoder is asked only by a click on the page's own enabled convert button, and such a click asks exactly what `ConvertRequest` says |
| `Page.Offered` | app.js:100 | a name is offered exactly when the download button is clicked and a result exists, and it is the name for the button's format |
| `Page.Dispatch` | app.js:19-26 | every event runs its target's handler (`Select`, `BeginConvert`, `FinishConvert`, `Download`, `Reset`, `PreviewLoaded`, `RestoreSuccessMessage`) exactly when the target accepts it, and otherwise changes nothing: picking files while the upload area is disabled, a click on a disabled or absent convert button, a settlement with nothing pending, a download or new-conversion click while those buttons are absent, a preview or timer with nothing pending; an accepted convert click with a file starts a conversion of the checked format and disables the button; an offered new-conversion click always leads to the idle page |
| `Page.Run` | app.js:18-26 | no events leave the page as it is, and one event does what `Dispatch` says |
| `PageProperties.RunAppend` | app.js:18-26 | two event sequences run one after the other give the page their concatenation gives |
| `PageProperties.SelectKeepsConsistent` | app.js:29-58 | picking files through the enabled upload area keeps the page consistent |
| `PageProperties.BeginConvertKeepsConsistent` | app.js:61-72 | starting from the enabled convert button keeps the page consistent |
| `PageProperties.FinishConvertKeepsConsistent` | app.js:82-94 | the decoder settling keeps the page consistent |
| `PageProperties.ResetKeepsConsistent` | app.js:136-159 | the new-conversion button keeps the page consistent |
| `PageProperties.DispatchKeepsConsistent` | app.js:18-26 | every event keeps the page consistent: the spinner is up exactly while a conversion is pending, and then nothing is clickable; at most one message is visible; a result exists only with a file and while its download is offered |
| `PageProperties.RunKeepsConsistent` | app.js:18-26 | any sequence of events keeps the page consistent |
| `PageProperties.ReachableIsConsistent` | app.js:15-16 | every page reachable from the loaded one is consistent |
| `PageProperties.SingleConversionInFlight` | app.js:162-167 | while a conversion is pending, no other event changes the file, the result, the buttons or the pending conversion, and none calls the decoder |
| `PageProperties.SecondConvertClickIgnored` | app.js:164 | a second click right after the first one started a conversion changes nothing and calls nothing |
| `PageProperties.ConvertThenDownload` | app.js:72-121 | click then resolution: the decoder gets the file and the format's MIME type, the first blob is kept, and the download offers the format's name, whose extension matches the MIME type |
| `PageProperties.RejectionFreezes` | app.js:90-94 | a rejection keeps the file and shows the error, but leaves the upload area and the bound button disabled, with no download button offered |
| `PageProperties.FrozenStep` | app.js:19-23 | on a frozen page every event keeps it frozen, keeps the file and the result, and neither calls the decoder nor offers a download |
| `PageProperties.FrozenForever` | app.js:169-171 | a frozen page stays frozen, with the same file and result, after any sequence of events |
| `PageProperties.NewConversionRetires` | app.js:136-159 | the new-conversion button leads to an idle, consistent page where only the replacement button is present |
| `PageProperties.SelectAfterResetEnablesDetachedButton` | app.js:54 | after a reset, an accepted file enables the bound button, but the replacement button on the page stays unclickable |
| `PageProperties.RetiredStep` | app.js:145-152 | after a reset, no event calls the decoder, and the page stays in that state |
| `PageProperties.RetiredForever` | app.js:145-152 | after a reset, no event of any later sequence ever calls the decoder |
| `PageProperties.SecondNewConversionIgnored` | app.js:108-111 | the new-conversion click resets the page and removes its own button, so a second click on it changes nothing |
| `PageProperties.DownloadFeedbackRestored` | app.js:128-132 | one download shows the feedback, and its timer brings the previous markup back |
| `PageProperties.DoubleDownloadKeepsFeedback` | app.js:128-132 | two downloads before the first timer fires leave the feedback shown for good |
| `Corrected.FixedFinishConvert` | app.js:90-94 | a resolution settles as written; a rejection settles as written except that the bound button and the upload area are enabled again |
| `Corrected.FixedReset` | app.js:145-152 | the page is idle as after the written reset, but the button it writes is the bound one, disabled until a file is picked |
| `Corrected.FixedDownload` | app.js:128-132 | the feedback is shown and a timer queued; while other timers run, the new one restores what they restore |
| `Corrected.FixedDispatch` | app.js:19-26 | events route as in `Dispatch`, except that settling, download and new-conversion use the three corrected handlers |
| `Corrected.FixedRun` | app.js:18-26 | no events leave the page as it is, and one event does what `FixedDispatch` says |
| `Corrected.FixedDispatchKeepsConsistent` | app.js:18-26 | the corrected handlers keep the page invariant |
| `Corrected.RetryAfterRejection` | app.js:90-94 | after a rejection the file stays selected with the error shown, a convert click asks the decoder for the same file, and an accepted new pick can be converted |
| `Corrected.ConvertAfterReset` | app.js:145-152 | after the new-conversion button the convert button cannot be clicked, and after an accepted pick a convert click asks the decoder for the picked file |
| `Corrected.OtherEventsKeepFeedback` | app.js:128-132 | events other than a download and a timer leave the success markup and the timers alone |
| `Corrected.FixedStepRestoresTo` | app.js:128-132 | every event keeps "every timer restores the original markup, and with no timer it is shown" |
| `Corrected.FixedRunRestoresTo` | app.js:128-132 | any sequence of events keeps the same fact |
| `Corrected.FeedbackRestoredAfterTimers` | app.js:128-132 | whatever the number and order of downloads, once no timer is running the markup from before the first download is back |
| `Corrected.FixedDoubleDownloadRestores` | app.js:128-132 | the two quick downloads that leave the feedback for good as written restore the markup here |
| `Converter.Controller.constructor` | app.js:15-16 | the fields are those of the loaded page |
| `Converter.Controller.HideMessages` | app.js:184-187 | the fields change as `Page.HideMessages` says |
| `Converter.Controller.ShowLoading` | app.js:162-167 | the fields change as `Page.ShowLoading` says |
| `Converter.Controller.HideLoading` | app.js:169-171 | the fields change as `Page.HideLoading` says |
| `Converter.Controller.ShowSuccess` | app.js:173-176 | the fields change as `Page.ShowSuccess` says |
| `Converter.Controller.ShowError` | app.js:178-182 | the fields change as `Page.ShowError` says |
| `Converter.Controller.ShowDownloadButton` | app.js:98-112 | the fields change as `Page.ShowDownloadButton` says |
| `Converter.Controller.HandleFileSelect` | app.js:29-58 | the fields change as `Page.Select` says |
| `Converter.Controller.AdoptFile` | app.js:41-43 | the file is selected, the result is dropped, the label shows the name; nothing else changes |
| `Converter.Controller.StartPreview` | app.js:46-51 | one more preview read is pending; nothing else changes |
| `Converter.Controller.BeginConvert` | app.js:61-80 | the returned request is `Page.ConvertRequest`, and the fields change as `Page.BeginConvert` says |
| `Converter.Controller.FinishConvert` | app.js:82-94 | the fields change as `Page.FinishConvert` says |
| `Converter.Controller.DownloadImage` | app.js:115-133 | the returned name is `Page.DownloadResult`, and the fields change as `Page.Download` says |
| `Converter.Controller.RestoreSuccessMessage` | app.js:130-132 | the fields change as `Page.RestoreSuccessMessage` says |
| `Converter.Controller.PreviewLoaded` | app.js:47-50 | the fields change as `Page.PreviewLoaded` says |
| `Converter.Controller.ResetConverter` | app.js:136-159 | the fields change as `Page.Reset` says |
| `Converter.Controller.ClearSelection` | app.js:137-140 | no file, no result, the idle label; nothing else changes |
| `Converter.Controller.ClearPreview` | app.js:141-142 | the preview is hidden and emptied; nothing else changes |
| `Converter.Controller.RestoreConvertButton` | app.js:145-152 | the button group holds the replacement convert button, and the bound button is not touched |
| `Converter.Controller.HandleEvent` | app.js:18-26 | the fields change as `Page.Dispatch` says; the request and the name returned are `Page.Requested` and `Page.Offered` |

## Left out

- Selection.Lower, Selection.LowerChar: only `A`-`Z` are folded, not the full Unicode mapping of `toLowerCase`. The name check still gets the same answer: apart from `A`-`Z`, the only characters whose lower case contains a basic Latin letter are the Kelvin sign (giving `k`) and `İ` (giving `i` plus a combining dot). Neither can complete `.heic` or `.heif`.
- The page's markup (`index.html`) is not part of this model. The initial label, the initial state of the convert button and the initial success markup are parameters of `Page.Initial` and of the constructor. `Page.Initial` also assumes the rest of the loaded page. The spinner, both messages and the preview are hidden. The upload area is enabled. The error text is empty. The button group holds the page's own convert button. `ReachableIsConsistent` depends on the spinner being hidden at load.
- The `innerHTML` markup, the SVG and the CSS `display` values are not modelled. They become the abstract flags and the `Buttons` datatype.
- The file reader's data URL is not modelled. The preview records which file it shows, and a read finishing is the event `PreviewReady`. Reads started before a reset can still finish after it, and the model allows that.
- The decoding inside `heic2any` is not modelled: it is an external library. How it settles is the `DecodeOutcome` input, and a rejection's reason is only carried along, since the source only logs it.
- `URL.createObjectURL`/`revokeObjectURL`, the temporary link and its click are browser I/O. The model keeps only the suggested file name.
- The 2-second timer is not modelled as time. Each running timer is an entry in `pendingRestores`, and they fire in the order they were set (`RestoreTimerFires`).
- The type and contents of the blob the decoder resolves with are up to the decoder. `Decoder.Blob` carries them, but nothing ties them to the requested `toType`.
- The `console.error` logging is not modelled.
- Reading the checked radio button is not modelled: the format is an argument.
- Opening the file picker from the upload area is folded into one event, `ChooseFiles`, which is ignored while the upload area is disabled.
- Clearing the file input's value on reset (`fileInput.value = ''`) is not modelled. In the browser it lets the same file be picked again; the model fires `ChooseFiles` whenever asked.
- The readiness flag of an asynchronously loaded decoder, the second decoder variant and the bit-depth error messages are not in `app.js`, so they are not modelled.
