/**
 * The state of the converter page as a value: the two module-level variables of the
 * controller, the parts of the page its handlers switch, and what is still pending
 * (the decoder call, the file-reader previews, the restore timers). Each handler of the
 * controller is a function from the page before to the page after.
 */
module Page {
  import opened Wrappers
  import opened Selection
  import opened Formats
  import opened Decoder

  const InvalidFileMessage := "Por favor selecciona un archivo HEIC válido"
  const NoFileMessage := "Por favor selecciona una imagen primero"
  const ConversionFailedMessage := "Error al convertir la imagen. Asegúrate de que el archivo sea un HEIC válido."
  /** The upload label after a reset. */
  const IdleLabel := "Seleccionar imagen HEIC"
  /** What the success message shows right after a download starts. */
  const DownloadStartedHtml := "<p>\U{2713} Descarga iniciada</p>"

  /** What the button group of the page currently holds. */
  datatype Buttons =
    | OriginalConvert
      // the page's own convert button, the element `convertBtn` was bound to at load time
    | DownloadActions(format: string)
      // "Descargar", with the format written into its click handler, and "Nueva conversión"
    | ReplacementConvert
      // the convert button written by a reset: created disabled, and no handler enables it

  datatype PageState = PageState(
    selectedFile: Option<File>,
    convertedBlob: Option<Blob>,
    uploadText: string,
    previewVisible: bool,
    previewSource: Option<File>,   // the file whose data URL the preview image shows
    pendingReads: seq<File>,       // file readers started and not yet loaded
    convertBtnDisabled: bool,      // `disabled` of the bound button, attached to the page or not
    buttons: Buttons,
    uploadDisabled: bool,
    loadingVisible: bool,
    successVisible: bool,
    errorVisible: bool,
    errorText: string,
    successHtml: string,
    pendingRestores: seq<string>,  // success markup captured by each running restore timer
    converting: Option<string>     // the format of the conversion awaiting the decoder
  )

  /** The page as loaded; the label, the bound button's state and the success markup come from the page's markup. */
  function Initial(uploadLabel: string, convertDisabled: bool, successHtml: string): (p: PageState)
    ensures p.selectedFile.None? && p.convertedBlob.None? && p.converting.None?
    ensures p.buttons == OriginalConvert && !p.uploadDisabled && !p.loadingVisible
    ensures !p.successVisible && !p.errorVisible && !p.previewVisible
    ensures p.pendingReads == [] && p.pendingRestores == []
    ensures p.uploadText == uploadLabel && p.convertBtnDisabled == convertDisabled
    ensures p.successHtml == successHtml && p.errorText == ""
  {
    PageState(None, None, uploadLabel, false, None, [], convertDisabled, OriginalConvert,
              false, false, false, false, "", successHtml, [], None)
  }

  /** A click on the convert button starts a conversion only if the bound button is the one on the page and is enabled. */
  predicate ConvertClickable(p: PageState)
  {
    p.buttons == OriginalConvert && !p.convertBtnDisabled
  }

  // ---- UI helpers ----

  /** Both messages hidden; nothing else changes. */
  function HideMessages(p: PageState): (q: PageState)
    ensures !q.successVisible && !q.errorVisible
    ensures q.(successVisible := p.successVisible, errorVisible := p.errorVisible) == p
  {
    p.(successVisible := false, errorVisible := false)
  }

  /** Spinner shown, bound button and upload area disabled, messages hidden; nothing else changes. */
  function ShowLoading(p: PageState): (q: PageState)
    ensures q.loadingVisible && q.convertBtnDisabled && q.uploadDisabled
    ensures !q.successVisible && !q.errorVisible
    ensures q.(loadingVisible := p.loadingVisible, convertBtnDisabled := p.convertBtnDisabled,
               uploadDisabled := p.uploadDisabled, successVisible := p.successVisible,
               errorVisible := p.errorVisible) == p
  {
    HideMessages(p.(loadingVisible := true, convertBtnDisabled := true, uploadDisabled := true))
  }

  /** Only the spinner is hidden: the button and the upload area keep their state. */
  function HideLoading(p: PageState): (q: PageState)
    ensures !q.loadingVisible
    ensures q.(loadingVisible := p.loadingVisible) == p
  {
    p.(loadingVisible := false)
  }

  /** Exactly the success message visible; nothing else changes. */
  function ShowSuccess(p: PageState): (q: PageState)
    ensures q.successVisible && !q.errorVisible
    ensures q.(successVisible := p.successVisible, errorVisible := p.errorVisible) == p
  {
    p.(successVisible := true, errorVisible := false)
  }

  /** Exactly the error message visible, with the given text; nothing else changes. */
  function ShowError(p: PageState, message: string): (q: PageState)
    ensures q.errorVisible && !q.successVisible && q.errorText == message
    ensures q.(errorText := p.errorText, successVisible := p.successVisible, errorVisible := p.errorVisible) == p
  {
    p.(errorText := message, errorVisible := true, successVisible := false)
  }

  /** The button group replaced by the download and new-conversion buttons; nothing else changes. */
  function ShowDownloadButton(p: PageState, format: string): (q: PageState)
    ensures q.buttons == DownloadActions(format)
    ensures q.(buttons := p.buttons) == p
  {
    p.(buttons := DownloadActions(format))
  }

  // ---- handlers ----

  /** The change handler of the file input, given the files of the event. */
  function Select(p: PageState, files: seq<File>): (q: PageState)
    // no file: nothing changes
    ensures |files| == 0 ==> q == p
    // a rejected name: the error is shown and nothing else changes
    ensures |files| > 0 && !IsHeifName(files[0].name) ==>
      q.errorVisible && !q.successVisible && q.errorText == InvalidFileMessage &&
      q.(errorText := p.errorText, successVisible := p.successVisible, errorVisible := p.errorVisible) == p
    // an accepted name: the file is selected, the old result dropped, the bound button enabled
    ensures |files| > 0 && IsHeifName(files[0].name) ==>
      q.selectedFile == Some(files[0]) && q.convertedBlob.None? &&
      q.uploadText == files[0].name && q.pendingReads == p.pendingReads + [files[0]] &&
      !q.convertBtnDisabled && !q.successVisible && !q.errorVisible &&
      q.(selectedFile := p.selectedFile, convertedBlob := p.convertedBlob, uploadText := p.uploadText,
         pendingReads := p.pendingReads, convertBtnDisabled := p.convertBtnDisabled,
         successVisible := p.successVisible, errorVisible := p.errorVisible) == p
  {
    if |files| == 0 then p
    else
      var file := files[0];
      if !IsHeifName(file.name) then
        ShowError(p, InvalidFileMessage)
      else
        HideMessages(p.(selectedFile := Some(file), convertedBlob := None, uploadText := file.name,
                        pendingReads := p.pendingReads + [file], convertBtnDisabled := false))
  }

  /** The options the convert handler passes to the decoder, or `None` when it does not call it. */
  function ConvertRequest(p: PageState, format: string): (r: Option<DecodeRequest>)
    ensures r.None? <==> p.selectedFile.None?
    ensures r.Some? ==> r.value.source == p.selectedFile.value &&
                        (r.value.toType == JpegMime <==> format == Jpeg) &&
                        r.value.toType in {JpegMime, PngMime} &&
                        r.value.quality == MaxQuality
  {
    if p.selectedFile.None? then None
    else Some(DecodeRequest(p.selectedFile.value, MimeType(format), MaxQuality))
  }

  /** The convert handler up to the point where it awaits the decoder. */
  function BeginConvert(p: PageState, format: string): (q: PageState)
    // no file: the error is shown and nothing else changes
    ensures p.selectedFile.None? ==>
      q.errorVisible && !q.successVisible && q.errorText == NoFileMessage &&
      q.(errorText := p.errorText, successVisible := p.successVisible, errorVisible := p.errorVisible) == p
    // otherwise: loading, with the button and the upload area disabled, awaiting the decoder
    ensures p.selectedFile.Some? ==>
      q.loadingVisible && q.convertBtnDisabled && q.uploadDisabled &&
      !q.successVisible && !q.errorVisible && q.converting == Some(format) &&
      q.(loadingVisible := p.loadingVisible, convertBtnDisabled := p.convertBtnDisabled,
         uploadDisabled := p.uploadDisabled, successVisible := p.successVisible,
         errorVisible := p.errorVisible, converting := p.converting) == p
  {
    if p.selectedFile.None? then ShowError(p, NoFileMessage)
    else ShowLoading(p).(converting := Some(format))
  }

  /** The convert handler after the decoder settles. */
  function FinishConvert(p: PageState, outcome: DecodeOutcome): (q: PageState)
    requires p.converting.Some?
    // in both cases the spinner goes, and the button and the upload area stay as they were
    ensures q.converting.None? && !q.loadingVisible
    ensures q.convertBtnDisabled == p.convertBtnDisabled && q.uploadDisabled == p.uploadDisabled
    ensures q.selectedFile == p.selectedFile
    // resolved: the first blob is kept, success shown, download offered in the awaited format
    ensures outcome.Resolved? ==>
      q.convertedBlob == FirstBlob(outcome.value) && q.successVisible && !q.errorVisible &&
      q.buttons == DownloadActions(p.converting.value) &&
      q.(convertedBlob := p.convertedBlob, successVisible := p.successVisible,
         errorVisible := p.errorVisible, buttons := p.buttons, loadingVisible := p.loadingVisible,
         converting := p.converting) == p
    // rejected: the result is not touched and the error is shown
    ensures outcome.Rejected? ==>
      q.errorVisible && !q.successVisible && q.errorText == ConversionFailedMessage &&
      q.(errorText := p.errorText, successVisible := p.successVisible, errorVisible := p.errorVisible,
         loadingVisible := p.loadingVisible, converting := p.converting) == p
  {
    if outcome.Resolved? then
      p.(converting := None, convertedBlob := FirstBlob(outcome.value), loadingVisible := false,
         successVisible := true, errorVisible := false, buttons := DownloadActions(p.converting.value))
    else
      p.(converting := None, loadingVisible := false,
         errorText := ConversionFailedMessage, errorVisible := true, successVisible := false)
  }

  /** The name the download handler suggests, or `None` when it returns early. */
  function DownloadResult(p: PageState, format: string): (name: Option<string>)
    ensures name.None? <==> p.convertedBlob.None?
    ensures name.Some? ==> name.value == DownloadName(format)
  {
    if p.convertedBlob.None? then None else Some(DownloadName(format))
  }

  /** The download handler's effect on the page: the feedback, and a timer that will restore the markup it replaced. */
  function Download(p: PageState): (q: PageState)
    ensures p.convertedBlob.None? ==> q == p
    ensures p.convertedBlob.Some? ==>
      q.successHtml == DownloadStartedHtml && q.pendingRestores == p.pendingRestores + [p.successHtml] &&
      q.(successHtml := p.successHtml, pendingRestores := p.pendingRestores) == p
  {
    if p.convertedBlob.None? then p
    else p.(successHtml := DownloadStartedHtml, pendingRestores := p.pendingRestores + [p.successHtml])
  }

  /** The oldest restore timer fires (all have the same delay, so they fire in the order they were set). */
  function RestoreSuccessMessage(p: PageState): (q: PageState)
    requires |p.pendingRestores| > 0
    ensures q.successHtml == p.pendingRestores[0] && q.pendingRestores == p.pendingRestores[1..]
    ensures q.(successHtml := p.successHtml, pendingRestores := p.pendingRestores) == p
  {
    p.(successHtml := p.pendingRestores[0], pendingRestores := p.pendingRestores[1..])
  }

  /** One of the pending file readers loads: the preview shows its file. */
  function PreviewLoaded(p: PageState, i: nat): (q: PageState)
    requires i < |p.pendingReads|
    ensures q.previewVisible && q.previewSource == Some(p.pendingReads[i])
    ensures q.pendingReads == p.pendingReads[..i] + p.pendingReads[i + 1..]
    ensures q.(previewVisible := p.previewVisible, previewSource := p.previewSource,
               pendingReads := p.pendingReads) == p
  {
    p.(previewVisible := true, previewSource := Some(p.pendingReads[i]),
       pendingReads := p.pendingReads[..i] + p.pendingReads[i + 1..])
  }

  /** The idle page a reset leads to: whatever happened before, these parts always end the same. */
  predicate Idle(p: PageState)
  {
    p.selectedFile.None? && p.convertedBlob.None? && p.uploadText == IdleLabel &&
    !p.previewVisible && p.previewSource.None? && p.buttons == ReplacementConvert &&
    !p.uploadDisabled && !p.successVisible && !p.errorVisible
  }

  /** The new-conversion handler. */
  function Reset(p: PageState): (q: PageState)
    ensures Idle(q) && !ConvertClickable(q)
    // the bound button, the spinner and what is pending are left alone
    ensures q.convertBtnDisabled == p.convertBtnDisabled && q.loadingVisible == p.loadingVisible &&
            q.converting == p.converting && q.pendingReads == p.pendingReads &&
            q.pendingRestores == p.pendingRestores && q.errorText == p.errorText &&
            q.successHtml == p.successHtml
  {
    p.(selectedFile := None, convertedBlob := None, uploadText := IdleLabel,
       previewVisible := false, previewSource := None, buttons := ReplacementConvert,
       successVisible := false, errorVisible := false, uploadDisabled := false)
  }

  // ---- events ----

  /** What can happen to the page: user actions, and the completions of what is pending. */
  datatype Event =
    | ChooseFiles(files: seq<File>)          // files picked through the upload area
    | ClickConvert(format: string)           // a click on the convert button, with the checked format
    | DecoderSettles(outcome: DecodeOutcome)
    | ClickDownload
    | ClickNewConversion
    | PreviewReady(index: nat)               // the file reader at this position of the pending ones loads
    | RestoreTimerFires

  /**
   * The page after an event. The upload area opens the picker only when it is not disabled;
   * a disabled or absent button cannot be clicked; a completion needs something pending.
   */
  function Dispatch(p: PageState, e: Event): (q: PageState)
    // an event its target does not accept leaves the page as it is
    ensures e.ChooseFiles? && p.uploadDisabled ==> q == p
    ensures e.ClickConvert? && !ConvertClickable(p) ==> q == p
    ensures e.DecoderSettles? && p.converting.None? ==> q == p
    ensures (e.ClickDownload? || e.ClickNewConversion?) && !p.buttons.DownloadActions? ==> q == p
    ensures e.PreviewReady? && e.index >= |p.pendingReads| ==> q == p
    ensures e.RestoreTimerFires? && p.pendingRestores == [] ==> q == p
    // an event its target accepts runs that target's handler
    ensures e.ChooseFiles? && !p.uploadDisabled ==> q == Select(p, e.files)
    ensures e.ClickConvert? && ConvertClickable(p) ==> q == BeginConvert(p, e.format)
    ensures e.DecoderSettles? && p.converting.Some? ==> q == FinishConvert(p, e.outcome)
    ensures e.ClickDownload? && p.buttons.DownloadActions? ==> q == Download(p)
    ensures e.ClickNewConversion? && p.buttons.DownloadActions? ==> q == Reset(p)
    ensures e.PreviewReady? && e.index < |p.pendingReads| ==> q == PreviewLoaded(p, e.index)
    ensures e.RestoreTimerFires? && p.pendingRestores != [] ==> q == RestoreSuccessMessage(p)
    // a click on the enabled convert button with a file starts a conversion of the checked format
    ensures e.ClickConvert? && ConvertClickable(p) && p.selectedFile.Some? ==>
      q.converting == Some(e.format) && q.loadingVisible && !ConvertClickable(q)
    // the new-conversion button, once offered, always leads to the idle page
    ensures e.ClickNewConversion? && p.buttons.DownloadActions? ==> Idle(q)
  {
    match e
    case ChooseFiles(files) => if p.uploadDisabled then p else Select(p, files)
    case ClickConvert(format) => if ConvertClickable(p) then BeginConvert(p, format) else p
    case DecoderSettles(outcome) => if p.converting.Some? then FinishConvert(p, outcome) else p
    case ClickDownload => if p.buttons.DownloadActions? then Download(p) else p
    case ClickNewConversion => if p.buttons.DownloadActions? then Reset(p) else p
    case PreviewReady(i) => if i < |p.pendingReads| then PreviewLoaded(p, i) else p
    case RestoreTimerFires => if |p.pendingRestores| > 0 then RestoreSuccessMessage(p) else p
  }

  /** The decoder request an event makes, if any. */
  function Requested(p: PageState, e: Event): (r: Option<DecodeRequest>)
    ensures r.Some? ==> e.ClickConvert? && ConvertClickable(p) && r == ConvertRequest(p, e.format)
    ensures e.ClickConvert? && ConvertClickable(p) ==> r == ConvertRequest(p, e.format)
  {
    if e.ClickConvert? && ConvertClickable(p) then ConvertRequest(p, e.format) else None
  }

  /** The file name an event offers for download, if any. */
  function Offered(p: PageState, e: Event): (name: Option<string>)
    ensures name.Some? ==> e.ClickDownload? && p.buttons.DownloadActions? && p.convertedBlob.Some? &&
                           name.value == DownloadName(p.buttons.format)
    ensures e.ClickDownload? && p.buttons.DownloadActions? && p.convertedBlob.Some? ==>
      name == Some(DownloadName(p.buttons.format))
  {
    if e.ClickDownload? && p.buttons.DownloadActions? then DownloadResult(p, p.buttons.format) else None
  }

  /** The page after a sequence of events. */
  function Run(p: PageState, es: seq<Event>): (q: PageState)
    ensures es == [] ==> q == p
    ensures |es| == 1 ==> q == Dispatch(p, es[0])
    decreases |es|
  {
    if es == [] then p else Run(Dispatch(p, es[0]), es[1..])
  }

  /**
   * What holds on every page reachable from the initial one: the spinner is up exactly while
   * a conversion awaits the decoder, and then nothing can be clicked; at most one message is
   * visible; a result exists only for a selected file and while the download is offered.
   */
  predicate Consistent(p: PageState)
  {
    (p.converting.Some? <==> p.loadingVisible) &&
    (p.converting.Some? ==>
       p.selectedFile.Some? && p.uploadDisabled && p.convertBtnDisabled &&
       p.buttons == OriginalConvert && !p.successVisible && !p.errorVisible) &&
    !(p.successVisible && p.errorVisible) &&
    (p.convertedBlob.Some? ==> p.selectedFile.Some? && p.buttons.DownloadActions?) &&
    (p.buttons.DownloadActions? ==> p.uploadDisabled && p.selectedFile.Some?)
  }
}
