/**
 * The controller as the page runs it: the two module-level variables and the page's flags
 * are fields, and each handler updates them in place. Each handler and UI helper method is
 * proved to leave the page exactly as the corresponding function of the page model describes;
 * the smaller steps the handlers are built from (`AdoptFile`, `StartPreview`, `ClearSelection`,
 * `ClearPreview`, `RestoreConvertButton`) state their new page as a field update of the old one.
 */
module Converter {
  import opened Wrappers
  import opened Selection
  import opened Formats
  import opened Decoder
  import opened Page

  class Controller {
    var selectedFile: Option<File>
    var convertedBlob: Option<Blob>
    var uploadText: string
    var previewVisible: bool
    var previewSource: Option<File>
    var pendingReads: seq<File>
    var convertBtnDisabled: bool
    var buttons: Buttons
    var uploadDisabled: bool
    var loadingVisible: bool
    var successVisible: bool
    var errorVisible: bool
    var errorText: string
    var successHtml: string
    var pendingRestores: seq<string>
    var converting: Option<string>

    /** The page as a value. */
    function Snapshot(): PageState
      reads this
    {
      PageState(selectedFile, convertedBlob, uploadText, previewVisible, previewSource, pendingReads,
                convertBtnDisabled, buttons, uploadDisabled, loadingVisible, successVisible,
                errorVisible, errorText, successHtml, pendingRestores, converting)
    }

    /** The page as loaded. */
    constructor (uploadLabel: string, convertDisabled: bool, initialSuccessHtml: string)
      ensures Snapshot() == Initial(uploadLabel, convertDisabled, initialSuccessHtml)
    {
      selectedFile, convertedBlob := None, None;
      uploadText := uploadLabel;
      previewVisible, previewSource, pendingReads := false, None, [];
      convertBtnDisabled, buttons, uploadDisabled := convertDisabled, OriginalConvert, false;
      loadingVisible, successVisible, errorVisible := false, false, false;
      errorText, successHtml, pendingRestores := "", initialSuccessHtml, [];
      converting := None;
    }

    method HideMessages()
      modifies this
      ensures Snapshot() == Page.HideMessages(old(Snapshot()))
    {
      successVisible := false;
      errorVisible := false;
    }

    method ShowLoading()
      modifies this
      ensures Snapshot() == Page.ShowLoading(old(Snapshot()))
    {
      loadingVisible := true;
      convertBtnDisabled := true;
      uploadDisabled := true;
      HideMessages();
    }

    method HideLoading()
      modifies this
      ensures Snapshot() == Page.HideLoading(old(Snapshot()))
    {
      loadingVisible := false;
    }

    method ShowSuccess()
      modifies this
      ensures Snapshot() == Page.ShowSuccess(old(Snapshot()))
    {
      successVisible := true;
      errorVisible := false;
    }

    method ShowError(message: string)
      modifies this
      ensures Snapshot() == Page.ShowError(old(Snapshot()), message)
    {
      errorText := message;
      errorVisible := true;
      successVisible := false;
    }

    method ShowDownloadButton(format: string)
      modifies this
      ensures Snapshot() == Page.ShowDownloadButton(old(Snapshot()), format)
    {
      buttons := DownloadActions(format);
    }

    /** The change handler of the file input. */
    method HandleFileSelect(files: seq<File>)
      modifies this
      ensures Snapshot() == Select(old(Snapshot()), files)
    {
      if |files| == 0 {
        return;
      }
      var file := files[0];
      if !IsHeifName(file.name) {
        ShowError(InvalidFileMessage);
        return;
      }
      AdoptFile(file);
      StartPreview(file);
      convertBtnDisabled := false;
      HideMessages();
    }

    /** The accepted file becomes the selection, the old result is dropped, the label shows the name. */
    method AdoptFile(file: File)
      modifies this
      ensures Snapshot() == old(Snapshot()).(selectedFile := Some(file), convertedBlob := None, uploadText := file.name)
    {
      selectedFile := Some(file);
      convertedBlob := None;
      uploadText := file.name;
    }

    /** A file reader is started for the preview; it loads later. */
    method StartPreview(file: File)
      modifies this
      ensures Snapshot() == old(Snapshot()).(pendingReads := old(pendingReads) + [file])
    {
      pendingReads := pendingReads + [file];
    }

    /** The convert handler up to its `await`: returns the request handed to the decoder, if any. */
    method BeginConvert(format: string) returns (request: Option<DecodeRequest>)
      modifies this
      ensures request == ConvertRequest(old(Snapshot()), format)
      ensures Snapshot() == Page.BeginConvert(old(Snapshot()), format)
    {
      if selectedFile.None? {
        ShowError(NoFileMessage);
        return None;
      }
      ShowLoading();
      converting := Some(format);
      request := Some(DecodeRequest(selectedFile.value, MimeType(format), MaxQuality));
    }

    /** The convert handler after its `await`, given how the decoder settled. */
    method FinishConvert(outcome: DecodeOutcome)
      requires converting.Some?
      modifies this
      ensures Snapshot() == Page.FinishConvert(old(Snapshot()), outcome)
    {
      var format := converting.value;
      converting := None;
      match outcome
      case Resolved(value) =>
        convertedBlob := FirstBlob(value);
        HideLoading();
        ShowSuccess();
        ShowDownloadButton(format);
      case Rejected(_) =>
        HideLoading();
        ShowError(ConversionFailedMessage);
    }

    /** The download handler: returns the suggested file name, or `None` when there is no result. */
    method DownloadImage(format: string) returns (name: Option<string>)
      modifies this
      ensures name == DownloadResult(old(Snapshot()), format)
      ensures Snapshot() == Download(old(Snapshot()))
    {
      if convertedBlob.None? {
        return None;
      }
      name := Some(DownloadName(format));
      var originalSuccess := successHtml;
      successHtml := DownloadStartedHtml;
      pendingRestores := pendingRestores + [originalSuccess];
    }

    /** The oldest pending restore timer fires. */
    method RestoreSuccessMessage()
      requires |pendingRestores| > 0
      modifies this
      ensures Snapshot() == Page.RestoreSuccessMessage(old(Snapshot()))
    {
      successHtml := pendingRestores[0];
      pendingRestores := pendingRestores[1..];
    }

    /** The file reader at position `i` of the pending ones loads. */
    method PreviewLoaded(i: nat)
      requires i < |pendingReads|
      modifies this
      ensures Snapshot() == Page.PreviewLoaded(old(Snapshot()), i)
    {
      previewSource := Some(pendingReads[i]);
      previewVisible := true;
      pendingReads := pendingReads[..i] + pendingReads[i + 1..];
    }

    /** The new-conversion handler. */
    method ResetConverter()
      modifies this
      ensures Snapshot() == Reset(old(Snapshot()))
    {
      ClearSelection();
      ClearPreview();
      RestoreConvertButton();
      HideMessages();
      uploadDisabled := false;
    }

    /** No file, no result, and the label back to its idle text. */
    method ClearSelection()
      modifies this
      ensures Snapshot() == old(Snapshot()).(selectedFile := None, convertedBlob := None, uploadText := IdleLabel)
    {
      selectedFile := None;
      convertedBlob := None;
      uploadText := IdleLabel;
    }

    /** The preview hidden and emptied. */
    method ClearPreview()
      modifies this
      ensures Snapshot() == old(Snapshot()).(previewVisible := false, previewSource := None)
    {
      previewVisible := false;
      previewSource := None;
    }

    /** The button group rewritten to a new, disabled convert button; the bound button is not touched. */
    method RestoreConvertButton()
      modifies this
      ensures Snapshot() == old(Snapshot()).(buttons := ReplacementConvert)
    {
      buttons := ReplacementConvert;
    }

    /**
     * The page's event wiring: routes an event to its handler when the control it comes from
     * can fire it, and returns the decoder request and the download name it produced.
     */
    method HandleEvent(e: Event) returns (request: Option<DecodeRequest>, name: Option<string>)
      modifies this
      ensures request == Requested(old(Snapshot()), e)
      ensures name == Offered(old(Snapshot()), e)
      ensures Snapshot() == Dispatch(old(Snapshot()), e)
    {
      request, name := None, None;
      match e
      case ChooseFiles(files) =>
        if !uploadDisabled {
          HandleFileSelect(files);
        }
      case ClickConvert(format) =>
        if buttons == OriginalConvert && !convertBtnDisabled {
          request := BeginConvert(format);
        }
      case DecoderSettles(outcome) =>
        if converting.Some? {
          FinishConvert(outcome);
        }
      case ClickDownload =>
        if buttons.DownloadActions? {
          name := DownloadImage(buttons.format);
        }
      case ClickNewConversion =>
        if buttons.DownloadActions? {
          ResetConverter();
        }
      case PreviewReady(i) =>
        if i < |pendingReads| {
          PreviewLoaded(i);
        }
      case RestoreTimerFires =>
        if |pendingRestores| > 0 {
          RestoreSuccessMessage();
        }
    }
  }

  /**
   * Picking files on a fresh page: a mixed-case HEIC file is accepted and enables the
   * button; a PNG file picked next is rejected and the HEIC file stays selected.
   */
  method PickingFiles(uploadLabel: string, successHtml: string, bytes: seq<bv8>)
  {
    var c := new Controller(uploadLabel, true, successHtml);
    var heic := File("photo" + ".HEIC", bytes);
    var png := File("photo" + ".png", bytes);
    AcceptsUpperCaseHeic("photo");
    RejectsPng("photo");
    var request, name := c.HandleEvent(ChooseFiles([heic]));
    assert c.selectedFile == Some(heic) && !c.convertBtnDisabled && ConvertClickable(c.Snapshot());
    request, name := c.HandleEvent(ChooseFiles([png]));
    assert c.selectedFile == Some(heic) && c.errorVisible && c.errorText == InvalidFileMessage;
  }

  /**
   * Converting to PNG: the decoder is asked for `image/png`, a second click is ignored, and
   * the download of the result suggests `converted-image.png`.
   */
  method ConvertingToPng(c: Controller, image: Blob)
    requires ConvertClickable(c.Snapshot()) && c.selectedFile.Some? && Consistent(c.Snapshot())
    modifies c
  {
    var file := c.selectedFile.value;
    var request, name := c.HandleEvent(ClickConvert("PNG"));
    assert request == Some(DecodeRequest(file, PngMime, MaxQuality));
    request, name := c.HandleEvent(ClickConvert("PNG"));
    assert request.None? && c.converting == Some("PNG");
    request, name := c.HandleEvent(DecoderSettles(Resolved(Single(image))));
    assert c.convertedBlob == Some(image) && c.successVisible && !c.errorVisible;
    request, name := c.HandleEvent(ClickDownload);
    assert name == Some(PngDownloadName);
  }
}
