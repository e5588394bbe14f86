/**
 * The three handlers whose code leaves the page in a state it evidently does not mean,
 * corrected, with the property each correction restores. Every other handler is the one
 * of the page model: the corrected page differs from it only in these three events.
 */
module Corrected {
  import opened Wrappers
  import opened Selection
  import opened Formats
  import opened Decoder
  import opened Page
  import PageProperties

  /**
   * The settle handler with the catch branch returning to "file selected": besides hiding
   * the spinner, a rejection enables the bound button and the upload area again.
   */
  function FixedFinishConvert(p: PageState, outcome: DecodeOutcome): (q: PageState)
    requires p.converting.Some?
    ensures outcome.Resolved? ==> q == FinishConvert(p, outcome)
    ensures outcome.Rejected? ==>
      !q.convertBtnDisabled && !q.uploadDisabled &&
      q.(convertBtnDisabled := p.convertBtnDisabled, uploadDisabled := p.uploadDisabled) == FinishConvert(p, outcome)
  {
    var settled := FinishConvert(p, outcome);
    if outcome.Rejected? then settled.(convertBtnDisabled := false, uploadDisabled := false)
    else settled
  }

  /**
   * The reset with `convertBtn` bound to the button it writes: the replacement becomes the
   * bound button, written disabled, so the next accepted pick enables the button on the page.
   */
  function FixedReset(p: PageState): (q: PageState)
    ensures q.selectedFile.None? && q.convertedBlob.None? && q.uploadText == IdleLabel
    ensures !q.previewVisible && !q.uploadDisabled && !q.successVisible && !q.errorVisible
    ensures q.buttons == OriginalConvert && q.convertBtnDisabled && !ConvertClickable(q)
    ensures q.(buttons := ReplacementConvert, convertBtnDisabled := p.convertBtnDisabled) == Reset(p)
  {
    Reset(p).(buttons := OriginalConvert, convertBtnDisabled := true)
  }

  /**
   * The download feedback keeping the markup from before the first click: while a feedback
   * is already showing, the new timer restores what the running ones restore.
   */
  function FixedDownload(p: PageState): (q: PageState)
    ensures p.convertedBlob.None? ==> q == p
    ensures p.convertedBlob.Some? ==>
      q.successHtml == DownloadStartedHtml &&
      q.pendingRestores == p.pendingRestores + [if p.pendingRestores == [] then p.successHtml else p.pendingRestores[0]] &&
      q.(successHtml := p.successHtml, pendingRestores := p.pendingRestores) == p
  {
    if p.convertedBlob.None? then p
    else
      var original := if p.pendingRestores == [] then p.successHtml else p.pendingRestores[0];
      p.(successHtml := DownloadStartedHtml, pendingRestores := p.pendingRestores + [original])
  }

  /** The page after an event, with the three corrected handlers and the same gating. */
  function FixedDispatch(p: PageState, e: Event): (q: PageState)
    ensures !e.DecoderSettles? && !e.ClickDownload? && !e.ClickNewConversion? ==> q == Dispatch(p, e)
    ensures e.DecoderSettles? ==> q == if p.converting.Some? then FixedFinishConvert(p, e.outcome) else p
    ensures e.ClickDownload? ==> q == if p.buttons.DownloadActions? then FixedDownload(p) else p
    ensures e.ClickNewConversion? ==> q == if p.buttons.DownloadActions? then FixedReset(p) else p
  {
    match e
    case DecoderSettles(outcome) => if p.converting.Some? then FixedFinishConvert(p, outcome) else p
    case ClickDownload => if p.buttons.DownloadActions? then FixedDownload(p) else p
    case ClickNewConversion => if p.buttons.DownloadActions? then FixedReset(p) else p
    case _ => Dispatch(p, e)
  }

  /** The corrected page after a sequence of events. */
  function FixedRun(p: PageState, es: seq<Event>): (q: PageState)
    ensures es == [] ==> q == p
    ensures |es| == 1 ==> q == FixedDispatch(p, es[0])
    decreases |es|
  {
    if es == [] then p else FixedRun(FixedDispatch(p, es[0]), es[1..])
  }

  /** The corrections keep the page invariant of the page model. */
  lemma FixedDispatchKeepsConsistent(p: PageState, e: Event)
    requires Consistent(p)
    ensures Consistent(FixedDispatch(p, e))
  {
    match e
    case DecoderSettles(outcome) =>
    case ClickDownload =>
    case ClickNewConversion =>
    case _ => PageProperties.DispatchKeepsConsistent(p, e);
  }

  /**
   * After a rejection the file stays selected and the error is shown, and now the same file
   * can be converted again, or another file picked and converted.
   */
  lemma RetryAfterRejection(p: PageState, reason: string, format: string, f: File)
    requires Consistent(p) && p.converting.Some?
    ensures var q := FixedDispatch(p, DecoderSettles(Rejected(reason)));
      q.selectedFile == p.selectedFile && q.errorVisible && q.errorText == ConversionFailedMessage &&
      Requested(q, ClickConvert(format)) == Some(DecodeRequest(p.selectedFile.value, MimeType(format), MaxQuality))
    ensures IsHeifName(f.name) ==>
      var r := FixedDispatch(FixedDispatch(p, DecoderSettles(Rejected(reason))), ChooseFiles([f]));
      r.selectedFile == Some(f) &&
      Requested(r, ClickConvert(format)) == Some(DecodeRequest(f, MimeType(format), MaxQuality))
  {
  }

  /**
   * After the new-conversion button, the page's convert button is disabled until an accepted
   * file is picked, and then a click on it asks the decoder for that file.
   */
  lemma ConvertAfterReset(p: PageState, f: File, format: string)
    requires Consistent(p) && p.buttons.DownloadActions? && IsHeifName(f.name)
    ensures var q := FixedDispatch(p, ClickNewConversion);
      q.selectedFile.None? && !ConvertClickable(q) && Requested(q, ClickConvert(format)).None?
    ensures var r := FixedDispatch(FixedDispatch(p, ClickNewConversion), ChooseFiles([f]));
      r.selectedFile == Some(f) &&
      Requested(r, ClickConvert(format)) == Some(DecodeRequest(f, MimeType(format), MaxQuality))
  {
  }

  /**
   * Every running timer restores `original`, and when none is running the success markup is
   * `original`.
   */
  predicate RestoresTo(p: PageState, original: string)
  {
    (forall i :: 0 <= i < |p.pendingRestores| ==> p.pendingRestores[i] == original) &&
    (p.pendingRestores == [] ==> p.successHtml == original)
  }

  /** Events other than a download and a timer leave the success markup and the timers alone. */
  lemma OtherEventsKeepFeedback(p: PageState, e: Event)
    requires !e.ClickDownload? && !e.RestoreTimerFires?
    ensures FixedDispatch(p, e).successHtml == p.successHtml
    ensures FixedDispatch(p, e).pendingRestores == p.pendingRestores
  {
    match e
    case ChooseFiles(files) =>
    case ClickConvert(format) =>
    case PreviewReady(i) =>
    case DecoderSettles(outcome) =>
    case ClickNewConversion =>
  }

  /** Every event of the corrected page keeps the markup the timers restore. */
  lemma FixedStepRestoresTo(p: PageState, e: Event, original: string)
    requires RestoresTo(p, original)
    ensures RestoresTo(FixedDispatch(p, e), original)
  {
    if e.RestoreTimerFires? {
      if p.pendingRestores != [] {
        var q := RestoreSuccessMessage(p);
        assert FixedDispatch(p, e) == q;
        assert q.pendingRestores == p.pendingRestores[1..] && q.successHtml == p.pendingRestores[0];
      }
    } else if e.ClickDownload? {
      if p.buttons.DownloadActions? && p.convertedBlob.Some? {
        var q := FixedDownload(p);
        var extra := if p.pendingRestores == [] then p.successHtml else p.pendingRestores[0];
        assert extra == original;
        assert q.pendingRestores == p.pendingRestores + [extra];
      }
    } else {
      OtherEventsKeepFeedback(p, e);
    }
  }

  /** Any sequence of events of the corrected page keeps the markup the timers restore. */
  lemma {:induction false} FixedRunRestoresTo(p: PageState, es: seq<Event>, original: string)
    requires RestoresTo(p, original)
    ensures RestoresTo(FixedRun(p, es), original)
    decreases |es|
  {
    if es != [] {
      FixedStepRestoresTo(p, es[0], original);
      FixedRunRestoresTo(FixedDispatch(p, es[0]), es[1..], original);
    }
  }

  /**
   * Whatever the number and order of downloads and other events, once every timer has fired
   * the success markup is the one from before the first download.
   */
  lemma FeedbackRestoredAfterTimers(p: PageState, es: seq<Event>)
    requires p.pendingRestores == []
    ensures var q := FixedRun(p, es);
      q.pendingRestores == [] ==> q.successHtml == p.successHtml
  {
    FixedRunRestoresTo(p, es, p.successHtml);
  }

  /** The two downloads that leave the feedback for good as written restore the markup here. */
  lemma FixedDoubleDownloadRestores(p: PageState)
    requires p.buttons.DownloadActions? && p.convertedBlob.Some? && p.pendingRestores == []
    ensures var q := FixedRun(p, [ClickDownload, ClickDownload, RestoreTimerFires, RestoreTimerFires]);
      q.successHtml == p.successHtml && q.pendingRestores == []
  {
    var es := [ClickDownload, ClickDownload, RestoreTimerFires, RestoreTimerFires];
    assert es[1..] == [ClickDownload, RestoreTimerFires, RestoreTimerFires];
    assert es[1..][1..] == [RestoreTimerFires, RestoreTimerFires];
    assert es[1..][1..][1..] == [RestoreTimerFires];
    assert es[1..][1..][1..][1..] == [];
  }
}
