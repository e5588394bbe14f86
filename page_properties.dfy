/** Properties of the page model across handlers and sequences of events. */
module PageProperties {
  import opened Wrappers
  import opened Selection
  import opened Formats
  import opened Decoder
  import opened Page

  /** Picking files, when the upload area lets it happen, keeps the page consistent. */
  lemma SelectKeepsConsistent(p: PageState, files: seq<File>)
    requires Consistent(p) && !p.uploadDisabled
    ensures Consistent(Select(p, files))
  {
  }

  /** Starting a conversion from the enabled convert button keeps the page consistent. */
  lemma BeginConvertKeepsConsistent(p: PageState, format: string)
    requires Consistent(p) && ConvertClickable(p)
    ensures Consistent(BeginConvert(p, format))
  {
  }

  /** The decoder settling keeps the page consistent. */
  lemma FinishConvertKeepsConsistent(p: PageState, outcome: DecodeOutcome)
    requires Consistent(p) && p.converting.Some?
    ensures Consistent(FinishConvert(p, outcome))
  {
  }

  /** The new-conversion button keeps the page consistent. */
  lemma ResetKeepsConsistent(p: PageState)
    requires Consistent(p) && p.buttons.DownloadActions?
    ensures Consistent(Reset(p))
  {
  }

  /** Every event keeps the page consistent. */
  lemma DispatchKeepsConsistent(p: PageState, e: Event)
    requires Consistent(p)
    ensures Consistent(Dispatch(p, e))
  {
    match e
    case ChooseFiles(files) =>
      if !p.uploadDisabled { SelectKeepsConsistent(p, files); }
    case ClickConvert(format) =>
      if ConvertClickable(p) { BeginConvertKeepsConsistent(p, format); }
    case DecoderSettles(outcome) =>
      if p.converting.Some? { FinishConvertKeepsConsistent(p, outcome); }
    case ClickNewConversion =>
      if p.buttons.DownloadActions? { ResetKeepsConsistent(p); }
    case _ =>
  }

  /** Any sequence of events keeps the page consistent. */
  lemma {:induction false} RunKeepsConsistent(p: PageState, es: seq<Event>)
    requires Consistent(p)
    ensures Consistent(Run(p, es))
    decreases |es|
  {
    if es != [] {
      DispatchKeepsConsistent(p, es[0]);
      RunKeepsConsistent(Dispatch(p, es[0]), es[1..]);
    }
  }

  /** Every page reachable from the loaded one is consistent. */
  lemma ReachableIsConsistent(uploadLabel: string, convertDisabled: bool, successHtml: string, es: seq<Event>)
    ensures Consistent(Run(Initial(uploadLabel, convertDisabled, successHtml), es))
  {
    RunKeepsConsistent(Initial(uploadLabel, convertDisabled, successHtml), es);
  }

  /**
   * While a conversion awaits the decoder, no event but its completion touches the file, the
   * result, the buttons or the pending conversion, and none asks the decoder again.
   */
  lemma SingleConversionInFlight(p: PageState, e: Event)
    requires Consistent(p) && p.converting.Some? && !e.DecoderSettles?
    ensures Requested(p, e).None?
    ensures var q := Dispatch(p, e);
      q.converting == p.converting && q.selectedFile == p.selectedFile &&
      q.convertedBlob == p.convertedBlob && q.buttons == p.buttons
  {
  }

  /** A second click on the convert button, right after the first started a conversion, is ignored. */
  lemma SecondConvertClickIgnored(p: PageState, first: string, second: string)
    requires Consistent(p) && ConvertClickable(p) && p.selectedFile.Some?
    ensures Requested(p, ClickConvert(first)).Some?
    ensures var q := Dispatch(p, ClickConvert(first));
      Dispatch(q, ClickConvert(second)) == q && Requested(q, ClickConvert(second)).None?
  {
  }

  /**
   * From a click on convert to the download: the decoder is asked for the MIME type of the
   * checked format, and the name offered afterwards has the matching extension.
   */
  lemma ConvertThenDownload(p: PageState, format: string, d: Decoded)
    requires Consistent(p) && ConvertClickable(p) && p.selectedFile.Some? && Blobs(d) != []
    ensures var r := Requested(p, ClickConvert(format));
      r.Some? && r.value.source == p.selectedFile.value && r.value.toType == MimeType(format)
    ensures var q := Run(p, [ClickConvert(format), DecoderSettles(Resolved(d))]);
      q.convertedBlob == Some(Blobs(d)[0]) && q.successVisible &&
      Offered(q, ClickDownload) == Some(DownloadName(format))
    ensures EndsWith(DownloadName(format), ".jpg") <==> MimeType(format) == JpegMime
  {
    var q1 := Dispatch(p, ClickConvert(format));
    var q2 := Dispatch(q1, DecoderSettles(Resolved(d)));
    var es := [ClickConvert(format), DecoderSettles(Resolved(d))];
    assert es[1..] == [DecoderSettles(Resolved(d))] && es[1..][1..] == [];
    assert Run(q1, es[1..]) == q2;
    DownloadNameAgreesWithMimeType(format);
  }

  /**
   * A page where nothing can start a conversion or select a file again: the upload area
   * and the bound button are disabled and the bound button is still the one on the page.
   */
  predicate Frozen(p: PageState)
  {
    p.converting.None? && p.uploadDisabled && p.buttons == OriginalConvert && p.convertBtnDisabled
  }

  /**
   * A rejected conversion leaves the file selected but freezes the page: hiding the spinner
   * does not re-enable the button or the upload area, and no download buttons are offered.
   */
  lemma RejectionFreezes(p: PageState, reason: string)
    requires Consistent(p) && p.converting.Some?
    ensures var q := Dispatch(p, DecoderSettles(Rejected(reason)));
      Frozen(q) && q.selectedFile == p.selectedFile && q.errorVisible && q.errorText == ConversionFailedMessage
  {
  }

  /** On a frozen page every event keeps it frozen, with the same file and result. */
  lemma FrozenStep(p: PageState, e: Event)
    requires Frozen(p)
    ensures var q := Dispatch(p, e);
      Frozen(q) && q.selectedFile == p.selectedFile && q.convertedBlob == p.convertedBlob &&
      Requested(p, e).None? && Offered(p, e).None?
  {
  }

  /** A frozen page stays frozen whatever happens next: the file can never be converted again. */
  lemma {:induction false} FrozenForever(p: PageState, es: seq<Event>)
    requires Frozen(p)
    ensures var q := Run(p, es);
      Frozen(q) && q.selectedFile == p.selectedFile && q.convertedBlob == p.convertedBlob
    decreases |es|
  {
    if es != [] {
      FrozenStep(p, es[0]);
      FrozenForever(Dispatch(p, es[0]), es[1..]);
    }
  }

  /**
   * A page after a reset: the replacement convert button is on the page, and files can be
   * picked, but nothing ever enables the replacement button.
   */
  predicate Retired(p: PageState)
  {
    p.buttons == ReplacementConvert && p.converting.None? && !p.uploadDisabled
  }

  /** The new-conversion button leads to a retired, idle page. */
  lemma NewConversionRetires(p: PageState)
    requires Consistent(p) && p.buttons.DownloadActions?
    ensures var q := Dispatch(p, ClickNewConversion);
      Retired(q) && Idle(q) && Consistent(q)
  {
  }

  /**
   * Picking a HEIC file on a retired page selects it and enables the bound button, which is no
   * longer on the page; the replacement button stays disabled.
   */
  lemma SelectAfterResetEnablesDetachedButton(p: PageState, f: File)
    requires Retired(p) && IsHeifName(f.name)
    ensures var q := Dispatch(p, ChooseFiles([f]));
      q.selectedFile == Some(f) && !q.convertBtnDisabled && q.buttons == ReplacementConvert &&
      !ConvertClickable(q) && Retired(q)
  {
  }

  /** On a retired page no event starts a conversion, and the page stays retired. */
  lemma RetiredStep(p: PageState, e: Event)
    requires Retired(p)
    ensures Retired(Dispatch(p, e)) && Requested(p, e).None?
  {
  }

  /** After a reset, no sequence of events ever calls the decoder again. */
  lemma {:induction false} RetiredForever(p: PageState, es: seq<Event>)
    requires Retired(p)
    ensures Retired(Run(p, es))
    ensures forall k :: 0 <= k < |es| ==> Requested(Run(p, es[..k]), es[k]).None?
    decreases |es|
  {
    if es != [] {
      RetiredStep(p, es[0]);
      var q := Dispatch(p, es[0]);
      RetiredForever(q, es[1..]);
      forall k | 0 <= k < |es|
        ensures Requested(Run(p, es[..k]), es[k]).None?
      {
        if k == 0 {
          assert es[..0] == [];
        } else {
          assert es[..k][0] == es[0] && es[..k][1..] == es[1..][..k - 1];
          assert Run(p, es[..k]) == Run(q, es[1..][..k - 1]);
          assert es[k] == es[1..][k - 1];
        }
      }
    }
  }

  /**
   * The new-conversion button works once: it replaces itself with the convert button, so a
   * second click on the same spot changes nothing.
   */
  lemma SecondNewConversionIgnored(p: PageState)
    requires p.buttons.DownloadActions?
    ensures var q := Dispatch(p, ClickNewConversion);
      q == Reset(p) && Dispatch(q, ClickNewConversion) == q
  {
  }

  /** Running two event sequences one after the other is running their concatenation. */
  lemma {:induction false} RunAppend(p: PageState, first: seq<Event>, second: seq<Event>)
    ensures Run(p, first + second) == Run(Run(p, first), second)
    decreases |first|
  {
    if first != [] {
      assert (first + second)[0] == first[0];
      assert (first + second)[1..] == first[1..] + second;
      RunAppend(Dispatch(p, first[0]), first[1..], second);
    } else {
      assert first + second == second;
    }
  }

  /** One download followed by its timer brings the success markup back. */
  lemma DownloadFeedbackRestored(p: PageState)
    requires p.buttons.DownloadActions? && p.convertedBlob.Some? && p.pendingRestores == []
    ensures Run(p, [ClickDownload]).successHtml == DownloadStartedHtml
    ensures Run(p, [ClickDownload, RestoreTimerFires]).successHtml == p.successHtml
    ensures Run(p, [ClickDownload, RestoreTimerFires]).pendingRestores == []
  {
    var es := [ClickDownload, RestoreTimerFires];
    assert es[1..] == [RestoreTimerFires];
    assert [ClickDownload][1..] == [];
  }

  /**
   * Two downloads before the first timer fires: the second captures the feedback as the markup
   * to restore, so once both timers have fired the feedback stays for good.
   */
  lemma DoubleDownloadKeepsFeedback(p: PageState)
    requires p.buttons.DownloadActions? && p.convertedBlob.Some? && p.pendingRestores == []
    ensures var q := Run(p, [ClickDownload, ClickDownload, RestoreTimerFires, RestoreTimerFires]);
      q.successHtml == DownloadStartedHtml && q.pendingRestores == []
  {
    var es := [ClickDownload, ClickDownload, RestoreTimerFires, RestoreTimerFires];
    assert es[1..] == [ClickDownload, RestoreTimerFires, RestoreTimerFires];
    assert es[1..][1..] == [RestoreTimerFires, RestoreTimerFires];
    assert es[1..][1..][1..] == [RestoreTimerFires];
    assert es[1..][1..][1..][1..] == [];
  }
}
