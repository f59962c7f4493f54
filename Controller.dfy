/**
 * The page's mutable state and its event handlers (script.js:26-27, 32-46, 81-137, 142-222): the
 * module-level `selectedFile` and `currentTab`, the error banner, the loading indicator and the
 * results panel, each reduced to the values the handlers set.
 */
module Controller {
  import opened Wrappers
  import opened JsText
  import opened Submission
  import opened Response

  class Page {
    /** `selectedFile` (script.js:26): the PDF the user chose, or null. */
    var selectedFile: Option<File>
    /** `currentTab` (script.js:27): the `data-tab` value of the last tab button clicked. */
    var currentTab: string
    /** The error banner's text and whether it is displayed. */
    var errorText: string
    var errorVisible: bool
    /** `submitBtn.disabled` and whether the loading indicator is displayed. */
    var submitDisabled: bool
    var loadingVisible: bool
    /** The results panel: whether it is displayed, and the HTML put into the summary box. */
    var resultsVisible: bool
    var summaryHtml: string

    /** A selected file always passed the gate of `handleFileSelect`. */
    predicate Valid()
      reads this
    {
      selectedFile.Some? ==> Acceptable(selectedFile.value)
    }

    /** The page as loaded: no file, the PDF tab, nothing displayed but the form. */
    constructor ()
      ensures Valid()
      ensures selectedFile == None && currentTab == PdfTab
      ensures !errorVisible && !submitDisabled && !loadingVisible && !resultsVisible
      ensures errorText == [] && summaryHtml == []
    {
      selectedFile := None;
      currentTab := PdfTab;
      errorText := [];
      errorVisible := false;
      submitDisabled := false;
      loadingVisible := false;
      resultsVisible := false;
      summaryHtml := [];
    }

    /** `showError` (script.js:210-218), without the timer that hides the banner again after five seconds. */
    method ShowError(message: string)
      modifies this`errorText, this`errorVisible
      ensures errorText == message && errorVisible
    {
      errorText := message;
      errorVisible := true;
    }

    /** `hideError` (script.js:220-222): the text stays, the banner is hidden. */
    method HideError()
      modifies this`errorVisible
      ensures !errorVisible
    {
      errorVisible := false;
    }

    /** `setLoadingState` (script.js:172-184): loading disables the button and hides old results. */
    method SetLoadingState(isLoading: bool)
      modifies this`submitDisabled, this`loadingVisible, this`resultsVisible
      ensures submitDisabled == isLoading && loadingVisible == isLoading
      ensures resultsVisible == (if isLoading then false else old(resultsVisible))
    {
      if isLoading {
        submitDisabled := true;
        loadingVisible := true;
        resultsVisible := false;
      } else {
        submitDisabled := false;
        loadingVisible := false;
      }
    }

    /** The tab buttons' handler (script.js:33-45): remember the tab and hide any error. */
    method SwitchTab(targetTab: string)
      modifies this`currentTab, this`errorVisible
      ensures currentTab == targetTab && !errorVisible
    {
      currentTab := targetTab;
      HideError();
    }

    /**
     * `handleFileSelect` (script.js:81-102): no file changes nothing; a refused file leaves the
     * selection as it was and shows why; an accepted one becomes the selection and hides the error.
     */
    method HandleFileSelect(file: Option<File>)
      requires Valid()
      modifies this`selectedFile, this`errorText, this`errorVisible
      ensures Valid()
      ensures file.None? ==> selectedFile == old(selectedFile) && errorText == old(errorText) && errorVisible == old(errorVisible)
      ensures file.Some? && FileRejection(file.value).Some? ==>
        selectedFile == old(selectedFile) && errorVisible && errorText == FileRejection(file.value).value
      ensures file.Some? && FileRejection(file.value).None? ==>
        selectedFile == file && !errorVisible && errorText == old(errorText)
    {
      if file.None? {
        return;
      }
      var f := file.value;
      if f.mediaType != PdfMediaType {
        ShowError(WrongTypeMessage);
        return;
      }
      if f.size > MaxFileSize {
        ShowError(TooLargeMessage);
        return;
      }
      selectedFile := file;
      HideError();
    }

    /** The remove button's handler (script.js:105-111): the selection is cleared and nothing else. */
    method RemoveFile()
      modifies this`selectedFile
      ensures selectedFile == None && Valid()
    {
      selectedFile := None;
    }

    /**
     * The synchronous part of the submit handler (script.js:117-140): validate, build the form and
     * enter the loading state. `text` is the text area's value. The form is returned exactly when the
     * request would be sent, and a PDF it sends is one the file gate accepted.
     */
    method Submit(text: string) returns (payload: Option<seq<FormEntry>>)
      requires Valid()
      modifies this`errorText, this`errorVisible, this`submitDisabled, this`loadingVisible, this`resultsVisible
      ensures Valid()
      ensures payload.Some? <==> Validate(currentTab, selectedFile, text).Ok?
      ensures payload.Some? && currentTab == PdfTab ==>
        |payload.value| == 1 && payload.value[0].value.FileValue? && Acceptable(payload.value[0].value.file)
      ensures payload.Some? ==>
        payload.value == Validate(currentTab, selectedFile, text).value &&
        !errorVisible && errorText == old(errorText) &&
        submitDisabled && loadingVisible && !resultsVisible
      ensures payload.None? ==>
        errorVisible && errorText == Validate(currentTab, selectedFile, text).error &&
        submitDisabled == old(submitDisabled) && loadingVisible == old(loadingVisible) &&
        resultsVisible == old(resultsVisible)
    {
      HideError();
      if currentTab == PdfTab && selectedFile.None? {
        ShowError(NoFileMessage);
        return None;
      }
      if currentTab == TextTab && Trim(text) == [] {
        ShowError(NoTextMessage);
        return None;
      }
      var form: seq<FormEntry> := [];
      if currentTab == PdfTab {
        form := form + [FormEntry("pdf", FileValue(selectedFile.value))];
      } else {
        form := form + [FormEntry("topic", TextValue(Trim(text)))];
      }
      SetLoadingState(true);
      payload := Some(form);
    }

    /**
     * The asynchronous rest of the submit handler (script.js:142-166): the reply is shown or reported,
     * then the loading state ends whichever way it went.
     */
    method Complete(reply: Reply, missingSummary: string)
      modifies this`errorText, this`errorVisible, this`submitDisabled, this`loadingVisible, this`resultsVisible, this`summaryHtml
      ensures !submitDisabled && !loadingVisible
      ensures Delivers(reply) ==>
        resultsVisible && summaryHtml == Classify(reply, missingSummary).html &&
        errorVisible == old(errorVisible) && errorText == old(errorText)
      ensures !Delivers(reply) ==>
        errorVisible && errorText == Classify(reply, missingSummary).message && FailurePrefix <= errorText &&
        resultsVisible == old(resultsVisible) && summaryHtml == old(summaryHtml)
    {
      var outcome := Classify(reply, missingSummary);
      match outcome {
        case Shown(html) =>
          summaryHtml := html;
          resultsVisible := true;
        case Failed(message) =>
          ShowError(message);
      }
      SetLoadingState(false);
    }
  }
}
