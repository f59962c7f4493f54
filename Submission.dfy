/**
 * The input gate of the page: which chosen file is kept (`handleFileSelect`, script.js:81-102) and
 * what the submit button sends (script.js:116-137). Both are pure decisions here; the page object in
 * `Controller` applies them to its state.
 */
module Submission {
  import opened Wrappers
  import opened JsText

  /** A chosen file as the browser describes it: its name, its MIME type and its size in bytes. */
  datatype File = File(name: string, mediaType: string, size: nat)

  /** The only MIME type the page accepts (script.js:85). */
  const PdfMediaType: string := "application/pdf"

  /** The largest accepted size, 50 MiB (script.js:91). */
  const MaxFileSize: nat := 50 * 1024 * 1024

  const WrongTypeMessage: string := "Please select a PDF file"
  const TooLargeMessage: string := "File size must be less than 50MB"
  const NoFileMessage: string := "Please upload a PDF file or switch to text input"
  const NoTextMessage: string := "Please enter some text to analyze"

  /** The tab values the page's buttons carry. */
  const PdfTab: string := "pdf"
  const TextTab: string := "text"

  /** A file the page will keep: exactly the PDF type, and no larger than the limit. */
  predicate Acceptable(f: File) {
    f.mediaType == PdfMediaType && f.size <= MaxFileSize
  }

  /**
   * Why a chosen file is refused, if it is: the type is tested first, then the size, so a file
   * that is both too large and not a PDF gets the type message.
   */
  function FileRejection(f: File): (r: Option<string>)
    ensures r.None? <==> Acceptable(f)
    ensures r == Some(WrongTypeMessage) <==> f.mediaType != PdfMediaType
    ensures r == Some(TooLargeMessage) <==> f.mediaType == PdfMediaType && f.size > MaxFileSize
  {
    if f.mediaType != PdfMediaType then Some(WrongTypeMessage)
    else if f.size > MaxFileSize then Some(TooLargeMessage)
    else None
  }

  /** The limit is inclusive: a PDF of exactly 52428800 bytes is kept, one byte more is refused. */
  lemma SizeLimitBoundary(name: string)
    ensures MaxFileSize == 52428800
    ensures FileRejection(File(name, PdfMediaType, 52428800)) == None
    ensures FileRejection(File(name, PdfMediaType, 52428801)) == Some(TooLargeMessage)
  {
  }

  /** One value of the multipart form: the file itself, or a text field. */
  datatype FormValue = FileValue(file: File) | TextValue(text: string)

  /** A named form field, as `FormData.append(name, value)` adds it. */
  datatype FormEntry = FormEntry(name: string, value: FormValue)

  /**
   * The submit handler's checks and form (script.js:119-137): on the PDF tab a file must be
   * selected and it is sent as `pdf`; on the text tab the trimmed text must be non-empty; on any
   * tab but the PDF one the trimmed text is sent as `topic`.
   */
  function Validate(tab: string, selected: Option<File>, text: string): (r: Result<seq<FormEntry>, string>)
    ensures r.Err? <==> (tab == PdfTab && selected.None?) || (tab == TextTab && Trim(text) == [])
    ensures r.Err? ==> r.error == (if tab == PdfTab then NoFileMessage else NoTextMessage)
    ensures r.Ok? ==> |r.value| == 1
    ensures r.Ok? ==> (r.value[0].name == "pdf" <==> tab == PdfTab)
    ensures r.Ok? && tab == PdfTab ==> r.value[0].value == FileValue(selected.value)
    ensures r.Ok? && tab != PdfTab ==> r.value[0] == FormEntry("topic", TextValue(Trim(text)))
  {
    if tab == PdfTab && selected.None? then Err(NoFileMessage)
    else if tab == TextTab && Trim(text) == [] then Err(NoTextMessage)
    else if tab == PdfTab then Ok([FormEntry("pdf", FileValue(selected.value))])
    else Ok([FormEntry("topic", TextValue(Trim(text)))])
  }

  /** A topic sent from the text tab is never blank and has no white space or line break at either end. */
  lemma TopicIsTrimmed(text: string)
    requires Validate(TextTab, None, text).Ok?
    ensures var topic := Validate(TextTab, None, text).value[0].value.text;
      topic != [] && !IsTrimmable(topic[0]) && !IsTrimmable(topic[|topic| - 1])
  {
  }

  /** Whether a file is selected decides nothing on the text tab, and the text decides nothing on the PDF tab. */
  lemma ValidateIgnoresOtherTab(selected: Option<File>, other: Option<File>, text: string, otherText: string)
    ensures Validate(TextTab, selected, text) == Validate(TextTab, other, text)
    ensures selected.Some? ==> Validate(PdfTab, selected, text) == Validate(PdfTab, selected, otherText)
  {
  }

  /** Retrying with the topic the page sent gives the same form again: trimming twice changes nothing. */
  lemma ValidateTopicStable(tab: string, text: string)
    requires tab != PdfTab && Validate(tab, None, text).Ok?
    ensures Validate(tab, None, Validate(tab, None, text).value[0].value.text) == Validate(tab, None, text)
  {
    TrimIdempotent(text);
  }
}
