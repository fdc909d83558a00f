/**
 * The upload page (client/pages/UploadBook.tsx) as a form state machine: the drag highlight,
 * the selected file, the three text fields, and what submitting does with them. What happens
 * after the request is answered is not modelled.
 */
module UploadPage {
  import opened Wrappers
  import opened JsStrings
  import opened AppContext

  /** A browser `File`: its name, its MIME type and its size in bytes. */
  datatype File = File(name: string, mimeType: string, size: nat)

  const PdfType: string := "application/pdf"
  const NotPdfAlert: string := "Please upload a PDF file."
  const LoginAlert: string := "Please login to upload books"

  /** `handleDrag`'s new highlight for an event of the given type. */
  function DragActiveAfter(active: bool, eventType: string): bool {
    if eventType == "dragenter" || eventType == "dragover" then true
    else if eventType == "dragleave" then false
    else active
  }

  lemma DragSpec(active: bool, eventType: string)
    ensures eventType in {"dragenter", "dragover"} ==> DragActiveAfter(active, eventType)
    ensures eventType == "dragleave" ==> !DragActiveAfter(active, eventType)
    ensures eventType !in {"dragenter", "dragover", "dragleave"} ==> DragActiveAfter(active, eventType) == active
  {
  }

  /** The selection after `files` is offered (dropped or chosen), and the alert shown: the first
      file is taken only when it is a PDF. */
  function Pick(current: Option<File>, files: seq<File>): (Option<File>, Option<string>) {
    if files == [] then (current, None)
    else if files[0].mimeType == PdfType then (Some(files[0]), None)
    else (current, Some(NotPdfAlert))
  }

  /** A selection only ever changes to a PDF file; a non-PDF first file leaves it as it was and
      alerts; no files change nothing. */
  lemma PickSpec(current: Option<File>, files: seq<File>)
    ensures var (next, alert) := Pick(current, files);
      && (next != current ==> next.Some? && next.value.mimeType == PdfType && next.value == files[0])
      && (files != [] && files[0].mimeType == PdfType ==> next == Some(files[0]) && alert.None?)
      && (files != [] && files[0].mimeType != PdfType ==> next == current && alert == Some(NotPdfAlert))
      && (files == [] ==> next == current && alert.None?)
  {
  }

  /** An entry of the `FormData` sent. */
  datatype FormEntry = FileEntry(key: string, file: File) | TextEntry(key: string, value: string)

  /** What `handleSubmit` does: nothing, the login alert, or the upload request it sends. */
  datatype Submission = Ignored | Alerted(message: string) | Send(authorization: string, form: seq<FormEntry>)

  /** `!selectedFile || !title || !author`: the submit button's `disabled`, and `handleSubmit`'s
      early return. */
  predicate Blocked(selected: Option<File>, title: string, author: string) {
    selected.None? || title == "" || author == ""
  }

  function SubmissionFor(selected: Option<File>, title: string, author: string, description: string,
                         storage: map<string, string>): Submission {
    if Blocked(selected, title, author) then Ignored
    else
      var token := GetItem(storage, TokenKey);
      if !Truthy(token) then Alerted(LoginAlert)
      else Send("Bearer " + token.value,
                [FileEntry("file", selected.value), TextEntry("title", title),
                 TextEntry("author", author), TextEntry("description", description)])
  }

  /** Submitting does nothing exactly when the button is disabled; without a stored token it
      alerts and sends nothing; otherwise it sends exactly the four fields with the token. */
  lemma SubmissionSpec(selected: Option<File>, title: string, author: string, description: string,
                       storage: map<string, string>)
    ensures var s := SubmissionFor(selected, title, author, description, storage);
      && (s.Ignored? <==> selected.None? || title == "" || author == "")
      && (s.Alerted? <==> !Blocked(selected, title, author) && (TokenKey !in storage || storage[TokenKey] == ""))
      && (s.Alerted? ==> s.message == LoginAlert)
      && (s.Send? ==>
            && s.authorization == "Bearer " + storage[TokenKey]
            && |s.form| == 4
            && s.form[0] == FileEntry("file", selected.value)
            && s.form[1] == TextEntry("title", title)
            && s.form[2] == TextEntry("author", author)
            && s.form[3] == TextEntry("description", description))
  {
  }

  /** The page's `useState` fields. */
  class UploadForm {
    var dragActive: bool
    var selectedFile: Option<File>
    var title: string
    var author: string
    var description: string

    constructor ()
      ensures !dragActive && selectedFile.None? && title == "" && author == "" && description == ""
    {
      dragActive := false;
      selectedFile := None;
      title, author, description := "", "", "";
    }

    method HandleDrag(eventType: string)
      modifies this`dragActive
      ensures dragActive == DragActiveAfter(old(dragActive), eventType)
    {
      dragActive := DragActiveAfter(dragActive, eventType);
    }

    /** `handleDrop`: the highlight always ends, then the first dropped file is offered. */
    method HandleDrop(files: seq<File>) returns (alert: Option<string>)
      modifies this`dragActive, this`selectedFile
      ensures !dragActive
      ensures (selectedFile, alert) == Pick(old(selectedFile), files)
    {
      dragActive := false;
      var picked := Pick(selectedFile, files);
      selectedFile, alert := picked.0, picked.1;
    }

    /** `handleChange`: `files` is `None` when the input reports no file list. */
    method HandleChange(files: Option<seq<File>>) returns (alert: Option<string>)
      modifies this`selectedFile
      ensures (selectedFile, alert) == Pick(old(selectedFile), files.GetOr([]))
    {
      var picked := Pick(selectedFile, files.GetOr([]));
      selectedFile, alert := picked.0, picked.1;
    }

    /** The "Remove file" button. */
    method RemoveFile()
      modifies this`selectedFile
      ensures selectedFile.None?
    {
      selectedFile := None;
    }

    method SetTitle(value: string)
      modifies this`title
      ensures title == value
    {
      title := value;
    }

    method SetAuthor(value: string)
      modifies this`author
      ensures author == value
    {
      author := value;
    }

    method SetDescription(value: string)
      modifies this`description
      ensures description == value
    {
      description := value;
    }

    /** The submit button's `disabled` attribute. */
    predicate SubmitDisabled()
      reads this
    {
      Blocked(selectedFile, title, author)
    }

    /** `handleSubmit`, up to sending the request; the page state is not changed. */
    method HandleSubmit(storage: map<string, string>) returns (submission: Submission)
      ensures submission == SubmissionFor(selectedFile, title, author, description, storage)
      ensures submission.Ignored? <==> SubmitDisabled()
    {
      submission := SubmissionFor(selectedFile, title, author, description, storage);
    }
  }
}
