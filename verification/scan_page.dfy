/** The capture screen of components/pages/ScanPage.tsx: an image from the
    camera or a file goes through text recognition, the recognised text is
    shown, and it can be saved as a note whose title is taken from its first
    line. */
module ScanPage {
  import opened Types
  import opened Strings

  /** The result shown when recognition throws. */
  const FailureMessage := "Failed to process image."

  /** The title of a note whose first line is empty. */
  const UntitledNote := "Untitled Note"

  /** Titles are cut to this many characters. */
  const TitleLimit := 50

  /** What the screen shows: the start screen, the live camera, or an image
      with its recognition progress or result. */
  datatype Mode = Idle | Camera | Result

  /** `string | File`: a camera screenshot arrives as a data URL, an upload
      as a file whose preview the reader sets separately. */
  datatype ImageSource = DataUrl(url: string) | UploadedFile

  /** How the call to the recognition service ends: with its text, or by
      throwing. */
  datatype OcrOutcome = Recognized(text: string) | Failed

  /** `s.substring(0, n)` for n >= 0: at most the first `n` characters. */
  function Prefix(s: string, n: nat): (r: string)
    ensures |r| <= n && |r| <= |s| && r == s[..|r|]
    ensures |r| < n ==> r == s
  {
    if |s| <= n then s else s[..n]
  }

  /** `ocrResult.split('\n')[0] || 'Untitled Note'`: the text before the
      first line feed, unless that is empty. */
  function TitleSource(ocrResult: string): string
  {
    var first := FirstLine(ocrResult);
    if first == [] then UntitledNote else first
  }

  /** The title a note is saved under. */
  function Title(ocrResult: string): string
  {
    Prefix(TitleSource(ocrResult), TitleLimit)
  }

  /** The title is never empty, is at most fifty characters, and contains no
      line feed. When the text is empty or starts with a line feed, the title
      is "Untitled Note"; otherwise it is the start of the text's first line,
      and the whole of that line unless the line is longer than fifty
      characters. */
  lemma TitleSpec(ocrResult: string)
    ensures var t := Title(ocrResult);
      && t != [] && |t| <= TitleLimit
      && (forall i :: 0 <= i < |t| ==> t[i] != '\n')
      && (ocrResult == [] || ocrResult[0] == '\n' ==> t == UntitledNote)
      && (ocrResult != [] && ocrResult[0] != '\n' ==>
            && t == ocrResult[..|t|]
            && (|t| < TitleLimit ==> |t| == |ocrResult| || ocrResult[|t|] == '\n'))
  {
    var first := FirstLine(ocrResult);
    var t := Title(ocrResult);
    if first != [] {
      assert first[0] == ocrResult[0];
    }
    if first == [] {
      assert t == UntitledNote;
      assert ocrResult == [] || ocrResult[0] == '\n';
    } else {
      assert t == first[..|t|];
      assert first == ocrResult[..|first|];
      assert t == ocrResult[..|t|];
      if |t| < TitleLimit {
        assert t == first;
      }
    }
  }

  /** The record `saveNote` hands to the store, if any: none when there is
      no result or the result is empty. */
  function NoteToSave(ocrResult: Option<string>): (r: Option<Note>)
    ensures r.None? <==> ocrResult.None? || ocrResult.value == []
  {
    match ocrResult
    case None => None
    case Some(text) => if text == [] then None else Some(Note(Title(text), text))
  }

  /** A saved note keeps the recognised text unchanged as its content, and
      its title is `Title(text)`: the start of the text's first line (or
      "Untitled Note"), at most fifty characters long, with no line feed. */
  lemma SavedNoteSpec(text: string)
    requires text != []
    ensures var n := NoteToSave(Some(text)).value;
      && n.content == text
      && n.title == Title(text)
      && n.title != [] && |n.title| <= TitleLimit
      && (forall i :: 0 <= i < |n.title| ==> n.title[i] != '\n')
      && (n.title == UntitledNote || n.title == text[..|n.title|])
  {
    TitleSpec(text);
  }

  /** The screen's state. `savedNotes` stands for the notes table the store
      adds to. */
  class Scanner {
    var ocrResult: Option<string>
    var isProcessing: bool
    var progress: int
    var imageSrc: Option<string>
    var mode: Mode
    var savedNotes: seq<Note>

    /** `disabled={isProcessing || !ocrResult}` negated: the Save Note button
        is enabled only once recognition is over and there is a non-empty
        result. */
    predicate CanSave()
      reads this
    {
      !isProcessing && ocrResult.Some? && ocrResult.value != []
    }

    constructor()
      ensures ocrResult.None? && !isProcessing && progress == 0 && imageSrc.None?
      ensures mode == Idle && savedNotes == []
    {
      ocrResult := None;
      isProcessing := false;
      progress := 0;
      imageSrc := None;
      mode := Idle;
      savedNotes := [];
    }

    /** The "Use Camera" button. */
    method OpenCamera()
      modifies this
      ensures mode == Camera
      ensures ocrResult == old(ocrResult) && isProcessing == old(isProcessing)
      ensures progress == old(progress) && imageSrc == old(imageSrc)
      ensures savedNotes == old(savedNotes)
    {
      mode := Camera;
    }

    /** The synchronous start of `handleImage`: shows the result screen with
        the previous result cleared and the progress at zero, and previews a
        screenshot (an upload's preview is set by the file reader). */
    method BeginImage(image: ImageSource)
      modifies this
      ensures isProcessing && ocrResult.None? && progress == 0 && mode == Result
      ensures imageSrc == if image.DataUrl? then Some(image.url) else old(imageSrc)
      ensures savedNotes == old(savedNotes)
    {
      isProcessing := true;
      ocrResult := None;
      progress := 0;
      mode := Result;
      if image.DataUrl? {
        imageSrc := Some(image.url);
      }
    }

    /** `setProgress`, the progress callback handed to the recognition
        service. */
    method OnProgress(percent: int)
      modifies this
      ensures progress == percent
      ensures ocrResult == old(ocrResult) && isProcessing == old(isProcessing)
      ensures imageSrc == old(imageSrc) && mode == old(mode) && savedNotes == old(savedNotes)
    {
      progress := percent;
    }

    /** The end of `handleImage`, after the recognition call settles: the
        result is its text, or the failure message if it threw, and
        processing is over. */
    method FinishImage(outcome: OcrOutcome)
      modifies this
      ensures !isProcessing
      ensures ocrResult == Some(if outcome.Recognized? then outcome.text else FailureMessage)
      ensures progress == old(progress) && imageSrc == old(imageSrc) && mode == old(mode)
      ensures savedNotes == old(savedNotes)
    {
      match outcome {
        case Recognized(text) =>
          ocrResult := Some(text);
        case Failed =>
          ocrResult := Some(FailureMessage);
      }
      isProcessing := false;
    }

    /** `handleImage` run to completion with no other event in between: the
        recognition service reports `reports` through the progress callback,
        in order, and then settles with `outcome`. The progress left on show
        is the last one reported. */
    method HandleImage(image: ImageSource, reports: seq<int>, outcome: OcrOutcome)
      modifies this
      ensures !isProcessing && mode == Result
      ensures progress == if reports == [] then 0 else reports[|reports| - 1]
      ensures ocrResult == Some(if outcome.Recognized? then outcome.text else FailureMessage)
      ensures imageSrc == if image.DataUrl? then Some(image.url) else old(imageSrc)
      ensures savedNotes == old(savedNotes)
    {
      BeginImage(image);
      for i := 0 to |reports|
        invariant isProcessing && ocrResult.None? && mode == Result
        invariant progress == if i == 0 then 0 else reports[i - 1]
        invariant imageSrc == if image.DataUrl? then Some(image.url) else old(imageSrc)
        invariant savedNotes == old(savedNotes)
      {
        OnProgress(reports[i]);
      }
      FinishImage(outcome);
    }

    /** The result text area's `onChange`: the user's edit replaces the
        result, at any time, including while recognition runs. */
    method EditResult(text: string)
      modifies this
      ensures ocrResult == Some(text)
      ensures isProcessing == old(isProcessing) && progress == old(progress)
      ensures imageSrc == old(imageSrc) && mode == old(mode) && savedNotes == old(savedNotes)
    {
      ocrResult := Some(text);
    }

    /** `resetState`: back to the start screen with nothing kept. */
    method ResetState()
      modifies this
      ensures ocrResult.None? && !isProcessing && progress == 0 && imageSrc.None? && mode == Idle
      ensures savedNotes == old(savedNotes)
    {
      ocrResult := None;
      isProcessing := false;
      progress := 0;
      imageSrc := None;
      mode := Idle;
    }

    /** `saveNote`: adds the note made from the result to the store, or does
        nothing when there is no non-empty result. */
    method SaveNote()
      modifies this
      ensures old(NoteToSave(ocrResult)).None? ==> savedNotes == old(savedNotes)
      ensures old(NoteToSave(ocrResult)).Some? ==>
                savedNotes == old(savedNotes) + [old(NoteToSave(ocrResult)).value]
      ensures ocrResult == old(ocrResult) && isProcessing == old(isProcessing)
      ensures progress == old(progress) && imageSrc == old(imageSrc) && mode == old(mode)
    {
      match NoteToSave(ocrResult) {
        case None =>
        case Some(note) =>
          savedNotes := savedNotes + [note];
      }
    }

    /** A click on the Save Note button: a disabled button does nothing, an
        enabled one runs `saveNote`, which then always adds a note. */
    method ClickSave()
      modifies this
      ensures !old(CanSave()) ==> savedNotes == old(savedNotes)
      ensures old(CanSave()) ==>
                savedNotes == old(savedNotes) + [NoteToSave(old(ocrResult)).value]
      ensures ocrResult == old(ocrResult) && isProcessing == old(isProcessing)
      ensures progress == old(progress) && imageSrc == old(imageSrc) && mode == old(mode)
    {
      if CanSave() {
        SaveNote();
      }
    }
  }

  /** The Save Note button is enabled exactly when recognition is over and
      `saveNote` has a note to add; so a click while recognition runs saves
      nothing, whatever the text area holds (see Scanner.ClickSave). */
  lemma SaveButtonGuard(s: Scanner)
    ensures s.CanSave() <==> !s.isProcessing && NoteToSave(s.ocrResult).Some?
    ensures s.isProcessing ==> !s.CanSave()
  {
  }
}
