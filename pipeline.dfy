/**
 * The part of `main` (src/main.rs, lines 43-90) that runs before the LaTeX
 * compiler: acquire the formula, then assemble the document, or end the
 * program with a failure before any document exists.
 */
module Pipeline {
  import opened Results
  import opened Text
  import opened Decimal
  import opened Input
  import opened Document

  /** The font size given on the command line, 12 when none was given. */
  function FontSize(args: Args): (size: U32)
    ensures args.fontSize.None? ==> size == 12
    ensures args.fontSize.Some? ==> size == args.fontSize.value
  {
    args.fontSize.GetOr(12)
  }

  /**
   * The document for an acquired formula; a failure passes through and no
   * document is made.
   */
  function DocumentFor(args: Args, acquired: Result<string, Failure>): (r: Result<string, Failure>)
    ensures r.Failure? <==> acquired.Failure?
    ensures acquired.Failure? ==> r.error == acquired.error
    ensures acquired.Ok? ==> ParseDocument(r.value) == Some((FontSize(args), acquired.value))
  {
    match acquired
    case Failure(e) => Failure(e)
    case Ok(formula) =>
      DocumentRoundTrip(FontSize(args), formula);
      Ok(AssembleDocument(FontSize(args), formula))
  }

  /** Lines 43-90 of `main`: the LaTeX source handed to the compiler, or why there is none. */
  method PrepareDocument(args: Args, edit: EditorOutcome, rs: seq<ReadResult>)
    returns (r: Result<string, Failure>)
    ensures r == DocumentFor(args, Acquisition(args, edit, rs))
  {
    var acquired := AcquireFormula(args, edit, rs);
    match acquired
    case Failure(e) =>
      r := Failure(e);
    case Ok(formula) =>
      r := Ok(AssembleDocument(FontSize(args), formula));
  }

  /** The process exit status for each failure: a read error returns from `main`, the others panic. */
  function ExitStatus(f: Failure): (code: int)
    ensures code == 0 <==> f.StdinError?
    ensures code != 0 ==> code == 101
  {
    match f
    case StdinError(_) => 0
    case EditorAborted => 101
    case EditorError(_) => 101
  }

  /** With the editor flag, an unsaved session ends the program before a document exists. */
  lemma UnsavedEditorMakesNoDocument(args: Args, rs: seq<ReadResult>)
    requires args.editor
    ensures DocumentFor(args, Acquisition(args, NotSaved, rs)) == Failure(EditorAborted)
  {
  }

  /** A positional formula reaches the document exactly as given, without trimming or token removal. */
  lemma ArgumentReachesDocumentVerbatim(args: Args, edit: EditorOutcome, rs: seq<ReadResult>)
    requires !args.editor && args.formula != StdinMarker
    ensures DocumentFor(args, Acquisition(args, edit, rs)).Ok?
    ensures ParseDocument(DocumentFor(args, Acquisition(args, edit, rs)).value)
         == Some((FontSize(args), args.formula))
  {
  }

  /** A read error on standard input ends the program before a document exists. */
  lemma StdinErrorMakesNoDocument(args: Args, edit: EditorOutcome, rs: seq<ReadResult>, k: nat)
    requires !args.editor && args.formula == StdinMarker
    requires k < |rs| && rs[k].ReadFailed?
    requires forall j :: 0 <= j < k ==> !StopsAt(rs, j)
    ensures DocumentFor(args, Acquisition(args, edit, rs)) == Failure(StdinError(rs[k].error))
    ensures ExitStatus(StdinError(rs[k].error)) == 0
  {
    FirstStopIsFirst(rs, 0, k);
  }

  /** An editor text of whitespace only is not rejected: the document holds an empty formula. */
  lemma BlankEditorTextIsAccepted(args: Args, content: string, rs: seq<ReadResult>)
    requires args.editor && AllWhitespace(content)
    ensures DocumentFor(args, Acquisition(args, Saved(content), rs)) == Ok(AssembleDocument(FontSize(args), ""))
  {
    TrimAppendWhitespace([], content);
    assert [] + content == content;
  }
}
