/**
 * Formula acquisition (src/main.rs, lines 44-73): exactly one of the
 * editor, standard input or the positional argument supplies the formula.
 * The command-line parser and the editor process are outside the model;
 * their results arrive as an `Args` record and an `EditorOutcome`.
 */
module Input {
  import opened Results
  import opened Text
  import opened Decimal

  /** The parsed command line. */
  datatype Args = Args(
    fontSize: Option<U32>,
    toStdout: bool,
    editor: bool,
    editorCommand: string,
    formula: string)

  /** The positional value that selects standard input; also its default. */
  const StdinMarker: string := "-"

  /** What the command line holds when no option and no formula is given. */
  const DefaultArgs: Args := Args(None, false, false, "code --wait", StdinMarker)

  /** The token the user types to end standard input, and the line it forms. */
  const Sentinel: string := "<<end"
  const SentinelLine: string := "<<end\n"

  datatype Source = FromEditor | FromStdin | FromArgument

  /** What ends acquisition without a formula. */
  datatype Failure =
    | StdinError(error: string)   // a failed read of standard input
    | EditorAborted               // the editor exited without saving
    | EditorError(error: string)  // the editor could not be run

  /** One `read_line` call: the text it appended (empty at end of input), or its error. */
  datatype ReadResult = Read(text: string) | ReadFailed(error: string)

  /** What the editor session returned. */
  datatype EditorOutcome = Saved(content: string) | NotSaved | EditorFailed(error: string)

  /** The editor flag takes priority; then the `-` marker selects standard input. */
  function SelectSource(args: Args): (s: Source)
    ensures args.editor ==> s == FromEditor
    ensures s == FromStdin <==> !args.editor && args.formula == StdinMarker
    ensures s == FromArgument <==> !args.editor && args.formula != StdinMarker
  {
    if args.editor then FromEditor
    else if args.formula == StdinMarker then FromStdin
    else FromArgument
  }

  lemma DefaultReadsStdin()
    ensures SelectSource(DefaultArgs) == FromStdin
  {
  }

  /** The editor's saved text, trimmed; an unsaved session aborts. */
  function EditorFormula(edit: EditorOutcome): (r: Result<string, Failure>)
    ensures r.Ok? <==> edit.Saved?
    ensures r.Ok? ==> IsTrimmed(r.value) && |r.value| <= |edit.content|
    ensures r.Ok? ==> r.value == Trim(edit.content) && exists i :: StripsTo(edit.content, i, r.value)
    ensures edit.NotSaved? ==> r == Failure(EditorAborted)
    ensures edit.EditorFailed? ==> r == Failure(EditorError(edit.error))
  {
    match edit
    case Saved(content) => Ok(Trim(content))
    case NotSaved => Failure(EditorAborted)
    case EditorFailed(e) => Failure(EditorError(e))
  }

  // ---------------------------------------------------------------------
  // Standard input

  /** The buffer after the given reads: each successful read appends its text. */
  function Joined(rs: seq<ReadResult>): string {
    if rs == [] then []
    else
      var last := rs[|rs| - 1];
      Joined(rs[..|rs| - 1]) + (if last.Read? then last.text else [])
  }

  /**
   * Read `j` ends the loop: it failed, it read nothing (end of input), or the
   * whole buffer now ends with the sentinel line.
   */
  predicate StopsAt(rs: seq<ReadResult>, j: nat)
    requires j < |rs|
  {
    rs[j].ReadFailed? || rs[j].text == [] || EndsWith(Joined(rs[..j + 1]), SentinelLine)
  }

  /** The first read at or after `i` that ends the loop, or `|rs|` if none does. */
  function FirstStop(rs: seq<ReadResult>, i: nat): (k: nat)
    requires i <= |rs|
    ensures i <= k <= |rs|
    ensures forall j :: i <= j < k ==> !StopsAt(rs, j)
    ensures k < |rs| ==> StopsAt(rs, k)
    decreases |rs| - i
  {
    if i == |rs| then i
    else if StopsAt(rs, i) then i
    else FirstStop(rs, i + 1)
  }

  /**
   * How many reads the loop performs: up to and including the first one that
   * ends it. A stream whose every read is consumed ends with an empty read.
   */
  function Consumed(rs: seq<ReadResult>): (n: nat)
    ensures n <= |rs|
  {
    var k := FirstStop(rs, 0);
    if k < |rs| then k + 1 else |rs|
  }

  /** The buffer's final form: trim, remove every sentinel token, trim again. */
  function Normalize(buf: string): (r: string)
    ensures IsTrimmed(r)
    ensures |r| <= |buf|
  {
    Trim(Replace(Trim(buf), Sentinel, []))
  }

  /** The formula standard input yields, or the read error that ends the program. */
  function StdinOutcome(rs: seq<ReadResult>): (r: Result<string, Failure>)
    ensures r.Failure? <==> Consumed(rs) > 0 && rs[Consumed(rs) - 1].ReadFailed?
    ensures r.Failure? ==> r.error == StdinError(rs[Consumed(rs) - 1].error)
    ensures r.Ok? ==> IsTrimmed(r.value)
  {
    var n := Consumed(rs);
    if n > 0 && rs[n - 1].ReadFailed? then Failure(StdinError(rs[n - 1].error))
    else Ok(Normalize(Joined(rs[..n])))
  }

  /**
   * The read loop. `rs` lists the results of successive `read_line` calls;
   * once it is exhausted the stream is at its end and every further read
   * appends nothing. Returns the outcome and the number of reads consumed.
   */
  method ReadFormula(rs: seq<ReadResult>) returns (r: Result<string, Failure>, used: nat)
    ensures used == Consumed(rs)
    ensures r == StdinOutcome(rs)
  {
    var buf: string := [];
    var i := 0;
    while i < |rs|
      invariant i <= |rs|
      invariant buf == Joined(rs[..i])
      invariant forall j :: 0 <= j < i ==> !StopsAt(rs, j)
      invariant FirstStop(rs, 0) == FirstStop(rs, i)
    {
      JoinedStep(rs, i);
      match rs[i]
      case ReadFailed(e) =>
        OutcomeAtStop(rs, i);
        return Failure(StdinError(e)), i + 1;
      case Read(line) =>
        buf := buf + line;
        if |line| == 0 || EndsWith(buf, SentinelLine) {
          OutcomeAtStop(rs, i);
          return Ok(Normalize(buf)), i + 1;
        }
      i := i + 1;
    }
    assert rs[..i] == rs;
    assert i > 0 ==> !StopsAt(rs, i - 1);
    return Ok(Normalize(buf)), i;
  }

  lemma JoinedStep(rs: seq<ReadResult>, i: nat)
    requires i < |rs|
    ensures Joined(rs[..i + 1]) == Joined(rs[..i]) + (if rs[i].Read? then rs[i].text else [])
  {
    assert rs[..i + 1][..i] == rs[..i];
  }

  lemma OutcomeAtStop(rs: seq<ReadResult>, i: nat)
    requires i < |rs| && FirstStop(rs, 0) == FirstStop(rs, i) && StopsAt(rs, i)
    ensures Consumed(rs) == i + 1
    ensures StdinOutcome(rs) == if rs[i].ReadFailed? then Failure(StdinError(rs[i].error))
                                else Ok(Normalize(Joined(rs[..i + 1])))
  {
  }

  /** Formula acquisition as a value: the specification `AcquireFormula` meets. */
  function Acquisition(args: Args, edit: EditorOutcome, rs: seq<ReadResult>): Result<string, Failure> {
    match SelectSource(args)
    case FromEditor => EditorFormula(edit)
    case FromStdin => StdinOutcome(rs)
    case FromArgument => Ok(args.formula)
  }

  /** Lines 44-73 of `main`: obtain the formula from the selected source. */
  method AcquireFormula(args: Args, edit: EditorOutcome, rs: seq<ReadResult>)
    returns (r: Result<string, Failure>)
    ensures args.editor ==> r == EditorFormula(edit)
    ensures !args.editor && args.formula == StdinMarker ==> r == StdinOutcome(rs)
    ensures !args.editor && args.formula != StdinMarker ==> r == Ok(args.formula)
    ensures r == Acquisition(args, edit, rs)
  {
    match SelectSource(args)
    case FromEditor =>
      r := EditorFormula(edit);
    case FromStdin =>
      var used;
      r, used := ReadFormula(rs);
    case FromArgument =>
      r := Ok(args.formula);
  }

  // ---------------------------------------------------------------------
  // Properties of the standard-input path

  lemma SentinelShape()
    ensures SentinelLine == Sentinel + "\n"
    ensures NoWhitespace(Sentinel) && NoSelfOverlap(Sentinel)
  {
    assert Sentinel[1..] != Sentinel[..4] by { assert Sentinel[1..][1] != Sentinel[..4][1]; }
    assert Sentinel[2..] != Sentinel[..3] by { assert Sentinel[2..][0] != Sentinel[..3][0]; }
    assert Sentinel[3..] != Sentinel[..2] by { assert Sentinel[3..][0] != Sentinel[..2][0]; }
    assert Sentinel[4..] != Sentinel[..1] by { assert Sentinel[4..][0] != Sentinel[..1][0]; }
  }

  /** Appending the sentinel line to a buffer does not change the formula it yields. */
  lemma NormalizeDropsSentinelLine(pre: string)
    ensures Normalize(pre + SentinelLine) == Normalize(pre)
  {
    var u := TrimStart(pre);
    calc {
      Normalize(pre + SentinelLine);
      Trim(Replace(Trim(pre + SentinelLine), Sentinel, []));
      { TrimOfSentinelLine(pre); }
      Trim(Replace(u + Sentinel, Sentinel, []));
      { RemoveTrailingToken(u); }
      Trim(Replace(u, Sentinel, []));
      { NormalizeAfterTrimStart(pre); }
      Normalize(pre);
    }
  }

  /** A token at the very end of the text is removed like any other. */
  lemma RemoveTrailingToken(u: string)
    ensures Replace(u + Sentinel, Sentinel, []) == Replace(u, Sentinel, [])
  {
    SentinelShape();
    ReplaceAroundPattern(u, Sentinel, [], []);
    assert u + Sentinel + [] == u + Sentinel;
    assert Replace(u, Sentinel, []) + [] + [] == Replace(u, Sentinel, []);
  }

  lemma TrimOfSentinelLine(pre: string)
    ensures Trim(pre + SentinelLine) == TrimStart(pre) + Sentinel
  {
    SentinelShape();
    var withToken := pre + Sentinel;
    assert pre + SentinelLine == withToken + "\n";
    TrimEndAppendWhitespace(withToken, "\n");
    assert withToken[|withToken| - 1] == 'd';
    assert TrimEnd(withToken) == withToken;
    TrimStartAppend(pre, Sentinel);
  }

  /** Trimming only the start of the buffer before removing tokens yields the same formula. */
  lemma NormalizeAfterTrimStart(pre: string)
    ensures Trim(Replace(TrimStart(pre), Sentinel, [])) == Normalize(pre)
  {
    var e := TrimEnd(pre);
    if e == [] {
      TrimStartOfBlank(pre);
    } else {
      var w := TrimEndSplit(pre);
      TrimStartAppend(e, w);
      SentinelShape();
      var z := Replace(TrimStart(e), Sentinel, []);
      calc {
        Trim(Replace(TrimStart(pre), Sentinel, []));
        Trim(Replace(TrimStart(e) + w, Sentinel, []));
        { ReplaceAppendWhitespace(TrimStart(e), w, Sentinel, []); }
        Trim(z + w);
        { TrimAppendWhitespace(z, w); }
        Trim(z);
      }
    }
  }

  lemma {:induction false} FirstStopOfExtension(rs: seq<ReadResult>, more: seq<ReadResult>, i: nat)
    requires i <= |rs| && FirstStop(rs, i) < |rs|
    ensures FirstStop(rs + more, i) == FirstStop(rs, i)
    decreases |rs| - i
  {
    assert (rs + more)[..i + 1] == rs[..i + 1];
    if !StopsAt(rs, i) {
      FirstStopOfExtension(rs, more, i + 1);
    }
  }

  /** Once a read has ended the loop, whatever the stream holds afterwards is never read. */
  lemma StdinIgnoresLaterReads(rs: seq<ReadResult>, more: seq<ReadResult>)
    requires FirstStop(rs, 0) < |rs|
    ensures Consumed(rs + more) == Consumed(rs)
    ensures StdinOutcome(rs + more) == StdinOutcome(rs)
  {
    ConsumedOfExtension(rs, more);
    OutcomeOfSameReads(rs + more, rs);
  }

  lemma ConsumedOfExtension(rs: seq<ReadResult>, more: seq<ReadResult>)
    requires FirstStop(rs, 0) < |rs|
    ensures Consumed(rs + more) == Consumed(rs)
    ensures (rs + more)[..Consumed(rs)] == rs[..Consumed(rs)]
  {
    FirstStopOfExtension(rs, more, 0);
    var k := FirstStop(rs, 0);
    assert Consumed(rs + more) == k + 1;
    PrefixOfAppend(rs, more, k + 1);
  }

  lemma PrefixOfAppend<T>(a: seq<T>, b: seq<T>, n: nat)
    requires n <= |a|
    ensures (a + b)[..n] == a[..n]
  {
  }

  /** The outcome depends only on the reads the loop consumes. */
  lemma OutcomeOfSameReads(a: seq<ReadResult>, b: seq<ReadResult>)
    requires Consumed(a) == Consumed(b)
    requires a[..Consumed(a)] == b[..Consumed(b)]
    ensures StdinOutcome(a) == StdinOutcome(b)
  {
    var n := Consumed(a);
    if n > 0 {
      assert a[n - 1] == a[..n][n - 1] == b[..n][n - 1] == b[n - 1];
    }
  }

  /** When the loop ends on the sentinel line itself, the formula is that of the lines before it. */
  lemma StdinEndsOnSentinelLine(rs: seq<ReadResult>, k: nat)
    requires k < |rs| && rs[k] == Read(SentinelLine)
    requires forall j :: 0 <= j < k ==> !StopsAt(rs, j)
    ensures Consumed(rs) == k + 1
    ensures StdinOutcome(rs) == Ok(Normalize(Joined(rs[..k])))
  {
    JoinedStep(rs, k);
    assert StopsAt(rs, k);
    FirstStopIsFirst(rs, 0, k);
    NormalizeDropsSentinelLine(Joined(rs[..k]));
  }

  lemma {:induction false} FirstStopIsFirst(rs: seq<ReadResult>, i: nat, k: nat)
    requires i <= k < |rs| && StopsAt(rs, k)
    requires forall j :: i <= j < k ==> !StopsAt(rs, j)
    ensures FirstStop(rs, i) == k
    decreases k - i
  {
    if i < k {
      FirstStopIsFirst(rs, i + 1, k);
    }
  }

  /** The sentinel token does not occur in `s`. */
  ghost predicate TokenFree(s: string) {
    forall i :: !OccursAt(s, Sentinel, i)
  }

  /** A trimmed formula without the token is its own normal form, with or without a final newline. */
  lemma NormalizeOfPlainFormula(f: string)
    requires IsTrimmed(f) && TokenFree(f)
    ensures Normalize(f) == f
    ensures Normalize(f + "\n") == f
  {
    NoOccurrenceUnchanged(f, Sentinel, []);
    TrimAppendWhitespace(f, "\n");
  }

  /** A token inside the formula is removed as well, not only the one that ended input. */
  lemma NormalizeRemovesInnerToken(a: string, b: string)
    requires a != [] && b != [] && IsTrimmed(a) && IsTrimmed(b)
    requires TokenFree(a) && TokenFree(b)
    ensures Normalize(a + Sentinel + b) == a + b
  {
    var s := a + Sentinel + b;
    assert Trim(s) == s by {
      assert s[0] == a[0] && s[|s| - 1] == b[|b| - 1];
    }
    assert Replace(s, Sentinel, []) == a + b by {
      SentinelShape();
      ReplaceAroundPattern(a, Sentinel, [], b);
      NoOccurrenceUnchanged(a, Sentinel, []);
      NoOccurrenceUnchanged(b, Sentinel, []);
      assert a + [] + b == a + b;
    }
    assert Trim(a + b) == a + b by {
      assert (a + b)[0] == a[0] && (a + b)[|a + b| - 1] == b[|b| - 1];
    }
  }

  lemma JoinedOfOneLine(line: string)
    ensures Joined([Read(line)]) == line
  {
    assert [Read(line)][..0] == [];
  }

  lemma StdinLineThenSentinel(line: string)
    requires line != [] && !EndsWith(line, SentinelLine)
    ensures StdinOutcome([Read(line), Read(SentinelLine)]) == Ok(Normalize(line))
  {
    var rs := [Read(line), Read(SentinelLine)];
    assert rs[..1] == [Read(line)];
    JoinedOfOneLine(line);
    StdinEndsOnSentinelLine(rs, 1);
  }

  lemma StdinLineThenEof(line: string)
    requires line != [] && !EndsWith(line, SentinelLine)
    ensures StdinOutcome([Read(line), Read("")]) == Ok(Normalize(line))
  {
    var rs := [Read(line), Read("")];
    assert rs[..1] == [Read(line)];
    JoinedOfOneLine(line);
    assert !StopsAt(rs, 0);
    assert Joined(rs[..2]) == line by {
      JoinedStep(rs, 1);
      assert line + [] == line;
    }
    assert StopsAt(rs, 1);
    FirstStopIsFirst(rs, 0, 1);
    OutcomeAtStop(rs, 1);
  }

  lemma StdinLineOnly(line: string)
    requires line != [] && !EndsWith(line, SentinelLine)
    ensures StdinOutcome([Read(line)]) == Ok(Normalize(line))
  {
    var rs := [Read(line)];
    assert rs[..1] == rs;
    JoinedOfOneLine(line);
    assert !StopsAt(rs, 0);
    assert Consumed(rs) == 1;
  }

  /**
   * One line holding a formula, then the sentinel line, an empty read or the
   * end of the stream: each yields the formula itself.
   */
  lemma StdinSingleLine(f: string)
    requires f != [] && IsTrimmed(f) && TokenFree(f)
    ensures StdinOutcome([Read(f + "\n"), Read(SentinelLine)]) == Ok(f)
    ensures StdinOutcome([Read(f + "\n"), Read("")]) == Ok(f)
    ensures StdinOutcome([Read(f + "\n")]) == Ok(f)
  {
    var line := f + "\n";
    assert !EndsWith(line, SentinelLine) by {
      if EndsWith(line, SentinelLine) {
        assert line[|line| - 6..|line| - 1] == Sentinel;
        assert f[|f| - 5..|f|] == Sentinel;
        assert OccursAt(f, Sentinel, |f| - 5);
      }
    }
    NormalizeOfPlainFormula(f);
    StdinLineThenSentinel(line);
    StdinLineThenEof(line);
    StdinLineOnly(line);
  }

  /**
   * The end test is on the buffer's suffix, not on a whole line: a line that
   * ends in the token ends input, and the reads after it are never made.
   */
  lemma StdinSentinelEndsLine(f: string, more: seq<ReadResult>)
    requires IsTrimmed(f) && TokenFree(f)
    ensures Consumed([Read(f + SentinelLine)] + more) == 1
    ensures StdinOutcome([Read(f + SentinelLine)] + more) == Ok(f)
  {
    var line := f + SentinelLine;
    var rs := [Read(line)];
    assert rs[..1] == rs;
    JoinedOfOneLine(line);
    assert StopsAt(rs, 0) by {
      assert line[|line| - |SentinelLine|..] == SentinelLine;
    }
    FirstStopIsFirst(rs, 0, 0);
    OutcomeAtStop(rs, 0);
    assert Normalize(line) == f by {
      NormalizeDropsSentinelLine(f);
      NormalizeOfPlainFormula(f);
    }
    StdinIgnoresLaterReads(rs, more);
  }
}
