# tex-formula: formula acquisition and LaTeX document assembly

`tex-formula` is a command-line tool. It takes a LaTeX formula, typesets it as
a standalone document, rasterises it and puts the image on the clipboard.
This project models the part of `main` that runs before the LaTeX compiler:

- **Source selection.** The formula comes from exactly one place. With
  `--editor` it comes from an external editor. Otherwise the positional value
  `-` (also the default) selects standard input. Any other positional value
  is the formula itself.
- **The standard-input loop.** `read_line` appends lines to one buffer. The
  loop ends at the first read that fails, the first read of zero bytes, or
  the first read after which the whole buffer ends with `<<end` followed by
  a newline. The buffer is then trimmed, every `<<end` token is removed, and
  the result is trimmed again.
- **The editor branch.** Saved text is trimmed. A session closed without
  saving panics. An editor that cannot be run panics too.
- **The document template.** The font size (default 12) and the formula are
  put, unescaped, into a fixed `standalone` document. The formula sits
  between `\begin{align*}` and `\end{align*}`.

Modules:

- `Results` has `Option` and `Result`.
- `Text` models Rust's `char::is_whitespace` (the full Unicode White_Space
  set), `str::trim`, `trim_start`, `trim_end`, `ends_with` and `str::replace`.
- `Decimal` models the `u32` font size and its decimal rendering by `{}`.
- `Input` has the command-line record, source selection, the editor branch
  and the read loop. `ReadFormula` is a `while` loop proved against the
  specification function `StdinOutcome`.
- `Document` has the template, `AssembleDocument`, and its inverse
  `ParseDocument`.
- `Pipeline` connects acquisition to assembly and gives the exit status of
  each failure.

Standard input is a sequence of read results. Each result is either the text
one `read_line` call appended or its error. A read of zero bytes is
`Read("")`. Once the sequence is used up, every further read is treated as
the end of input.

Some behaviour of the code is easy to miss; the model keeps it:

- A read error prints a message and `return`s from `main`, so the process
  exits with status 0 (`Pipeline.ExitStatus`). Editor failures panic, which
  gives status 101.
- The end test is a suffix test on the whole buffer, not a line comparison.
  `a+b<<end` followed by a newline ends input in one read, and the formula
  is `a+b` (`Input.StdinSentinelEndsLine`).
- Every `<<end` is removed, not only the one that ended input
  (`Input.NormalizeRemovesInnerToken`).
- An empty or blank formula is not rejected
  (`Pipeline.BlankEditorTextIsAccepted`).
- A positional formula is used exactly as given, with no trimming and no
  token removal (`Pipeline.ArgumentReachesDocumentVerbatim`).

The worked cases for a single line such as `x+y` are instances of
`Input.StdinSingleLine` with `f := "x+y"`. The three cases are: the line,
then the sentinel line; the line, then a zero-byte read; the line, then the
end of the stream. Each yields `x+y`.

## Model

| member | source | states |
|---|---|---|
| `Input.SelectSource` | src/main.rs:44-73 | The editor flag wins. Without it, standard input is selected exactly when the positional value is `-`, and the positional formula exactly when it is not. |
| `Input.DefaultReadsStdin` | src/main.rs:38-39 | With no arguments, the default positional value `-` selects standard input. |
| `Input.EditorFormula` | src/main.rs:49-53 | A formula comes back exactly when the editor text was saved. It is the saved text with only its leading and trailing whitespace removed. Unsaved gives `EditorAborted`; an editor error passes through. |
| `Input.FirstStop` | src/main.rs:57-63 | The index of the first read that ends the loop: no earlier read ends it, and this one does (a failed read, a zero-byte read, or a buffer ending in the sentinel line). |
| `Input.StdinOutcome` | src/main.rs:56-70 | The outcome is a failure exactly when the last consumed read failed, and it carries that read's error. Otherwise the formula is trimmed. |
| `Input.ReadFormula` | src/main.rs:56-70 | The read loop consumes exactly the reads up to and including the first stop, and returns the specified outcome. |
| `Input.AcquireFormula` | src/main.rs:44-73 | With the editor flag the result is the editor's; otherwise, with `-`, it is the standard-input outcome; otherwise it is the positional formula unchanged. |
| `Input.Normalize` | src/main.rs:61 | The normalised buffer has no leading or trailing whitespace and is no longer than the buffer. |
| `Input.NormalizeDropsSentinelLine` | src/main.rs:60-61 | Appending the sentinel line to any buffer leaves the normalised formula unchanged. |
| `Input.StdinEndsOnSentinelLine` | src/main.rs:57-62 | When the loop ends on a read of the sentinel line, exactly that many reads are consumed, and the formula is the normalised text of the lines before it. |
| `Input.NormalizeOfPlainFormula` | src/main.rs:61 | A trimmed formula without the token normalises to itself, with or without a final newline. |
| `Input.NormalizeRemovesInnerToken` | src/main.rs:61 | A token between two parts of a formula is removed as well; the parts are joined. |
| `Input.StdinIgnoresLaterReads` | src/main.rs:57-63 | Once a read has ended the loop, appending further reads changes neither how many reads are consumed nor the outcome. |
| `Input.StdinSingleLine` | src/main.rs:57-62 | A single formula line yields that formula whether it is followed by the sentinel line, a zero-byte read or the end of the stream. |
| `Input.StdinSentinelEndsLine` | src/main.rs:60-62 | A line that ends in the token ends input after one read, whatever follows, and yields the text before the token. |
| `Text.TrimStart` | src/main.rs:61 | The result is a suffix of the input. Everything removed is whitespace, and the result does not start with whitespace. |
| `Text.TrimEnd` | src/main.rs:61 | The result is a prefix of the input. Everything removed is whitespace, and the result does not end with whitespace. |
| `Text.Trim` | src/main.rs:50 | The result is a part of the input with only whitespace around it, and it has no whitespace at either end. It equals the input exactly when the input already had none. |
| `Text.RemoveUnchangedIff` | src/main.rs:61 | Removing a pattern leaves a string unchanged if and only if the pattern occurs nowhere in it. |
| `Text.RemoveShrinks` | src/main.rs:61 | Removing a pattern that occurs somewhere makes the string strictly shorter. |
| `Text.ReplaceAroundPattern` | src/main.rs:61 | For a pattern that cannot overlap itself, an occurrence is replaced whatever surrounds it, and the text on each side is replaced on its own. |
| `Text.ReplaceAppendWhitespace` | src/main.rs:61 | Trailing whitespace passes through a replacement of a pattern that holds no whitespace. |
| `Text.TrimAppendWhitespace` | src/main.rs:61 | Trailing whitespace does not change the trimmed result. |
| `Decimal.DecimalRoundTrip` | src/main.rs:81 | The decimal digits of a font size read back as that number. |
| `Document.AssembleDocument` | src/main.rs:75-90 | The document ends with the fixed tail, which opens with `\end{align*}`. The formula sits verbatim just before the tail, right after `\begin{align*}`. |
| `Document.DocumentRoundTrip` | src/main.rs:75-90 | Parsing an assembled document gives back the font size and the formula it was made from. |
| `Document.AssembleInjective` | src/main.rs:75-90 | Different font sizes or formulas never give the same document. |
| `Pipeline.FontSize` | src/main.rs:88 | The font size is the one given, or 12 when none was given. |
| `Pipeline.DocumentFor` | src/main.rs:75-90 | A document exists exactly when acquisition succeeded, and it parses back to the font size and the acquired formula. Otherwise the failure passes through. |
| `Pipeline.PrepareDocument` | src/main.rs:43-90 | `main` up to the compiler yields the document for the formula acquired from the selected source, or that acquisition's failure. |
| `Pipeline.ExitStatus` | src/main.rs:49-68 | The exit status is 0 exactly for a read error, which returns from `main`. Every other failure panics with status 101. |
| `Pipeline.UnsavedEditorMakesNoDocument` | src/main.rs:49-53 | In editor mode, an unsaved session aborts before any document exists. |
| `Pipeline.ArgumentReachesDocumentVerbatim` | src/main.rs:71-72 | A positional formula reaches the document exactly as given. |
| `Pipeline.StdinErrorMakesNoDocument` | src/main.rs:65-68 | A read error before any other stop ends the program without a document, with exit status 0. |
| `Pipeline.BlankEditorTextIsAccepted` | src/main.rs:49-50 | Editor text that is all whitespace is accepted and gives a document with an empty formula. |

## Left out

- Command-line parsing by `clap` (src/main.rs:27-43). Its result is the `Input.Args` record. The model does not use `to_stdout` or `editor_command` past that point.
- The editor process (src/main.rs:45-49). Its extension, its executable and its save requirement are not modelled. Only the outcome of the session is modelled, as an `EditorOutcome` parameter.
- The error message printed on a failed read (src/main.rs:66). This is output to stderr; the error value is carried in `StdinError`.
- The echo of the formula to standard output (src/main.rs:74). This is output only.
- Everything after the document is built (src/main.rs:92 onwards). This covers LaTeX compilation with tectonic, rendering with poppler/cairo or Ghostscript, PNG decoding and the clipboard. These are foreign libraries and external processes, and the feature-gated variants depend on build configuration.
- UTF-8 decoding by `read_line`. Strings are sequences of characters, and a read that fails on invalid UTF-8 is a `ReadFailed` like any other error.
- A stream that never ends. Reads come from a finite sequence, and every read after it is the end of input. A stream that keeps sending lines without a stop is not modelled.
- Text.Replace: a pattern of zero length is not modelled, because Rust's `str::replace` inserts the replacement between every character in that case. The only call site uses `<<end`.
- Text.Replace: its own contract states only length bounds. What it replaces is stated by `Text.RemoveUnchangedIff`, `Text.ReplaceAroundPattern` and `Text.ReplaceAppendWhitespace`.
