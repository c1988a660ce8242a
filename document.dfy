/**
 * Document assembly (src/main.rs, lines 75-90): the formula and the font
 * size are placed, unescaped, into a fixed standalone LaTeX document.
 */
module Document {
  import opened Results
  import opened Text
  import opened Decimal

  /** The template up to the font size; the raw string literal starts with a newline. */
  const Head: string :=
    "\n\\documentclass[border=4pt,preview]{standalone}\n\\usepackage{mathtools}\n"
    + "\\usepackage{amsthm}\n\\DeclareMathOperator{\\lcm}{lcm}\n\\fontsize{ "

  /** What opens and closes the math environment around the formula. */
  const BeginAlign: string := "\\begin{align*}\n    "
  const EndAlign: string := "\n    \\end{align*}"

  /** The template between the font size and the formula. */
  const Middle: string := " " + "}{12}\\selectfont\n\\begin{document}\n    " + BeginAlign

  /** The template after the formula. */
  const Tail: string := EndAlign + "\n\\end{document}\n"

  /** The LaTeX source for `formula` typeset at `fontSize` points. */
  function AssembleDocument(fontSize: U32, formula: string): (doc: string)
    ensures EndsWith(doc, Tail) && |doc| >= |Tail| + |formula|
    ensures doc[|doc| - |Tail| - |formula|..|doc| - |Tail|] == formula
    ensures EndsWith(doc[..|doc| - |Tail| - |formula|], BeginAlign)
    ensures doc[|doc| - |Tail|..][..|EndAlign|] == EndAlign
  {
    var before := Head + DecimalDigits(fontSize as nat) + Middle;
    var doc := before + formula + Tail;
    Placement(before, formula, Tail);
    TemplateShape();
    EndsWithAppend(Head + DecimalDigits(fontSize as nat), Middle, BeginAlign);
    doc
  }

  lemma TemplateShape()
    ensures EndsWith(Middle, BeginAlign)
    ensures |Tail| >= |EndAlign| && Tail[..|EndAlign|] == EndAlign
    ensures |Middle| > 0 && !IsDigit(Middle[0])
  {
    assert Middle[0] == ' ';
  }

  /** Where the three parts of `before + middle + after` sit. */
  lemma Placement(before: string, middle: string, after: string)
    ensures var s := before + middle + after;
      && s[..|before|] == before
      && s[|before|..|s| - |after|] == middle
      && s[|s| - |after|..] == after
  {
  }

  lemma EndsWithAppend(a: string, b: string, suffix: string)
    requires EndsWith(b, suffix)
    ensures EndsWith(a + b, suffix)
  {
    assert (a + b)[|a + b| - |suffix|..] == b[|b| - |suffix|..];
  }

  /**
   * Reads back the font size and the formula from a document the template
   * produced; `None` for any text the template cannot have produced.
   */
  function ParseDocument(doc: string): Option<(U32, string)> {
    ParseFilled(doc, Head, Middle, Tail)
  }

  /** Parses `head`, a font size in decimal, `middle`, a formula, and `tail`. */
  function ParseFilled(doc: string, head: string, middle: string, tail: string): Option<(U32, string)> {
    if |doc| < |head| + |tail| || doc[..|head|] != head || doc[|doc| - |tail|..] != tail then None
    else
      var body := doc[|head|..|doc| - |tail|];
      var k := LeadingDigits(body);
      if k == 0 || |body| < k + |middle| || body[k..k + |middle|] != middle then None
      else
        var size := DigitsValue(body[..k]);
        if size < 0x1_0000_0000 then Some((size as U32, body[k + |middle|..])) else None
  }

  lemma FilledRoundTrip(head: string, middle: string, tail: string, fontSize: U32, formula: string)
    requires |middle| > 0 && !IsDigit(middle[0])
    ensures ParseFilled(head + DecimalDigits(fontSize as nat) + middle + formula + tail, head, middle, tail)
         == Some((fontSize, formula))
  {
    var digits := DecimalDigits(fontSize as nat);
    var body := digits + middle + formula;
    var doc := head + digits + middle + formula + tail;
    assert doc == head + body + tail;
    Placement(head, body, tail);
    assert body == digits + (middle + formula);
    LeadingDigitsOfAppend(digits, middle + formula);
    Placement(digits, middle, formula);
    assert body[|digits| + |middle|..] == formula;
    DecimalRoundTrip(fontSize as nat);
  }

  /** The assembled document determines the font size and the formula it was made from. */
  lemma DocumentRoundTrip(fontSize: U32, formula: string)
    ensures ParseDocument(AssembleDocument(fontSize, formula)) == Some((fontSize, formula))
  {
    TemplateShape();
    FilledRoundTrip(Head, Middle, Tail, fontSize, formula);
  }

  /** Different font sizes or formulas never give the same document. */
  lemma AssembleInjective(s1: U32, f1: string, s2: U32, f2: string)
    requires AssembleDocument(s1, f1) == AssembleDocument(s2, f2)
    ensures s1 == s2 && f1 == f2
  {
    DocumentRoundTrip(s1, f1);
    DocumentRoundTrip(s2, f2);
  }
}
