/**
 A reader for the converter's output: it takes markup made of `<p>…</p>`
 lines joined by '\n' back to the list of paragraph bodies. Reading the
 converter's output gives back exactly the paragraphs it was built from,
 which pins down that the output is one verbatim paragraph per surviving
 line and nothing else.
 */
module HtmlReader {

  import opened Seqs
  import opened Text
  import opened RichTextEditor
  import opened ParagraphLemmas

  /** A parsed value, or None when the input has another shape. */
  datatype Option<+T> = None | Some(value: T)

  /** The body of one `<p>…</p>` line, or None when the line has another shape. */
  function Unwrap(line: string): (r: Option<string>)
    ensures r.Some? ==> Wrap(r.value) == line
    ensures r.None? ==> forall body :: Wrap(body) != line
  {
    if |line| >= 7 && line[..3] == "<p>" && line[|line| - 4..] == "</p>" then
      assert line == line[..3] + line[3..|line| - 4] + line[|line| - 4..];
      Some(line[3..|line| - 4])
    else
      assert forall body :: |Wrap(body)| >= 7 && Wrap(body)[..3] == "<p>";
      assert forall body :: Wrap(body)[|Wrap(body)| - 4..] == "</p>";
      None
  }

  /** The bodies of a list of `<p>…</p>` lines, or None if any line has
      another shape. */
  function UnwrapAll(lines: seq<string>): (r: Option<seq<string>>)
    ensures r.Some? ==> Map(Wrap, r.value) == lines
  {
    if lines == [] then Some([])
    else
      match (Unwrap(lines[0]), UnwrapAll(lines[1..]))
      case (Some(body), Some(rest)) => Some([body] + rest)
      case _ => None
  }

  /** Reads markup back into paragraph bodies: "" holds none, anything else
      must be '\n'-separated `<p>…</p>` lines. */
  function ParseParagraphs(html: string): (r: Option<seq<string>>)
    ensures r.Some? ==> Render(r.value) == html
  {
    if html == "" then Some([])
    else
      var r := UnwrapAll(Split(html, '\n'));
      if r.Some? then
        JoinSplit(html, '\n');
        r
      else r
  }

  lemma UnwrapWrap(body: string)
    ensures Unwrap(Wrap(body)) == Some(body)
  {
    WrapShape(body);
  }

  lemma {:induction false} UnwrapAllWrap(bodies: seq<string>)
    ensures UnwrapAll(Map(Wrap, bodies)) == Some(bodies)
  {
    if bodies != [] {
      UnwrapWrap(bodies[0]);
      UnwrapAllWrap(bodies[1..]);
      assert Map(Wrap, bodies)[1..] == Map(Wrap, bodies[1..]);
      assert [bodies[0]] + bodies[1..] == bodies;
    }
  }

  /** Reading the converter's output gives back its paragraphs, in order. */
  lemma ReadBack(text: string)
    ensures ParseParagraphs(ConvertToHtml(text)) == Some(Blocks(text))
  {
    EarlyExitIsRedundant(text);
    RenderEmptyIff(Blocks(text));
    if Blocks(text) != [] {
      OutputLinesAreParagraphs(text);
      UnwrapAllWrap(Blocks(text));
    }
  }
}
