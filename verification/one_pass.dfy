/**
 An independent, single-pass formulation of convertToHtml: one scan over
 the characters that collects the current line and appends its paragraph
 at every line break, proved to agree with the split/trim/filter/wrap/join
 chain (early exit included) on every input.
 */
module OnePass {

  import opened Seqs
  import opened Text
  import opened RichTextEditor
  import opened ParagraphLemmas

  /** Adds the paragraph of one finished line to the markup built so far;
      a line that trims to nothing adds nothing. */
  function AppendLine(html: string, line: string): string {
    var body := Trim(line);
    if body == "" then html
    else if html == "" then Wrap(body)
    else html + "\n" + Wrap(body)
  }

  /** One more line extends the rendered markup the way AppendLine does. */
  lemma RenderSnoc(lines: seq<string>, line: string)
    ensures Render(Bodies(lines + [line])) == AppendLine(Render(Bodies(lines)), line)
  {
    var bs := Bodies(lines);
    BodiesAppend(lines, [line]);
    var extra := Bodies([line]);
    assert extra == if Trim(line) != "" then [Trim(line)] else [];
    MapAppend(Wrap, bs, extra);
    JoinAppend(Map(Wrap, bs), Map(Wrap, extra), "\n");
    RenderEmptyIff(bs);
  }

  method ConvertInOnePass(text: string) returns (html: string)
    ensures html == ConvertToHtml(text)
  {
    html := "";
    var line := "";
    ghost var done: seq<string> := [];
    for i := 0 to |text|
      invariant Split(text[..i], '\n') == done + [line]
      invariant html == Render(Bodies(done))
    {
      assert text[..i + 1] == text[..i] + [text[i]];
      if text[i] == '\n' {
        SplitSnocSep(text[..i], '\n');
        RenderSnoc(done, line);
        html := AppendLine(html, line);
        done := done + [line];
        line := "";
      } else {
        SplitSnoc(text[..i], '\n', text[i]);
        assert ExtendLast(done + [line], text[i]) == done + [line + [text[i]]];
        line := line + [text[i]];
      }
    }
    RenderSnoc(done, line);
    html := AppendLine(html, line);
    assert text[..|text|] == text;
    EarlyExitIsRedundant(text);
  }
}
