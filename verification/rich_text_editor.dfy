/**
 The text-to-paragraph converter of the RichTextEditor component and the
 paragraph counter it shows beside it, as pure functions of the editor's
 content string.
 */
module RichTextEditor {

  import opened Seqs
  import opened Text

  /** JavaScript's Boolean(s) on a string: every string but "" is truthy. */
  predicate IsTruthy(s: string) {
    s != ""
  }

  /** The counter's filter callback `p => p.trim()`. */
  predicate NonBlank(line: string) {
    IsTruthy(Trim(line))
  }

  /** The template literal `<p>${line}</p>`: the line goes in verbatim. */
  function Wrap(line: string): string {
    "<p>" + line + "</p>"
  }

  /** The content's '\n'-separated pieces. */
  function Lines(text: string): seq<string> {
    Split(text, '\n')
  }

  /** The paragraph bodies a list of lines yields: each line trimmed,
      the empty ones dropped. */
  function Bodies(lines: seq<string>): seq<string> {
    Filter(IsTruthy, Map(Trim, lines))
  }

  /** The paragraph bodies of the content, in line order. */
  function Blocks(text: string): seq<string> {
    Bodies(Lines(text))
  }

  /** The markup for a list of paragraph bodies. */
  function Render(bodies: seq<string>): string {
    Join(Map(Wrap, bodies), "\n")
  }

  /** convertToHtml: blank content gives "", anything else is split on
      '\n', trimmed line by line, filtered with Boolean, wrapped in <p> and
      joined with '\n'. */
  function ConvertToHtml(text: string): string {
    if !IsTruthy(Trim(text)) then ""
    else Join(Map(Wrap, Filter(IsTruthy, Map(Trim, Split(text, '\n')))), "\n")
  }

  /** The paragraphCount figure: 0 for blank content, otherwise the number
      of '\n'-separated pieces whose trim is non-empty. */
  function ParagraphCount(content: string): nat {
    if IsTruthy(Trim(content)) then |Filter(NonBlank, Split(content, '\n'))| else 0
  }
}
