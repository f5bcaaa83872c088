/**
 What convertToHtml and paragraphCount promise: the early exit agrees with
 the general path, paragraphs follow the lines in order and verbatim, no
 paragraph is empty or untrimmed, the counter matches the paragraphs,
 whitespace-only lines change nothing, and converting a concatenation at a
 line boundary joins the two conversions.
 */
module ParagraphLemmas {

  import opened Seqs
  import opened Text
  import opened RichTextEditor

  /** Wrapping adds seven characters around the body and never a line break. */
  lemma WrapShape(body: string)
    ensures |Wrap(body)| == |body| + 7
    ensures Wrap(body)[0] == '<' && Wrap(body)[|Wrap(body)| - 1] == '>'
    ensures Wrap(body)[3..|Wrap(body)| - 4] == body
    ensures '\n' in Wrap(body) <==> '\n' in body
  {
    var w := Wrap(body);
    if '\n' in w {
      var i :| 0 <= i < |w| && w[i] == '\n';
      assert 3 <= i < |w| - 4;
      assert body[i - 3] == '\n';
    }
    if '\n' in body {
      var i :| 0 <= i < |body| && body[i] == '\n';
      assert w[i + 3] == '\n';
    }
  }

  lemma BodiesAppend(a: seq<string>, b: seq<string>)
    ensures Bodies(a + b) == Bodies(a) + Bodies(b)
  {
    MapAppend(Trim, a, b);
    FilterAppend(IsTruthy, Map(Trim, a), Map(Trim, b));
  }

  lemma BodiesAfterBlank(blank: seq<string>, lines: seq<string>)
    requires Bodies(blank) == []
    ensures Bodies(blank + lines) == Bodies(lines)
  {
    BodiesAppend(blank, lines);
  }

  lemma BodiesBeforeBlank(lines: seq<string>, blank: seq<string>)
    requires Bodies(blank) == []
    ensures Bodies(lines + blank) == Bodies(lines)
  {
    BodiesAppend(lines, blank);
  }

  /** The first line's paragraph, if any, followed by the rest's. */
  lemma BodiesCons(lines: seq<string>)
    requires lines != []
    ensures Bodies(lines) ==
      (if IsTruthy(Trim(lines[0])) then [Trim(lines[0])] else []) + Bodies(lines[1..])
  {
    assert lines == [lines[0]] + lines[1..];
    BodiesAppend([lines[0]], lines[1..]);
  }

  /** Every line is whitespace only. */
  predicate AllBlank(lines: seq<string>) {
    forall k :: 0 <= k < |lines| ==> AllWs(lines[k])
  }

  lemma AllBlankCons(lines: seq<string>)
    requires lines != []
    ensures AllBlank(lines) <==> AllWs(lines[0]) && AllBlank(lines[1..])
  {
    if AllWs(lines[0]) && AllBlank(lines[1..]) {
      forall k | 0 <= k < |lines| ensures AllWs(lines[k]) {
        if k > 0 {
          assert lines[k] == lines[1..][k - 1];
        }
      }
    }
  }

  /** A list of lines yields no paragraph exactly when every line is
      whitespace only. */
  lemma {:induction false} BodiesEmptyIff(lines: seq<string>)
    ensures Bodies(lines) == [] <==> AllBlank(lines)
  {
    if lines != [] {
      BodiesEmptyIff(lines[1..]);
      BodiesCons(lines);
      AllBlankCons(lines);
    }
  }

  /** The content is whitespace only exactly when it yields no paragraph. */
  lemma BlankIffNoBlocks(text: string)
    ensures AllWs(text) <==> Blocks(text) == []
  {
    var lines := Lines(text);
    BodiesEmptyIff(lines);
    if AllWs(text) {
      SplitAllWs(text, '\n');
    }
    if Blocks(text) == [] {
      JoinSplit(text, '\n');
      assert AllWs("\n");
      AllWsJoin(lines, "\n");
    }
  }

  /** The markup of a list of bodies is empty exactly when the list is. */
  lemma RenderEmptyIff(bodies: seq<string>)
    ensures Render(bodies) == "" <==> bodies == []
  {
    if bodies != [] {
      JoinEnds(Map(Wrap, bodies), "\n");
      WrapShape(bodies[0]);
    }
  }

  /** The early exit on blank content returns what the general
      split/trim/filter/wrap/join path would return anyway, and the result
      is empty exactly when the content is whitespace only. */
  lemma EarlyExitIsRedundant(text: string)
    ensures ConvertToHtml(text) == Render(Blocks(text))
    ensures ConvertToHtml(text) == "" <==> AllWs(text)
  {
    BlankIffNoBlocks(text);
    RenderEmptyIff(Blocks(text));
  }

  lemma {:induction false} NonBlankCount(lines: seq<string>)
    ensures |Filter(NonBlank, lines)| == |Bodies(lines)|
  {
    if lines != [] {
      NonBlankCount(lines[1..]);
      assert Map(Trim, lines)[1..] == Map(Trim, lines[1..]);
    }
  }

  /** paragraphCount is the number of paragraphs convertToHtml emits, so the
      markup is empty exactly when the counter is zero. */
  lemma CountMatchesParagraphs(content: string)
    ensures ParagraphCount(content) == |Blocks(content)|
    ensures ConvertToHtml(content) == "" <==> ParagraphCount(content) == 0
  {
    NonBlankCount(Lines(content));
    BlankIffNoBlocks(content);
    EarlyExitIsRedundant(content);
  }

  /** Every paragraph body is non-empty, already trimmed, has no whitespace
      at either end and holds no line break. */
  lemma BlocksAreTrimmedNonEmpty(text: string)
    ensures forall k :: 0 <= k < |Blocks(text)| ==>
      var b := Blocks(text)[k];
      b != "" && Trim(b) == b && !IsWs(b[0]) && !IsWs(b[|b| - 1]) && '\n' !in b
  {
    var lines := Lines(text);
    var idx := FilterIndices(IsTruthy, Map(Trim, lines));
    forall k | 0 <= k < |Blocks(text)|
      ensures var b := Blocks(text)[k];
        b != "" && Trim(b) == b && !IsWs(b[0]) && !IsWs(b[|b| - 1]) && '\n' !in b
    {
      TrimmedLineShape(lines[idx[k]]);
    }
  }

  lemma TrimmedLineShape(line: string)
    requires '\n' !in line
    requires Trim(line) != ""
    ensures var b := Trim(line);
      Trim(b) == b && !IsWs(b[0]) && !IsWs(b[|b| - 1]) && '\n' !in b
  {
    var b := Trim(line);
    var i := TrimSlice(line);
    assert b == line[i..i + |b|];
    TrimIdempotent(line);
  }

  /** Paragraphs follow the lines in order and verbatim: paragraph k is the
      trim of line idx[k], the positions strictly increase (no reordering),
      and every line whose trim is non-empty has a paragraph (no
      deduplication, nothing else dropped). */
  lemma BlocksFollowLines(text: string) returns (idx: seq<nat>)
    ensures |idx| == |Blocks(text)|
    ensures forall k :: 0 <= k < |idx| ==>
      idx[k] < |Lines(text)| && Blocks(text)[k] == Trim(Lines(text)[idx[k]])
    ensures forall k, m :: 0 <= k < m < |idx| ==> idx[k] < idx[m]
    ensures forall j :: 0 <= j < |Lines(text)| && NonBlank(Lines(text)[j]) ==> j in idx
  {
    idx := FilterIndices(IsTruthy, Map(Trim, Lines(text)));
  }

  /** No escaping: a single line comes out as `<p>`, its trimmed text
      character for character (markup characters included), and `</p>`. */
  lemma SingleLineVerbatim(line: string)
    requires '\n' !in line
    ensures ConvertToHtml(line) == if AllWs(line) then "" else "<p>" + Trim(line) + "</p>"
  {
    SplitWithoutSep(line, '\n');
    EarlyExitIsRedundant(line);
    assert Bodies([line]) == if Trim(line) != "" then [Trim(line)] else [];
  }

  /** Non-empty markup starts with '<' and ends with '>', so it never
      begins or ends with a line break. */
  lemma OutputEnds(text: string)
    ensures var h := ConvertToHtml(text);
      h != "" ==> h[0] == '<' && h[|h| - 1] == '>'
  {
    EarlyExitIsRedundant(text);
    var bs := Blocks(text);
    if bs != [] {
      var parts := Map(Wrap, bs);
      JoinEnds(parts, "\n");
      WrapShape(bs[0]);
      WrapShape(bs[|bs| - 1]);
      assert parts[|parts| - 1] == Wrap(bs[|bs| - 1]);
    }
  }

  /** The markup has one line per paragraph: its '\n'-separated pieces are
      exactly the wrapped bodies, so no line is the empty paragraph. */
  lemma OutputLinesAreParagraphs(text: string)
    requires Blocks(text) != []
    ensures Split(ConvertToHtml(text), '\n') == Map(Wrap, Blocks(text))
    ensures forall l :: l in Split(ConvertToHtml(text), '\n') ==> l != "<p></p>"
  {
    EarlyExitIsRedundant(text);
    BlocksAreTrimmedNonEmpty(text);
    var bs := Blocks(text);
    var parts := Map(Wrap, bs);
    forall k | 0 <= k < |parts| ensures '\n' !in parts[k] && parts[k] != "<p></p>" {
      WrapShape(bs[k]);
      assert |parts[k]| > 7;
    }
    SplitJoin(parts, '\n');
  }

  /** Blocks of content that has a whitespace-only line between two
      line breaks: that line contributes nothing. */
  lemma BlocksIgnoreBlankLine(a: string, w: string, b: string)
    requires AllWs(w)
    ensures Blocks(a + "\n" + w + "\n" + b) == Blocks(a + "\n" + b)
  {
    var la, lw, lb := Split(a, '\n'), Split(w, '\n'), Split(b, '\n');
    assert Bodies(lw) == [] by {
      SplitAllWs(w, '\n');
      BodiesEmptyIff(lw);
    }
    calc {
      Blocks(a + "\n" + w + "\n" + b);
      { assert a + "\n" + w + "\n" + b == a + "\n" + (w + "\n" + b); }
      Bodies(Split(a + "\n" + (w + "\n" + b), '\n'));
      { SplitConcat(a, '\n', w + "\n" + b); }
      Bodies(la + Split(w + "\n" + b, '\n'));
      { SplitConcat(w, '\n', b); }
      Bodies(la + (lw + lb));
      { BodiesAppend(la, lw + lb); }
      Bodies(la) + Bodies(lw + lb);
      { BodiesAfterBlank(lw, lb); }
      Bodies(la) + Bodies(lb);
      { BodiesAppend(la, lb); }
      Bodies(la + lb);
      { SplitConcat(a, '\n', b); }
      Blocks(a + "\n" + b);
    }
  }

  /** Inserting (or, read backwards, removing) a whitespace-only line
      between two lines changes neither the markup nor the counter. */
  lemma BlankLineIgnored(a: string, w: string, b: string)
    requires AllWs(w)
    ensures ConvertToHtml(a + "\n" + w + "\n" + b) == ConvertToHtml(a + "\n" + b)
    ensures ParagraphCount(a + "\n" + w + "\n" + b) == ParagraphCount(a + "\n" + b)
  {
    BlocksIgnoreBlankLine(a, w, b);
    EarlyExitIsRedundant(a + "\n" + w + "\n" + b);
    EarlyExitIsRedundant(a + "\n" + b);
    CountMatchesParagraphs(a + "\n" + w + "\n" + b);
    CountMatchesParagraphs(a + "\n" + b);
  }

  /** A whitespace-only first line changes nothing. */
  lemma BlankFirstLineIgnored(w: string, b: string)
    requires AllWs(w)
    ensures ConvertToHtml(w + "\n" + b) == ConvertToHtml(b)
    ensures ParagraphCount(w + "\n" + b) == ParagraphCount(b)
  {
    var lw, lb := Split(w, '\n'), Split(b, '\n');
    assert Bodies(lw) == [] by {
      SplitAllWs(w, '\n');
      BodiesEmptyIff(lw);
    }
    assert Blocks(w + "\n" + b) == Blocks(b) by {
      calc {
        Blocks(w + "\n" + b);
        { assert w + "\n" + b == w + ['\n'] + b; SplitConcat(w, '\n', b); }
        Bodies(lw + lb);
        { BodiesAppend(lw, lb); }
        Blocks(b);
      }
    }
    EarlyExitIsRedundant(w + "\n" + b);
    EarlyExitIsRedundant(b);
    CountMatchesParagraphs(w + "\n" + b);
    CountMatchesParagraphs(b);
  }

  /** A whitespace-only last line changes nothing. */
  lemma BlankLastLineIgnored(a: string, w: string)
    requires AllWs(w)
    ensures ConvertToHtml(a + "\n" + w) == ConvertToHtml(a)
    ensures ParagraphCount(a + "\n" + w) == ParagraphCount(a)
  {
    var la, lw := Split(a, '\n'), Split(w, '\n');
    assert Bodies(lw) == [] by {
      SplitAllWs(w, '\n');
      BodiesEmptyIff(lw);
    }
    assert Blocks(a + "\n" + w) == Blocks(a) by {
      calc {
        Blocks(a + "\n" + w);
        { assert a + "\n" + w == a + ['\n'] + w; SplitConcat(a, '\n', w); }
        Bodies(la + lw);
        { BodiesAppend(la, lw); }
        Blocks(a);
      }
    }
    EarlyExitIsRedundant(a + "\n" + w);
    EarlyExitIsRedundant(a);
    CountMatchesParagraphs(a + "\n" + w);
    CountMatchesParagraphs(a);
  }

  /** When a ends with a line break, the lines of a + b are those of a
      followed by those of b, so the paragraphs are too. */
  lemma BlocksConcat(a: string, b: string)
    requires |a| > 0 && a[|a| - 1] == '\n'
    ensures Blocks(a + b) == Blocks(a) + Blocks(b)
  {
    var a' := a[..|a| - 1];
    assert a == a' + "\n";
    assert a + b == a' + "\n" + b;
    var la, lb := Split(a', '\n'), Split(b, '\n');
    assert Blocks(a) == Bodies(la) by {
      SplitSnocSep(a', '\n');
      assert Bodies([[]]) == [];
      BodiesBeforeBlank(la, [[]]);
    }
    calc {
      Blocks(a + b);
      Bodies(Split(a' + "\n" + b, '\n'));
      { SplitConcat(a', '\n', b); }
      Bodies(la + lb);
      { BodiesAppend(la, lb); }
      Blocks(a) + Blocks(b);
    }
  }

  lemma RenderAppend(x: seq<string>, y: seq<string>)
    ensures Render(x + y) == Join(Filter(IsTruthy, [Render(x), Render(y)]), "\n")
  {
    MapAppend(Wrap, x, y);
    JoinAppend(Map(Wrap, x), Map(Wrap, y), "\n");
    RenderEmptyIff(x);
    RenderEmptyIff(y);
    assert [Render(x), Render(y)][1..] == [Render(y)];
  }

  /** Converting content glued at a line boundary: the markup is the
      '\n'-join of the two conversions with the empty ones left out, and
      the counters add up. */
  lemma ConvertConcat(a: string, b: string)
    requires |a| > 0 && a[|a| - 1] == '\n'
    ensures ConvertToHtml(a + b) ==
      Join(Filter(IsTruthy, [ConvertToHtml(a), ConvertToHtml(b)]), "\n")
    ensures ParagraphCount(a + b) == ParagraphCount(a) + ParagraphCount(b)
  {
    BlocksConcat(a, b);
    RenderAppend(Blocks(a), Blocks(b));
    EarlyExitIsRedundant(a + b);
    EarlyExitIsRedundant(a);
    EarlyExitIsRedundant(b);
    CountMatchesParagraphs(a + b);
    CountMatchesParagraphs(a);
    CountMatchesParagraphs(b);
  }
}
