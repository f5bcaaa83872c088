/**
 The editor's footer figures: the content's length, the paragraph count
 and the length of the generated markup. Lengths are what JavaScript's
 String.prototype.length reports, which counts UTF-16 code units: one per
 code point below U+10000, two (a surrogate pair) for the others.
 */
module StatusBar {

  import opened Seqs
  import opened Text
  import opened RichTextEditor
  import opened ParagraphLemmas

  /** UTF-16 code units one code point takes. */
  function Utf16Units(c: char): nat {
    if c as int < 0x1_0000 then 1 else 2
  }

  /** A code point outside the Basic Multilingual Plane, which UTF-16
      stores as a surrogate pair. */
  predicate IsAstral(c: char) {
    c as int >= 0x1_0000
  }

  /** String.prototype.length of a string of code points: one unit per code
      point, so exactly |s| for text without astral code points. */
  function Utf16Length(s: string): (n: nat)
    ensures |s| <= n <= 2 * |s|
    ensures (forall i :: 0 <= i < |s| ==> !IsAstral(s[i])) ==> n == |s|
  {
    if s == [] then 0 else Utf16Units(s[0]) + Utf16Length(s[1..])
  }

  /** The exact count: one unit per code point plus one more for each
      astral code point. */
  lemma {:induction false} Utf16LengthCounts(s: string)
    ensures Utf16Length(s) == |s| + |Filter(IsAstral, s)|
  {
    if s != [] {
      Utf16LengthCounts(s[1..]);
    }
  }

  /** The length equals the number of code points exactly when none of them
      is astral. */
  lemma {:induction false} Utf16LengthIsCodePoints(s: string)
    ensures Utf16Length(s) == |s| <==> forall i :: 0 <= i < |s| ==> !IsAstral(s[i])
  {
    if s != [] {
      Utf16LengthIsCodePoints(s[1..]);
      if forall i :: 0 <= i < |s| - 1 ==> !IsAstral(s[1..][i]) {
        forall i | 0 <= i < |s| && 0 < i ensures !IsAstral(s[i]) {
          assert s[i] == s[1..][i - 1];
        }
      } else {
        var i :| 0 <= i < |s| - 1 && IsAstral(s[1..][i]);
        assert IsAstral(s[i + 1]);
      }
    }
  }

  lemma {:induction false} Utf16LengthAppend(a: string, b: string)
    ensures Utf16Length(a + b) == Utf16Length(a) + Utf16Length(b)
  {
    if a == [] {
      assert a + b == b;
    } else {
      assert (a + b)[0] == a[0];
      assert (a + b)[1..] == a[1..] + b;
      Utf16LengthAppend(a[1..], b);
    }
  }

  /** Sum over the paragraphs of the body's length plus the seven code
      units of `<p>` and `</p>`. */
  function ParagraphUnits(bodies: seq<string>): nat {
    if bodies == [] then 0 else Utf16Length(bodies[0]) + 7 + ParagraphUnits(bodies[1..])
  }

  lemma WrapUnits(body: string)
    ensures Utf16Length(Wrap(body)) == Utf16Length(body) + 7
  {
    Utf16LengthAppend("<p>" + body, "</p>");
    Utf16LengthAppend("<p>", body);
  }

  /** Markup of n >= 1 paragraphs is the paragraphs' units plus n - 1 line
      breaks long. */
  lemma {:induction false} RenderLength(bodies: seq<string>)
    requires bodies != []
    ensures Utf16Length(Render(bodies)) == ParagraphUnits(bodies) + |bodies| - 1
  {
    WrapUnits(bodies[0]);
    if |bodies| > 1 {
      RenderLength(bodies[1..]);
      assert Map(Wrap, bodies)[1..] == Map(Wrap, bodies[1..]);
      assert Render(bodies) == Wrap(bodies[0]) + "\n" + Render(bodies[1..]);
      Utf16LengthAppend(Wrap(bodies[0]), "\n");
      Utf16LengthAppend(Wrap(bodies[0]) + "\n", Render(bodies[1..]));
    }
  }

  /** The footer: characters (content.length), paragraphs (paragraphCount)
      and htmlLength (htmlOutput.length). */
  datatype Status = Status(characters: nat, paragraphs: nat, htmlLength: nat)

  function Footer(content: string): (s: Status)
    ensures s.paragraphs == |Blocks(content)|
    ensures s.htmlLength == 0 <==> s.paragraphs == 0
    ensures s.paragraphs > 0 ==>
      s.htmlLength == ParagraphUnits(Blocks(content)) + s.paragraphs - 1
    ensures |content| <= s.characters <= 2 * |content|
    ensures s.characters == |content| + |Filter(IsAstral, content)|
    ensures s.characters == |content| <==>
      forall i :: 0 <= i < |content| ==> !IsAstral(content[i])
  {
    var html := ConvertToHtml(content);
    Utf16LengthCounts(content);
    Utf16LengthIsCodePoints(content);
    CountMatchesParagraphs(content);
    EarlyExitIsRedundant(content);
    if Blocks(content) != [] then
      RenderLength(Blocks(content));
      Status(Utf16Length(content), ParagraphCount(content), Utf16Length(html))
    else
      Status(Utf16Length(content), ParagraphCount(content), Utf16Length(html))
  }
}
