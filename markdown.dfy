/** `MarkdownBuilder`: phrases that format one piece of text, lines made of phrases, and
    a builder that collects lines and renders them one after another. */
module Markdown {

  /** The phrase classes; each formats its text in its own way. */
  datatype Phrase =
    | Heading(phrase: string)
    | Subheading(phrase: string)
    | BoldPhrase(phrase: string)
    | ItalicsPhrase(phrase: string)
    | MonospacePhrase(phrase: string)
    | HorizontalRule

  lemma AppendAssociative<T>(a: seq<T>, b: seq<T>, c: seq<T>)
    ensures a + (b + c) == (a + b) + c
  {
  }

  /** `'=' * n`. */
  function Underline(n: nat): string {
    seq(n, _ => '=')
  }

  /** `str(phrase)`. No phrase renders as the empty string. */
  function PhraseText(p: Phrase): (r: string)
    ensures |r| > 0
  {
    match p
    case Heading(s) => s + "\n" + Underline(|s|) + "\n"
    case Subheading(s) => "## " + s
    case BoldPhrase(s) => "**" + s + "**"
    case ItalicsPhrase(s) => "_" + s + "_"
    case MonospacePhrase(s) => "`" + s + "`"
    case HorizontalRule => "\n---\n"
  }

  /** A heading is its text on one line and, on the next, as many '=' as it has
      characters. */
  lemma HeadingUnderlined(s: string)
    ensures var t := PhraseText(Heading(s));
            |t| == 2 * |s| + 2 && t[..|s|] == s && t[|s|] == '\n' && t[2 * |s| + 1] == '\n'
            && forall i :: |s| < i <= 2 * |s| ==> t[i] == '='
  {
    var t := PhraseText(Heading(s));
    assert t == s + ("\n" + Underline(|s|) + "\n");
    forall i | |s| < i <= 2 * |s|
      ensures t[i] == '='
    {
      assert t[i] == Underline(|s|)[i - |s| - 1];
    }
  }

  /** A line of phrases. */
  datatype Line = Line(phrases: seq<Phrase>)

  /** What the loop of `Line.__str__` builds from `phrases`: each phrase appended, with a
      space before it once the text is not empty. */
  function Joined(phrases: seq<Phrase>): string {
    if phrases == [] then ""
    else
      var r := Joined(phrases[..|phrases| - 1]);
      r + (if |r| > 0 then " " else "") + PhraseText(phrases[|phrases| - 1])
  }

  /** `str(line)`: the joined phrases and a line break. */
  function LineText(line: Line): string {
    Joined(line.phrases) + "\n"
  }

  /** The phrases separated by single spaces. */
  function SpaceSeparated(phrases: seq<Phrase>): string {
    if phrases == [] then ""
    else if |phrases| == 1 then PhraseText(phrases[0])
    else PhraseText(phrases[0]) + " " + SpaceSeparated(phrases[1..])
  }

  lemma {:induction false} SpaceSeparatedSnoc(phrases: seq<Phrase>, p: Phrase)
    requires phrases != []
    ensures SpaceSeparated(phrases + [p]) == SpaceSeparated(phrases) + " " + PhraseText(p)
  {
    var head := PhraseText(phrases[0]) + " ";
    var rest := (phrases + [p])[1..];
    assert SpaceSeparated(phrases + [p]) == head + SpaceSeparated(rest);
    if |phrases| > 1 {
      assert rest == phrases[1..] + [p];
      SpaceSeparatedSnoc(phrases[1..], p);
      AppendAssociative(head, SpaceSeparated(phrases[1..]) + " ", PhraseText(p));
      AppendAssociative(head, SpaceSeparated(phrases[1..]), " ");
    } else {
      assert rest == [p];
    }
  }

  lemma JoinedNonEmpty(phrases: seq<Phrase>)
    requires phrases != []
    ensures |Joined(phrases)| > 0
  {
  }

  /** Because no phrase renders empty, testing the text built so far for emptiness is
      the same as separating the phrases by single spaces. */
  lemma {:induction false} JoinedIsSpaceSeparated(phrases: seq<Phrase>)
    ensures Joined(phrases) == SpaceSeparated(phrases)
  {
    if |phrases| > 1 {
      var init, last := phrases[..|phrases| - 1], phrases[|phrases| - 1];
      JoinedIsSpaceSeparated(init);
      JoinedNonEmpty(init);
      assert Joined(phrases) == Joined(init) + " " + PhraseText(last);
      assert phrases == init + [last];
      SpaceSeparatedSnoc(init, last);
    }
  }

  /** `Line.__str__`. */
  method RenderLine(line: Line) returns (text: string)
    ensures text == LineText(line)
  {
    var result := "";
    for i := 0 to |line.phrases|
      invariant result == Joined(line.phrases[..i])
    {
      result := result + (if |result| > 0 then " " else "") + PhraseText(line.phrases[i]);
      assert line.phrases[..i + 1][..i] == line.phrases[..i];
    }
    assert line.phrases[..|line.phrases|] == line.phrases;
    text := result + "\n";
  }

  /** The lines rendered one after another. */
  function Render(lines: seq<Line>): string {
    if lines == [] then "" else Render(lines[..|lines| - 1]) + LineText(lines[|lines| - 1])
  }

  /** Rendering distributes over putting lines one after another. */
  lemma {:induction false} RenderAppend(a: seq<Line>, b: seq<Line>)
    ensures Render(a + b) == Render(a) + Render(b)
  {
    if b != [] {
      var init, last := b[..|b| - 1], b[|b| - 1];
      assert (a + b)[..|a + b| - 1] == a + init;
      RenderAppend(a, init);
      assert Render(a + b) == Render(a + init) + LineText(last);
      AppendAssociative(Render(a), Render(init), LineText(last));
    } else {
      assert a + b == a;
    }
  }

  lemma RenderSingle(line: Line)
    ensures Render([line]) == LineText(line)
  {
    assert [line][..0] == [];
  }

  lemma JoinedSingle(p: Phrase)
    ensures Joined([p]) == PhraseText(p)
  {
    assert [p][..0] == [];
  }

  /** The builder: the lines added so far. */
  class MarkdownBuilder {
    var lines: seq<Line>

    constructor()
      ensures lines == []
    {
      lines := [];
    }

    /** `addLine`. */
    method AddLine(line: Line)
      modifies this
      ensures lines == old(lines) + [line]
    {
      lines := lines + [line];
    }

    /** `__str__`: every line rendered, in the order they were added. */
    method ToText() returns (result: string)
      ensures result == Render(lines)
    {
      result := "";
      for i := 0 to |lines|
        invariant result == Render(lines[..i])
      {
        var text := RenderLine(lines[i]);
        result := result + text;
        assert lines[..i + 1][..i] == lines[..i];
      }
      assert lines[..|lines|] == lines;
    }
  }
}
