/** The two single-line renderers: headings and paragraphs. */
module LineBlocks {
  import opened Text
  import opened Inline
  import opened Lines

  /** The heading tag for a level between 1 and 6. */
  function HeadingTag(level: nat, content: string): (r: string)
    requires 1 <= level <= 6
  {
    var d := ['0' + level as char];
    "<h" + d + ">" + content + "</h" + d + ">"
  }

  /** `_convert_heading`: a matching line becomes a heading of its level
      with inline formatting; any other line is returned as it is. */
  function Heading(line: string): (r: string)
  {
    match HeadingMatch(line)
    case Some((n, t)) => HeadingTag(n, ConvertInline(t))
    case None => line
  }

  /** A line of `n` hashes (1 to 6), whitespace and text is a heading of
      level exactly `n`. Its content is the formatted text after the hashes
      and the whole whitespace run; when only whitespace follows the hashes,
      `\s+` gives back its last character, which becomes the content. */
  lemma HeadingLevel(line: string, n: nat)
    requires HeadingShape(line, n)
    ensures var w := LeadingSpaces(line[n..]);
      Heading(line) == HeadingTag(n, ConvertInline(if n + w < |line| then line[n + w..] else line[|line| - 1..]))
  {
    HeadingCapture(line, n);
  }

  /** Any other line is returned unchanged: not wrapped in a paragraph and
      not escaped. */
  lemma HeadingRaw(line: string)
    requires forall n: nat :: !HeadingShape(line, n)
    ensures Heading(line) == line
  {
    HeadingMatchShape(line);
  }

  /** In particular seven or more hashes never make a heading. */
  lemma SevenHashesRaw(line: string)
    requires |line| >= 7 && forall k | 0 <= k < 7 :: line[k] == '#'
    ensures Heading(line) == line
  {
    assert forall n: nat :: !HeadingShape(line, n);
    HeadingRaw(line);
  }

  /** `_convert_paragraph`. */
  function Paragraph(text: string): string {
    "<p>" + ConvertInline(text) + "</p>"
  }

  /** Text without markup or special characters is wrapped as it is. */
  lemma ParagraphPlain(text: string)
    requires forall k | 0 <= k < |text| :: !IsMarkupChar(text[k])
    ensures Paragraph(text) == "<p>" + text + "</p>"
  {
    PlainTextUnchanged(text);
  }
}
