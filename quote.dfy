/** The blockquote handler: a run of `>` lines becomes one formatted
    paragraph inside a blockquote. */
module Quotes {
  import opened Text
  import opened Inline
  import opened Lines

  /** The first line at or after `from` that is not a quote line, or `|lines|`. */
  function QuoteEnd(lines: seq<string>, from: nat): (k: nat)
    decreases |lines| - from
    ensures from <= k
    ensures from <= |lines| ==> k <= |lines|
    ensures from > |lines| ==> k == from
    ensures forall m | from <= m < k :: m < |lines| && IsQuote(lines[m])
    ensures k < |lines| ==> !IsQuote(lines[k])
  {
    if from >= |lines| || !IsQuote(lines[from]) then from else QuoteEnd(lines, from + 1)
  }

  /** The quote texts of a run of lines. */
  function QuoteTexts(run: seq<string>): (r: seq<string>)
    ensures |r| == |run|
    ensures forall k | 0 <= k < |run| :: r[k] == QuoteText(run[k])
  {
    seq(|run|, k requires 0 <= k < |run| => QuoteText(run[k]))
  }

  function QuoteBlock(texts: seq<string>): string {
    "<blockquote><p>" + ConvertInline(Join(texts, " ")) + "</p></blockquote>"
  }

  /** The quote texts of the run starting at `start`. */
  function QuoteRun(lines: seq<string>, start: nat): seq<string> {
    if start < |lines| then QuoteTexts(lines[start..QuoteEnd(lines, start)]) else []
  }

  lemma QuoteEndAt(lines: seq<string>, from: nat, k: nat)
    requires from <= k <= |lines|
    requires k < |lines| ==> !IsQuote(lines[k])
    requires forall m | from <= m < k :: IsQuote(lines[m])
    ensures QuoteEnd(lines, from) == k
  {
  }

  /** `_process_blockquote`. */
  method ProcessBlockquote(lines: seq<string>, start: nat) returns (next: nat, text: string)
    ensures next == QuoteEnd(lines, start)
    ensures text == QuoteBlock(QuoteRun(lines, start))
  {
    var quoteLines: seq<string> := [];
    var i := start;
    while i < |lines| && IsQuote(lines[i])
      invariant start <= i
      invariant i > start ==> i <= |lines|
      invariant forall m | start <= m < i :: IsQuote(lines[m])
      invariant i > start ==> quoteLines == QuoteTexts(lines[start..i])
      invariant i == start ==> quoteLines == []
    {
      quoteLines := quoteLines + [QuoteText(lines[i])];
      i := i + 1;
    }
    if start < |lines| {
      QuoteEndAt(lines, start, i);
      if i == start {
        assert lines[start..i] == [];
      }
    }
    next := i;
    text := "<blockquote><p>" + ConvertInline(Join(quoteLines, " ")) + "</p></blockquote>";
  }

  /** The handler consumes the maximal run of quote lines, at least one
      when the first line is a quote line. */
  lemma QuoteProgress(lines: seq<string>, start: nat)
    requires start < |lines| && IsQuote(lines[start])
    ensures start < QuoteEnd(lines, start) <= |lines|
    ensures |QuoteRun(lines, start)| == QuoteEnd(lines, start) - start
  {
  }

  /** Each quote line loses its `>` and at most one whitespace character
      (so `> ` followed by indented text keeps the indentation), and the
      run is formatted once as a single line joined by spaces. */
  lemma QuoteTwoLines(a: string, b: string)
    requires |b| == 0 || !IsSpace(b[0])
    ensures QuoteBlock(QuoteTexts(["> " + a, ">" + b])) == QuoteBlock([a, b])
    ensures Join([a, b], " ") == a + " " + b
  {
    assert ("> " + a)[2..] == a;
    assert (">" + b)[1..] == b;
    assert QuoteTexts(["> " + a, ">" + b]) == [a, b];
  }
}
