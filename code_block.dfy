/** The fenced code block handler: everything up to the next fence is kept
    verbatim inside a CDATA section of a `code` macro. */
module CodeBlocks {
  import opened Text
  import opened Inline
  import opened Cdata
  import opened Lines

  /** The first fence at or after `from`, or `|lines|` when there is none. */
  function FenceAfter(lines: seq<string>, from: nat): (k: nat)
    requires from <= |lines|
    decreases |lines| - from
    ensures from <= k <= |lines|
    ensures forall m | from <= m < k :: !IsFence(lines[m])
    ensures k < |lines| ==> IsFence(lines[k])
  {
    if from == |lines| || IsFence(lines[from]) then from else FenceAfter(lines, from + 1)
  }

  /** Python's `s[n:]`, which is empty when `s` is shorter than `n`. */
  function Drop(s: string, n: nat): (r: string)
    ensures |s| >= n ==> r == s[n..]
    ensures |s| < n ==> r == []
  {
    if |s| >= n then s[n..] else []
  }

  /** The language named after the opening backticks, or `none`. */
  function Language(opener: string): (l: string)
    ensures |l| > 0
    ensures Strip(Drop(Strip(opener), 3)) != [] ==> l == Strip(Drop(Strip(opener), 3))
    ensures Strip(Drop(Strip(opener), 3)) == [] ==> l == "none"
  {
    var named := Strip(Drop(Strip(opener), 3));
    if named == [] then "none" else named
  }

  const MacroHead: string := "<ac:structured-macro ac:name=\"code\">\n<ac:parameter ac:name=\"language\">"
  const BodyOpen: string := "</ac:parameter>\n<ac:plain-text-body><![CDATA["
  const MacroTail: string := "]]></ac:plain-text-body>\n</ac:structured-macro>"

  /** The `code` macro holding an escaped language and an escaped body. */
  function CodeMacro(language: string, body: string): string {
    MacroHead + Escape(language) + BodyOpen + Esc(body) + MacroTail
  }

  /** Where the block opened at `start` ends: one past the closing fence,
      or the end of the input when the fence is never closed. */
  function CodeEnd(lines: seq<string>, start: nat): (next: nat)
    requires start < |lines|
    ensures start < next <= |lines|
    ensures forall m | start < m < next - 1 :: !IsFence(lines[m])
    ensures (next - 1 > start && IsFence(lines[next - 1]))
         || (next == |lines| && forall m | start < m < |lines| :: !IsFence(lines[m]))
  {
    var k := FenceAfter(lines, start + 1);
    if k < |lines| then k + 1 else k
  }

  /** The code lines of the block opened at `start`. */
  function CodeLines(lines: seq<string>, start: nat): seq<string>
    requires start < |lines|
  {
    lines[start + 1..FenceAfter(lines, start + 1)]
  }

  /** A line that is not a fence is a code line of the block. */
  lemma CodeStep(lines: seq<string>, start: nat, i: nat, codeLines: seq<string>)
    requires start + 1 <= i < |lines| && i <= FenceAfter(lines, start + 1)
    requires !IsFence(lines[i]) && codeLines == lines[start + 1..i]
    ensures i + 1 <= FenceAfter(lines, start + 1)
    ensures codeLines + [lines[i]] == lines[start + 1..i + 1]
  {
    SliceSnoc(lines, start + 1, i);
  }

  /** The code lines end at the first fence, or at the end of the input. */
  lemma CodeStop(lines: seq<string>, start: nat, i: nat, codeLines: seq<string>)
    requires start < |lines| && start + 1 <= i <= FenceAfter(lines, start + 1)
    requires i < |lines| ==> IsFence(lines[i])
    requires codeLines == lines[start + 1..i]
    ensures codeLines == CodeLines(lines, start)
    ensures CodeEnd(lines, start) == if i < |lines| then i + 1 else i
  {
  }

  /** `_process_code_block`. */
  method ProcessCodeBlock(lines: seq<string>, start: nat) returns (next: nat, text: string)
    requires start < |lines|
    ensures next == CodeEnd(lines, start)
    ensures text == CodeMacro(Language(lines[start]), Join(CodeLines(lines, start), "\n"))
  {
    var codeLines: seq<string> := [];
    var i := start + 1;
    while i < |lines| && !IsFence(lines[i])
      invariant start + 1 <= i <= FenceAfter(lines, start + 1)
      invariant codeLines == lines[start + 1..i]
    {
      CodeStep(lines, start, i, codeLines);
      codeLines := codeLines + [lines[i]];
      i := i + 1;
    }
    CodeStop(lines, start, i, codeLines);
    // The language depends on the opener only; naming it after the loop
    // gives the same value as the source's earlier assignment.
    var language := Language(lines[start]);
    text := CodeMacro(language, Join(codeLines, "\n"));
    next := if i < |lines| then i + 1 else i;
  }

  /** The macro's CDATA section holds the escaped body and is closed only
      at its end: every `]]>` inside the body reopens a section, and deleting
      the reopening markers gives back the code lines joined by newlines. */
  lemma CodeMacroBody(language: string, body: string)
    ensures exists escaped ::
      && CodeMacro(language, body) == MacroHead + Escape(language) + BodyOpen + escaped + MacroTail
      && Reopened(escaped) && Unsplit(escaped) == body
  {
    var escaped := Esc(body);
    EscReopened(body);
    UnsplitEsc(body);
  }
}
