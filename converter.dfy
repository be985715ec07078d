/** The converter's main loop: the input is split into lines, each block is
    handed to the first handler whose test its first line passes, and the
    rendered blocks are assembled into the output. */
module Converter {
  import opened Text
  import opened Inline
  import opened Lines
  import opened CodeBlocks
  import opened LineBlocks
  import opened Lists
  import opened Quotes
  import opened Tables
  import opened Assembly

  /** The handler a line is given to. */
  datatype BlockKind =
    | FenceStart
    | HashLine
    | RuleLine
    | ListLine
    | QuoteLine
    | TableLine
    | TextLine
    | BlankLine

  /** A line holding `|` followed by a delimiter row starts a table. */
  predicate TableTrigger(lines: seq<string>, i: nat)
    requires i < |lines|
  {
    '|' in lines[i] && i + 1 < |lines| && DelimRow(lines[i + 1])
  }

  /** The list test: `ListStart` as the scanner is written; the full item
      test of the list handler when `fixed` holds. */
  predicate ListTrigger(line: string, fixed: bool) {
    if fixed then ListItem(line).Some? else ListStart(line)
  }

  /** The tests in the order the scanner tries them. */
  function Classify(lines: seq<string>, i: nat, fixed: bool): BlockKind
    requires i < |lines|
  {
    var line := lines[i];
    if IsFence(line) then FenceStart
    else if |line| > 0 && line[0] == '#' then HashLine
    else if IsRule(line) then RuleLine
    else if ListTrigger(line, fixed) then ListLine
    else if IsQuote(line) then QuoteLine
    else if TableTrigger(lines, i) then TableLine
    else if Strip(line) != [] then TextLine
    else BlankLine
  }

  /** What one pass of the loop produces: the handler, the index the scan
      continues from, and the rendered text (empty for a blank line). */
  datatype Block = Block(kind: BlockKind, next: nat, text: string)

  /** The handler `kind` applied at line `i`. */
  function Render(lines: seq<string>, i: nat, kind: BlockKind): Block
    requires i < |lines|
  {
    var line := lines[i];
    match kind
    case FenceStart => Block(FenceStart, CodeEnd(lines, i), CodeMacro(Language(line), Join(CodeLines(lines, i), "\n")))
    case HashLine => Block(HashLine, i + 1, Heading(line))
    case RuleLine => Block(RuleLine, i + 1, "<hr />")
    case ListLine => Block(ListLine, ListEnd(lines, i), RenderList(Kind(lines, i), ListItems(lines, i)))
    case QuoteLine => Block(QuoteLine, QuoteEnd(lines, i), QuoteBlock(QuoteRun(lines, i)))
    case TableLine => Block(TableLine, TableEnd(lines, i), TableText(lines, i))
    case TextLine => Block(TextLine, i + 1, Paragraph(line))
    case BlankLine => Block(BlankLine, i + 1, "")
  }

  /** One pass of the loop at line `i`. The scan moves forward on every
      line except a list line that is not a full item; every handler but
      the blank line renders a non-empty text. */
  function Step(lines: seq<string>, i: nat, fixed: bool): (b: Block)
    requires i < |lines|
    ensures b.kind == Classify(lines, i, fixed)
    ensures i <= b.next <= |lines|
    ensures b.next == i <==> b.kind == ListLine && ListItem(lines[i]).None?
    ensures b.kind != BlankLine <==> |b.text| > 0
  {
    Render(lines, i, Classify(lines, i, fixed))
  }

  /** The result list after one pass: a rendered block is appended; a blank
      line appends an empty entry only after a non-empty one. */
  function Emit(result: seq<string>, b: Block): seq<string> {
    if b.kind != BlankLine then result + [b.text]
    else if |result| > 0 && result[|result| - 1] != "" then result + [""]
    else result
  }

  /** An empty entry never comes first and never follows another one. */
  predicate Spaced(result: seq<string>) {
    forall k | 0 <= k < |result| && result[k] == "" :: k > 0 && result[k - 1] != ""
  }

  datatype Outcome<T> = Done(value: T) | Hangs(line: nat)

  /** The loop from line `i` on: the final result list, or the line at which
      the loop stops advancing and repeats the same pass forever. */
  function Scan(lines: seq<string>, i: nat, result: seq<string>, fixed: bool): Outcome<seq<string>>
    requires i <= |lines|
    decreases |lines| - i
  {
    if i == |lines| then Done(result)
    else
      var b := Step(lines, i, fixed);
      if b.next == i then Hangs(i) else Scan(lines, b.next, Emit(result, b), fixed)
  }

  /** `convert`, as written (`fixed` false) or with the corrected list test. */
  function Converted(markdown: string, fixed: bool): Outcome<string> {
    match Scan(Split(markdown, '\n'), 0, [], fixed)
    case Done(result) => Done(Output(result))
    case Hangs(j) => Hangs(j)
  }

  /** One pass of the loop, calling the handlers. */
  method ProcessLine(lines: seq<string>, i: nat) returns (b: Block)
    requires i < |lines|
    ensures b == Step(lines, i, false)
  {
    var line := lines[i];
    if IsFence(line) {
      var next, code := ProcessCodeBlock(lines, i);
      FenceStep(lines, i, false);
      return Block(FenceStart, next, code);
    }
    if |line| > 0 && line[0] == '#' {
      HashStep(lines, i, false);
      return Block(HashLine, i + 1, Heading(line));
    }
    if IsRule(line) {
      RuleStep(lines, i, false);
      return Block(RuleLine, i + 1, "<hr />");
    }
    if ListStart(line) {
      var next, text := ProcessList(lines, i);
      ListStep(lines, i, false);
      return Block(ListLine, next, text);
    }
    if IsQuote(line) {
      var next, text := ProcessBlockquote(lines, i);
      QuoteStep(lines, i, false);
      return Block(QuoteLine, next, text);
    }
    if TableTrigger(lines, i) {
      var next, text := ProcessTable(lines, i);
      TableStep(lines, i, false);
      return Block(TableLine, next, text);
    }
    if Strip(line) != [] {
      TextStep(lines, i, false);
      return Block(TextLine, i + 1, Paragraph(line));
    }
    BlankStep(lines, i, false);
    return Block(BlankLine, i + 1, "");
  }

  /** What each handler makes of line `i`: each lemma takes the tests of
      the scanner in source order, the earlier ones failing and its own
      passing, and gives the handler's block. */
  lemma FenceStep(lines: seq<string>, i: nat, fixed: bool)
    requires i < |lines| && IsFence(lines[i])
    ensures Step(lines, i, fixed)
      == Block(FenceStart, CodeEnd(lines, i), CodeMacro(Language(lines[i]), Join(CodeLines(lines, i), "\n")))
  {
  }

  lemma HashStep(lines: seq<string>, i: nat, fixed: bool)
    requires i < |lines| && !IsFence(lines[i]) && |lines[i]| > 0 && lines[i][0] == '#'
    ensures Step(lines, i, fixed) == Block(HashLine, i + 1, Heading(lines[i]))
  {
  }

  lemma RuleStep(lines: seq<string>, i: nat, fixed: bool)
    requires i < |lines| && !IsFence(lines[i]) && !(|lines[i]| > 0 && lines[i][0] == '#')
    requires IsRule(lines[i])
    ensures Step(lines, i, fixed) == Block(RuleLine, i + 1, "<hr />")
  {
  }

  lemma ListStep(lines: seq<string>, i: nat, fixed: bool)
    requires i < |lines| && !IsFence(lines[i]) && !(|lines[i]| > 0 && lines[i][0] == '#')
    requires !IsRule(lines[i]) && ListTrigger(lines[i], fixed)
    ensures Step(lines, i, fixed) == Block(ListLine, ListEnd(lines, i), RenderList(Kind(lines, i), ListItems(lines, i)))
  {
  }

  lemma QuoteStep(lines: seq<string>, i: nat, fixed: bool)
    requires i < |lines| && !IsFence(lines[i]) && !(|lines[i]| > 0 && lines[i][0] == '#')
    requires !IsRule(lines[i]) && !ListTrigger(lines[i], fixed) && IsQuote(lines[i])
    ensures Step(lines, i, fixed) == Block(QuoteLine, QuoteEnd(lines, i), QuoteBlock(QuoteRun(lines, i)))
  {
  }

  lemma TableStep(lines: seq<string>, i: nat, fixed: bool)
    requires i < |lines| && !IsFence(lines[i]) && !(|lines[i]| > 0 && lines[i][0] == '#')
    requires !IsRule(lines[i]) && !ListTrigger(lines[i], fixed) && !IsQuote(lines[i])
    requires TableTrigger(lines, i)
    ensures Step(lines, i, fixed) == Block(TableLine, TableEnd(lines, i), TableText(lines, i))
  {
  }

  lemma BlankStep(lines: seq<string>, i: nat, fixed: bool)
    requires i < |lines| && !IsFence(lines[i]) && !(|lines[i]| > 0 && lines[i][0] == '#')
    requires !IsRule(lines[i]) && !ListTrigger(lines[i], fixed) && !IsQuote(lines[i])
    requires !TableTrigger(lines, i) && Strip(lines[i]) == []
    ensures Step(lines, i, fixed) == Block(BlankLine, i + 1, "")
  {
  }

  lemma EmitSpaced(result: seq<string>, b: Block)
    requires Spaced(result)
    requires b.kind != BlankLine ==> |b.text| > 0
    ensures Spaced(Emit(result, b))
  {
  }

  /** `convert`. Where the source would repeat the same pass forever (the
      list handler consumed no line), the model stops and reports the line. */
  method Convert(markdown: string) returns (out: Outcome<string>)
    ensures out == Converted(markdown, false)
  {
    var lines := Split(markdown, '\n');
    var result: seq<string> := [];
    var i := 0;
    while i < |lines|
      invariant i <= |lines|
      invariant Scan(lines, i, result, false) == Scan(lines, 0, [], false)
      invariant Spaced(result)
      decreases |lines| - i
    {
      var b := ProcessLine(lines, i);
      if b.next == i {
        return Hangs(i);
      }
      EmitSpaced(result, b);
      if b.kind != BlankLine {
        result := result + [b.text];
      } else if |result| > 0 && result[|result| - 1] != "" {
        result := result + [""];
      }
      i := b.next;
    }
    out := Done(Output(result));
  }

  /** The result list never starts with an empty entry and never holds two
      in a row. */
  lemma {:induction false} ScanSpaced(lines: seq<string>, i: nat, result: seq<string>, fixed: bool)
    requires i <= |lines| && Spaced(result)
    ensures Scan(lines, i, result, fixed).Done? ==> Spaced(Scan(lines, i, result, fixed).value)
    decreases |lines| - i
  {
    if i < |lines| {
      var b := Step(lines, i, fixed);
      if b.next > i {
        EmitSpaced(result, b);
        ScanSpaced(lines, b.next, Emit(result, b), fixed);
      }
    }
  }

  /** The loop stops advancing only under the unfixed test, and only at a
      bare marker line. */
  lemma {:induction false} ScanHangs(lines: seq<string>, i: nat, result: seq<string>, fixed: bool)
    requires i <= |lines|
    ensures Scan(lines, i, result, fixed).Hangs? ==>
      var j := Scan(lines, i, result, fixed).line;
      !fixed && i <= j < |lines| && BareMarker(lines[j])
    decreases |lines| - i
  {
    if i < |lines| {
      var b := Step(lines, i, fixed);
      if b.next > i {
        ScanHangs(lines, b.next, Emit(result, b), fixed);
      } else {
        Stalls(lines, i, fixed);
      }
    }
  }

  /** A pass that does not advance is a list pass under the unfixed test,
      at a bare marker line. */
  lemma Stalls(lines: seq<string>, i: nat, fixed: bool)
    requires i < |lines| && Step(lines, i, fixed).next == i
    ensures !fixed && BareMarker(lines[i])
  {
    assert Classify(lines, i, fixed) == ListLine;
    assert ListTrigger(lines[i], fixed);
  }

  /** Without a bare marker line the source's loop always ends. */
  lemma NoBareMarkerEnds(lines: seq<string>, result: seq<string>)
    requires forall j | 0 <= j < |lines| :: !BareMarker(lines[j])
    ensures Scan(lines, 0, result, false).Done?
  {
    ScanHangs(lines, 0, result, false);
  }

  /** With the corrected test the loop always ends. */
  lemma CorrectedEnds(markdown: string)
    ensures Converted(markdown, true).Done?
  {
    ScanHangs(Split(markdown, '\n'), 0, [], true);
  }

  /** The two tests pick the same handler unless the unfixed one picks
      the list handler for a line that is not an item. */
  lemma ClassifyAgrees(lines: seq<string>, i: nat)
    requires i < |lines|
    requires !(Classify(lines, i, false) == ListLine && ListItem(lines[i]).None?)
    ensures Classify(lines, i, true) == Classify(lines, i, false)
  {
  }

  /** Wherever the source's loop ends, the corrected one produces the same
      result. */
  lemma {:induction false} CorrectedAgrees(lines: seq<string>, i: nat, result: seq<string>)
    requires i <= |lines| && Scan(lines, i, result, false).Done?
    ensures Scan(lines, i, result, true) == Scan(lines, i, result, false)
    decreases |lines| - i
  {
    if i < |lines| {
      var b := Step(lines, i, false);
      ClassifyAgrees(lines, i);
      CorrectedAgrees(lines, b.next, Emit(result, b));
    }
  }

  /** How the two tests classify the line `- `. */
  lemma DashSpaceKind()
    ensures BareMarker("- ")
    ensures Classify(["- "], 0, false) == ListLine
    ensures Classify(["- "], 0, true) == TextLine
  {
    var line := "- ";
    assert MarkerEnd(line, 0) == Some(1);
    assert line[1..] == " ";
    assert SpacedTail(" ") == None;
    assert LeadingSpaces(line) == 0;
    var t := Strip(line);
    assert t[0] == '-';
    assert |t| <= 2;
    assert !IsFence(line) && !IsRule(line);
  }

  /** A non-blank line that passes none of the earlier tests is rendered
      as one paragraph. */
  lemma TextStep(lines: seq<string>, i: nat, fixed: bool)
    requires i < |lines| && !IsFence(lines[i]) && !(|lines[i]| > 0 && lines[i][0] == '#')
    requires !IsRule(lines[i]) && !ListTrigger(lines[i], fixed) && !IsQuote(lines[i])
    requires !TableTrigger(lines, i) && Strip(lines[i]) != []
    ensures Step(lines, i, fixed) == Block(TextLine, i + 1, Paragraph(lines[i]))
  {
  }

  /** `<p>- </p>` is left alone by the assembler. */
  lemma DashSpaceOutput(line: string)
    requires line == "- "
    ensures Output(["<p>" + line + "</p>"]) == "<p>" + line + "</p>"
  {
    var out := "<p>" + line + "</p>";
    assert Join([out], "\n") == out;
    CollapsePrefix(out, []);
    assert out + [] == out;
    assert LeadingSpaces(out) == 0;
    var r := Strip(out);
    assert r == out[..|r|];
    assert !IsSpace(out[|out| - 1]);
  }

  /** A single bare marker line: the source never returns, the corrected
      converter renders it as a paragraph. */
  lemma DashSpace(line: string)
    requires line == "- "
    ensures Converted(line, false) == Hangs(0)
    ensures Converted(line, true) == Done("<p>" + line + "</p>")
  {
    DashSpaceLines(line);
    DashSpaceHangs([line]);
    DashSpaceFixed([line]);
    DashSpacePlain(line);
    DashSpaceOutput(line);
  }

  lemma DashSpacePlain(line: string)
    requires line == "- "
    ensures Paragraph(line) == "<p>" + line + "</p>"
  {
    assert forall k | 0 <= k < |line| :: line[k] == '-' || line[k] == ' ';
    ParagraphPlain(line);
  }

  lemma DashSpaceLines(line: string)
    requires line == "- "
    ensures Split(line, '\n') == [line]
  {
  }

  lemma DashSpaceHangs(lines: seq<string>)
    requires lines == ["- "]
    ensures Scan(lines, 0, [], false) == Hangs(0)
  {
    DashSpaceKind();
  }

  lemma DashSpaceFixed(lines: seq<string>)
    requires lines == ["- "]
    ensures Scan(lines, 0, [], true) == Done([Paragraph(lines[0])])
  {
    DashSpaceKind();
    TextStep(lines, 0, true);
    assert Emit([], Block(TextLine, 1, Paragraph(lines[0]))) == [Paragraph(lines[0])];
  }

  /** The empty input, and any input of whitespace only, converts to the
      empty string. */
  lemma {:induction false} BlankScan(lines: seq<string>, i: nat, fixed: bool)
    requires i <= |lines|
    requires forall j | i <= j < |lines| :: IsBlank(lines[j])
    ensures Scan(lines, i, [], fixed) == Done([])
    decreases |lines| - i
  {
    if i < |lines| {
      BlankClassify(lines, i, fixed);
      var b := Step(lines, i, fixed);
      assert Emit([], b) == [];
      BlankScan(lines, b.next, fixed);
    }
  }

  /** A blank line goes to no handler. */
  lemma BlankClassify(lines: seq<string>, i: nat, fixed: bool)
    requires i < |lines| && IsBlank(lines[i])
    ensures Classify(lines, i, fixed) == BlankLine
  {
    var line := lines[i];
    assert Strip(line) == [];
    assert !IsFence(line);
    if |line| > 0 {
      assert IsSpace(line[0]);
    }
    assert !ListStart(line) && ListItem(line).None?;
    assert '|' !in line;
  }

  lemma BlankOnly(markdown: string, fixed: bool)
    requires IsBlank(markdown)
    ensures Converted(markdown, fixed) == Done("")
  {
    BlankSplit(markdown, '\n');
    BlankScan(Split(markdown, '\n'), 0, fixed);
    assert Join([], "\n") == [];
    assert Collapse([]) == [];
  }

  /** The output never holds three newlines in a row. */
  lemma OutputSpacing(markdown: string, fixed: bool)
    requires Converted(markdown, fixed).Done?
    ensures NoRun3(Converted(markdown, fixed).value)
  {
    match Scan(Split(markdown, '\n'), 0, [], fixed)
    case Done(result) => OutputNoRun3(result);
    case Hangs(_) =>
  }
}
