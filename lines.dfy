/** The tests the block scanner applies to a single line. Each regular
    expression of the converter is written out as a direct scan; for the
    heading, list and delimiter-row patterns, contracts and lemmas relate
    the scans to the shape of the lines they accept. Lines
    come from splitting the input on newlines, so the patterns' `.` (any
    character but a newline) is any character of a line. */
module Lines {
  import opened Text
  import opened Inline

  /** `line.strip().startswith('```')`: a fence opens or closes a code block,
      whatever follows the backticks. */
  predicate IsFence(line: string) {
    StartsWith(Strip(line), "```")
  }

  /** Length of the run of `c` starting at `from`. */
  function RunOf(s: string, c: char, from: nat): (n: nat)
    requires from <= |s|
    decreases |s| - from
    ensures from + n <= |s|
    ensures forall k | from <= k < from + n :: s[k] == c
    ensures from + n < |s| ==> s[from + n] != c
  {
    if from == |s| || s[from] != c then 0 else 1 + RunOf(s, c, from + 1)
  }

  /** `\s+(.+)$` at the start of `r`: at least one whitespace character, then
      at least one character up to the end. The greedy `\s+` gives back one
      character when nothing but whitespace follows it. The result is the
      text captured by `(.+)`. */
  function SpacedTail(r: string): (c: Option<string>)
    ensures c.Some? <==> |r| >= 2 && IsSpace(r[0])
    ensures c.Some? ==> 0 < |c.value| < |r| && c.value == r[|r| - |c.value|..]
    ensures c.Some? ==> IsBlank(r[..|r| - |c.value|])
    ensures c.Some? && |c.value| > 1 ==> !IsSpace(c.value[0])
  {
    var w := LeadingSpaces(r);
    if w == 0 || |r| < 2 then None
    else if w < |r| then Some(r[w..])
    else Some(r[|r| - 1..])
  }

  /** `^(#{1,6})\s+(.+)$`: the heading level and the heading text. */
  function HeadingMatch(line: string): (m: Option<(nat, string)>)
    ensures m.Some? ==> 1 <= m.value.0 <= 6 && m.value.0 < |line|
    ensures m.Some? ==> forall k | 0 <= k < m.value.0 :: line[k] == '#'
    ensures m.Some? ==> SpacedTail(line[m.value.0..]) == Some(m.value.1)
  {
    var n := RunOf(line, '#', 0);
    if 1 <= n <= 6 then
      match SpacedTail(line[n..])
      case Some(t) => Some((n, t))
      case None => None
    else None
  }

  /** `n` hashes, a whitespace character and at least one more character. */
  predicate HeadingShape(line: string, n: nat) {
    1 <= n <= 6 && n + 2 <= |line| && (forall k | 0 <= k < n :: line[k] == '#') && IsSpace(line[n])
  }

  /** The heading pattern accepts exactly the lines of that shape, for some
      level between 1 and 6 (the backtracking of `#{1,6}` included). */
  lemma HeadingMatchShape(line: string)
    ensures HeadingMatch(line).Some? <==> exists n :: HeadingShape(line, n)
    ensures forall n | HeadingShape(line, n) :: HeadingMatch(line).value.0 == n
  {
    var n := RunOf(line, '#', 0);
    assert forall m | HeadingShape(line, m) :: m == n;
    if HeadingMatch(line).Some? {
      assert HeadingShape(line, n);
    }
  }

  /** On a line of that shape the pattern captures the text after the
      hashes and the whole whitespace run; when only whitespace follows the
      hashes, `\s+` gives back its last character, which is captured. */
  lemma HeadingCapture(line: string, n: nat)
    requires HeadingShape(line, n)
    ensures var w := LeadingSpaces(line[n..]);
      HeadingMatch(line) == Some((n, if n + w < |line| then line[n + w..] else line[|line| - 1..]))
  {
    assert RunOf(line, '#', 0) == n;
    var r := line[n..];
    var w := LeadingSpaces(r);
    assert r[0] == line[n];
    var t := if w < |r| then r[w..] else r[|r| - 1..];
    assert SpacedTail(r) == Some(t);
    assert HeadingMatch(line) == Some((n, t));
    if n + w < |line| {
      assert t == line[n + w..];
    } else {
      assert t == line[|line| - 1..];
    }
  }

  /** `^(-{3,}|\*{3,}|_{3,})$` on the stripped line. */
  predicate IsRule(line: string) {
    var t := Strip(line);
    |t| >= 3 && (t[0] == '-' || t[0] == '*' || t[0] == '_')
    && forall k | 0 <= k < |t| :: t[k] == t[0]
  }

  /** Length of the run of digits starting at `from`. */
  function DigitRun(s: string, from: nat): (n: nat)
    requires from <= |s|
    decreases |s| - from
    ensures from + n <= |s|
    ensures forall k | from <= k < from + n :: IsDigit(s[k])
    ensures from + n < |s| ==> !IsDigit(s[from + n])
  {
    if from == |s| || !IsDigit(s[from]) then 0 else 1 + DigitRun(s, from + 1)
  }

  /** `([-*+]|\d+\.)` read as a shape: the marker occupies `line[w..e]`,
      either one bullet character or a run of digits closed by `.`. */
  predicate MarkerShape(line: string, w: nat, e: nat) {
    && w < e <= |line|
    && ((e == w + 1 && (line[w] == '-' || line[w] == '*' || line[w] == '+'))
        || (e >= w + 2 && line[e - 1] == '.' && forall k | w <= k < e - 1 :: IsDigit(line[k])))
  }

  /** `([-*+]|\d+\.)` at `w`: the index just past the marker. The marker is
      unique when it exists, since `.` is not a digit. */
  function MarkerEnd(line: string, w: nat): (e: Option<nat>)
    requires w <= |line|
    ensures e.Some? ==> w < e.value <= |line|
    ensures e.Some? ==> (line[w] == '-' || line[w] == '*' || line[w] == '+' || IsDigit(line[w]))
    ensures e.Some? ==> MarkerShape(line, w, e.value)
  {
    if w < |line| && (line[w] == '-' || line[w] == '*' || line[w] == '+') then Some(w + 1)
    else
      var d := DigitRun(line, w);
      if d > 0 && w + d < |line| && line[w + d] == '.' then Some(w + d + 1) else None
  }

  /** The marker shape at `w` is unique when it exists, and it is the one
      `MarkerEnd` finds; `None` means there is no marker at `w`. */
  lemma MarkerEndShape(line: string, w: nat)
    requires w <= |line|
    ensures forall m: nat | MarkerShape(line, w, m) :: MarkerEnd(line, w) == Some(m)
  {
  }

  /** `^(\s*)([-*+]|\d+\.)\s+`: the test the scanner uses to start a list. */
  predicate ListStart(line: string) {
    var w := LeadingSpaces(line);
    match MarkerEnd(line, w)
    case Some(e) => e < |line| && IsSpace(line[e])
    case None => false
  }

  /** `^(\s*)([-*+]|\d+\.)\s+(.+)$`: the test for a list item. The result
      says whether the marker is a number, and holds the item text: what
      `\s+(.+)$` captures after the marker. */
  function ListItem(line: string): (m: Option<(bool, string)>)
    ensures m.Some? ==> ListStart(line)
    ensures m.Some? ==> var w := LeadingSpaces(line);
      w < |line| && (m.value.0 <==> IsDigit(line[w]))
    ensures var me := MarkerEnd(line, LeadingSpaces(line));
      m.Some? <==> me.Some? && SpacedTail(line[me.value..]).Some?
    ensures m.Some? ==> var me := MarkerEnd(line, LeadingSpaces(line));
      me.Some? && SpacedTail(line[me.value..]) == Some(m.value.1)
  {
    var w := LeadingSpaces(line);
    match MarkerEnd(line, w)
    case Some(e) =>
      (match SpacedTail(line[e..])
       case Some(c) => Some((IsDigit(line[w]), c))
       case None => None)
    case None => None
  }

  /** Leading whitespace of length `w`, a marker up to `e`, then whitespace
      at `e` and at least `rest` more characters. */
  predicate ItemShape(line: string, w: nat, e: nat, rest: nat) {
    && w <= |line| && IsBlank(line[..w])
    && MarkerShape(line, w, e) && e + rest < |line| && IsSpace(line[e])
  }

  /** The list-start test accepts exactly the lines with a marker followed
      by whitespace (`rest` 0), the item test exactly those with at least one
      character after that whitespace (`rest` 1), whatever the split of the
      leading whitespace. */
  lemma ListShape(line: string)
    ensures ListStart(line) <==> exists w: nat, e: nat :: ItemShape(line, w, e, 0)
    ensures ListItem(line).Some? <==> exists w: nat, e: nat :: ItemShape(line, w, e, 1)
  {
    var w := LeadingSpaces(line);
    forall w': nat, e: nat, rest: nat | ItemShape(line, w', e, rest)
      ensures w' == w && MarkerEnd(line, w) == Some(e)
    {
      assert !IsSpace(line[w']);
      LeadingRun(line, w');
      MarkerEndShape(line, w);
    }
    var me := MarkerEnd(line, w);
    if me.Some? && me.value < |line| && IsSpace(line[me.value]) {
      assert ItemShape(line, w, me.value, 0);
      if me.value + 1 < |line| {
        assert ItemShape(line, w, me.value, 1);
      }
    }
  }

  /** A blank prefix followed by a non-whitespace character is the whole
      leading whitespace. */
  lemma LeadingRun(line: string, w: nat)
    requires w < |line| && IsBlank(line[..w]) && !IsSpace(line[w])
    ensures LeadingSpaces(line) == w
  {
  }

  /** A line the list test accepts although it is not a list item. */
  predicate BareMarker(line: string) {
    ListStart(line) && ListItem(line).None?
  }

  /** These are exactly a marker followed by one whitespace character and
      nothing else. */
  lemma BareMarkerShape(line: string)
    ensures BareMarker(line) <==>
      var w := LeadingSpaces(line);
      MarkerEnd(line, w).Some? && |line| == MarkerEnd(line, w).value + 1
      && IsSpace(line[|line| - 1])
  {
    var w := LeadingSpaces(line);
    var me := MarkerEnd(line, w);
    if me.Some? {
      var r := line[me.value..];
      if |r| > 0 {
        assert r[0] == line[me.value];
        assert r[|r| - 1] == line[|line| - 1];
      }
    }
  }

  /** `line.startswith('>')`. */
  predicate IsQuote(line: string) {
    |line| > 0 && line[0] == '>'
  }

  /** `re.sub(r'^>\s?', '', line)`: the quote marker removed, and the
      character after it too when it is whitespace (`\s?` is greedy). */
  function QuoteText(line: string): (t: string)
    ensures IsQuote(line) && |line| >= 2 && IsSpace(line[1]) ==> t == line[2..]
    ensures IsQuote(line) && !(|line| >= 2 && IsSpace(line[1])) ==> t == line[1..]
    ensures |t| <= |line| && t == line[|line| - |t|..]
    ensures !IsQuote(line) ==> t == line
  {
    if !IsQuote(line) then line
    else if |line| >= 2 && IsSpace(line[1]) then line[2..]
    else line[1..]
  }

  /** The class `[\s:-]`. */
  predicate IsDelimChar(c: char) {
    IsSpace(c) || c == ':' || c == '-'
  }

  /** Length of the run of `[\s:-]` characters starting at `from`. */
  function DelimRun(s: string, from: nat): (n: nat)
    requires from <= |s|
    decreases |s| - from
    ensures from + n <= |s|
    ensures forall k | from <= k < from + n :: IsDelimChar(s[k])
    ensures from + n < |s| ==> !IsDelimChar(s[from + n])
  {
    if from == |s| || !IsDelimChar(s[from]) then 0 else 1 + DelimRun(s, from + 1)
  }

  /** `^\s*\|?[\s:-]+\|` at the start of the line under a table's first
      row: either a run of `[\s:-]` closed by `|`, or leading whitespace,
      `|`, such a run and `|`. */
  predicate DelimRow(line: string) {
    var k := DelimRun(line, 0);
    (k >= 1 && k < |line| && line[k] == '|')
    || (var w := LeadingSpaces(line);
        w < |line| && line[w] == '|'
        && var j := DelimRun(line, w + 1);
        j >= 1 && w + 1 + j < |line| && line[w + 1 + j] == '|')
  }

  /** The regular expression read as a decomposition: `w` whitespace
      characters, an optional `|` (`bar`), `n >= 1` characters of
      `[\s:-]`, then `|`. */
  predicate DelimShape(line: string, w: nat, bar: bool, n: nat) {
    var b := if bar then 1 else 0;
    w + b + n < |line| && n >= 1
    && (forall k | 0 <= k < w :: IsSpace(line[k]))
    && (bar ==> line[w] == '|')
    && (forall k | w + b <= k < w + b + n :: IsDelimChar(line[k]))
    && line[w + b + n] == '|'
  }

  /** The scan accepts a line exactly when some decomposition exists. */
  lemma DelimRowShape(line: string)
    ensures DelimRow(line) <==> exists w, bar, n :: DelimShape(line, w, bar, n)
  {
    var k := DelimRun(line, 0);
    var w := LeadingSpaces(line);
    if k >= 1 && k < |line| && line[k] == '|' {
      assert DelimShape(line, 0, false, k);
    } else if w < |line| && line[w] == '|' && DelimRun(line, w + 1) >= 1
      && w + 1 + DelimRun(line, w + 1) < |line| && line[w + 1 + DelimRun(line, w + 1)] == '|' {
      assert DelimShape(line, w, true, DelimRun(line, w + 1));
    } else {
      forall w', bar, n | DelimShape(line, w', bar, n)
        ensures false
      {
        DelimShapeFound(line, w', bar, n);
      }
    }
  }

  lemma DelimShapeFound(line: string, w': nat, bar: bool, n: nat)
    requires DelimShape(line, w', bar, n)
    ensures DelimRow(line)
  {
    var w := LeadingSpaces(line);
    if bar {
      assert w == w';
      assert DelimRun(line, w + 1) == n;
    } else {
      assert forall m | 0 <= m < w' + n :: IsDelimChar(line[m]);
      assert DelimRun(line, 0) == w' + n;
    }
  }

  /** A delimiter row holds a `|`, so a table started by the scanner has
      at least two lines. */
  lemma DelimRowHasBar(line: string)
    requires DelimRow(line)
    ensures '|' in line
  {
    var k := DelimRun(line, 0);
    if k >= 1 && k < |line| && line[k] == '|' {
      assert line[k] == '|';
    } else {
      var w := LeadingSpaces(line);
      assert line[w] == '|';
    }
  }
}
