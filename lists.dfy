/** The list handler: a flat list whose kind is fixed by its first item,
    with unformatted continuation lines appended to the previous item. */
module Lists {
  import opened Text
  import opened Inline
  import opened Lines

  /** A line after the first item keeps the list going: another item, or a
      non-blank line that does not even start like an item. */
  predicate Continues(line: string) {
    ListItem(line).Some? || (Strip(line) != [] && !ListStart(line))
  }

  /** The first line at or after `from` that ends the list, or `|lines|`. */
  function ContinueEnd(lines: seq<string>, from: nat): (k: nat)
    requires from <= |lines|
    decreases |lines| - from
    ensures from <= k <= |lines|
    ensures forall m | from <= m < k :: Continues(lines[m])
    ensures k < |lines| ==> !Continues(lines[k])
  {
    if from == |lines| || !Continues(lines[from]) then from else ContinueEnd(lines, from + 1)
  }

  /** Where the list starting at `start` ends: nothing is consumed unless
      the first line is a full item. */
  function ListEnd(lines: seq<string>, start: nat): nat {
    if start < |lines| && ListItem(lines[start]).Some? then ContinueEnd(lines, start + 1) else start
  }

  /** One line's effect on the items collected so far: an item line adds
      its formatted text, any other line is appended to the last item as
      `' '` and the stripped line, without formatting. */
  function AddLine(items: seq<string>, line: string): seq<string> {
    match ListItem(line)
    case Some((_, content)) => items + [ConvertInline(content)]
    case None =>
      if |items| == 0 then items
      else items[|items| - 1 := items[|items| - 1] + " " + Strip(line)]
  }

  /** The items built from a run of list lines, in input order. */
  function Items(run: seq<string>): seq<string> {
    if |run| == 0 then [] else AddLine(Items(run[..|run| - 1]), run[|run| - 1])
  }

  /** The tag name: `ol` when the first item's marker is a number, `ul`
      for a bullet, and Python's rendering of `None` when there is no item. */
  function Kind(lines: seq<string>, start: nat): string {
    if start < |lines| then
      match ListItem(lines[start])
      case Some((ordered, _)) => if ordered then "ol" else "ul"
      case None => "None"
    else "None"
  }

  /** The items built from lines `start` to `i - 1`, by index. */
  function ItemsBetween(lines: seq<string>, start: nat, i: nat): seq<string>
    requires start <= i <= |lines|
    decreases i - start
  {
    if i == start then [] else AddLine(ItemsBetween(lines, start, i - 1), lines[i - 1])
  }

  function ListItems(lines: seq<string>, start: nat): seq<string> {
    if start < |lines| then ItemsBetween(lines, start, ListEnd(lines, start)) else []
  }

  /** The `<li>` lines. */
  function Entries(items: seq<string>): (r: seq<string>)
    ensures |r| == |items|
    ensures forall k | 0 <= k < |items| :: r[k] == "<li>" + items[k] + "</li>"
  {
    if |items| == 0 then [] else Entries(items[..|items| - 1]) + ["<li>" + items[|items| - 1] + "</li>"]
  }

  function RenderList(kind: string, items: seq<string>): string {
    "<" + kind + ">\n" + Join(Entries(items), "\n") + "\n</" + kind + ">"
  }

  /** Building by index and building over the run give the same items. */
  lemma {:induction false} ItemsBetweenRun(lines: seq<string>, start: nat, i: nat)
    requires start <= i <= |lines|
    ensures ItemsBetween(lines, start, i) == Items(lines[start..i])
    decreases i - start
  {
    if i > start {
      var run := lines[start..i];
      var init := lines[start..i - 1];
      assert run[..|run| - 1] == init;
      assert run[|run| - 1] == lines[i - 1];
      RunSplit(run);
      ItemsBetweenRun(lines, start, i - 1);
    }
  }

  /** A line that continues the list lies before its end. */
  lemma ContinuesPast(lines: seq<string>, from: nat, i: nat)
    requires from <= i < |lines| && i <= ContinueEnd(lines, from)
    requires Continues(lines[i])
    ensures i + 1 <= ContinueEnd(lines, from)
  {
  }

  /** The first line of a list, when it is an item. */
  lemma FirstStep(lines: seq<string>, start: nat)
    requires start < |lines| && ListItem(lines[start]).Some?
    ensures ItemsBetween(lines, start, start + 1) == [ConvertInline(ListItem(lines[start]).value.1)]
    ensures start + 1 <= ContinueEnd(lines, start + 1)
  {
  }

  /** A later item line adds one formatted item. */
  lemma ItemStep(lines: seq<string>, start: nat, i: nat, items: seq<string>)
    requires start < i < |lines| && i <= ContinueEnd(lines, start + 1)
    requires items == ItemsBetween(lines, start, i)
    requires ListItem(lines[i]).Some?
    ensures items + [ConvertInline(ListItem(lines[i]).value.1)] == ItemsBetween(lines, start, i + 1)
    ensures i + 1 <= ContinueEnd(lines, start + 1)
  {
    ContinuesPast(lines, start + 1, i);
  }

  /** A continuation line is appended to the last item. */
  lemma ContinuationStep(lines: seq<string>, start: nat, i: nat, items: seq<string>)
    requires start < i < |lines| && i <= ContinueEnd(lines, start + 1)
    requires items == ItemsBetween(lines, start, i) && |items| > 0
    requires ListItem(lines[i]).None? && Strip(lines[i]) != [] && !ListStart(lines[i])
    ensures items[|items| - 1 := items[|items| - 1] + " " + Strip(lines[i])] == ItemsBetween(lines, start, i + 1)
    ensures i + 1 <= ContinueEnd(lines, start + 1)
  {
    assert Continues(lines[i]);
    ContinuesPast(lines, start + 1, i);
    assert ItemsBetween(lines, start, i + 1) == AddLine(items, lines[i]);
  }

  /** The list stops at a line that does not continue it. */
  lemma StopStep(lines: seq<string>, start: nat, i: nat)
    requires start < |lines| && start < i <= ContinueEnd(lines, start + 1)
    requires i < |lines| ==> !Continues(lines[i])
    ensures ContinueEnd(lines, start + 1) == i
  {
  }

  /** `_process_list`. */
  method ProcessList(lines: seq<string>, start: nat) returns (next: nat, text: string)
    ensures next == ListEnd(lines, start)
    ensures text == RenderList(Kind(lines, start), ListItems(lines, start))
  {
    var items: seq<string> := [];
    var i := start;
    var ordered: Option<bool> := None;
    while i < |lines|
      invariant start <= i
      invariant i == start ==> items == [] && ordered == None
      invariant i > start ==> i <= |lines| && ListItem(lines[start]).Some?
      invariant i > start ==> ordered == Some(ListItem(lines[start]).value.0)
      invariant i > start ==> items == ItemsBetween(lines, start, i) && |items| > 0
      invariant i > start ==> i <= ContinueEnd(lines, start + 1)
      decreases |lines| - i
    {
      var line := lines[i];
      var m := ListItem(line);
      if m.None? {
        if Strip(line) != [] && |items| > 0 && !ListStart(line) {
          ContinuationStep(lines, start, i, items);
          items := items[|items| - 1 := items[|items| - 1] + " " + Strip(line)];
          i := i + 1;
          continue;
        }
        break;
      }
      var content := m.value.1;
      if ordered == None {
        ordered := Some(m.value.0);
        FirstStep(lines, start);
      } else {
        ItemStep(lines, start, i, items);
      }
      items := items + [ConvertInline(content)];
      i := i + 1;
    }
    if i > start {
      StopStep(lines, start, i);
    }
    next := i;
    var kind := match ordered case Some(true) => "ol" case Some(false) => "ul" case None => "None";
    text := "<" + kind + ">\n" + Join(Entries(items), "\n") + "\n</" + kind + ">";
  }

  /** The texts of the item lines of a run, in input order. */
  function ItemTexts(run: seq<string>): seq<string> {
    if |run| == 0 then []
    else
      ItemTexts(run[..|run| - 1])
      + match ListItem(run[|run| - 1]) case Some((_, c)) => [c] case None => []
  }

  /** Each entry starts with the formatted text of its item line. */
  predicate Led(items: seq<string>, texts: seq<string>) {
    |items| == |texts| && forall k | 0 <= k < |items| :: StartsWith(items[k], ConvertInline(texts[k]))
  }

  lemma LedItem(items: seq<string>, texts: seq<string>, c: string)
    requires Led(items, texts)
    ensures Led(items + [ConvertInline(c)], texts + [c])
  {
    var p := ConvertInline(c);
    assert (items + [p])[|items|] == p;
    assert p[..|p|] == p;
  }

  lemma LedContinuation(items: seq<string>, texts: seq<string>, more: string)
    requires Led(items, texts) && |items| > 0
    ensures Led(items[|items| - 1 := items[|items| - 1] + more], texts)
  {
    var n := |items| - 1;
    var p := ConvertInline(texts[n]);
    assert StartsWith(items[n], p);
    assert (items[n] + more)[..|p|] == items[n][..|p|];
  }

  lemma RunSplit(run: seq<string>)
    requires |run| > 0
    ensures Items(run) == AddLine(Items(run[..|run| - 1]), run[|run| - 1])
    ensures ItemTexts(run) == ItemTexts(run[..|run| - 1])
      + match ListItem(run[|run| - 1]) case Some((_, c)) => [c] case None => []
  {
  }

  /** A run that starts with an item has one entry per item line, in
      order; each entry starts with that line's formatted text (what
      follows it comes from continuation lines). */
  lemma {:induction false} ItemsFollowLines(run: seq<string>)
    requires |run| > 0 && ListItem(run[0]).Some?
    ensures |Items(run)| >= 1
    ensures Led(Items(run), ItemTexts(run))
  {
    var init := run[..|run| - 1];
    var last := run[|run| - 1];
    RunSplit(run);
    if |run| == 1 {
      assert init == [];
      LedItem([], [], ListItem(last).value.1);
    } else {
      assert init[0] == run[0];
      ItemsFollowLines(init);
      match ListItem(last)
      case Some((_, c)) =>
        LedItem(Items(init), ItemTexts(init), c);
      case None =>
        LedContinuation(Items(init), ItemTexts(init), " " + Strip(last));
        assert Items(init)[|Items(init)| - 1] + " " + Strip(last)
            == Items(init)[|Items(init)| - 1] + (" " + Strip(last));
    }
  }

  /** The kind is `ol` exactly when the first line is an item whose marker
      begins with a digit; later markers play no part. */
  lemma KindOfFirst(lines: seq<string>, start: nat)
    requires start < |lines| && ListItem(lines[start]).Some?
    ensures Kind(lines, start) == "ol" <==> IsDigit(lines[start][LeadingSpaces(lines[start])])
    ensures Kind(lines, start) == "ol" || Kind(lines, start) == "ul"
  {
  }

  /** A list that started ends at the end of the input, at a blank line,
      or at a line that starts like an item without being one. */
  lemma ListStops(lines: seq<string>, start: nat)
    requires start < |lines| && ListItem(lines[start]).Some?
    ensures var next := ListEnd(lines, start);
      start < next <= |lines|
      && (next == |lines| || Strip(lines[next]) == [] || (ListStart(lines[next]) && ListItem(lines[next]).None?))
  {
  }

  /** Headings, fences and horizontal rules do not end a list: they are
      appended to the previous item as plain text. */
  lemma MarkupLinesContinue(line: string)
    requires IsFence(line) || (|line| > 0 && line[0] == '#') || IsRule(line)
    ensures Continues(line) && ListItem(line).None?
  {
    var w := LeadingSpaces(line);
    var t := Strip(line);
    if IsFence(line) || IsRule(line) {
      StrippedFront(line);
      if IsFence(line) {
        assert t[0] == '`';
      } else {
        assert t[1] == t[0];
      }
    }
  }

  /** The first two characters of the stripped line, where the line starts
      after its indentation. */
  lemma StrippedFront(line: string)
    requires |Strip(line)| >= 2
    ensures var w := LeadingSpaces(line);
      w + 1 < |line| && line[w] == Strip(line)[0] && line[w + 1] == Strip(line)[1]
  {
  }

}
