/** The inline formatter `_convert_inline`: one escape-or-not decision,
    then eight rewrite rules applied in a fixed order. Every regular
    expression of the source is written out as a matcher on `seq<char>`. */
module Inline {
  import opened Text

  datatype Option<T> = None | Some(value: T)

  // ---------------------------------------------------------------------
  // Escaping: `html.escape(text)` with its default `quote=True`
  // ---------------------------------------------------------------------

  predicate IsHtmlSpecial(c: char) {
    c == '&' || c == '<' || c == '>' || c == '"' || c == '\''
  }

  function EscapeChar(c: char): string {
    if c == '&' then "&amp;"
    else if c == '<' then "&lt;"
    else if c == '>' then "&gt;"
    else if c == '"' then "&quot;"
    else if c == '\'' then "&#x27;"
    else [c]
  }

  /** `html.escape`: every special character becomes its entity; after
      escaping, no raw `<`, `>`, `"` or `'` remains, and text without
      special characters is left alone. */
  function Escape(s: string): (r: string)
    ensures forall k | 0 <= k < |r| :: r[k] != '<' && r[k] != '>' && r[k] != '"' && r[k] != '\''
    ensures (forall k | 0 <= k < |s| :: !IsHtmlSpecial(s[k])) ==> r == s
  {
    if |s| == 0 then [] else EscapeChar(s[0]) + Escape(s[1..])
  }

  /** The inverse of `Escape`: turns the five entities back into characters. */
  function Unescape(t: string): string {
    if |t| == 0 then []
    else if t[0] != '&' then [t[0]] + Unescape(t[1..])
    else if StartsWith(t, "&amp;") then "&" + Unescape(t[5..])
    else if StartsWith(t, "&lt;") then "<" + Unescape(t[4..])
    else if StartsWith(t, "&gt;") then ">" + Unescape(t[4..])
    else if StartsWith(t, "&quot;") then "\"" + Unescape(t[6..])
    else if StartsWith(t, "&#x27;") then "'" + Unescape(t[6..])
    else [t[0]] + Unescape(t[1..])
  }

  lemma UnescapeCons(c: char, rest: string)
    ensures Unescape(EscapeChar(c) + rest) == [c] + Unescape(rest)
  {
    var t := EscapeChar(c) + rest;
    if c == '&' {
      assert t[..5] == "&amp;" && t[5..] == rest;
      assert Unescape(t) == "&" + Unescape(rest);
    } else if c == '<' {
      assert t[1] == 'l' && t[..4] == "&lt;" && t[4..] == rest;
      assert !StartsWith(t, "&amp;");
      assert Unescape(t) == "<" + Unescape(rest);
    } else if c == '>' {
      assert t[1] == 'g' && t[..4] == "&gt;" && t[4..] == rest;
      assert !StartsWith(t, "&amp;") && !StartsWith(t, "&lt;");
      assert Unescape(t) == ">" + Unescape(rest);
    } else if c == '"' {
      assert t[1] == 'q' && t[..6] == "&quot;" && t[6..] == rest;
      assert !StartsWith(t, "&amp;") && !StartsWith(t, "&lt;") && !StartsWith(t, "&gt;");
      assert Unescape(t) == "\"" + Unescape(rest);
    } else if c == '\'' {
      assert t[1] == '#' && t[..6] == "&#x27;" && t[6..] == rest;
      assert !StartsWith(t, "&amp;") && !StartsWith(t, "&lt;") && !StartsWith(t, "&gt;");
      assert !StartsWith(t, "&quot;");
      assert Unescape(t) == "'" + Unescape(rest);
    } else {
      assert t[0] == c && t[1..] == rest;
    }
  }

  /** Escaping loses nothing: `Unescape` recovers the original text. */
  lemma {:induction false} UnescapeEscape(s: string)
    ensures Unescape(Escape(s)) == s
  {
    if |s| > 0 {
      UnescapeCons(s[0], Escape(s[1..]));
      UnescapeEscape(s[1..]);
    }
  }

  /** The escape-skip heuristic: the text contains `<` immediately followed
      by an ASCII letter (the regex `<[a-zA-Z]`). */
  predicate HasTagStart(t: string) {
    exists k :: 0 <= k < |t| - 1 && t[k] == '<' && IsAsciiLetter(t[k + 1])
  }

  /** Step 1 of the formatter: escape unless the text looks like it embeds markup. */
  function Prepare(t: string): (r: string)
    ensures !HasTagStart(t) ==> Unescape(r) == t && '<' !in r
    ensures HasTagStart(t) ==> r == t
  {
    if HasTagStart(t) then t
    else
      UnescapeEscape(t);
      Escape(t)
  }

  // ---------------------------------------------------------------------
  // Rewrite rules
  // ---------------------------------------------------------------------

  /** A rule of the ordered list. `Span` is `open(.+?)close` replaced by
      `<tag>\1</tag>`; with `wordBounded` the pattern is `\bopen(.+?)close\b`.
      `Link` is `\[([^\]]+)\]\(([^\)]+)\)` and `Image` is
      `!\[([^\]]*)\]\(([^\)]+)\)`. */
  datatype Rule =
    | Span(open: string, close: string, tag: string, wordBounded: bool)
    | Link
    | Image

  // The rules, in the order the formatter applies them; the order matters
  // (bold before italic, link before image).
  const BoldStars := Span("**", "**", "strong", false)
  const BoldUnderscores := Span("__", "__", "strong", false)
  const ItalicStar := Span("*", "*", "em", false)
  const ItalicUnderscore := Span("_", "_", "em", true)
  const Strike := Span("~~", "~~", "s", false)
  const Code := Span("`", "`", "code", false)

  predicate WellFormed(r: Rule) {
    r.Span? ==> |r.open| > 0 && |r.close| > 0
  }

  /** A character without which the rule cannot match. */
  function KeyChar(r: Rule): char
    requires WellFormed(r)
  {
    match r
    case Span(open, _, _, _) => open[0]
    case Link => '['
    case Image => '['
  }

  /** The character every match of the rule starts with. */
  function LeadChar(r: Rule): char
    requires WellFormed(r)
  {
    if r.Image? then '!' else KeyChar(r)
  }

  /** `\b` just before position `i`, where `s[i]` is a word character. */
  predicate BoundaryBefore(s: string, i: nat)
    requires i <= |s|
  {
    i == 0 || !IsWordChar(s[i - 1])
  }

  /** `\b` at position `e`, where `s[e - 1]` is a word character. */
  predicate BoundaryAt(s: string, e: nat)
    requires e <= |s|
  {
    e == |s| || !IsWordChar(s[e])
  }

  /** `close` (and, for a bounded rule, a word boundary) follows position `e`. */
  predicate ClosesAt(s: string, close: string, bounded: bool, e: nat) {
    e <= |s| && StartsWith(s[e..], close) && (bounded ==> BoundaryAt(s, e + |close|))
  }

  /** The span `open content close` starting at `i` with the content ending
      at `e`: the content is non-empty and holds no newline (regex `.`). */
  predicate SpanEndsAt(s: string, open: string, close: string, bounded: bool, i: nat, e: nat) {
    && i + |open| < e <= |s|
    && StartsWith(s[i..], open)
    && (bounded ==> BoundaryBefore(s, i))
    && '\n' !in s[i + |open|..e]
    && ClosesAt(s, close, bounded, e)
  }

  /** Lazy search for the content end: the first `e >= j` that closes,
      giving up at the first newline. */
  function FindClose(s: string, close: string, bounded: bool, from: nat, j: nat): (r: Option<nat>)
    requires from < j
    requires j <= |s| + 1
    requires '\n' !in s[from..j - 1]
    decreases |s| + 1 - j
    ensures r.Some? ==> j <= r.value <= |s| && '\n' !in s[from..r.value] && ClosesAt(s, close, bounded, r.value)
    ensures r.Some? ==> forall e | j <= e < r.value :: !ClosesAt(s, close, bounded, e)
    ensures r.None? ==> forall e | j <= e <= |s| && '\n' !in s[from..e] :: !ClosesAt(s, close, bounded, e)
  {
    if j > |s| then None
    else if s[j - 1] == '\n' then
      assert forall e | j <= e <= |s| :: s[from..e][j - 1 - from] == '\n';
      None
    else
      assert s[from..j] == s[from..j - 1] + [s[j - 1]];
      if ClosesAt(s, close, bounded, j) then Some(j)
      else FindClose(s, close, bounded, from, j + 1)
  }

  /** The leftmost-shortest span starting at `i`, if any: the end of its content. */
  function SpanAt(s: string, open: string, close: string, bounded: bool, i: nat): (r: Option<nat>)
    ensures r.Some? ==> SpanEndsAt(s, open, close, bounded, i, r.value)
    ensures r.Some? ==> forall e: nat | e < r.value :: !SpanEndsAt(s, open, close, bounded, i, e)
    ensures r.None? ==> forall e: nat :: !SpanEndsAt(s, open, close, bounded, i, e)
  {
    if i + |open| < |s| + 1 && StartsWith(s[i..], open) && (bounded ==> BoundaryBefore(s, i)) then
      var from := i + |open|;
      assert s[from..from] == [];
      FindClose(s, close, bounded, from, from + 1)
    else None
  }

  /** First index at or after `from` holding `c`, or `|s|`. */
  function IndexFrom(s: string, c: char, from: nat): (k: nat)
    requires from <= |s|
    decreases |s| - from
    ensures from <= k <= |s|
    ensures forall m | from <= m < k :: s[m] != c
    ensures k < |s| ==> s[k] == c
  {
    if from == |s| || s[from] == c then from else IndexFrom(s, c, from + 1)
  }

  /** The first `c` at or after `from` is at `k` when `k` holds `c` and nothing before it does. */
  lemma IndexFromAt(s: string, c: char, from: nat, k: nat)
    requires from <= k < |s| && s[k] == c
    requires forall m | from <= m < k :: s[m] != c
    ensures IndexFrom(s, c, from) == k
  {
  }

  /** `\[([^\]]{minText,})\]\(([^\)]+)\)` read as a shape: `[` at `i`, the
      first `]` after it at `p` with at least `minText` characters between,
      `(` right after it, and the first `)` after that at `q`, with at least
      one character between. The classes may hold any character, newlines
      included. */
  predicate BracketShape(s: string, i: nat, minText: nat, p: nat, q: nat) {
    && i < p && p + 2 < q < |s|
    && s[i] == '[' && s[p] == ']' && s[p + 1] == '(' && s[q] == ')'
    && p - (i + 1) >= minText
    && (forall m | i + 1 <= m < p :: s[m] != ']')
    && (forall m | p + 2 <= m < q :: s[m] != ')')
  }

  /** The link and image pattern at `i`: the positions of the `]` and of
      the `)` when the pattern matches there, and `None` exactly when it
      does not. */
  function BracketAt(s: string, i: nat, minText: nat): (r: Option<(nat, nat)>)
    ensures r.Some? ==> BracketShape(s, i, minText, r.value.0, r.value.1)
    ensures forall p: nat, q: nat | BracketShape(s, i, minText, p, q) :: r == Some((p, q))
  {
    if i < |s| && s[i] == '[' then
      var p := IndexFrom(s, ']', i + 1);
      if p + 1 < |s| && p - (i + 1) >= minText && s[p + 1] == '(' then
        var q := IndexFrom(s, ')', p + 2);
        if q < |s| && q > p + 2 then Some((p, q)) else None
      else None
    else None
  }

  /** A match of a rule at `i`: where the match ends and what replaces it. */
  datatype Hit = Hit(end: nat, out: string)

  function Wrap(tag: string, content: string): string {
    "<" + tag + ">" + content + "</" + tag + ">"
  }

  function MatchAt(r: Rule, s: string, i: nat): (h: Option<Hit>)
    requires WellFormed(r)
    requires i < |s|
    ensures h.Some? ==> i < h.value.end <= |s|
    ensures h.Some? ==> s[i] == LeadChar(r) && KeyChar(r) in s[i..h.value.end]
  {
    match r
    case Span(open, close, tag, bounded) =>
      (match SpanAt(s, open, close, bounded, i)
       case Some(e) =>
         assert s[i..e][0] == open[0];
         Some(Hit(e + |close|, Wrap(tag, s[i + |open|..e])))
       case None => None)
    case Link =>
      (match BracketAt(s, i, 1)
       case Some((p, q)) =>
         assert s[i..q + 1][0] == '[';
         Some(Hit(q + 1, "<a href=\"" + s[p + 2..q] + "\">" + s[i + 1..p] + "</a>"))
       case None => None)
    case Image =>
      if s[i] == '!' then
        match BracketAt(s, i + 1, 0)
        case Some((p, q)) =>
          assert s[i..q + 1][1] == '[';
          Some(Hit(q + 1, "<ac:image><ri:url ri:value=\"" + s[p + 2..q] + "\" /></ac:image>"))
        case None => None
      else None
  }

  /** The leftmost-shortest span: content ending at `e`, and no shorter one. */
  predicate ShortestSpan(s: string, open: string, close: string, bounded: bool, i: nat, e: nat) {
    SpanEndsAt(s, open, close, bounded, i, e)
    && forall e': nat | e' < e :: !SpanEndsAt(s, open, close, bounded, i, e')
  }

  /** A span rule matches at `i` exactly when some span starts there, and
      then replaces the shortest one by its content wrapped in the rule's
      tag. */
  lemma SpanMatch(r: Rule, s: string, i: nat)
    requires r.Span? && WellFormed(r) && i < |s|
    ensures MatchAt(r, s, i).None? <==> forall e: nat :: !SpanEndsAt(s, r.open, r.close, r.wordBounded, i, e)
    ensures forall e: nat | ShortestSpan(s, r.open, r.close, r.wordBounded, i, e) ::
      MatchAt(r, s, i) == Some(Hit(e + |r.close|, Wrap(r.tag, s[i + |r.open|..e])))
  {
  }

  /** The link rule matches at `i` exactly when the bracket shape with a
      non-empty text starts there, and replaces it by an anchor whose
      `href` is the target and whose content is the text. */
  lemma LinkMatch(s: string, i: nat)
    requires i < |s|
    ensures MatchAt(Link, s, i).None? <==> forall p: nat, q: nat :: !BracketShape(s, i, 1, p, q)
    ensures forall p: nat, q: nat | BracketShape(s, i, 1, p, q) ::
      MatchAt(Link, s, i) == Some(Hit(q + 1, "<a href=\"" + s[p + 2..q] + "\">" + s[i + 1..p] + "</a>"))
  {
  }

  /** `!` at `i`, then the bracket shape with a text that may be empty. */
  predicate ImageShape(s: string, i: nat, p: nat, q: nat) {
    i < |s| && s[i] == '!' && BracketShape(s, i + 1, 0, p, q)
  }

  /** The image rule matches at `i` exactly when `!` is followed by the
      bracket shape, the text possibly empty, and replaces it by an image
      macro on the target; the text is dropped. */
  lemma ImageMatch(s: string, i: nat)
    requires i < |s|
    ensures MatchAt(Image, s, i).None? <==> forall p: nat, q: nat :: !ImageShape(s, i, p, q)
    ensures forall p: nat, q: nat | ImageShape(s, i, p, q) ::
      MatchAt(Image, s, i) == Some(Hit(q + 1, "<ac:image><ri:url ri:value=\"" + s[p + 2..q] + "\" /></ac:image>"))
  {
    if s[i] == '!' {
      var b := BracketAt(s, i + 1, 0);
      forall p: nat, q: nat | ImageShape(s, i, p, q)
        ensures b == Some((p, q))
      {
        assert BracketShape(s, i + 1, 0, p, q);
      }
      assert MatchAt(Image, s, i).None? <==> b.None?;
      if b.Some? {
        assert ImageShape(s, i, b.value.0, b.value.1);
      }
    }
  }

  /** `re.sub` of one rule over `s[i..]`: leftmost matches, left to right,
      each search resuming where the previous match ended. */
  function Rewrite(r: Rule, s: string, i: nat): string
    requires WellFormed(r)
    decreases |s| - i
  {
    if i >= |s| then []
    else
      match MatchAt(r, s, i)
      case Some(h) => h.out + Rewrite(r, s, h.end)
      case None => [s[i]] + Rewrite(r, s, i + 1)
  }

  lemma RewriteCopy(r: Rule, s: string, i: nat)
    requires WellFormed(r)
    requires i < |s|
    requires MatchAt(r, s, i).None?
    ensures Rewrite(r, s, i) == [s[i]] + Rewrite(r, s, i + 1)
  {
  }

  lemma RewriteHit(r: Rule, s: string, i: nat, h: Hit)
    requires WellFormed(r)
    requires i < |s|
    requires MatchAt(r, s, i) == Some(h)
    ensures Rewrite(r, s, i) == h.out + Rewrite(r, s, h.end)
  {
  }

  /** A cheap sufficient condition for the rule not to match at `m`. */
  predicate CannotStartAt(r: Rule, s: string, m: nat)
    requires WellFormed(r)
    requires m < |s|
  {
    || s[m] != LeadChar(r)
    || (r.Span? && !StartsWith(s[m..], r.open))
    || (r.Image? && (m + 1 == |s| || s[m + 1] != '['))
  }

  lemma CannotStartNoMatch(r: Rule, s: string, m: nat)
    requires WellFormed(r)
    requires m < |s|
    requires CannotStartAt(r, s, m)
    ensures MatchAt(r, s, m).None?
  {
  }

  /** Positions where the rule cannot match are copied unchanged. */
  lemma {:induction false} RewriteSkip(r: Rule, s: string, i: nat, j: nat)
    requires WellFormed(r)
    requires i <= j <= |s|
    requires forall m | i <= m < j :: CannotStartAt(r, s, m)
    ensures Rewrite(r, s, i) == s[i..j] + Rewrite(r, s, j)
    decreases j - i
  {
    if i < j {
      CannotStartNoMatch(r, s, i);
      RewriteCopy(r, s, i);
      RewriteSkip(r, s, i + 1, j);
      ConsSlice(s, i, j, Rewrite(r, s, i), Rewrite(r, s, i + 1), Rewrite(r, s, j));
    }
  }

  lemma ConsSlice(s: string, i: nat, j: nat, a: string, b: string, c: string)
    requires i < j <= |s|
    requires a == [s[i]] + b && b == s[i + 1..j] + c
    ensures a == s[i..j] + c
  {
    assert s[i..j] == [s[i]] + s[i + 1..j];
  }

  /** A rule whose key character does not occur changes nothing. */
  lemma RewriteUntouched(r: Rule, s: string, i: nat)
    requires WellFormed(r)
    requires i <= |s|
    requires KeyChar(r) !in s[i..]
    ensures Rewrite(r, s, i) == s[i..]
  {
    forall m | i <= m < |s|
      ensures CannotStartAt(r, s, m)
    {
      assert s[m] == s[i..][m - i];
      if r.Image? && m + 1 < |s| {
        assert s[m + 1] == s[i..][m + 1 - i];
      }
    }
    RewriteSkip(r, s, i, |s|);
  }

  /** `_convert_inline`: the escape decision, then each rule as a full
      pass over the previous rule's output. */
  /** The eight rules in the order they run. */
  function RuleAt(n: nat): (r: Rule)
    requires 1 <= n <= 8
    ensures WellFormed(r)
  {
    if n == 1 then BoldStars
    else if n == 2 then BoldUnderscores
    else if n == 3 then ItalicStar
    else if n == 4 then ItalicUnderscore
    else if n == 5 then Strike
    else if n == 6 then Code
    else if n == 7 then Link
    else Image
  }

  /** The text after the escape decision and the first `n` rules. */
  function Stage(n: nat, t: string): string
    requires n <= 8
  {
    if n == 0 then Prepare(t) else Rewrite(RuleAt(n), Stage(n - 1, t), 0)
  }

  function ConvertInline(t: string): string {
    Stage(8, t)
  }

  lemma ConvertInlineChain(t: string)
    ensures ConvertInline(t)
      == Rewrite(Image, Rewrite(Link, Rewrite(Code, Rewrite(Strike, Rewrite(ItalicUnderscore,
           Rewrite(ItalicStar, Rewrite(BoldUnderscores, Rewrite(BoldStars, Prepare(t), 0), 0), 0), 0), 0), 0), 0), 0)
  {
    assert Stage(1, t) == Rewrite(BoldStars, Prepare(t), 0);
    assert Stage(2, t) == Rewrite(BoldUnderscores, Stage(1, t), 0);
    assert Stage(3, t) == Rewrite(ItalicStar, Stage(2, t), 0);
    assert Stage(4, t) == Rewrite(ItalicUnderscore, Stage(3, t), 0);
    assert Stage(5, t) == Rewrite(Strike, Stage(4, t), 0);
    assert Stage(6, t) == Rewrite(Code, Stage(5, t), 0);
    assert Stage(7, t) == Rewrite(Link, Stage(6, t), 0);
    assert Stage(8, t) == Rewrite(Image, Stage(7, t), 0);
  }

  /** The four rules after the star-italic rule leave text without
      `_ ~ ` [` unchanged. */
  lemma LaterRulesUntouched(t: string)
    requires '_' !in t && '~' !in t && '`' !in t && '[' !in t
    ensures Rewrite(Image, Rewrite(Link, Rewrite(Code, Rewrite(Strike, Rewrite(ItalicUnderscore, t, 0), 0), 0), 0), 0) == t
  {
    assert t[0..] == t;
    RewriteUntouched(ItalicUnderscore, t, 0);
    RewriteUntouched(Strike, t, 0);
    RewriteUntouched(Code, t, 0);
    RewriteUntouched(Link, t, 0);
    RewriteUntouched(Image, t, 0);
  }

  predicate IsMarkupChar(c: char) {
    c == '*' || c == '_' || c == '~' || c == '`' || c == '[' || IsHtmlSpecial(c)
  }

  /** Text without any markup or special character comes out unchanged. */
  lemma PlainTextUnchanged(t: string)
    requires forall k | 0 <= k < |t| :: !IsMarkupChar(t[k])
    ensures ConvertInline(t) == t
  {
    ConvertInlineChain(t);
    assert !HasTagStart(t);
    assert Prepare(t) == t;
    assert t[0..] == t;
    RewriteUntouched(BoldStars, t, 0);
    RewriteUntouched(BoldUnderscores, t, 0);
    RewriteUntouched(ItalicStar, t, 0);
    LaterRulesUntouched(t);
  }

  /** A span whose content holds no earlier closing delimiter is matched
      exactly up to that delimiter (shortest match). */
  lemma SpanHit(r: Rule, s: string, i: nat, e: nat)
    requires r.Span? && WellFormed(r) && !r.wordBounded
    requires SpanEndsAt(s, r.open, r.close, false, i, e)
    requires forall e' | i + |r.open| < e' < e :: !StartsWith(s[e'..], r.close)
    ensures i < |s|
    ensures MatchAt(r, s, i) == Some(Hit(e + |r.close|, Wrap(r.tag, s[i + |r.open|..e])))
  {
    var v := SpanAt(s, r.open, r.close, false, i);
    assert v.Some?;
    assert v.value == e;
  }

  lemma NoTagStart(t: string)
    requires '<' !in t
    ensures !HasTagStart(t)
  {
  }

  /** Text without HTML-special characters passes the escape step unchanged. */
  lemma PrepareUnchanged(t: string)
    requires forall k | 0 <= k < |t| :: !IsHtmlSpecial(t[k])
    ensures Prepare(t) == t
  {
    NoTagStart(t);
  }

}
