/** Worked properties of the inline formatter: the rule order in action. */
module InlineExamples {
  import opened Text
  import opened Inline

  predicate Plain(t: string) {
    forall k | 0 <= k < |t| :: !IsMarkupChar(t[k]) && t[k] != '\n'
  }

  lemma BoldHit(x: string, rest: string)
    requires Plain(x) && |x| > 0
    ensures MatchAt(BoldStars, "**" + x + "**" + rest, 0) == Some(Hit(|x| + 4, Wrap("strong", x)))
  {
    var s0 := "**" + x + "**" + rest;
    var a := 2 + |x|;
    assert s0[2..a] == x;
    assert s0[a..] == "**" + rest;
    assert SpanEndsAt(s0, "**", "**", false, 0, a);
    forall e' | 2 < e' < a
      ensures !StartsWith(s0[e'..], "**")
    {
      assert s0[e'..][0] == s0[e'] == x[e' - 2];
    }
    SpanHit(BoldStars, s0, 0, a);
  }

  lemma BoldSkip(pre: string, rest: string, mid: string, y: string)
    requires Plain(mid) && Plain(y) && |y| > 0
    requires rest == mid + "*" + y + "*"
    ensures Rewrite(BoldStars, pre + rest, |pre|) == rest
  {
    var s := pre + rest;
    assert s[|pre|..] == rest;
    forall m | |pre| <= m < |s|
      ensures CannotStartAt(BoldStars, s, m)
    {
      var k := m - |pre|;
      assert s[m] == rest[k];
      if s[m] == '*' && m + 1 < |s| {
        assert k == |mid|;
        assert s[m + 1] == rest[k + 1] == y[0];
        assert s[m..][1] != '*';
      }
    }
    RewriteSkip(BoldStars, s, |pre|, |s|);
    assert Rewrite(BoldStars, s, |s|) == [];
  }

  lemma BoldStage(x: string, rest: string, mid: string, y: string)
    requires Plain(x) && Plain(mid) && Plain(y) && |x| > 0 && |y| > 0
    requires rest == mid + "*" + y + "*"
    ensures Rewrite(BoldStars, "**" + x + "**" + rest, 0) == Wrap("strong", x) + rest
  {
    var pre := "**" + x + "**";
    var s0 := pre + rest;
    BoldHit(x, rest);
    BoldSkip(pre, rest, mid, y);
    RewriteHit(BoldStars, s0, 0, Hit(|pre|, Wrap("strong", x)));
  }

  lemma ItalicHit(head: string, y: string)
    requires Plain(y) && |y| > 0
    ensures var s := head + "*" + y + "*";
      MatchAt(ItalicStar, s, |head|) == Some(Hit(|s|, Wrap("em", y)))
  {
    var s := head + "*" + y + "*";
    var p := |head|;
    var e := p + 1 + |y|;
    assert ItalicStar.open == "*" && ItalicStar.close == "*" && ItalicStar.tag == "em";
    assert s[p + 1..e] == y;
    assert s[p..] == "*" + y + "*";
    assert s[e..] == "*";
    assert SpanEndsAt(s, "*", "*", false, p, e);
    forall e' | p + 1 < e' < e
      ensures !StartsWith(s[e'..], "*")
    {
      assert s[e'..][0] == s[e'] == y[e' - p - 1];
    }
    SpanHit(ItalicStar, s, p, e);
    assert e + 1 == |s|;
  }

  lemma ItalicStage(x: string, mid: string, head: string, y: string)
    requires Plain(x) && Plain(mid) && Plain(y) && |y| > 0
    requires head == Wrap("strong", x) + mid
    ensures Rewrite(ItalicStar, head + "*" + y + "*", 0) == head + Wrap("em", y)
  {
    var s1 := head + "*" + y + "*";
    var p := |head|;
    StarFree(x, mid, head);
    forall m | 0 <= m < p
      ensures CannotStartAt(ItalicStar, s1, m)
    {
      assert s1[m] == head[m];
      assert head[m] in head;
    }
    ItalicHit(head, y);
    assert s1[..p] == head;
    calc {
      Rewrite(ItalicStar, s1, 0);
    == { RewriteSkip(ItalicStar, s1, 0, p); }
      s1[0..p] + Rewrite(ItalicStar, s1, p);
    == { RewriteHit(ItalicStar, s1, p, Hit(|s1|, Wrap("em", y))); }
      s1[0..p] + (Wrap("em", y) + Rewrite(ItalicStar, s1, |s1|));
    }
  }

  /** The bold output in front holds no star. */
  lemma StarFree(x: string, mid: string, head: string)
    requires Plain(x) && Plain(mid)
    requires head == Wrap("strong", x) + mid
    ensures '*' !in head
  {
    assert '*' !in x && '*' !in mid;
    assert '*' !in "<strong>" && '*' !in "</strong>";
    assert head == "<strong>" + x + "</strong>" + mid;
  }

  lemma BoldItalicShape(x: string, mid: string, y: string, rest: string, head: string)
    requires rest == mid + "*" + y + "*"
    requires head == Wrap("strong", x) + mid
    ensures "**" + x + "**" + rest == "**" + x + "**" + mid + "*" + y + "*"
    ensures Wrap("strong", x) + rest == head + "*" + y + "*"
  {
  }

  lemma BoldFront(x: string, mid: string, y: string, rest: string, head: string)
    requires Plain(x) && Plain(mid) && Plain(y) && |x| > 0 && |y| > 0
    requires rest == mid + "*" + y + "*"
    requires head == Wrap("strong", x) + mid
    ensures Rewrite(BoldUnderscores, Rewrite(BoldStars, Prepare("**" + x + "**" + rest), 0), 0)
         == head + "*" + y + "*"
  {
    var s0 := "**" + x + "**" + rest;
    var s1 := head + "*" + y + "*";
    BoldItalicShape(x, mid, y, rest, head);
    NoSpecials(x, rest, mid, y);
    PrepareUnchanged(s0);
    BoldStage(x, rest, mid, y);
    NoUnderscore(x, mid, y, head);
    RewriteUntouched(BoldUnderscores, s1, 0);
  }

  lemma NoSpecials(x: string, rest: string, mid: string, y: string)
    requires Plain(x) && Plain(mid) && Plain(y)
    requires rest == mid + "*" + y + "*"
    ensures forall k | 0 <= k < |"**" + x + "**" + rest| :: !IsHtmlSpecial(("**" + x + "**" + rest)[k])
  {
  }

  lemma NoUnderscore(x: string, mid: string, y: string, head: string)
    requires Plain(x) && Plain(mid) && Plain(y)
    requires head == Wrap("strong", x) + mid
    ensures '_' !in (head + "*" + y + "*")[0..]
  {
    var s1 := head + "*" + y + "*";
    assert s1 == "<strong>" + x + "</strong>" + mid + "*" + y + "*";
    assert s1[0..] == s1;
  }

  lemma ItalicBack(x: string, mid: string, head: string, y: string)
    requires Plain(x) && Plain(mid) && Plain(y) && |y| > 0
    requires head == Wrap("strong", x) + mid
    ensures Rewrite(Image, Rewrite(Link, Rewrite(Code, Rewrite(Strike, Rewrite(ItalicUnderscore,
              Rewrite(ItalicStar, head + "*" + y + "*", 0), 0), 0), 0), 0), 0)
         == head + Wrap("em", y)
  {
    var s3 := head + Wrap("em", y);
    ItalicStage(x, mid, head, y);
    PlainQuiet(x);
    PlainQuiet(mid);
    PlainQuiet(y);
    QuietAppend("<strong>", x);
    QuietAppend("<strong>" + x, "</strong>");
    QuietAppend(Wrap("strong", x), mid);
    QuietAppend("<em>", y);
    QuietAppend("<em>" + y, "</em>");
    QuietAppend(head, Wrap("em", y));
    LaterRulesUntouched(s3);
  }

  /** Free of the characters the last five rules need. */
  predicate Quiet(t: string) {
    '_' !in t && '~' !in t && '`' !in t && '[' !in t
  }

  lemma PlainQuiet(t: string)
    requires Plain(t)
    ensures Quiet(t)
  {
  }

  lemma QuietAppend(a: string, b: string)
    requires Quiet(a) && Quiet(b)
    ensures Quiet(a + b)
  {
  }

  /** Bold runs before italic, so `**x**` followed by `*y*` is not mis-nested
      (for instance `**bold** and *italic*`). */
  lemma BoldThenItalic(x: string, mid: string, y: string)
    requires Plain(x) && Plain(mid) && Plain(y) && |x| > 0 && |y| > 0
    ensures ConvertInline("**" + x + "**" + mid + "*" + y + "*")
         == Wrap("strong", x) + mid + Wrap("em", y)
  {
    var rest := mid + "*" + y + "*";
    var head := Wrap("strong", x) + mid;
    BoldItalicShape(x, mid, y, rest, head);
    ConvertInlineChain("**" + x + "**" + rest);
    BoldFront(x, mid, y, rest, head);
    ItalicBack(x, mid, head, y);
  }

  /** Without emphasis characters only the link and image rules can fire. */
  lemma OnlyBracketRules(t: string)
    requires forall k | 0 <= k < |t| :: !IsHtmlSpecial(t[k])
    requires '*' !in t && '_' !in t && '~' !in t && '`' !in t
    ensures ConvertInline(t) == Rewrite(Image, Rewrite(Link, t, 0), 0)
  {
    ConvertInlineChain(t);
    PrepareUnchanged(t);
    assert t[0..] == t;
    RewriteUntouched(BoldStars, t, 0);
    RewriteUntouched(BoldUnderscores, t, 0);
    RewriteUntouched(ItalicStar, t, 0);
    RewriteUntouched(ItalicUnderscore, t, 0);
    RewriteUntouched(Strike, t, 0);
    RewriteUntouched(Code, t, 0);
  }

  /** Link text and target: plain, on one line, without the closing bracket. */
  predicate LinkPart(t: string, stop: char) {
    |t| > 0 && Plain(t) && stop !in t
  }

  lemma NoSpecialsInBracket(a: string, u: string)
    requires Plain(a) && Plain(u)
    ensures var s := "![" + a + "](" + u + ")";
      && (forall k | 0 <= k < |s| :: !IsHtmlSpecial(s[k]))
      && '*' !in s && '_' !in s && '~' !in s && '`' !in s
  {
  }

  lemma LinkBracket(a: string, u: string)
    requires LinkPart(a, ']') && LinkPart(u, ')')
    ensures BracketAt("![" + a + "](" + u + ")", 1, 1) == Some(((2 + |a|) as nat, (4 + |a| + |u|) as nat))
  {
    var s := "![" + a + "](" + u + ")";
    var p := 2 + |a|;
    var q := p + 2 + |u|;
    assert forall m | 2 <= m < p :: s[m] == a[m - 2];
    IndexFromAt(s, ']', 2, p);
    assert forall m | p + 2 <= m < q :: s[m] == u[m - p - 2];
    IndexFromAt(s, ')', p + 2, q);
  }

  lemma LinkStage(a: string, u: string)
    requires LinkPart(a, ']') && LinkPart(u, ')')
    ensures Rewrite(Link, "![" + a + "](" + u + ")", 0)
         == "!" + ("<a href=\"" + u + "\">" + a + "</a>")
  {
    var s := "![" + a + "](" + u + ")";
    var p := 2 + |a|;
    var q := p + 2 + |u|;
    var link := "<a href=\"" + u + "\">" + a + "</a>";
    LinkBracket(a, u);
    assert s[2..p] == a && s[p + 2..q] == u;
    assert MatchAt(Link, s, 1) == Some(Hit(q + 1, link));
    calc {
      Rewrite(Link, s, 0);
    == { RewriteCopy(Link, s, 0); }
      [s[0]] + Rewrite(Link, s, 1);
    == { RewriteHit(Link, s, 1, Hit(q + 1, link)); }
      [s[0]] + (link + Rewrite(Link, s, q + 1));
    }
  }

  lemma NoBracketInAnchor(a: string, u: string)
    requires Plain(a) && Plain(u)
    ensures '[' !in ("!" + ("<a href=\"" + u + "\">" + a + "</a>"))[0..]
  {
    var r := "!" + ("<a href=\"" + u + "\">" + a + "</a>");
    assert r[0..] == r;
  }

  /** The link rule runs before the image rule, so in `![a](u)` with a
      non-empty alt text the link rule takes `[a](u)` and the `!` is left
      in front of an anchor. */
  lemma ImageWithAltBecomesLink(a: string, u: string)
    requires LinkPart(a, ']') && LinkPart(u, ')')
    ensures ConvertInline("![" + a + "](" + u + ")")
         == "!" + ("<a href=\"" + u + "\">" + a + "</a>")
  {
    var s := "![" + a + "](" + u + ")";
    var r := "!" + ("<a href=\"" + u + "\">" + a + "</a>");
    NoSpecialsInBracket(a, u);
    OnlyBracketRules(s);
    LinkStage(a, u);
    NoBracketInAnchor(a, u);
    RewriteUntouched(Image, r, 0);
  }

  lemma ImageBracket(u: string)
    requires LinkPart(u, ')')
    ensures BracketAt("![](" + u + ")", 1, 1).None?
    ensures BracketAt("![](" + u + ")", 1, 0) == Some((2 as nat, (4 + |u|) as nat))
  {
    var s := "![](" + u + ")";
    var q := 4 + |u|;
    IndexFromAt(s, ']', 2, 2);
    assert forall m | 4 <= m < q :: s[m] == u[m - 4];
    IndexFromAt(s, ')', 4, q);
  }

  lemma EmptyAltLinkStage(u: string)
    requires LinkPart(u, ')')
    ensures Rewrite(Link, "![](" + u + ")", 0) == "![](" + u + ")"
  {
    var s := "![](" + u + ")";
    ImageBracket(u);
    assert MatchAt(Link, s, 1).None?;
    assert s[0..] == s;
    assert '[' !in s[2..];
    calc {
      Rewrite(Link, s, 0);
    == { RewriteSkip(Link, s, 0, 1); }
      s[0..1] + Rewrite(Link, s, 1);
    == { RewriteCopy(Link, s, 1); }
      s[0..1] + ([s[1]] + Rewrite(Link, s, 2));
    == { RewriteUntouched(Link, s, 2); }
      s[0..1] + ([s[1]] + s[2..]);
    }
  }

  /** With an empty alt text the link rule (which needs at least one
      character) does not fire and `![](u)` becomes an image macro. */
  lemma EmptyAltImage(u: string)
    requires LinkPart(u, ')')
    ensures ConvertInline("![](" + u + ")")
         == "<ac:image><ri:url ri:value=\"" + u + "\" /></ac:image>"
  {
    var s := "![](" + u + ")";
    var q := 4 + |u|;
    var img := "<ac:image><ri:url ri:value=\"" + u + "\" /></ac:image>";
    NoSpecialsInBracket([], u);
    assert "![" + [] + "](" + u + ")" == s;
    OnlyBracketRules(s);
    EmptyAltLinkStage(u);
    ImageBracket(u);
    assert s[4..q] == u;
    assert MatchAt(Image, s, 0) == Some(Hit(q + 1, img));
    RewriteHit(Image, s, 0, Hit(q + 1, img));
  }
}
