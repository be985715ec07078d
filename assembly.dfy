/** The last steps of the converter: the rendered blocks are joined with
    newlines, every run of three or more newlines becomes two, and the
    result is stripped. */
module Assembly {
  import opened Text

  /** Number of newlines `s` starts with. */
  function Lead(s: string): (n: nat)
    ensures n <= |s|
    ensures forall k | 0 <= k < n :: s[k] == '\n'
    ensures n < |s| ==> s[n] != '\n'
  {
    if |s| > 0 && s[0] == '\n' then 1 + Lead(s[1..]) else 0
  }

  /** `re.sub(r'\n{3,}', '\n\n', s)`: each maximal run of at least three
      newlines, found left to right, is replaced by two. */
  function Collapse(s: string): string
    decreases |s|
  {
    if |s| == 0 then []
    else
      var n := Lead(s);
      if n >= 3 then "\n\n" + Collapse(s[n..]) else [s[0]] + Collapse(s[1..])
  }

  /** No three newlines in a row. */
  predicate NoRun3(s: string) {
    forall k | 0 <= k < |s| - 2 :: !(s[k] == '\n' && s[k + 1] == '\n' && s[k + 2] == '\n')
  }

  lemma LeadCons(c: char, x: string)
    ensures Lead([c] + x) == if c == '\n' then 1 + Lead(x) else 0
  {
    assert ([c] + x)[1..] == x;
  }

  lemma LeadTwo(c: string)
    requires Lead(c) == 0
    ensures Lead("\n\n" + c) == 2
  {
    LeadCons('\n', "\n" + c);
    LeadCons('\n', c);
    assert "\n\n" + c == ['\n'] + ("\n" + c);
  }

  /** The collapsed text starts with as many newlines as the input, but
      never more than two. */
  lemma {:induction false} CollapseLead(s: string)
    ensures Lead(Collapse(s)) == if Lead(s) >= 3 then 2 else Lead(s)
    decreases |s|
  {
    if |s| > 0 {
      var n := Lead(s);
      if n >= 3 {
        assert Collapse(s) == "\n\n" + Collapse(s[n..]);
        CollapseLead(s[n..]);
        LeadTwo(Collapse(s[n..]));
      } else {
        var c := Collapse(s[1..]);
        assert Collapse(s) == [s[0]] + c;
        CollapseLead(s[1..]);
        LeadCons(s[0], c);
        LeadCons(s[0], s[1..]);
        assert s == [s[0]] + s[1..];
      }
    }
  }

  lemma NoRun3Cons(c: char, x: string)
    requires NoRun3(x)
    requires c == '\n' ==> Lead(x) < 2
    ensures NoRun3([c] + x)
  {
    var t := [c] + x;
    forall k | 0 <= k < |t| - 2
      ensures !(t[k] == '\n' && t[k + 1] == '\n' && t[k + 2] == '\n')
    {
      if k > 0 {
        assert t[k] == x[k - 1] && t[k + 1] == x[k] && t[k + 2] == x[k + 1];
      }
    }
  }

  /** The collapsed text has no run of three newlines. */
  lemma {:induction false} CollapseNoRun3(s: string)
    ensures NoRun3(Collapse(s))
    decreases |s|
  {
    if |s| > 0 {
      var n := Lead(s);
      if n >= 3 {
        var c := Collapse(s[n..]);
        CollapseNoRun3(s[n..]);
        CollapseLead(s[n..]);
        NoRun3Cons('\n', c);
        LeadCons('\n', c);
        NoRun3Cons('\n', "\n" + c);
        assert "\n\n" + c == ['\n'] + ("\n" + c);
      } else {
        CollapseNoRun3(s[1..]);
        CollapseLead(s[1..]);
        if s[0] == '\n' {
          assert s == [s[0]] + s[1..];
          LeadCons(s[0], s[1..]);
        }
        NoRun3Cons(s[0], Collapse(s[1..]));
      }
    }
  }

  /** Text without such a run is left as it is, so collapsing twice is
      collapsing once. */
  lemma {:induction false} CollapseKeeps(s: string)
    requires NoRun3(s)
    ensures Collapse(s) == s
    decreases |s|
  {
    if |s| > 0 {
      if |s| >= 3 {
        assert !(s[0] == '\n' && s[1] == '\n' && s[2] == '\n');
      }
      assert NoRun3(s[1..]) by {
        forall k | 0 <= k < |s[1..]| - 2
          ensures !(s[1..][k] == '\n' && s[1..][k + 1] == '\n' && s[1..][k + 2] == '\n')
        {
          assert s[1..][k] == s[k + 1];
        }
      }
      CollapseKeeps(s[1..]);
    }
  }

  lemma CollapseIdempotent(s: string)
    ensures Collapse(Collapse(s)) == Collapse(s)
  {
    CollapseNoRun3(s);
    CollapseKeeps(Collapse(s));
  }

  /** A piece of text without the run is still without it after stripping. */
  lemma StripNoRun3(s: string)
    requires NoRun3(s)
    ensures NoRun3(Strip(s))
  {
    var a := LeadingSpaces(s);
    var r := Strip(s);
    forall k | 0 <= k < |r| - 2
      ensures !(r[k] == '\n' && r[k + 1] == '\n' && r[k + 2] == '\n')
    {
      assert r[k] == s[a + k] && r[k + 1] == s[a + k + 1] && r[k + 2] == s[a + k + 2];
    }
  }

  /** What `convert` returns for the rendered blocks. */
  function Output(result: seq<string>): string {
    Strip(Collapse(Join(result, "\n")))
  }

  /** The output never holds three newlines in a row. */
  lemma OutputNoRun3(result: seq<string>)
    ensures NoRun3(Output(result))
  {
    CollapseNoRun3(Join(result, "\n"));
    StripNoRun3(Collapse(Join(result, "\n")));
  }

  /** Text without newlines passes the collapse unchanged, and prefixes
      without newlines are copied. */
  lemma {:induction false} CollapsePrefix(a: string, x: string)
    requires '\n' !in a
    ensures Collapse(a + x) == a + Collapse(x)
    decreases |a|
  {
    if |a| > 0 {
      var t := a + x;
      assert t[0] == a[0] && a[0] != '\n';
      LeadCons(a[0], a[1..] + x);
      assert t == [a[0]] + (a[1..] + x);
      assert t[1..] == a[1..] + x;
      assert Lead(t) == 0;
      assert Collapse(t) == [t[0]] + Collapse(t[1..]);
      CollapsePrefix(a[1..], x);
      assert a + Collapse(x) == [a[0]] + (a[1..] + Collapse(x));
    } else {
      assert a + x == x;
    }
  }

  /** Because the collapse runs on the whole joined output, it also
      reaches into code blocks: two empty code lines between two lines
      become one. */
  lemma CodeBodyBlankLines(a: string, b: string)
    requires '\n' !in a && '\n' !in b
    ensures Collapse(Join([a, "", "", b], "\n")) == Join([a, "", b], "\n")
  {
    var x := "\n\n\n" + b;
    assert [a, "", "", b][1..] == ["", "", b];
    assert ["", "", b][1..] == ["", b];
    assert ["", b][1..] == [b];
    assert Join([b], "\n") == b;
    assert Join(["", b], "\n") == "\n" + b;
    assert Join(["", "", b], "\n") == "\n\n" + b;
    assert Join([a, "", "", b], "\n") == a + x;
    assert [a, "", b][1..] == ["", b];
    assert Join([a, "", b], "\n") == a + ("\n\n" + b);
    CollapsePrefix(a, x);
    LeadCons('\n', "\n\n" + b);
    LeadCons('\n', "\n" + b);
    LeadCons('\n', b);
    if |b| > 0 {
      assert b[0] in b;
    }
    assert "\n\n\n" + b == ['\n'] + (['\n'] + (['\n'] + b));
    assert Lead(x) == 3;
    assert x[3..] == b;
    assert NoRun3(b);
    CollapseKeeps(b);
  }
}
