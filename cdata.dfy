/** The escape that keeps a code body inside one CDATA section: every `]]>`
    is split as `]]` + `]]><![CDATA[` + `>`, closing the section just before
    the `>` and reopening a new one. */
module Cdata {

  /** The sequence that ends a CDATA section. */
  const Close: string := "]]>"

  /** What replaces each `]]>`. */
  const Replacement: string := "]]]]><![CDATA[>"

  /** The marker the replacement inserts between `]]` and `>`. */
  const Marker: string := "]]><![CDATA["

  /** The sequence that opens a CDATA section. */
  const Open: string := "<![CDATA["

  /** `s.replace("]]>", "]]]]><![CDATA[>")`: a left-to-right scan replacing
      non-overlapping occurrences. */
  function Esc(s: string): (r: string)
    ensures |r| >= |s|
    ensures |s| > 0 ==> r[0] == s[0]
  {
    if |s| < 3 then s
    else if s[..3] == Close then Replacement + Esc(s[3..])
    else [s[0]] + Esc(s[1..])
  }

  /** The marker starts `t`. */
  predicate MarkerAt(t: string) {
    |t| >= 12 && t[..12] == Marker
  }

  /** Deletes every inserted marker, scanning left to right. */
  function Unsplit(t: string): string {
    if MarkerAt(t) then Unsplit(t[12..])
    else if |t| == 0 then []
    else [t[0]] + Unsplit(t[1..])
  }

  /** The second character of the escape is the second character of the
      input, or `]` when the input starts with `]]>`. */
  lemma EscSecond(s: string)
    requires |s| >= 2
    ensures |Esc(s)| >= 2
    ensures Esc(s)[1] == s[1] || (Esc(s)[1] == ']' && s[..3] == Close)
  {
  }

  lemma MarkerChars(t: string)
    requires MarkerAt(t)
    ensures t[0] == ']' && t[1] == ']' && t[2] == '>'
  {
    assert t[..12][0] == ']' && t[..12][1] == ']' && t[..12][2] == '>';
  }

  /** A character that does not start a marker is kept. */
  lemma UnsplitCons(c: char, x: string)
    requires !MarkerAt([c] + x)
    ensures Unsplit([c] + x) == [c] + Unsplit(x)
  {
    assert ([c] + x)[1..] == x;
  }

  /** The replacement is `]]`, the marker and `>`. */
  lemma ReplacementSplit(x: string)
    ensures Replacement + x == "]" + ("]" + (Marker + (">" + x)))
    ensures (Marker + x)[0] == ']' && (Marker + x)[1] == ']'
  {
  }

  /** A marker at the front is deleted. */
  lemma UnsplitMarker(y: string)
    ensures Unsplit(Marker + y) == Unsplit(y)
  {
    var t := Marker + y;
    assert t[..12] == Marker;
    assert t[12..] == y;
  }

  /** Text whose third character is not `>` does not start with the marker. */
  lemma NotMarker(t: string)
    requires |t| >= 3 && (t[0] != ']' || t[2] != '>')
    ensures !MarkerAt(t)
  {
    if MarkerAt(t) {
      MarkerChars(t);
    }
  }

  /** Unescaping the replacement gives back `]]>`. */
  lemma UnsplitReplacement(x: string)
    ensures Unsplit(Replacement + x) == Close + Unsplit(x)
  {
    ReplacementSplit(x);
    UnsplitSplitReplacement(x);
    assert "]" + ("]" + (">" + Unsplit(x))) == Close + Unsplit(x);
  }

  lemma UnsplitSplitReplacement(x: string)
    ensures Unsplit("]" + ("]" + (Marker + (">" + x)))) == "]" + ("]" + (">" + Unsplit(x)))
  {
    var y := ">" + x;
    var m := Marker + y;
    ReplacementSplit(y);
    if |y| >= 3 {
      NotMarker(y);
    } else if MarkerAt(y) {
      MarkerChars(y);
    }
    UnsplitCons('>', x);
    UnsplitMarker(y);
    NotMarker("]" + m);
    UnsplitCons(']', m);
    NotMarker("]" + ("]" + m));
    UnsplitCons(']', "]" + m);
  }

  /** Deleting the markers restores the text that was escaped. */
  lemma {:induction false} UnsplitEsc(s: string)
    ensures Unsplit(Esc(s)) == s
  {
    if |s| < 3 {
      if |s| > 0 {
        assert s == [s[0]] + s[1..];
        UnsplitCons(s[0], s[1..]);
        if |s| > 1 {
          assert s[1..] == [s[1]] + s[2..];
          UnsplitCons(s[1], s[2..]);
          assert s[2..] == [];
        }
      }
    } else if s[..3] == Close {
      UnsplitReplacement(Esc(s[3..]));
      UnsplitEsc(s[3..]);
      assert s == Close + s[3..];
    } else {
      var x := Esc(s[1..]);
      EscSecond(s[1..]);
      if MarkerAt([s[0]] + x) {
        MarkerChars([s[0]] + x);
      }
      UnsplitCons(s[0], x);
      UnsplitEsc(s[1..]);
      assert s == [s[0]] + s[1..];
    }
  }

  /** `]]>` occurs at `k` in `t`. */
  predicate CloseAt(t: string, k: nat) {
    k + 3 <= |t| && t[k] == ']' && t[k + 1] == ']' && t[k + 2] == '>'
  }

  /** Every `]]>` is immediately followed by `<![CDATA[`, so a CDATA
      section holding `t` is never left for good before its own end. */
  predicate Reopened(t: string) {
    forall k: nat | k < |t| && CloseAt(t, k) :: k + 12 <= |t| && t[k + 3..k + 12] == Open
  }

  lemma ReplacementReopened(x: string)
    requires Reopened(x)
    ensures Reopened(Replacement + x)
  {
    var t := Replacement + x;
    forall k: nat | CloseAt(t, k)
      ensures k + 12 <= |t| && t[k + 3..k + 12] == Open
    {
      if k < 15 {
        assert k == 2 by {
          assert t[..15] == Replacement;
        }
        assert t[5..14] == Replacement[5..14];
      } else {
        assert CloseAt(x, k - 15);
        assert t[k + 3..k + 12] == x[k - 15 + 3..k - 15 + 12];
      }
    }
  }

  lemma ConsReopened(c: char, x: string)
    requires Reopened(x)
    requires !(c == ']' && |x| >= 2 && x[0] == ']' && x[1] == '>')
    ensures Reopened([c] + x)
  {
    var t := [c] + x;
    forall k: nat | CloseAt(t, k)
      ensures k + 12 <= |t| && t[k + 3..k + 12] == Open
    {
      assert k > 0;
      assert CloseAt(x, k - 1);
      assert t[k + 3..k + 12] == x[k - 1 + 3..k - 1 + 12];
    }
  }

  /** The escaped body never contains a bare `]]>`. */
  lemma {:induction false} EscReopened(s: string)
    ensures Reopened(Esc(s))
  {
    if |s| < 3 {
    } else if s[..3] == Close {
      EscReopened(s[3..]);
      ReplacementReopened(Esc(s[3..]));
    } else {
      var x := Esc(s[1..]);
      EscReopened(s[1..]);
      EscSecond(s[1..]);
      ConsReopened(s[0], x);
    }
  }
}
