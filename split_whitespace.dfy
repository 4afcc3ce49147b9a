/**
 * Rust's `str::split_whitespace`, restricted to the ASCII whitespace bytes
 * that `char::is_whitespace` accepts, and its inverse `Join`.
 */
module Whitespace {
  import opened Utf8

  const TAB: byte := 0x09

  /** Space, horizontal tab, line feed, vertical tab, form feed, carriage return. */
  predicate IsWhitespace(b: byte) { b == 0x20 || 0x09 <= b <= 0x0D }

  /** A non-empty run of non-whitespace bytes: the shape of every split piece. */
  predicate IsToken(s: seq<byte>) {
    |s| > 0 && forall i :: 0 <= i < |s| ==> !IsWhitespace(s[i])
  }

  /** Length of the longest whitespace-free prefix of `s`. */
  function TokenLength(s: seq<byte>): (n: nat)
    ensures n <= |s|
    ensures forall i :: 0 <= i < n ==> !IsWhitespace(s[i])
    ensures n < |s| ==> IsWhitespace(s[n])
    decreases |s|
  {
    if |s| == 0 || IsWhitespace(s[0]) then 0 else 1 + TokenLength(s[1..])
  }

  /** The pieces of `s` between runs of whitespace, in order, empty pieces dropped. */
  function SplitWhitespace(s: seq<byte>): (r: seq<seq<byte>>)
    ensures forall k :: 0 <= k < |r| ==> IsToken(r[k])
    decreases |s|
  {
    if |s| == 0 then []
    else if IsWhitespace(s[0]) then SplitWhitespace(s[1..])
    else
      var n := TokenLength(s);
      [s[..n]] + SplitWhitespace(s[n..])
  }

  /** The tokens joined with one separator byte between neighbours. */
  function Join(tokens: seq<seq<byte>>, sep: byte): seq<byte>
    decreases |tokens|
  {
    if |tokens| == 0 then []
    else if |tokens| == 1 then tokens[0]
    else tokens[0] + [sep] + Join(tokens[1..], sep)
  }

  lemma JoinThree(a: seq<byte>, b: seq<byte>, d: seq<byte>, sep: byte)
    ensures Join([a, b, d], sep) == a + [sep] + b + [sep] + d
  {
    assert [a, b, d][1..] == [b, d];
    assert [b, d][1..] == [d];
    assert Join([b, d], sep) == b + [sep] + d;
    assert Join([a, b, d], sep) == a + [sep] + (b + [sep] + d);
  }

  lemma JoinFour(a: seq<byte>, b: seq<byte>, d: seq<byte>, e: seq<byte>, sep: byte)
    ensures Join([a, b, d, e], sep) == a + [sep] + b + [sep] + d + [sep] + e
  {
    assert [a, b, d, e][1..] == [b, d, e];
    JoinThree(b, d, e, sep);
    assert Join([a, b, d, e], sep) == a + [sep] + (b + [sep] + d + [sep] + e);
  }

  /** The bytes of `s` that are not whitespace, in order. */
  function NonWhitespace(s: seq<byte>): seq<byte>
    decreases |s|
  {
    if |s| == 0 then []
    else if IsWhitespace(s[0]) then NonWhitespace(s[1..])
    else [s[0]] + NonWhitespace(s[1..])
  }

  function Concat(ss: seq<seq<byte>>): seq<byte>
    decreases |ss|
  {
    if |ss| == 0 then [] else ss[0] + Concat(ss[1..])
  }

  lemma {:induction false} NonWhitespaceAppend(a: seq<byte>, b: seq<byte>)
    ensures NonWhitespace(a + b) == NonWhitespace(a) + NonWhitespace(b)
    decreases |a|
  {
    if |a| == 0 {
      assert a + b == b;
    } else {
      assert (a + b)[1..] == a[1..] + b;
      NonWhitespaceAppend(a[1..], b);
    }
  }

  lemma {:induction false} NonWhitespaceOfToken(s: seq<byte>)
    requires forall i :: 0 <= i < |s| ==> !IsWhitespace(s[i])
    ensures NonWhitespace(s) == s
    decreases |s|
  {
    if |s| > 0 {
      NonWhitespaceOfToken(s[1..]);
    }
  }

  /**
   * Splitting loses exactly the whitespace: the tokens, put back together
   * with nothing between them, are the non-whitespace bytes of `s`.
   */
  lemma {:induction false} SplitWhitespaceContents(s: seq<byte>)
    ensures Concat(SplitWhitespace(s)) == NonWhitespace(s)
    decreases |s|
  {
    if |s| == 0 {
    } else if IsWhitespace(s[0]) {
      SplitWhitespaceContents(s[1..]);
    } else {
      var n := TokenLength(s);
      var r := SplitWhitespace(s);
      assert r[0] == s[..n] && r[1..] == SplitWhitespace(s[n..]);
      SplitWhitespaceContents(s[n..]);
      assert s == s[..n] + s[n..];
      NonWhitespaceAppend(s[..n], s[n..]);
      NonWhitespaceOfToken(s[..n]);
    }
  }

  /** Well-formed tokens joined by an ASCII separator form well-formed text. */
  lemma {:induction false} JoinKeepsUtf8(tokens: seq<seq<byte>>, sep: byte)
    requires forall k :: 0 <= k < |tokens| ==> Valid(tokens[k])
    requires IsAscii(sep)
    ensures Valid(Join(tokens, sep))
    decreases |tokens|
  {
    if |tokens| >= 2 {
      JoinKeepsUtf8(tokens[1..], sep);
      AsciiValid([sep]);
      ConcatValid(tokens[0], [sep]);
      ConcatValid(tokens[0] + [sep], Join(tokens[1..], sep));
    }
  }

  /** Well-formed tokens laid out with whitespace gaps form well-formed text. */
  lemma {:induction false} SpacedKeepsUtf8(tokens: seq<seq<byte>>, gaps: seq<seq<byte>>)
    requires |gaps| == |tokens| + 1
    requires forall k :: 0 <= k < |tokens| ==> Valid(tokens[k])
    requires forall k :: 0 <= k < |gaps| ==> IsGap(gaps[k])
    ensures Valid(Spaced(tokens, gaps))
    decreases |tokens|
  {
    AsciiValid(gaps[0]);
    if |tokens| > 0 {
      SpacedKeepsUtf8(tokens[1..], gaps[1..]);
      SpacedFront(tokens, gaps);
      ConcatValid(tokens[0], Spaced(tokens[1..], gaps[1..]));
      ConcatValid(gaps[0], tokens[0] + Spaced(tokens[1..], gaps[1..]));
    }
  }

  /** Every token of well-formed text is itself well-formed text. */
  lemma {:induction false} SplitWhitespaceKeepsUtf8(s: seq<byte>)
    requires Valid(s)
    ensures forall k :: 0 <= k < |SplitWhitespace(s)| ==> Valid(SplitWhitespace(s)[k])
    decreases |s|
  {
    if |s| == 0 {
    } else if IsWhitespace(s[0]) {
      AsciiBoundary(s, 0);
      assert Valid(s[1..]) by {
        assert LeadWidth(s) == 1;
      }
      SplitWhitespaceKeepsUtf8(s[1..]);
    } else {
      var n := TokenLength(s);
      if n < |s| {
        AsciiBoundary(s, n);
      } else {
        assert s[..n] == s && s[n..] == [];
      }
      SplitWhitespaceKeepsUtf8(s[n..]);
      var r := SplitWhitespace(s);
      assert r == [s[..n]] + SplitWhitespace(s[n..]);
    }
  }

  /** Only whitespace: the shape of what lies between and around tokens. */
  predicate IsGap(g: seq<byte>) {
    forall i :: 0 <= i < |g| ==> IsWhitespace(g[i])
  }

  /**
   * `gaps[0] + tokens[0] + gaps[1] + ... + tokens[n-1] + gaps[n]`: tokens
   * laid out with a gap before, between and after them.
   */
  function Spaced(tokens: seq<seq<byte>>, gaps: seq<seq<byte>>): seq<byte>
    requires |gaps| == |tokens| + 1
    decreases |tokens|
  {
    if |tokens| == 0 then gaps[0] else gaps[0] + tokens[0] + Spaced(tokens[1..], gaps[1..])
  }

  /** The gaps of a layout are whitespace, and those between two tokens are not empty. */
  predicate GapsSeparate(tokens: seq<seq<byte>>, gaps: seq<seq<byte>>) {
    && |gaps| == |tokens| + 1
    && (forall k :: 0 <= k < |gaps| ==> IsGap(gaps[k]))
    && (forall k :: 0 < k < |tokens| ==> |gaps[k]| > 0)
  }

  /** A run of whitespace in front of the text is dropped. */
  lemma {:induction false} SplitDropsLeadingGap(g: seq<byte>, s: seq<byte>)
    requires IsGap(g)
    ensures SplitWhitespace(g + s) == SplitWhitespace(s)
    decreases |g|
  {
    if |g| > 0 {
      assert (g + s)[1..] == g[1..] + s;
      SplitDropsLeadingGap(g[1..], s);
    } else {
      assert g + s == s;
    }
  }

  /** A token that ends the text or is followed by whitespace comes out whole. */
  lemma SplitTokenBefore(w: seq<byte>, rest: seq<byte>)
    requires IsToken(w)
    requires |rest| == 0 || IsWhitespace(rest[0])
    ensures SplitWhitespace(w + rest) == [w] + SplitWhitespace(rest)
  {
    var s := w + rest;
    assert |s| == |w| || s[|w|] == rest[0];
    assert TokenLength(s) == |w|;
    assert s[..|w|] == w && s[|w|..] == rest;
  }

  lemma SpacedFront(tokens: seq<seq<byte>>, gaps: seq<seq<byte>>)
    requires |gaps| == |tokens| + 1 && |tokens| > 0
    ensures Spaced(tokens, gaps) == gaps[0] + (tokens[0] + Spaced(tokens[1..], gaps[1..]))
  {
  }

  lemma SpacedStartsWithGap(tokens: seq<seq<byte>>, gaps: seq<seq<byte>>)
    requires |gaps| == |tokens| + 1 && |gaps[0]| > 0
    ensures |Spaced(tokens, gaps)| > 0 && Spaced(tokens, gaps)[0] == gaps[0][0]
  {
  }

  lemma GapsSeparateTail(tokens: seq<seq<byte>>, gaps: seq<seq<byte>>)
    requires GapsSeparate(tokens, gaps) && |tokens| > 0
    ensures GapsSeparate(tokens[1..], gaps[1..])
    ensures IsGap(gaps[0]) && (|tokens| > 1 ==> |gaps[1]| > 0)
  {
    assert forall k :: 0 <= k < |gaps| - 1 ==> gaps[1..][k] == gaps[k + 1];
  }

  /**
   * Splitting tokens laid out with whitespace gaps (any non-empty run
   * between two tokens, any run, possibly empty, at either end) gives back
   * exactly those tokens.
   */
  lemma {:induction false} SplitSpaced(tokens: seq<seq<byte>>, gaps: seq<seq<byte>>)
    requires forall k :: 0 <= k < |tokens| ==> IsToken(tokens[k])
    requires GapsSeparate(tokens, gaps)
    ensures SplitWhitespace(Spaced(tokens, gaps)) == tokens
    decreases |tokens|
  {
    if |tokens| == 0 {
      SplitDropsLeadingGap(gaps[0], []);
      assert gaps[0] + [] == gaps[0];
    } else {
      var rest := Spaced(tokens[1..], gaps[1..]);
      GapsSeparateTail(tokens, gaps);
      SplitSpaced(tokens[1..], gaps[1..]);
      SpacedFront(tokens, gaps);
      SplitDropsLeadingGap(gaps[0], tokens[0] + rest);
      if |tokens| > 1 {
        SpacedStartsWithGap(tokens[1..], gaps[1..]);
      }
      SplitTokenBefore(tokens[0], rest);
    }
  }

  lemma SpacedWidenLead(tokens: seq<seq<byte>>, gaps: seq<seq<byte>>, a: seq<byte>)
    requires |gaps| == |tokens| + 1
    ensures Spaced(tokens, [a + gaps[0]] + gaps[1..]) == a + Spaced(tokens, gaps)
  {
    var gaps' := [a + gaps[0]] + gaps[1..];
    assert gaps'[1..] == gaps[1..];
    if |tokens| > 0 {
      assert Spaced(tokens, gaps') == a + gaps[0] + tokens[0] + Spaced(tokens[1..], gaps[1..]);
    }
  }

  lemma SpacedPrependToken(t: seq<byte>, tokens: seq<seq<byte>>, gaps: seq<seq<byte>>)
    requires |gaps| == |tokens| + 1
    ensures Spaced([t] + tokens, [[]] + gaps) == t + Spaced(tokens, gaps)
  {
    var tokens', gaps' := [t] + tokens, [[]] + gaps;
    assert tokens'[1..] == tokens && gaps'[1..] == gaps;
    SpacedFront(tokens', gaps');
    assert gaps'[0] == [];
  }

  /**
   * Conversely every text is its own tokens laid out with whitespace gaps:
   * the tokens are the maximal whitespace-free runs of `s`.
   */
  lemma {:induction false} SplitDecomposes(s: seq<byte>) returns (gaps: seq<seq<byte>>)
    ensures GapsSeparate(SplitWhitespace(s), gaps)
    ensures Spaced(SplitWhitespace(s), gaps) == s
    ensures |s| > 0 && IsWhitespace(s[0]) ==> |gaps[0]| > 0
    decreases |s|
  {
    if |s| == 0 {
      gaps := [[]];
    } else if IsWhitespace(s[0]) {
      var g := SplitDecomposes(s[1..]);
      var tokens := SplitWhitespace(s[1..]);
      gaps := [[s[0]] + g[0]] + g[1..];
      SpacedWidenLead(tokens, g, [s[0]]);
      assert s == [s[0]] + s[1..];
      assert forall k :: 0 < k < |gaps| ==> gaps[k] == g[k];
    } else {
      var n := TokenLength(s);
      var g := SplitDecomposes(s[n..]);
      var tokens := SplitWhitespace(s[n..]);
      gaps := [[]] + g;
      SpacedPrependToken(s[..n], tokens, g);
      assert s == s[..n] + s[n..];
      assert |tokens| > 0 ==> |g[0]| > 0;
      assert forall k :: 0 < k < |gaps| ==> gaps[k] == g[k - 1];
    }
  }

  /**
   * `Join` undoes `SplitWhitespace` on well-formed tokens: splitting the
   * tokens joined by a whitespace separator gives back exactly those tokens.
   */
  lemma {:induction false} SplitJoin(tokens: seq<seq<byte>>, sep: byte)
    requires forall k :: 0 <= k < |tokens| ==> IsToken(tokens[k])
    requires IsWhitespace(sep)
    ensures SplitWhitespace(Join(tokens, sep)) == tokens
    decreases |tokens|
  {
    if |tokens| == 0 {
    } else if |tokens| == 1 {
      SplitTokenBefore(tokens[0], []);
      assert tokens[0] + [] == tokens[0];
    } else {
      assert Join(tokens, sep) == tokens[0] + ([sep] + Join(tokens[1..], sep));
      SplitTokenBefore(tokens[0], [sep] + Join(tokens[1..], sep));
      assert ([sep] + Join(tokens[1..], sep))[1..] == Join(tokens[1..], sep);
      SplitJoin(tokens[1..], sep);
    }
  }

  /**
   * Tokens joined by a separator never show two separators side by side
   * and never end in one.
   */
  lemma {:induction false} JoinNoAdjacentSeparators(tokens: seq<seq<byte>>, sep: byte)
    requires forall k :: 0 <= k < |tokens| ==> IsToken(tokens[k])
    requires IsWhitespace(sep)
    ensures var j := Join(tokens, sep);
      (|j| > 0 ==> j[|j| - 1] != sep) &&
      forall i :: 0 <= i < |j| - 1 ==> !(j[i] == sep && j[i + 1] == sep)
    decreases |tokens|
  {
    if |tokens| >= 2 {
      JoinNoAdjacentSeparators(tokens[1..], sep);
      var t := tokens[0];
      var rest := Join(tokens[1..], sep);
      var j := Join(tokens, sep);
      assert j == t + [sep] + rest;
      assert |rest| > 0 by {
        assert IsToken(tokens[1]);
      }
      forall i | 0 <= i < |j| - 1
        ensures !(j[i] == sep && j[i + 1] == sep)
      {
        if i < |t| {
          assert j[i] == t[i];
        } else if i == |t| {
          assert j[i + 1] == rest[0];
        } else {
          assert j[i] == rest[i - |t| - 1] && j[i + 1] == rest[i - |t|];
        }
      }
      assert j[|j| - 1] == rest[|rest| - 1];
    }
  }
}
