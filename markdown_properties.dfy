/**
 * Properties of the inline markup transformer: how one `re.sub` pass scans
 * (what the closing-delimiter search finds, which alternative is taken, how a
 * span is rewritten), that spans never cross lines, and what the whole
 * `markdown_to_html` conversion does to plain text, to line breaks and to the
 * examples the application is built around.
 */
module MarkdownProperties {
  import opened Wrappers
  import opened Markdown

  // ---------------------------------------------------------------------
  // The closing-delimiter search and the anchored match

  /** The lazy search stops exactly at the first same-line occurrence of the delimiter. */
  lemma FindCloseAt(s: string, d: Delimiter, k: nat)
    requires k <= |s|
    requires d <= s[k..] && '\n' !in s[..k]
    requires forall m :: 0 <= m < k ==> !(d <= s[m..])
    ensures FindClose(s, d) == Some(k)
  {
    if FindClose(s, d).Some? {
      FindCloseSome(s, d);
    } else {
      FindCloseNone(s, d);
    }
  }

  /**
   * The first alternative that opens and closes is the one the pattern takes:
   * every earlier alternative either does not start the text or does not close.
   */
  lemma {:induction false} MatchAtFirst(s: string, delims: seq<Delimiter>, i: nat, k: nat)
    requires i < |delims| && delims[i] <= s
    requires FindClose(s[|delims[i]|..], delims[i]) == Some(k)
    requires forall j :: 0 <= j < i ==> !(delims[j] <= s) || FindClose(s[|delims[j]|..], delims[j]) == None
    ensures MatchAt(s, delims) == Some(Match(delims[i], k))
    decreases i
  {
    if i > 0 {
      MatchAtFirst(s, delims[1..], i - 1, k);
    }
  }

  /** Where no alternative is a prefix, the pattern does not match. */
  lemma MatchAtNone(s: string, delims: seq<Delimiter>)
    requires forall j :: 0 <= j < |delims| ==> !(delims[j] <= s)
    ensures MatchAt(s, delims) == None
  {
  }

  /**
   * An alternative that does not start the text, or whose closing delimiter
   * is not found, gives way to the next alternative.
   */
  lemma MatchAtSkip(s: string, delims: seq<Delimiter>)
    requires delims != []
    requires !(delims[0] <= s) || FindClose(s[|delims[0]|..], delims[0]) == None
    ensures MatchAt(s, delims) == MatchAt(s, delims[1..])
  {
  }

  // ---------------------------------------------------------------------
  // Properties of one pass

  /** The scan is the concatenation of its steps. */
  lemma ApplyStep(p: Pass, s: string, out: string, rest: string)
    requires s != [] && Step(p, s) == (out, rest)
    ensures Apply(p, s) == out + Apply(p, rest)
  {
  }

  /** A match covers a non-empty delimiter, the content and the closing delimiter, within the text. */
  lemma MatchBounds(p: Pass, s: string, m: Match)
    requires MatchAt(s, p.delims) == Some(m)
    ensures m.delim != [] && |m.delim| + m.len + |m.delim| <= |s|
  {
  }

  /** One scanner step where the pattern does not match: copy one character. */
  lemma ApplyCopy(p: Pass, s: string)
    requires s != [] && MatchAt(s, p.delims) == None
    ensures Apply(p, s) == [s[0]] + Apply(p, s[1..])
  {
    assert Step(p, s) == ([s[0]], s[1..]);
    ApplyStep(p, s, [s[0]], s[1..]);
  }

  /** The step where the pattern matches emits the tags around the content and resumes after the span. */
  lemma StepRewrite(p: Pass, s: string, m: Match)
    requires s != [] && MatchAt(s, p.delims) == Some(m)
    ensures Step(p, s) == (p.open + s[|m.delim|..|m.delim| + m.len] + p.close, s[|m.delim| + m.len + |m.delim|..])
  {
  }

  /**
   * One scanner step where the pattern matches: the tags around the content
   * are emitted and the scan resumes after the closing delimiter.
   */
  lemma ApplyRewrite(p: Pass, s: string, m: Match, content: string, rest: string)
    requires s != [] && MatchAt(s, p.delims) == Some(m)
    requires |m.delim| + m.len + |m.delim| <= |s|
    requires content == s[|m.delim|..|m.delim| + m.len] && rest == s[|m.delim| + m.len + |m.delim|..]
    ensures Apply(p, s) == p.open + content + p.close + Apply(p, rest)
  {
    StepRewrite(p, s, m);
    ApplyStep(p, s, p.open + content + p.close, rest);
  }

  /** Text with no opening character is copied through, and the scan continues after it. */
  lemma {:induction false} ApplyPlainPrefix(p: Pass, x: string, y: string)
    requires forall i :: 0 <= i < |x| ==> !p.Opens(x[i])
    ensures Apply(p, x + y) == x + Apply(p, y)
    decreases |x|
  {
    if x != [] {
      ConsShape(x, y, Apply(p, y));
      NoOpeningNoMatch(p, x + y);
      ApplyCopy(p, x + y);
      ApplyPlainPrefix(p, x[1..], y);
    } else {
      assert x + y == y;
    }
  }

  /** The sequence facts about the first character of `x + y` that the scans use. */
  lemma ConsShape(x: string, y: string, z: string)
    requires x != []
    ensures (x + y)[0] == x[0] && (x + y)[1..] == x[1..] + y
    ensures [x[0]] + (x[1..] + z) == x + z
  {
    assert x == [x[0]] + x[1..];
  }

  /** A text whose first character opens no delimiter alternative does not match. */
  lemma NoOpeningNoMatch(p: Pass, s: string)
    requires s != [] && !p.Opens(s[0])
    ensures MatchAt(s, p.delims) == None
  {
    forall j | 0 <= j < |p.delims|
      ensures !(p.delims[j] <= s)
    {
      assert p.delims[j][0] != s[0];
    }
    MatchAtNone(s, p.delims);
  }

  /** A text with no opening character is left unchanged by the pass. */
  lemma ApplyPlain(p: Pass, s: string)
    requires forall i :: 0 <= i < |s| ==> !p.Opens(s[i])
    ensures Apply(p, s) == s
  {
    ApplyPlainPrefix(p, s, []);
    assert s + [] == s;
  }

  /** A text in which no delimiter alternative occurs anywhere is left unchanged by the pass. */
  lemma {:induction false} ApplyNoDelimiter(p: Pass, s: string)
    requires forall k, j :: 0 <= k < |s| && 0 <= j < |p.delims| ==> !(p.delims[j] <= s[k..])
    ensures Apply(p, s) == s
    decreases |s|
  {
    if s != [] {
      assert s[0..] == s;
      MatchAtNone(s, p.delims);
      ApplyCopy(p, s);
      forall k, j | 0 <= k < |s[1..]| && 0 <= j < |p.delims|
        ensures !(p.delims[j] <= s[1..][k..])
      {
        assert s[1..][k..] == s[k + 1..];
      }
      ApplyNoDelimiter(p, s[1..]);
      assert s == [s[0]] + s[1..];
    }
  }

  /**
   * A delimited span on one line whose content holds no character of the
   * delimiter is what the pattern matches at the start of the text.
   */
  lemma SpanMatch(p: Pass, i: nat, c: string, rest: string)
    requires i < |p.delims|
    requires forall j :: 0 <= j < |p.delims| && j != i ==> p.delims[j][0] != p.delims[i][0]
    requires p.delims[i][0] !in c && '\n' !in c
    ensures MatchAt(p.delims[i] + c + p.delims[i] + rest, p.delims) == Some(Match(p.delims[i], |c|))
  {
    SpanShape(p.delims[i], c, rest);
    SpanCloses(p.delims[i], c, rest);
    forall j | 0 <= j < i
      ensures !(p.delims[j] <= p.delims[i] + c + p.delims[i] + rest)
    {
      assert p.delims[j][0] != p.delims[i][0];
    }
    MatchAtFirst(p.delims[i] + c + p.delims[i] + rest, p.delims, i, |c|);
  }

  /** The sequence facts about `d + c + d + rest` that the span proofs use. */
  lemma SpanShape(d: Delimiter, c: string, rest: string)
    ensures (d + c + d + rest)[0] == d[0] && d <= d + c + d + rest
    ensures (d + c + d + rest)[|d|..] == c + d + rest
    ensures (c + d + rest)[|c|..] == d + rest && d <= d + rest
    ensures (c + d + rest)[..|c|] == c
    ensures (d + c + d + rest)[|d|..|d| + |c|] == c
    ensures (d + c + d + rest)[|d| + |c| + |d|..] == rest
  {
    assert (d + c + d + rest)[|d|..] == c + d + rest;
  }

  /** The closing search from after the opening delimiter stops right after the content. */
  lemma SpanCloses(d: Delimiter, c: string, rest: string)
    requires d[0] !in c && '\n' !in c
    ensures FindClose(c + d + rest, d) == Some(|c|)
  {
    SpanShape(d, c, rest);
    forall m | 0 <= m < |c|
      ensures !(d <= (c + d + rest)[m..])
    {
      assert (c + d + rest)[m..][0] == c[m];
    }
    FindCloseAt(c + d + rest, d, |c|);
  }

  /**
   * Such a span is rewritten to the replacement tags around its content, and
   * the scan resumes right after the closing delimiter.
   */
  lemma ApplySpan(p: Pass, i: nat, c: string, rest: string)
    requires i < |p.delims|
    requires forall j :: 0 <= j < |p.delims| && j != i ==> p.delims[j][0] != p.delims[i][0]
    requires p.delims[i][0] !in c && '\n' !in c
    ensures Apply(p, p.delims[i] + c + p.delims[i] + rest) == p.open + c + p.close + Apply(p, rest)
  {
    var d := p.delims[i];
    var s := d + c + d + rest;
    SpanMatch(p, i, c, rest);
    ApplyRewrite(p, s, Match(d, |c|), c, rest);
  }

  /** A newline never starts a delimiter, so a delimiter matches at `k` of a line iff it does before its end. */
  lemma PrefixAcrossNewline(d: Delimiter, a: string, b: string, k: nat)
    requires k <= |a|
    ensures (d <= (a + "\n" + b)[k..]) == (d <= a[k..])
  {
    var s := a + "\n" + b;
    if k + |d| <= |a| {
      assert s[k..][..|d|] == a[k..][..|d|];
    } else {
      assert s[k..][|a| - k] == '\n';
      assert d[|a| - k] in d;
    }
  }

  /** The closing-delimiter search never looks past the end of its line. */
  lemma {:induction false} FindCloseLines(d: Delimiter, a: string, b: string)
    ensures FindClose(a + "\n" + b, d) == FindClose(a, d)
    decreases |a|
  {
    var s := a + "\n" + b;
    PrefixAcrossNewline(d, a, b, 0);
    assert s[0..] == s && a[0..] == a;
    if a != [] {
      assert s[1..] == a[1..] + "\n" + b;
      FindCloseLines(d, a[1..], b);
    }
  }

  /** The anchored match never looks past the end of its line. */
  lemma {:induction false} MatchAtLines(delims: seq<Delimiter>, a: string, b: string)
    ensures MatchAt(a + "\n" + b, delims) == MatchAt(a, delims)
    decreases |delims|
  {
    if delims != [] {
      var s := a + "\n" + b;
      var d := delims[0];
      PrefixAcrossNewline(d, a, b, 0);
      assert s[0..] == s && a[0..] == a;
      if d <= a {
        assert s[|d|..] == a[|d|..] + "\n" + b;
        FindCloseLines(d, a[|d|..], b);
      }
      MatchAtLines(delims[1..], a, b);
    }
  }

  // Sequence shapes: built-in facts about concatenation and slicing, stated
  // as small lemmas only so that the larger proofs stay cheap for the solver.

  /** Regrouping a line break between two texts. */
  lemma ConcatAround(x: string, y: string, z: string)
    ensures x + (y + "\n" + z) == (x + y) + "\n" + z
  {
  }

  /** The line break itself is copied: no delimiter starts with a newline. */
  lemma ApplyAtNewline(p: Pass, b: string)
    ensures Apply(p, "\n" + b) == "\n" + Apply(p, b)
  {
    var s := "\n" + b;
    forall j | 0 <= j < |p.delims|
      ensures !(p.delims[j] <= s)
    {
      assert p.delims[j][0] in p.delims[j];
    }
    MatchAtNone(s, p.delims);
    ApplyCopy(p, s);
    assert s[0] == '\n' && s[1..] == b;
  }

  /** A span matched at the start of a first line is rewritten from the whole text too. */
  lemma ApplyRewriteFirstLine(p: Pass, a: string, b: string, m: Match)
    requires MatchAt(a + "\n" + b, p.delims) == Some(m)
    requires |m.delim| + m.len + |m.delim| <= |a|
    ensures Apply(p, a + "\n" + b)
      == p.open + a[|m.delim|..|m.delim| + m.len] + p.close + Apply(p, a[|m.delim| + m.len + |m.delim|..] + "\n" + b)
  {
    FirstLineSlices(a, b, |m.delim|, |m.delim| + m.len);
    FirstLineSlices(a, b, |m.delim| + m.len + |m.delim|, |m.delim| + m.len + |m.delim|);
    ApplyRewrite(p, a + "\n" + b, m, a[|m.delim|..|m.delim| + m.len], a[|m.delim| + m.len + |m.delim|..] + "\n" + b);
  }

  /** Slices of `a + "\n" + b` that lie within the first line, or start within it. */
  lemma FirstLineSlices(a: string, b: string, i: nat, j: nat)
    requires i <= j <= |a|
    ensures (a + "\n" + b)[i..j] == a[i..j]
    ensures (a + "\n" + b)[j..] == a[j..] + "\n" + b
  {
    SliceOfPrefix(a, "\n" + b, i, j);
    DropOfPrefix(a, "\n" + b, j);
    assert a + "\n" + b == a + ("\n" + b);
    assert a[j..] + ("\n" + b) == a[j..] + "\n" + b;
  }

  /** A slice within the first part of a concatenation (a sequence shape). */
  lemma SliceOfPrefix(a: string, t: string, i: nat, j: nat)
    requires i <= j <= |a|
    ensures (a + t)[i..j] == a[i..j]
  {
  }

  /** A suffix starting within the first part of a concatenation (a sequence shape). */
  lemma DropOfPrefix(a: string, t: string, i: nat)
    requires i <= |a|
    ensures (a + t)[i..] == a[i..] + t
  {
  }

  /** A span rewritten on the first line is rewritten the same way when more lines follow. */
  lemma ApplyLinesRewrite(p: Pass, a: string, b: string, m: Match)
    requires a != [] && MatchAt(a, p.delims) == Some(m)
    requires MatchAt(a + "\n" + b, p.delims) == Some(m)
    requires |m.delim| + m.len + |m.delim| <= |a|
    requires Apply(p, a[|m.delim| + m.len + |m.delim|..] + "\n" + b)
      == Apply(p, a[|m.delim| + m.len + |m.delim|..]) + "\n" + Apply(p, b)
    ensures Apply(p, a + "\n" + b) == Apply(p, a) + "\n" + Apply(p, b)
  {
    ApplyRewrite(p, a, m, a[|m.delim|..|m.delim| + m.len], a[|m.delim| + m.len + |m.delim|..]);
    ApplyRewriteFirstLine(p, a, b, m);
    ConcatAround(p.open + a[|m.delim|..|m.delim| + m.len] + p.close,
      Apply(p, a[|m.delim| + m.len + |m.delim|..]), Apply(p, b));
  }

  /** A character copied on the first line is copied the same way when more lines follow. */
  lemma ApplyLinesCopy(p: Pass, a: string, b: string)
    requires a != [] && MatchAt(a, p.delims) == None
    requires MatchAt(a + "\n" + b, p.delims) == None
    requires Apply(p, a[1..] + "\n" + b) == Apply(p, a[1..]) + "\n" + Apply(p, b)
    ensures Apply(p, a + "\n" + b) == Apply(p, a) + "\n" + Apply(p, b)
  {
    var s := a + "\n" + b;
    ApplyCopy(p, a);
    ApplyCopy(p, s);
    assert s[0] == a[0] && s[1..] == a[1..] + "\n" + b;
    ConcatAround([a[0]], Apply(p, a[1..]), Apply(p, b));
  }

  /** Spans never cross lines: a pass rewrites each line on its own. */
  lemma {:induction false} ApplyLines(p: Pass, a: string, b: string)
    ensures Apply(p, a + "\n" + b) == Apply(p, a) + "\n" + Apply(p, b)
    decreases |a|
  {
    MatchAtLines(p.delims, a, b);
    if a == [] {
      ApplyAtNewline(p, b);
      assert a + "\n" + b == "\n" + b;
    } else {
      match MatchAt(a, p.delims)
      case Some(m) =>
        MatchBounds(p, a, m);
        ApplyLines(p, a[|m.delim| + m.len + |m.delim|..], b);
        ApplyLinesRewrite(p, a, b, m);
      case None =>
        ApplyLines(p, a[1..], b);
        ApplyLinesCopy(p, a, b);
    }
  }

  /** A pass adds no newline: rewritten spans hold none and the tags hold none. */
  lemma {:induction false} ApplyNoNewline(p: Pass, s: string)
    requires p.Valid() && '\n' !in s
    ensures '\n' !in Apply(p, s)
    decreases |s|
  {
    if s != [] {
      match MatchAt(s, p.delims)
      case Some(m) =>
        var n := |m.delim|;
        MatchBounds(p, s, m);
        ApplyRewrite(p, s, m, s[n..n + m.len], s[n + m.len + n..]);
        ApplyNoNewline(p, s[n + m.len + n..]);
        assert forall c :: c in s[n..n + m.len] ==> c in s;
      case None =>
        ApplyCopy(p, s);
        ApplyNoNewline(p, s[1..]);
    }
  }

  // ---------------------------------------------------------------------
  // Newline replacement

  /** Replacement distributes over concatenation. */
  lemma {:induction false} ReplaceNewlinesConcat(a: string, b: string)
    ensures ReplaceNewlines(a + b) == ReplaceNewlines(a) + ReplaceNewlines(b)
    decreases |a|
  {
    if a == [] {
      assert a + b == b;
    } else {
      assert (a + b)[0] == a[0];
      assert (a + b)[1..] == a[1..] + b;
      ReplaceNewlinesConcat(a[1..], b);
      var h := if a[0] == '\n' then "<br>" else [a[0]];
      calc {
        ReplaceNewlines(a + b);
        h + ReplaceNewlines(a[1..] + b);
        h + (ReplaceNewlines(a[1..]) + ReplaceNewlines(b));
        (h + ReplaceNewlines(a[1..])) + ReplaceNewlines(b);
      }
    }
  }

  /** Each line break becomes `<br>`, and the text around it is replaced on its own. */
  lemma ReplaceNewlinesBreak(a: string, b: string)
    ensures ReplaceNewlines(a + "\n" + b) == ReplaceNewlines(a) + "<br>" + ReplaceNewlines(b)
  {
    ReplaceNewlinesConcat(a + "\n", b);
    ReplaceNewlinesConcat(a, "\n");
    assert ReplaceNewlines("\n") == "<br>" by {
      assert "\n"[1..] == [];
    }
  }

  // ---------------------------------------------------------------------
  // Properties of the whole transform

  /** A text with no '*', '_' or newline comes back unchanged. */
  lemma MarkdownPlain(s: string)
    requires '*' !in s && '_' !in s && '\n' !in s
    ensures MarkdownText(s) == s
  {
    NoMarkupChars(s);
  }

  /** Neither pass touches a prefix with no '*' and no '_', and both carry on after it. */
  lemma NoMarkupPrefix(x: string, y: string)
    requires '*' !in x && '_' !in x
    ensures Apply(Bold, x + y) == x + Apply(Bold, y)
    ensures Apply(Italic, x + y) == x + Apply(Italic, y)
  {
    ApplyPlainPrefix(Bold, x, y);
    ApplyPlainPrefix(Italic, x, y);
  }

  /** Neither pass touches a text with no '*' and no '_'. */
  lemma NoMarkupChars(s: string)
    requires '*' !in s && '_' !in s
    ensures Apply(Bold, s) == s && Apply(Italic, s) == s
  {
    ApplyPlain(Bold, s);
    ApplyPlain(Italic, s);
  }

  /** `**c**` on one line, with no '*' inside, becomes `<b>c</b>`. */
  lemma BoldStars(c: string, rest: string)
    requires '*' !in c && '\n' !in c
    ensures Apply(Bold, "**" + c + "**" + rest) == "<b>" + c + "</b>" + Apply(Bold, rest)
  {
    ApplySpan(Bold, 0, c, rest);
  }

  /** `__c__` on one line, with no '_' inside, becomes `<b>c</b>`. */
  lemma BoldUnderscores(c: string, rest: string)
    requires '_' !in c && '\n' !in c
    ensures Apply(Bold, "__" + c + "__" + rest) == "<b>" + c + "</b>" + Apply(Bold, rest)
  {
    ApplySpan(Bold, 1, c, rest);
  }

  /** `*c*` on one line, with no '*' inside, becomes `<i>c</i>`. */
  lemma ItalicStar(c: string, rest: string)
    requires '*' !in c && '\n' !in c
    ensures Apply(Italic, "*" + c + "*" + rest) == "<i>" + c + "</i>" + Apply(Italic, rest)
  {
    ApplySpan(Italic, 0, c, rest);
  }

  /** `_c_` on one line, with no '_' inside, becomes `<i>c</i>`. */
  lemma ItalicUnderscore(c: string, rest: string)
    requires '_' !in c && '\n' !in c
    ensures Apply(Italic, "_" + c + "_" + rest) == "<i>" + c + "</i>" + Apply(Italic, rest)
  {
    ApplySpan(Italic, 1, c, rest);
  }

  /** Every newline becomes `<br>` and each line is converted on its own. */
  lemma MarkdownLines(a: string, b: string)
    ensures MarkdownText(a + "\n" + b) == MarkdownText(a) + "<br>" + MarkdownText(b)
  {
    ApplyLines(Bold, a, b);
    ApplyLines(Italic, Apply(Bold, a), Apply(Bold, b));
    ReplaceNewlinesBreak(Apply(Italic, Apply(Bold, a)), Apply(Italic, Apply(Bold, b)));
  }
}
