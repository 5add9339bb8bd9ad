/**
 * The inline markup transformer of app.py, `markdown_to_html`: a bold
 * rewrite, then an italic rewrite, then newline replacement.
 *
 * Each `re.sub(r'(D1|D2)(.*?)\1', OPEN + r'\2' + CLOSE, text)` is modelled as
 * a left-to-right scanner (`Apply`) over the suffix still to be read: where an
 * alternative of the delimiter group starts and the lazy `.*?` reaches the
 * same delimiter again on the same line (`.` does not match '\n'), the span is
 * rewritten and scanning resumes after the closing delimiter; otherwise one
 * character is copied and scanning resumes at the next one.
 */
module Markdown {
  import opened Wrappers

  /**
   * A delimiter alternative of the group `(D1|D2)`: never empty (so the
   * pattern never matches the empty string) and free of newlines.
   */
  type Delimiter = d: string | d != [] && '\n' !in d witness "*"

  /** One `re.sub` pass: the delimiter alternatives in pattern order and the replacement tags. */
  datatype Pass = Pass(delims: seq<Delimiter>, open: string, close: string) {
    /** The replacement tags hold no newline. */
    predicate Valid() {
      '\n' !in open && '\n' !in close
    }

    /** `c` is the first character of some delimiter alternative. */
    predicate Opens(c: char) {
      exists i :: 0 <= i < |delims| && delims[i][0] == c
    }
  }

  /** The bold pass: `(\*\*|__)(.*?)\1` becomes `<b>\2</b>`. */
  const Bold := Pass(["**", "__"], "<b>", "</b>")

  /** The italic pass: `(\*|_)(.*?)\1` becomes `<i>\2</i>`. */
  const Italic := Pass(["*", "_"], "<i>", "</i>")

  /**
   * The lazy `(.*?)\1` from the start of `s`: the smallest `k` at which the
   * delimiter `d` occurs again, provided no newline lies before it.
   */
  function FindClose(s: string, d: Delimiter): (r: Option<nat>)
    ensures r.Some? ==> r.value + |d| <= |s|
    decreases |s|
  {
    if d <= s then Some(0)
    else if s == [] || s[0] == '\n' then None
    else
      match FindClose(s[1..], d)
      case Some(k) => Some(k + 1)
      case None => None
  }

  /**
   * The closing delimiter `d` starts at `k`: it fits, no newline precedes it,
   * and no earlier position starts it (the lazy quantifier takes the first).
   */
  predicate ClosesAt(s: string, d: string, k: nat) {
    && k + |d| <= |s| && d <= s[k..] && '\n' !in s[..k]
    && forall m :: 0 <= m < k ==> !(d <= s[m..])
  }

  /** What the search finds is the first same-line occurrence of the delimiter. */
  lemma {:induction false} FindCloseSome(s: string, d: Delimiter)
    requires FindClose(s, d).Some?
    ensures ClosesAt(s, d, FindClose(s, d).value)
    decreases |s|
  {
    if !(d <= s) {
      FindCloseSome(s[1..], d);
      var k := FindClose(s[1..], d).value;
      assert s[k + 1..] == s[1..][k..];
      assert s[..k + 1] == [s[0]] + s[1..][..k];
      forall m | 0 < m < k + 1
        ensures !(d <= s[m..])
      {
        assert s[m..] == s[1..][m - 1..];
      }
    }
  }

  /** When the search fails, the delimiter occurs nowhere on the rest of the line. */
  lemma {:induction false} FindCloseNone(s: string, d: Delimiter)
    requires FindClose(s, d).None?
    ensures forall k :: 0 <= k <= |s| && '\n' !in s[..k] ==> !(d <= s[k..])
    decreases |s|
  {
    if s != [] && s[0] != '\n' {
      FindCloseNone(s[1..], d);
      forall k | 0 < k <= |s| && '\n' !in s[..k]
        ensures !(d <= s[k..])
      {
        assert s[k..] == s[1..][k - 1..];
        assert s[..k] == [s[0]] + s[1..][..k - 1];
      }
    }
    assert s[0..] == s;
  }

  /** A match of the pass pattern at the start of the text: the delimiter and the content length. */
  datatype Match = Match(delim: string, len: nat)

  /**
   * The pattern anchored at the start of `s`: the alternatives are tried in
   * order, and an alternative whose closing delimiter is not found gives way
   * to the next one, as regex backtracking does.
   */
  function MatchAt(s: string, delims: seq<Delimiter>): (r: Option<Match>)
    ensures r.Some? ==> r.value.delim in delims && r.value.delim <= s
    ensures r.Some? ==> FindClose(s[|r.value.delim|..], r.value.delim) == Some(r.value.len)
    decreases |delims|
  {
    if delims == [] then None
    else
      var d := delims[0];
      if d <= s then
        match FindClose(s[|d|..], d)
        case Some(k) => Some(Match(d, k))
        case None => MatchAt(s, delims[1..])
      else MatchAt(s, delims[1..])
  }

  /**
   * One step of the scan at the start of `s`: the text it emits and the
   * suffix where scanning resumes.
   */
  function Step(p: Pass, s: string): (r: (string, string))
    requires s != []
    ensures |r.1| < |s|
  {
    match MatchAt(s, p.delims)
    case Some(m) =>
      var n := |m.delim|;
      (p.open + s[n..n + m.len] + p.close, s[n + m.len + n..])
    case None => ([s[0]], s[1..])
  }

  /** `re.sub` of one pass over the whole of `s`. */
  function Apply(p: Pass, s: string): (r: string)
    decreases |s|
  {
    if s == [] then []
    else
      var (out, rest) := Step(p, s);
      out + Apply(p, rest)
  }

  /** `text.replace('\n', '<br>')`. */
  function ReplaceNewlines(s: string): (r: string)
    ensures '\n' !in r
    ensures '\n' !in s ==> r == s
    decreases |s|
  {
    if s == [] then []
    else (if s[0] == '\n' then "<br>" else [s[0]]) + ReplaceNewlines(s[1..])
  }

  /** The text rewrite of `markdown_to_html`: bold, then italic, then line breaks. */
  function MarkdownText(s: string): (r: string)
    ensures '\n' !in r
  {
    ReplaceNewlines(Apply(Italic, Apply(Bold, s)))
  }

  /** The Python values a table cell can hold; only `Str` is a `str`. */
  datatype Value = Str(text: string) | Number(n: real) | Boolean(b: bool) | Null | Missing

  /** `markdown_to_html(text)`: non-`str` values pass through unchanged. */
  function MarkdownToHtml(v: Value): (r: Value)
    ensures !v.Str? ==> r == v
    ensures v.Str? ==> r.Str? && '\n' !in r.text
  {
    match v
    case Str(t) => Str(MarkdownText(t))
    case _ => v
  }
}
