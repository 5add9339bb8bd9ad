/**
 * The conversions the application is built around, worked out on the model
 * for every word of plain text (one with no '*', '_' or newline): bold and
 * italic markers, the bold pass running first, delimiters that do not pair
 * up, and line breaks.
 */
module MarkdownExamples {
  import opened Wrappers
  import opened Markdown
  import opened MarkdownProperties

  /** Text the markup passes and the newline replacement leave alone. */
  predicate Plain(w: string) {
    '*' !in w && '_' !in w && '\n' !in w
  }

  /** Plain text stays plain between plain tags. */
  lemma WrappedPlain(o: string, w: string, c: string)
    requires Plain(o) && Plain(w) && Plain(c)
    ensures Plain(o + w + c)
  {
  }

  /** The conversion composed from what each pass produces. */
  lemma MarkdownVia(s: string, x: string, y: string)
    requires Apply(Bold, s) == x && Apply(Italic, x) == y && '\n' !in y
    ensures MarkdownText(s) == y
  {
  }

  /** `**w**` and `__w__` both become `<b>w</b>`. */
  lemma BoldWord(w: string)
    requires Plain(w)
    ensures MarkdownText("**" + w + "**") == "<b>" + w + "</b>"
    ensures MarkdownText("__" + w + "__") == "<b>" + w + "</b>"
  {
    var x := "<b>" + w + "</b>";
    WrappedPlain("<b>", w, "</b>");
    assert Apply(Bold, []) == [];
    assert x + [] == x;
    NoMarkupChars(x);
    BoldStars(w, []);
    assert "**" + w + "**" + [] == "**" + w + "**";
    MarkdownVia("**" + w + "**", x, x);
    BoldUnderscores(w, []);
    assert "__" + w + "__" + [] == "__" + w + "__";
    MarkdownVia("__" + w + "__", x, x);
  }

  /** `*w*` and `_w_` both become `<i>w</i>`: a single marker is not a bold delimiter. */
  lemma ItalicWord(w: string)
    requires Plain(w)
    ensures MarkdownText("*" + w + "*") == "<i>" + w + "</i>"
    ensures MarkdownText("_" + w + "_") == "<i>" + w + "</i>"
  {
    var y := "<i>" + w + "</i>";
    WrappedPlain("<i>", w, "</i>");
    assert Apply(Italic, []) == [];
    assert y + [] == y;
    BoldKeepsSingleMarkers(w);
    ItalicStar(w, []);
    assert "*" + w + "*" + [] == "*" + w + "*";
    MarkdownVia("*" + w + "*", "*" + w + "*", y);
    ItalicUnderscore(w, []);
    assert "_" + w + "_" + [] == "_" + w + "_";
    MarkdownVia("_" + w + "_", "_" + w + "_", y);
  }

  /** The bold pass copies `*w*` and `_w_`: neither holds a doubled marker that closes. */
  lemma BoldKeepsSingleMarkers(w: string)
    requires Plain(w)
    ensures Apply(Bold, "*" + w + "*") == "*" + w + "*"
    ensures Apply(Bold, "_" + w + "_") == "_" + w + "_"
  {
    BoldCopiesMarkerPair(w, '*');
    BoldCopiesMarkerPair(w, '_');
  }

  /** No bold delimiter starts a text that does not start with a doubled marker. */
  lemma BoldNoOpening(s: string)
    requires s != []
    requires (s[0] != '*' && s[0] != '_') || |s| < 2 || s[1] != s[0]
    ensures MatchAt(s, Bold.delims) == None
  {
    assert !("**" <= s) && !("__" <= s);
    MatchAtNone(s, Bold.delims);
  }

  /** A text that does not start with a doubled marker: the bold pass copies its first character. */
  lemma BoldCopiesFirst(s: string)
    requires s != []
    requires (s[0] != '*' && s[0] != '_') || |s| < 2 || s[1] != s[0]
    ensures Apply(Bold, s) == [s[0]] + Apply(Bold, s[1..])
  {
    BoldNoOpening(s);
    ApplyCopy(Bold, s);
  }

  /**
   * A text starting with a doubled marker that does not close again on the
   * line: the bold pass copies its first character.
   */
  lemma BoldCopiesUnclosed(s: string)
    requires |s| >= 2 && s[1] == s[0] && (s[0] == '*' || s[0] == '_')
    requires s[0] !in s[2..]
    ensures Apply(Bold, s) == [s[0]] + Apply(Bold, s[1..])
  {
    BoldUnclosed(s);
    ApplyCopy(Bold, s);
  }

  /** No bold span starts at a doubled marker that does not occur again. */
  lemma BoldUnclosed(s: string)
    requires |s| >= 2 && s[1] == s[0] && (s[0] == '*' || s[0] == '_')
    requires s[0] !in s[2..]
    ensures MatchAt(s, Bold.delims) == None
  {
    var d: Delimiter := [s[0], s[0]];
    NoMarkerNoClose(s[2..], d);
    MatchAtSkip(s, Bold.delims);
    MatchAtSkip(s, Bold.delims[1..]);
    assert Bold.delims[1..][1..] == [];
  }

  /** The sequence facts about `[m] + w + [m]` the copy proofs below use. */
  lemma MarkerPairShape(m: char, w: string)
    ensures var s := [m] + w + [m];
      && s[0] == m && s[1..] == w + [m] && s == [m] + (w + [m])
      && (w == [] ==> |s| == 2 && s[1] == m && s[2..] == [] && s[1..] == [m])
      && (w != [] ==> s[1] == w[0])
      && [m][1..] == [] && [m] + [] == [m]
  {
  }

  /** The bold pass copies a plain word between two single markers `m`. */
  lemma BoldCopiesMarkerPair(w: string, m: char)
    requires Plain(w) && (m == '*' || m == '_')
    ensures Apply(Bold, [m] + w + [m]) == [m] + w + [m]
  {
    var s := [m] + w + [m];
    MarkerPairShape(m, w);
    BoldCopiesFirst([m]);
    assert Apply(Bold, [m]) == [m];
    if w == [] {
      BoldCopiesUnclosed(s);
    } else {
      assert w[0] in w;
      BoldCopiesFirst(s);
      NoMarkupPrefix(w, [m]);
    }
  }

  /** The sequence facts about `**b**t*i*` the proof below uses. */
  lemma BoldItalicShape(b: string, t: string, i: string)
    ensures "**" + b + "**" + t + "*" + i + "*" == "**" + b + "**" + (t + ("*" + i + "*"))
    ensures "<b>" + b + "</b>" + (t + ("*" + i + "*")) == ("<b>" + b + "</b>" + t) + ("*" + i + "*")
    ensures "*" + i + "*" + [] == "*" + i + "*"
    ensures "<i>" + i + "</i>" + [] == "<i>" + i + "</i>"
    ensures ("<b>" + b + "</b>" + t) + ("<i>" + i + "</i>") == "<b>" + b + "</b>" + t + "<i>" + i + "</i>"
  {
  }

  /** Plain parts joined with tags hold no marker and no newline. */
  lemma BoldItalicPlain(b: string, t: string, i: string)
    requires Plain(b) && Plain(t) && Plain(i)
    ensures Plain("<b>" + b + "</b>" + t) && Plain("<b>" + b + "</b>" + t + "<i>" + i + "</i>")
  {
  }

  /** Bold runs before italic: `**b**t*i*` becomes `<b>b</b>t<i>i</i>`. */
  lemma BoldBeforeItalic(b: string, t: string, i: string)
    requires Plain(b) && Plain(t) && Plain(i)
    ensures MarkdownText("**" + b + "**" + t + "*" + i + "*") == "<b>" + b + "</b>" + t + "<i>" + i + "</i>"
  {
    var tail := "*" + i + "*";
    var mid := "<b>" + b + "</b>" + t;
    BoldItalicShape(b, t, i);
    BoldItalicPlain(b, t, i);
    BoldStars(b, t + tail);
    NoMarkupPrefix(t, tail);
    BoldKeepsSingleMarkers(i);
    assert Apply(Bold, "**" + b + "**" + t + "*" + i + "*") == mid + tail;
    NoMarkupPrefix(mid, tail);
    ItalicStar(i, []);
    assert Apply(Italic, []) == [];
    assert Apply(Italic, mid + tail) == mid + ("<i>" + i + "</i>");
    MarkdownVia("**" + b + "**" + t + "*" + i + "*", mid + tail, "<b>" + b + "</b>" + t + "<i>" + i + "</i>");
  }

  /** The sequence facts about `**w__` the proofs below use. */
  lemma MismatchShape(w: string)
    requires Plain(w)
    ensures var s, t := "**" + w + "__", w + "__";
      && s[0] == '*' && s[1] == '*' && s[2..] == t && s[1..] == "*" + t && [s[0]] == "*"
      && ("*" + t)[0] == '*' && ("*" + t)[1] != '*' && ("*" + t)[1..] == t && [("*" + t)[0]] == "*"
      && '*' !in t && "*" + ("*" + (w + "__")) == s
  {
    var t := w + "__";
    assert ("*" + t)[1] == t[0] && t[0] in t;
  }

  /** A text without the first character of a delimiter holds no closing occurrence of it. */
  lemma NoMarkerNoClose(t: string, d: Delimiter)
    requires d[0] !in t
    ensures FindClose(t, d) == None
  {
    if FindClose(t, d).Some? {
      FindCloseSome(t, d);
    }
  }

  /**
   * Bold needs the same delimiter on both sides: in `**w__` the bold pass
   * finds no closing `**` on the line, falls back to `__`, which does not
   * start the text, and copies everything.
   */
  lemma MismatchedBoldKept(w: string)
    requires Plain(w)
    ensures Apply(Bold, "**" + w + "__") == "**" + w + "__"
  {
    var s := "**" + w + "__";
    var t := w + "__";
    MismatchShape(w);
    BoldCopiesUnclosed(s);
    BoldCopiesFirst("*" + t);
    BoldKeepsDoubleUnderscore();
    NoMarkupPrefix(w, "__");
  }

  /** A lone `__` has no closing `__` after it, so the bold pass copies it. */
  lemma BoldKeepsDoubleUnderscore()
    ensures Apply(Bold, "__") == "__"
  {
    assert "__"[2..] == [] && "__"[1..] == "_" && "_"[1..] == [];
    BoldCopiesUnclosed("__");
    BoldCopiesFirst("_");
  }

  /** The italic pass pairs the empty `__` into an empty italic span. */
  lemma ItalicEmptyUnderscores()
    ensures Apply(Italic, "__") == "<i></i>"
  {
    ItalicUnderscore([], []);
    assert "_" + [] + "_" + [] == "__";
    assert Apply(Italic, []) == [];
    assert "<i>" + [] + "</i>" + [] == "<i></i>";
  }

  /** The italic pass pairs the single markers of `**w__` into two empty italic spans. */
  lemma ItalicOfMismatch(w: string)
    requires Plain(w)
    ensures Apply(Italic, "**" + w + "__") == "<i></i>" + w + "<i></i>"
  {
    ConcatAssoc("**", w, "__");
    ConcatAssoc("<i></i>", w, "<i></i>");
    ItalicEmptyStars(w + "__");
    NoMarkupPrefix(w, "__");
    ItalicEmptyUnderscores();
  }

  /** Concatenation is associative (a sequence shape, stated only to keep the proofs above cheap). */
  lemma ConcatAssoc(x: string, y: string, z: string)
    ensures x + y + z == x + (y + z)
  {
  }

  /** A leading `**` is an empty italic span for the italic pass. */
  lemma ItalicEmptyStars(rest: string)
    ensures Apply(Italic, "**" + rest) == "<i></i>" + Apply(Italic, rest)
  {
    ItalicStar([], rest);
    assert "*" + [] + "*" + rest == "**" + rest;
    assert "<i>" + [] + "</i>" == "<i></i>";
  }

  /** The whole conversion of `**w__` holds no bold: the italic pass pairs the single markers. */
  lemma MismatchedBoldConversion(w: string)
    requires Plain(w)
    ensures MarkdownText("**" + w + "__") == "<i></i>" + w + "<i></i>"
  {
    WrappedPlain("<i></i>", w, "<i></i>");
    MismatchedBoldKept(w);
    ItalicOfMismatch(w);
    MarkdownVia("**" + w + "__", "**" + w + "__", "<i></i>" + w + "<i></i>");
  }

  /** Two plain lines become one, joined by `<br>`. */
  lemma LineBreak(a: string, b: string)
    requires Plain(a) && Plain(b)
    ensures MarkdownText(a + "\n" + b) == a + "<br>" + b
  {
    MarkdownLines(a, b);
    MarkdownPlain(a);
    MarkdownPlain(b);
  }
}
