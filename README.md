# Flash-card converter: a verified model of its core

The application (`app.py`) takes the free-form answer of a notebook
assistant, pasted into a form. It cuts out the JSON array of flash cards from
that text, decodes it into a list of records and tabulates the records as a
data frame. It then checks that the frame has a front column (`frente`) and a
back column (`verso`), and rewrites both columns from inline Markdown to the
HTML that the Anki flash-card program shows: `**b**`/`__b__` become `<b>b</b>`,
`*i*`/`_i_` become `<i>i</i>`, and every line break becomes `<br>`.

This project models that core in Dafny and proves what it does.

- `json_extract.dfy` (`JsonExtract`) covers `extract_json_from_text`. Python's
  `str.find` and `str.rfind` for one character are modelled as `Find` and
  `RFind`. The extractor returns the inclusive slice from the first `[` to the
  last `]` when that `]` comes after that `[`. Otherwise it returns the text
  unchanged, and it returns `""` for empty input.
- `markdown.dfy` (`Markdown`) covers `markdown_to_html`. Each
  `re.sub(r'(D1|D2)(.*?)\1', …)` is one `Pass`: a scanner over the part of the
  text still to be read.
  - Where a delimiter alternative starts and the lazy `.*?` reaches the same
    delimiter again before a line break, the span is rewritten.
  - Alternatives are tried in pattern order. An alternative that does not
    close gives way to the next one, as regex backtracking does.
  - Elsewhere one character is copied.
  - Cell values are a small `Value` type. Only `Str` is a Python `str`; every
    other value passes through unchanged.
- `markdown_properties.dfy` (`MarkdownProperties`) proves, for any pass:
  - how the scan behaves;
  - that spans never cross lines;
  - that the whole conversion leaves plain text alone and turns line breaks
    into `<br>`.

  It also gives the bold and italic instances.
- `markdown_examples.dfy` (`MarkdownExamples`) works out the documented
  conversions for every plain word (a text with no `*`, `_` or line break).
  These are: bold, italic, bold before italic, mismatched bold delimiters and
  line breaks.
- `records.dfy` (`Records`) covers the submit handler.
  - The data frame is a class `Frame` whose columns are the keys of all
    records. A record that lacks a key gets a missing value (pandas' NaN) in
    that column.
  - The front and back columns are rewritten in place by
    `Frame.ApplyMarkdown`.
  - `Convert` and `Process` give the outcome the user sees: nothing pasted,
    undecodable JSON with the decoder's message, missing columns, or the
    converted table and its card count.
- `wrappers.dfy` (`Wrappers`) holds the `Option` type.

## Model

| member | source | states |
|---|---|---|
| `JsonExtract.Find` | app.py:18 | `text.find('[')`: -1 exactly when the character is absent; otherwise an index holding it with no earlier occurrence |
| `JsonExtract.RFind` | app.py:19 | `text.rfind(']')`: -1 exactly when the character is absent; otherwise an index holding it with no later occurrence |
| `JsonExtract.FindFirst` | app.py:18 | the first occurrence of the character is what `find` returns |
| `JsonExtract.RFindLast` | app.py:19 | the last occurrence of the character is what `rfind` returns |
| `JsonExtract.ExtractJsonFromText` | app.py:10-24 | empty input gives `""`; the result is either the input unchanged or a text that starts with `[` and ends with `]` |
| `JsonExtract.ExtractIsOuterSlice` | app.py:18-22 | when the first `[` is at `a` and the last `]` is at `b > a`, the result is exactly `text[a..b+1]` |
| `JsonExtract.ExtractSliceCase` | app.py:18-22 | whenever some `[` precedes some `]`, the result is the slice from the first `[` to the last `]`, and it covers that pair |
| `JsonExtract.ExtractFallback` | app.py:21-24 | with no `[` before a `]` (no `[`, no `]`, or the last `]` before the first `[`), the text comes back unchanged |
| `JsonExtract.ExtractChangesOnlyWithPair` | app.py:21-24 | the text is changed only when some `[` precedes some `]` |
| `JsonExtract.ExtractIdempotent` | app.py:10-24 | extracting twice gives the same as extracting once |
| `JsonExtract.ExtractSurroundedArray` | app.py:10-24 | an array between prose with no `[` before it and no `]` after it is isolated exactly |
| `Markdown.Bold` | app.py:35 | the bold pattern `(\*\*\|__)(.*?)\1` as the alternatives `**` then `__`, with the replacement `<b>\2</b>` as the tags `<b>` and `</b>` |
| `Markdown.Italic` | app.py:38 | the italic pattern `(\*\|_)(.*?)\1` as the alternatives `*` then `_`, with the replacement `<i>\2</i>` as the tags `<i>` and `</i>` |
| `Markdown.FindClose` | app.py:35 | the lazy `(.*?)\1` search: a found closing delimiter fits inside the text |
| `Markdown.FindCloseSome` | app.py:35 | what the search finds is the first occurrence of the same delimiter, with no line break before it (`.` does not match `\n`): the shortest span |
| `Markdown.FindCloseNone` | app.py:35 | when the search fails, the delimiter does not occur anywhere before the end of the line |
| `Markdown.MatchAt` | app.py:35 | a match uses one alternative of the group, which starts the text, and the closing delimiter is that same alternative (the `\1` backreference) |
| `Markdown.Step` | app.py:35 | each scan step consumes at least one character |
| `Markdown.Apply` | app.py:35-38 | `re.sub` of one pass (the bold pass at line 35, the italic pass at line 38) over the whole text; one step is stated by `ApplyCopy` and `ApplyRewrite`, the whole pass by `ApplyLines`, `ApplyNoNewline`, `ApplyPlain` and `ApplyNoDelimiter` |
| `Markdown.ReplaceNewlines` | app.py:41 | `replace('\n', '<br>')` leaves no line break, and changes nothing in a text without one |
| `Markdown.MarkdownText` | app.py:34-43 | the converted text holds no line break |
| `Markdown.MarkdownToHtml` | app.py:26-43 | a non-`str` value is returned unchanged; a `str` is converted into a `str` with no line break |
| `MarkdownProperties.FindCloseAt` | app.py:35 | the first same-line occurrence of the delimiter is exactly where the search stops |
| `MarkdownProperties.MatchAtFirst` | app.py:35 | the first alternative that starts the text and closes on its line is the one matched, whatever the earlier alternatives that start the text but do not close |
| `MarkdownProperties.MatchAtNone` | app.py:35 | where no alternative starts the text, the pattern does not match there |
| `MarkdownProperties.MatchAtSkip` | app.py:35 | an alternative that does not start the text, or does not close, gives way to the next alternative |
| `MarkdownProperties.ApplyCopy` | app.py:35 | where the pattern does not match, the character is copied and the scan resumes at the next one |
| `MarkdownProperties.ApplyRewrite` | app.py:35 | where the pattern matches, the tags are put around the content and the scan resumes after the closing delimiter |
| `MarkdownProperties.ApplyPlainPrefix` | app.py:35 | text whose characters open no alternative is copied, and the scan carries on after it |
| `MarkdownProperties.ApplyPlain` | app.py:35 | a text whose characters open no alternative is left unchanged by a pass |
| `MarkdownProperties.ApplyNoDelimiter` | app.py:35 | a text in which no alternative occurs anywhere is left unchanged by a pass |
| `MarkdownProperties.SpanMatch` | app.py:35 | in a pass whose alternatives have pairwise distinct first characters (as `Bold` and `Italic` do), a one-line span `d c d` whose content lacks the first character of `d` is what the pattern matches |
| `MarkdownProperties.ApplySpan` | app.py:35 | in a pass whose alternatives have pairwise distinct first characters, such a span becomes the tags around `c`, and the scan resumes right after it |
| `MarkdownProperties.FindCloseLines` | app.py:35 | the closing search never sees past a line break |
| `MarkdownProperties.MatchAtLines` | app.py:35 | a match at the start of a line does not depend on later lines |
| `MarkdownProperties.ApplyAtNewline` | app.py:35 | a line break is always copied |
| `MarkdownProperties.ApplyLines` | app.py:35-38 | a pass rewrites each line on its own: `pass(a + "\n" + b) == pass(a) + "\n" + pass(b)` |
| `MarkdownProperties.ApplyNoNewline` | app.py:35-38 | a pass adds no line break to a text without one |
| `MarkdownProperties.ReplaceNewlinesConcat` | app.py:41 | newline replacement distributes over concatenation |
| `MarkdownProperties.ReplaceNewlinesBreak` | app.py:41 | each line break becomes `<br>`: `replace(a + "\n" + b) == replace(a) + "<br>" + replace(b)` |
| `MarkdownProperties.NoMarkupPrefix` | app.py:35-38 | neither pass touches a prefix without `*` or `_`, and both carry on after it |
| `MarkdownProperties.NoMarkupChars` | app.py:35-38 | neither pass touches a text without `*` or `_` |
| `MarkdownProperties.BoldStars` | app.py:35 | `**c**` on one line, with no `*` inside, becomes `<b>c</b>` |
| `MarkdownProperties.BoldUnderscores` | app.py:35 | `__c__` on one line, with no `_` inside, becomes `<b>c</b>` |
| `MarkdownProperties.ItalicStar` | app.py:38 | `*c*` on one line, with no `*` inside, becomes `<i>c</i>` |
| `MarkdownProperties.ItalicUnderscore` | app.py:38 | `_c_` on one line, with no `_` inside, becomes `<i>c</i>` |
| `MarkdownProperties.MarkdownPlain` | app.py:34-43 | a text with no `*`, `_` or line break is converted to itself |
| `MarkdownProperties.MarkdownLines` | app.py:34-43 | each line is converted on its own and the lines are joined by `<br>` |
| `MarkdownExamples.BoldWord` | app.py:34-35 | `**w**` and `__w__` both become `<b>w</b>` |
| `MarkdownExamples.ItalicWord` | app.py:37-38 | `*w*` and `_w_` both become `<i>w</i>` |
| `MarkdownExamples.BoldKeepsSingleMarkers` | app.py:35 | the bold pass leaves `*w*` and `_w_` alone |
| `MarkdownExamples.BoldBeforeItalic` | app.py:34-38 | bold runs first: `**b**t*i*` becomes `<b>b</b>t<i>i</i>` |
| `MarkdownExamples.MismatchedBoldKept` | app.py:35 | bold needs the same delimiter on both sides: the bold pass leaves `**w__` unchanged |
| `MarkdownExamples.MismatchedBoldConversion` | app.py:34-43 | `**w__` gets no bold; the italic pass turns it into `<i></i>w<i></i>` |
| `MarkdownExamples.LineBreak` | app.py:40-41 | two plain lines become one line joined by `<br>` |
| `Records.Columns` | app.py:74 | the frame's columns are exactly the keys that some record has |
| `Records.Frame.constructor` | app.py:74 | `pd.DataFrame(data)`: one row per record in order, each with every column, and a missing value where the record lacks the key |
| `Records.Frame.ApplyMarkdown` | app.py:78-79 | `df[key] = df[key].apply(markdown_to_html)`: that column is converted in every row; no other cell, no column and no row count changes |
| `Records.ConvertedRow` | app.py:78-79 | converting a row's front cell and then its back cell gives the converted record |
| `Records.ConvertedAfterBoth` | app.py:78-79 | converting the front column and then the back column of a fresh frame gives the converted table |
| `Records.ConvertedCardsOnOneLine` | app.py:78-79 | every text cell of the converted front and back columns lies on one line; a non-text cell (a missing value, a number) is kept |
| `Records.Convert` | app.py:74-81 | missing columns are reported exactly when the front or the back column is absent; otherwise the card count is the number of records, and the table has the front and back columns converted and every other column unchanged |
| `Records.Process` | app.py:64-125 | nothing pasted is reported exactly for empty input; a decoding error of the extracted text is reported with its message; a decoded list gives what `Convert` gives |

## Left out

- The Streamlit interface is not modelled: the page, the form, the preview of the first ten cards, the messages' wording and the download button.
- CSV export is not modelled (separator `;`, no header, no index, UTF-8 with a byte-order mark). The model stops at the converted table. It does prove that converted front and back cells hold no line break.
- `json.loads` is the parameter `parse` of `Process`: a decoded list of records, or a decoding error with its message. JSON syntax and decoding are not modelled.
- JSON values other than a list of objects (a single object, a list of scalars, nested arrays as cell values) are not represented. `pd.DataFrame` would tabulate some of them differently or raise.
- The catch-all `except Exception` branch (app.py:122-123) is not modelled, because no modelled operation raises.
- Numbers are `real`; the model does not distinguish floats from integers.
- Column order in the frame is not modelled (`columns` is a set). It matters only to the CSV export above.
- `Records.Frame.ApplyMarkdown`: pandas builds a new column and assigns it; the model replaces the row sequence, which is the same observable state.
- `MarkdownProperties.SpanMatch`, `MarkdownProperties.ApplySpan` and the four pass instances state a sufficient condition: the content lacks the delimiter's first character, and the pass's alternatives have pairwise distinct first characters (true of `Bold` and `Italic`). Spans whose content holds such a character (for example `**a*b**`) are covered by the general `FindCloseSome` and `MatchAt`, but not by these lemmas.
- `MarkdownExamples` states the documented conversions for every plain word rather than for the literal strings (`**bold**`, `*it*`, `**b** and *i*`, `**x__`, `line1\nline2`). Each literal is an instance of the matching lemma.
