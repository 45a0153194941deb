# nb2bear compact-layout reformatter, in Dafny

nb2bear turns a Jupyter notebook into a note for the Bear note-taking app. In
the compact layout, the notebook is exported to Markdown lines. Then
`format_markdown` rewrites those lines for Bear, and `get_nb_title` takes the
note title from the first line. This project models that reformatter and
proves what it guarantees:

- `results.dfy` (module `Results`) holds `Option`, `Result` and the one
  failure Python raises here, `IndexError`.
- `chars.dfy` (module `Chars`) holds the characters Python's `re` treats as
  `\s`, and those `str.splitlines` breaks on.
- `inline.dfy` (module `Inline`) models `convert_to_pb_markup`. It has the
  italics substitution `\*(?=\S)(.+?)(?<=\S)\*` → `/\1/`, then the bold
  substitution `(\*\*)([^\s]*?)(\*\*)` → `\*\1\*`. Each substitution is the
  left-to-right, non-overlapping scan that `re.sub` performs, and the lazy
  `+?` and `*?` pick the nearest closing delimiter.
- `classify.dfy` (module `Classify`) models the line classifiers
  `are_empty`, `is_header`, `is_indented`, `is_code_marker` and
  `is_empty_line_after_header`, plus `quote_if_code_output`. It also holds
  the constants `code_start`, `indents` and `quote_start`.
- `reformat.dfy` (module `Reformat`) models `format_markdown`:
  - `Step` is one loop iteration and `Run` is the whole loop, as functions.
  - `FormatMarkdown` is the method with the loop itself, proved equal to
    them.
  - Lemmas state what the pass guarantees about the lines it emits.
- `title.dfy` (module `Title`) models the Markdown branch of `get_nb_title`:
  `re.sub(header_regex, "", text.splitlines()[0])`.

Python's `IndexError` is modelled as an `Err(IndexError)` result, not as a
precondition. It comes from `contents[0]`, `last_two_lines[-2]` and
`splitlines()[0]`.

Behaviour a reader might not expect:

- **Bold.** `**bold**` becomes `/*bold/*`, not `*bold*`. The italics pass
  runs first and already consumes `**bold*` as one span
  (`Inline.DoubleStarExample`). After the italics pass, the bold pattern can
  never match (`Inline.BoldPassNeverFires`).
  - Even on its own, the bold template `\*\1\*` would not give `*bold*`.
    Python keeps the backslash of the unknown escape `\*`, and group 1 is
    the opening `**`. So a match becomes the literal `\***\*` and the word is
    lost (`Inline.BoldTemplateExample`).
- **Quoting.** Code output is quoted by prefixing `"> "` to the whole
  indented line, so its indentation stays: `>     output`
  (`Reformat.CodeOutputQuoted`).
- **Indentation.** A line is indented when it starts with a tab or with four
  spaces; the test is on a prefix, so five leading spaces also count.
- **Title.** Every `#`-run followed by whitespace is removed from the first
  line, not only a leading one (`Title.MidLineMarkExample`).

## Model

| member | source | states |
|---|---|---|
| Inline.CloseFrom | nb2bear/nb2bear.py:27 | the lazy `(.+?)(?<=\S)\*` finds the nearest '*' after a non-space character on the same line, and there is none before it; None exactly when no such '*' exists before a newline |
| Inline.ItalicsFrom | nb2bear/nb2bear.py:76 | replacing a span `*w*` by `/w/` keeps the line's length |
| Inline.BoldCloseFrom | nb2bear/nb2bear.py:28 | the lazy `([^\s]*?)(\*\*)` finds the nearest "**" reached over non-whitespace only, and none comes before it |
| Inline.BoldFrom | nb2bear/nb2bear.py:28 | the bold substitution leaves a line unchanged when the pattern matches nowhere in it |
| Inline.ConvertToPbMarkup | nb2bear/nb2bear.py:74-79 | the rewritten line has the input's length, and differs from it only where a '*' became '/'; a line without '*' comes back unchanged |
| Inline.ItalicsOnlyRewritesStars | nb2bear/nb2bear.py:76 | at every position, the italics scan keeps the character or turns a '*' into '/' |
| Inline.ItalicsPassOnlyRewritesStars | nb2bear/nb2bear.py:76 | the same for the whole line at once |
| Inline.BoldPassNeverFires | nb2bear/nb2bear.py:76-77 | after the italics substitution, the bold substitution changes nothing |
| Inline.ItalicsWrapsSpan | nb2bear/nb2bear.py:27 | `*w*` becomes `/w/` when w has no '*' or newline and starts and ends with non-whitespace |
| Inline.IsolatedStarSurvivesConversion | nb2bear/nb2bear.py:74-79 | a '*' with whitespace or the line's edge on both sides is kept, e.g. a list bullet "* " |
| Inline.ItalicsExample | nb2bear/nb2bear.py:74-79 | "*hi you*" becomes "/hi you/" |
| Inline.DoubleStarExample | nb2bear/nb2bear.py:74-79 | "**ab**" becomes "/*ab/*" |
| Inline.BulletExample | nb2bear/nb2bear.py:74-79 | the '*' of "* item" is kept |
| Inline.BoldTemplateExample | nb2bear/nb2bear.py:77 | applied alone, the bold substitution turns "**bold**" into the literal `\***\*` |
| Classify.HashRunEnd | nb2bear/nb2bear.py:29 | the greedy `#+` run from i ends at the first character that is not '#' |
| Classify.HeaderMatchAt | nb2bear/nb2bear.py:29 | `(#+)\s` matches at i exactly when one or more '#' there are followed by whitespace; the match ends just after that whitespace |
| Classify.QuoteIfCodeOutput | nb2bear/nb2bear.py:97-101 | the line gets "> " exactly when the last entry of the window is empty and the second-to-last is a code marker; otherwise it is unchanged; IndexError exactly when the window is empty or is a single empty line |
| Classify.IsHeaderIff | nb2bear/nb2bear.py:85-86 | a line is a header iff it starts with one or more '#' and then a whitespace character, with no limit on the number of '#' |
| Classify.IndentedIsNonEmpty | nb2bear/nb2bear.py:88-89 | an indented line is non-empty and starts with a tab or a space |
| Classify.ClassifierExamples | nb2bear/nb2bear.py:82-92 | "####### Deep" is a header and "#tag" is not; "   x" is not indented; "``" is not a code marker; a whitespace line is not empty; the empty list is all-empty |
| Reformat.PairEmptiness | nb2bear/nb2bear.py:82-83 | `are_empty([line, last_line])` holds iff both lines are empty |
| Reformat.Step | nb2bear/nb2bear.py:109-120 | one iteration either skips the line or appends one image of it (its rewrite, or the rewrite of its quoted form if it is indented); it fails exactly when the only emitted line is empty and the line is indented |
| Reformat.StepSkipRule | nb2bear/nb2bear.py:112-114 | a line is skipped iff it is empty and the last emitted line is empty or a header |
| Reformat.StepQuoteRule | nb2bear/nb2bear.py:116-120 | an appended line is quoted iff the input line is indented and the emitted lines end with a code marker and then an empty line |
| Reformat.ConvertKeepsIndentation | nb2bear/nb2bear.py:119 | the inline rewrite neither creates nor removes indentation, and keeps a leading '>' |
| Reformat.StepPreservesWellFormed | nb2bear/nb2bear.py:109-120 | each iteration keeps the emitted lines free of double blanks, of blanks right after a header, and of unquoted indented lines after a fence and a blank |
| Reformat.RunPreservesWellFormed | nb2bear/nb2bear.py:108-120 | the whole loop keeps that invariant |
| Reformat.FormatLinesWellFormed | nb2bear/nb2bear.py:104-122 | every successful pass emits no two adjacent empty lines and no empty line right after a header, and quotes every indented line that follows a fence and a blank |
| Reformat.DerivesBound | nb2bear/nb2bear.py:108-120 | lines derived from an input by dropping lines and rewriting the kept ones are no more than the input lines |
| Reformat.RunDerives | nb2bear/nb2bear.py:108-120 | the loop only appends, and what it appends derives from the remaining input lines in order |
| Reformat.FormatKeepsOrder | nb2bear/nb2bear.py:104-122 | the first emitted line is `contents[0]` unchanged; the others are images of later input lines in input order; so there are at most as many output lines as input lines |
| Reformat.RunCannotFail | nb2bear/nb2bear.py:98 | once two lines are emitted, or the only one is non-empty, the quoting test never reads outside its window |
| Reformat.RunFromBlank | nb2bear/nb2bear.py:98 | starting from a single empty line, the loop fails iff the first non-empty remaining line is indented |
| Reformat.FormatFailsIff | nb2bear/nb2bear.py:106 | the pass fails iff the input is empty, or its first line is empty and its first non-empty later line is indented |
| Reformat.FormatMarkdown | nb2bear/nb2bear.py:104-122 | the loop computes exactly the specified text, and fails exactly on the inputs above |
| Reformat.SplitJoin | nb2bear/nb2bear.py:122 | joining newline-free lines with "\n" and splitting the text again gives the lines back |
| Reformat.FormattedTextLines | nb2bear/nb2bear.py:122 | for newline-free input lines, the returned text splits back into the emitted lines, and the first of them is `contents[0]` |
| Reformat.BlankKeptAfterText | nb2bear/nb2bear.py:113-120 | an empty line after a non-empty line that is not a header is kept |
| Reformat.CodeOutputQuoted | nb2bear/nb2bear.py:116-120 | an indented line without '*' under a code marker and an empty line is appended as "> " + line, indentation included |
| Reformat.JoinThree | nb2bear/nb2bear.py:122 | "\n".join of three lines puts one newline between each pair |
| Reformat.CodeOutputBlock | nb2bear/nb2bear.py:104-122 | a fence, an empty line and indented output format to the fence, the empty line and the quoted output |
| Title.LineEnd | nb2bear/nb2bear.py:145 | the first line ends at the first line boundary, or at the end of the text |
| Title.FirstLine | nb2bear/nb2bear.py:145 | `splitlines()[0]` is the longest prefix without a line boundary; IndexError iff the text is empty |
| Title.StripFrom | nb2bear/nb2bear.py:145 | the substitution never lengthens the line |
| Title.MarkdownTitle | nb2bear/nb2bear.py:140-145 | the Markdown title fails exactly on empty text |
| Title.KeptHashFollower | nb2bear/nb2bear.py:29 | a '#' where no header mark matches is followed by a character that is not whitespace and does not start a header mark either |
| Title.StripLeavesNoMark | nb2bear/nb2bear.py:145 | after the substitution, no '#' in the title is directly followed by whitespace |
| Title.StripKeepsUnmarked | nb2bear/nb2bear.py:145 | a line without header marks is its own title |
| Title.StripIdempotent | nb2bear/nb2bear.py:145 | stripping twice is the same as stripping once |
| Title.StripKeepsVisible | nb2bear/nb2bear.py:145 | only '#' and whitespace are removed: every other character of the line stays, in order |
| Title.TitleOfFirstLine | nb2bear/nb2bear.py:145 | the title depends only on the text before the first line boundary |
| Title.HeaderTitleExample | nb2bear/nb2bear.py:145 | "## My Note" becomes "My Note" |
| Title.MidLineMarkExample | nb2bear/nb2bear.py:145 | "a # b" becomes "a b" |
| Title.HashtagKeptExample | nb2bear/nb2bear.py:145 | "#tag" is kept as is |
| Title.NoteTitleExample | nb2bear/nb2bear.py:140-145 | the Markdown text "## My Note\nx" has the title "My Note" |

## Left out

- `load_nb`, `parse_nb` and `convert_nb_to_markdown` are file I/O and calls into nbformat and nbconvert. The model takes the exported Markdown lines as its input.
- `get_nb_images`, `convert_markdown_to_html`, `add_images_to_html` and the HTML branch of `get_nb_title` (BeautifulSoup's `h1`) belong to the comfortable layout, which calls into markdown2 and BeautifulSoup. The Markdown branch is modelled without first checking for an `h1`, so it assumes that the text has none.
- `trash_existing_note`, `add_to_bear` and `convert_nb_to_bear` shell out to the xcall bridge and parse its JSON, so they are left out.
- The constants `header_starts`, `list_start`, `s4` (used only through `indents`), `img_start` and `xcall_path` are not modelled, because the core does not use them.
- Text is a sequence of code points. The regular expressions are modelled for the patterns the core uses, not as a general regex engine.
- Reformat.FormattedTextLines: states the split-back property only for input lines without '\n'. That is what `splitlines()` produces; an input line that holds a newline would join into more text lines.
- The "Some *text* and **word**." scenario is not stated as a lemma. Its parts are: the header rules (`Reformat.StepSkipRule`) and the inline rewrites (`Inline.ItalicsWrapsSpan` and `Inline.DoubleStarExample`).
