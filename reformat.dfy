/** `format_markdown`: one left-to-right pass over the exported Markdown
    lines that drops some empty lines, quotes code output, rewrites inline
    emphasis and joins the kept lines with newlines. Every decision reads
    only the last one or two lines already emitted. */
module Reformat {
  import opened Results
  import opened Classify
  import opened Inline

  // ---------------------------------------------------------------------
  // Specification of the pass

  /** `formatted_contents[-2:]`: the last two emitted lines, or all of them
      when fewer have been emitted. */
  function LastTwo(out: seq<string>): seq<string>
  {
    if |out| < 2 then out else out[|out| - 2..]
  }

  /** The lines that a kept input line can become: its inline rewrite, or,
      when it is indented, the inline rewrite of its quoted form. */
  predicate IsImage(x: string, line: string)
  {
    x == ConvertToPbMarkup(line) || (IsIndented(line) && x == ConvertToPbMarkup(QuoteMarker + line))
  }

  /** One iteration of the loop: `line` is skipped, or its image is appended
      to the emitted lines `out`. */
  function Step(out: seq<string>, line: string): (r: Result<seq<string>>)
    requires |out| >= 1
    ensures r.Err? <==> |out| == 1 && out[0] == [] && IsIndented(line)
    ensures r.Ok? ==> r.value == out
                      || (|r.value| == |out| + 1 && r.value[..|out|] == out && IsImage(r.value[|out|], line))
  {
    var lastLine := out[|out| - 1];
    PairEmptiness(line, lastLine);
    if AreEmpty([line, lastLine]) then Ok(out)
    else if IsEmptyLineAfterHeader(line, lastLine) then Ok(out)
    else if IsIndented(line) then
      match QuoteIfCodeOutput(line, LastTwo(out))
      case Err(e) => Err(e)
      case Ok(quoted) => Ok(out + [ConvertToPbMarkup(quoted)])
    else Ok(out + [ConvertToPbMarkup(line)])
  }

  lemma PairEmptiness(line: string, lastLine: string)
    ensures AreEmpty([line, lastLine]) <==> line == [] && lastLine == []
    ensures IsIndented(line) ==> line != []
  {
    assert [line, lastLine][0] == line && [line, lastLine][1] == lastLine;
    if IsIndented(line) {
      IndentedIsNonEmpty(line);
    }
  }

  /** The loop run over the remaining input lines `rest`, from the emitted
      lines `out`. */
  function Run(out: seq<string>, rest: seq<string>): Result<seq<string>>
    requires |out| >= 1
    decreases |rest|
  {
    if rest == [] then Ok(out)
    else match Step(out, rest[0])
      case Err(e) => Err(e)
      case Ok(next) => Run(next, rest[1..])
  }

  /** The emitted line list: seeded with `contents[0]`, which raises
      IndexError on an empty input. */
  function FormatLines(contents: seq<string>): Result<seq<string>>
  {
    if contents == [] then Err(IndexError) else Run([contents[0]], contents[1..])
  }

  /** `"\n".join(lines)`. */
  function Join(lines: seq<string>): string
    decreases |lines|
  {
    if lines == [] then []
    else if |lines| == 1 then lines[0]
    else lines[0] + "\n" + Join(lines[1..])
  }

  /** The text `format_markdown` returns. */
  function FormatText(contents: seq<string>): Result<string>
  {
    match FormatLines(contents)
    case Err(e) => Err(e)
    case Ok(out) => Ok(Join(out))
  }

  /** The inputs on which `format_markdown` raises IndexError: the empty
      list, and a list whose first line is empty and whose first non-empty
      later line is indented (the quoting test then reads the second-to-last
      line of a one-line window). */
  predicate FailsOnFirstLine(contents: seq<string>)
  {
    contents == [] || (contents[0] == [] && FirstNonEmptyIsIndented(contents[1..]))
  }

  predicate FirstNonEmptyIsIndented(rest: seq<string>)
    decreases |rest|
  {
    rest != [] && if rest[0] == [] then FirstNonEmptyIsIndented(rest[1..]) else IsIndented(rest[0])
  }

  // ---------------------------------------------------------------------
  // The pass itself

  method FormatMarkdown(contents: seq<string>) returns (r: Result<string>)
    ensures r == FormatText(contents)
    ensures r.Err? <==> FailsOnFirstLine(contents)
  {
    FormatFailsIff(contents);
    if |contents| == 0 {
      return Err(IndexError);
    }
    var formatted := [contents[0]];
    for i := 1 to |contents|
      invariant |formatted| >= 1
      invariant Run(formatted, contents[i..]) == FormatLines(contents)
    {
      var line := contents[i];
      assert contents[i..] == [line] + contents[i + 1..];
      var lastLine := formatted[|formatted| - 1];
      var lastTwo := LastTwo(formatted);
      if AreEmpty([line, lastLine]) {
        continue;
      }
      if IsEmptyLineAfterHeader(line, lastLine) {
        continue;
      }
      if IsIndented(line) {
        var quoted := QuoteIfCodeOutput(line, lastTwo);
        if quoted.Err? {
          return Err(quoted.error);
        }
        line := quoted.value;
      }
      line := ConvertToPbMarkup(line);
      formatted := formatted + [line];
    }
    return Ok(Join(formatted));
  }

  // ---------------------------------------------------------------------
  // Which lines are skipped, which are quoted

  /** A line is dropped exactly when it is empty and the last emitted line
      is empty or a header. */
  lemma StepSkipRule(out: seq<string>, line: string)
    requires |out| >= 1
    ensures Step(out, line) == Ok(out) <==> line == [] && (out[|out| - 1] == [] || IsHeader(out[|out| - 1]))
  {
    PairEmptiness(line, out[|out| - 1]);
  }

  /** An appended line is the rewrite of the quoted input line exactly when
      the input line is indented and the emitted lines end with a fence
      marker and then an empty line; otherwise it is the rewrite of the input
      line itself. */
  lemma StepQuoteRule(out: seq<string>, line: string)
    requires |out| >= 1 && Step(out, line).Ok? && Step(out, line).value != out
    ensures var x := Step(out, line).value[|out|];
      && (x == ConvertToPbMarkup(line) || x == ConvertToPbMarkup(QuoteMarker + line))
      && (x == ConvertToPbMarkup(QuoteMarker + line) <==>
            IsIndented(line) && |out| >= 2 && out[|out| - 1] == [] && IsCodeMarker(out[|out| - 2]))
  {
    assert |ConvertToPbMarkup(QuoteMarker + line)| != |ConvertToPbMarkup(line)|;
  }

  // ---------------------------------------------------------------------
  // Invariants of the emitted lines

  predicate NoDoubleBlank(out: seq<string>)
  {
    forall k :: 1 <= k < |out| ==> out[k - 1] != [] || out[k] != []
  }

  predicate NoBlankAfterHeader(out: seq<string>)
  {
    forall k :: 1 <= k < |out| && IsHeader(out[k - 1]) ==> out[k] != []
  }

  predicate NoIndentAfterFenceBlank(out: seq<string>)
  {
    forall k :: 2 <= k < |out| && IsCodeMarker(out[k - 2]) && out[k - 1] == [] ==> !IsIndented(out[k])
  }

  /** What the pass keeps true of the emitted lines: no two adjacent empty
      lines, no empty line right after a header, and no indented line right
      after a fence marker and an empty line (such a line was quoted). */
  predicate WellFormed(out: seq<string>)
  {
    NoDoubleBlank(out) && NoBlankAfterHeader(out) && NoIndentAfterFenceBlank(out)
  }

  /** The inline rewrite neither creates nor removes indentation, and keeps
      a leading '>' of a quoted line. */
  lemma ConvertKeepsIndentation(s: string)
    ensures IsIndented(ConvertToPbMarkup(s)) <==> IsIndented(s)
    ensures |s| >= 1 && s[0] == '>' ==> ConvertToPbMarkup(s)[0] == '>'
  {
    var r := ConvertToPbMarkup(s);
    if |s| >= 1 {
      assert r[0] == s[0] || (s[0] == '*' && r[0] == '/');
    }
    if |s| >= 4 {
      assert forall k :: 0 <= k < 4 ==> r[k] == s[k] || (s[k] == '*' && r[k] == '/');
      if r[..4] == "    " {
        assert forall k :: 0 <= k < 4 ==> s[k] == ' ' by {
          forall k | 0 <= k < 4 ensures s[k] == ' ' { assert r[..4][k] == r[k]; }
        }
        assert s[..4] == "    ";
      }
      if s[..4] == "    " {
        assert forall k :: 0 <= k < 4 ==> r[k] == ' ' by {
          forall k | 0 <= k < 4 ensures r[k] == ' ' { assert s[..4][k] == s[k]; }
        }
        assert r[..4] == "    ";
      }
    }
  }

  lemma AppendKeepsNoDoubleBlank(out: seq<string>, x: string)
    requires |out| >= 1 && NoDoubleBlank(out) && (out[|out| - 1] != [] || x != [])
    ensures NoDoubleBlank(out + [x])
  {
    var next := out + [x];
    forall k | 1 <= k < |next| ensures next[k - 1] != [] || next[k] != [] {
      if k < |out| { assert next[k - 1] == out[k - 1] && next[k] == out[k]; }
    }
  }

  lemma AppendKeepsNoBlankAfterHeader(out: seq<string>, x: string)
    requires |out| >= 1 && NoBlankAfterHeader(out) && (IsHeader(out[|out| - 1]) ==> x != [])
    ensures NoBlankAfterHeader(out + [x])
  {
    var next := out + [x];
    forall k | 1 <= k < |next| && IsHeader(next[k - 1]) ensures next[k] != [] {
      if k < |out| { assert next[k - 1] == out[k - 1] && next[k] == out[k]; }
    }
  }

  lemma AppendKeepsNoIndentAfterFenceBlank(out: seq<string>, x: string)
    requires |out| >= 1 && NoIndentAfterFenceBlank(out)
    requires |out| >= 2 && IsCodeMarker(out[|out| - 2]) && out[|out| - 1] == [] ==> !IsIndented(x)
    ensures NoIndentAfterFenceBlank(out + [x])
  {
    var next := out + [x];
    forall k | 2 <= k < |next| && IsCodeMarker(next[k - 2]) && next[k - 1] == [] ensures !IsIndented(next[k]) {
      if k < |out| { assert next[k - 2] == out[k - 2] && next[k - 1] == out[k - 1] && next[k] == out[k]; }
    }
  }

  /** The image appended by a step keeps the emitted lines well-formed. */
  lemma StepPreservesWellFormed(out: seq<string>, line: string)
    requires |out| >= 1 && WellFormed(out) && Step(out, line).Ok?
    ensures WellFormed(Step(out, line).value)
  {
    var next := Step(out, line).value;
    if next != out {
      var x := next[|out|];
      assert next == out + [x];
      StepSkipRule(out, line);
      StepQuoteRule(out, line);
      ConvertKeepsIndentation(line);
      ConvertKeepsIndentation(QuoteMarker + line);
      assert (QuoteMarker + line)[0] == '>';
      assert x != [] <==> line != [];
      AppendKeepsNoDoubleBlank(out, x);
      AppendKeepsNoBlankAfterHeader(out, x);
      AppendKeepsNoIndentAfterFenceBlank(out, x);
    }
  }

  lemma {:induction false} RunPreservesWellFormed(out: seq<string>, rest: seq<string>)
    requires |out| >= 1 && WellFormed(out) && Run(out, rest).Ok?
    ensures WellFormed(Run(out, rest).value)
    decreases |rest|
  {
    if rest != [] {
      StepPreservesWellFormed(out, rest[0]);
      RunPreservesWellFormed(Step(out, rest[0]).value, rest[1..]);
    }
  }

  /** Every successful pass emits well-formed lines. */
  lemma FormatLinesWellFormed(contents: seq<string>)
    requires FormatLines(contents).Ok?
    ensures WellFormed(FormatLines(contents).value)
  {
    RunPreservesWellFormed([contents[0]], contents[1..]);
  }

  // ---------------------------------------------------------------------
  // Order and provenance of the emitted lines

  /** `out` is obtained from `src` by dropping lines and replacing each kept
      line by one of its images, keeping the order. */
  ghost predicate Derives(out: seq<string>, src: seq<string>)
    decreases |src|
  {
    if out == [] then true
    else if src == [] then false
    else (IsImage(out[0], src[0]) && Derives(out[1..], src[1..])) || Derives(out, src[1..])
  }

  lemma {:induction false} DerivesBound(out: seq<string>, src: seq<string>)
    requires Derives(out, src)
    ensures |out| <= |src|
    decreases |src|
  {
    if out != [] {
      if IsImage(out[0], src[0]) && Derives(out[1..], src[1..]) {
        DerivesBound(out[1..], src[1..]);
      } else {
        DerivesBound(out, src[1..]);
      }
    }
  }

  lemma {:induction false} RunDerives(out: seq<string>, rest: seq<string>)
    requires |out| >= 1 && Run(out, rest).Ok?
    ensures var fin := Run(out, rest).value;
      |out| <= |fin| && fin[..|out|] == out && Derives(fin[|out|..], rest)
    decreases |rest|
  {
    var fin := Run(out, rest).value;
    if rest != [] {
      var next := Step(out, rest[0]).value;
      RunDerives(next, rest[1..]);
      if next == out {
        assert Derives(fin[|out|..], rest);
      } else {
        var tail := fin[|out|..];
        assert tail[0] == next[|out|];
        assert tail[1..] == fin[|next|..];
      }
    }
  }

  /** The first emitted line is `contents[0]`, untouched; every later one is
      an image of a later input line, in input order, so there are never
      more output lines than input lines. */
  lemma FormatKeepsOrder(contents: seq<string>)
    requires FormatLines(contents).Ok?
    ensures var out := FormatLines(contents).value;
      && 1 <= |out| <= |contents|
      && out[0] == contents[0]
      && Derives(out[1..], contents[1..])
  {
    var out := FormatLines(contents).value;
    RunDerives([contents[0]], contents[1..]);
    DerivesBound(out[1..], contents[1..]);
  }

  // ---------------------------------------------------------------------
  // When the pass fails

  /** Once two lines are emitted, or the only one is non-empty, the quoting
      test never reads outside its window. */
  lemma {:induction false} RunCannotFail(out: seq<string>, rest: seq<string>)
    requires |out| >= 2 || (|out| == 1 && out[0] != [])
    ensures Run(out, rest).Ok?
    decreases |rest|
  {
    if rest != [] {
      RunCannotFail(Step(out, rest[0]).value, rest[1..]);
    }
  }

  lemma {:induction false} RunFromBlank(rest: seq<string>)
    ensures Run([[]], rest).Err? <==> FirstNonEmptyIsIndented(rest)
    decreases |rest|
  {
    if rest != [] {
      if rest[0] == [] {
        assert Step([[]], rest[0]) == Ok([[]]);
        RunFromBlank(rest[1..]);
      } else if !IsIndented(rest[0]) {
        StepSkipRule([[]], rest[0]);
        RunCannotFail(Step([[]], rest[0]).value, rest[1..]);
      }
    }
  }

  /** `format_markdown` raises IndexError exactly on the inputs
      `FailsOnFirstLine` describes. */
  lemma FormatFailsIff(contents: seq<string>)
    ensures FormatLines(contents).Err? <==> FailsOnFirstLine(contents)
  {
    if contents != [] {
      if contents[0] == [] {
        RunFromBlank(contents[1..]);
      } else {
        RunCannotFail([contents[0]], contents[1..]);
      }
    }
  }

  // ---------------------------------------------------------------------
  // The joined text

  /** `text.split("\n")`, the inverse of `Join` on newline-free lines. */
  function Split(text: string): (r: seq<string>)
    ensures |r| >= 1
    decreases |text|
  {
    if text == [] then [[]]
    else if text[0] == '\n' then [[]] + Split(text[1..])
    else var tail := Split(text[1..]); [[text[0]] + tail[0]] + tail[1..]
  }

  lemma {:induction false} SplitNewlineFreePrefix(a: string, rest: string)
    requires '\n' !in a
    ensures Split(a + rest) == [a + Split(rest)[0]] + Split(rest)[1..]
    decreases |a|
  {
    if a != [] {
      assert (a + rest)[1..] == a[1..] + rest;
      SplitNewlineFreePrefix(a[1..], rest);
      assert [a[0]] + (a[1..] + Split(rest)[0]) == a + Split(rest)[0];
    } else {
      var t := Split(rest);
      assert a + rest == rest;
      assert [] + t[0] == t[0];
      assert t == [t[0]] + t[1..];
    }
  }

  /** Joining newline-free lines and splitting the text again gives the
      lines back. */
  lemma {:induction false} SplitJoin(lines: seq<string>)
    requires |lines| >= 1 && forall k :: 0 <= k < |lines| ==> '\n' !in lines[k]
    ensures Split(Join(lines)) == lines
    decreases |lines|
  {
    if |lines| == 1 {
      assert lines[0] + [] == lines[0];
      SplitNewlineFreePrefix(lines[0], []);
      assert Split([]) == [[]];
      assert lines == [lines[0]];
    } else {
      var rest := Join(lines[1..]);
      assert Join(lines) == lines[0] + ("\n" + rest);
      SplitNewlineFreePrefix(lines[0], "\n" + rest);
      assert ("\n" + rest)[0] == '\n' && ("\n" + rest)[1..] == rest;
      assert Split("\n" + rest) == [[]] + Split(rest);
      SplitJoin(lines[1..]);
      assert lines[0] + [] == lines[0];
      assert lines == [lines[0]] + lines[1..];
    }
  }

  lemma ConvertKeepsNewlineFree(s: string)
    requires '\n' !in s
    ensures '\n' !in ConvertToPbMarkup(s)
  {
    var r := ConvertToPbMarkup(s);
    forall k | 0 <= k < |r| ensures r[k] != '\n' {
      assert r[k] == s[k] || r[k] == '/';
    }
  }

  lemma {:induction false} DerivesNewlineFree(out: seq<string>, src: seq<string>)
    requires Derives(out, src) && forall k :: 0 <= k < |src| ==> '\n' !in src[k]
    ensures forall k :: 0 <= k < |out| ==> '\n' !in out[k]
    decreases |src|
  {
    if out != [] {
      if IsImage(out[0], src[0]) && Derives(out[1..], src[1..]) {
        DerivesNewlineFree(out[1..], src[1..]);
        ConvertKeepsNewlineFree(src[0]);
        assert '\n' !in QuoteMarker + src[0];
        ConvertKeepsNewlineFree(QuoteMarker + src[0]);
        assert forall k :: 1 <= k < |out| ==> out[k] == out[1..][k - 1];
      } else {
        DerivesNewlineFree(out, src[1..]);
      }
    }
  }

  /** For newline-free input lines, the returned text splits back into the
      emitted lines, the first of which is `contents[0]`. */
  lemma FormattedTextLines(contents: seq<string>)
    requires forall k :: 0 <= k < |contents| ==> '\n' !in contents[k]
    requires FormatText(contents).Ok?
    ensures Split(FormatText(contents).value) == FormatLines(contents).value
    ensures Split(FormatText(contents).value)[0] == contents[0]
  {
    var out := FormatLines(contents).value;
    FormatKeepsOrder(contents);
    DerivesNewlineFree(out[1..], contents[1..]);
    assert forall k :: 1 <= k < |out| ==> out[k] == out[1..][k - 1];
    SplitJoin(out);
  }

  // ---------------------------------------------------------------------
  // Scenarios

  /** An empty line after a non-empty line that is not a header is kept. */
  lemma BlankKeptAfterText(last: string)
    requires last != [] && !IsHeader(last)
    ensures Step([last], "") == Ok([last, ""])
  {
    var out := [last];
    assert out[|out| - 1] == last;
    PairEmptiness("", last);
    assert !AreEmpty(["", last]);
    assert !IsEmptyLineAfterHeader("", last);
    assert !IsIndented("");
    assert ConvertToPbMarkup("") == "";
    assert Step(out, "") == Ok(out + [ConvertToPbMarkup("")]);
    assert out + [""] == [last, ""];
  }

  /** An indented line without '*' under a fence marker and an empty line
      is emitted quoted, indentation included. */
  lemma CodeOutputQuoted(fence: string, line: string)
    requires IsCodeMarker(fence) && IsIndented(line) && '*' !in line
    ensures Step([fence, ""], line) == Ok([fence, "", QuoteMarker + line])
  {
    var out := [fence, ""];
    assert LastTwo(out) == out;
    PairEmptiness(line, "");
    var q := QuoteMarker + line;
    assert QuoteIfCodeOutput(line, out) == Ok(q);
    assert forall k :: 0 <= k < |q| ==> q[k] != '*' by {
      forall k | 0 <= k < |q| ensures q[k] != '*' {
        if k >= 2 { assert q[k] == line[k - 2]; }
      }
    }
    assert ConvertToPbMarkup(q) == q;
    assert out[|out| - 1] == [] && !IsHeader([]);
    assert !AreEmpty([line, []]);
    assert Step(out, line) == Ok(out + [q]);
    assert out + [q] == [fence, "", q];
  }

  lemma JoinThree(a: string, b: string, c: string)
    ensures Join([a, b, c]) == a + "\n" + b + "\n" + c
  {
    assert [a, b, c][1..] == [b, c] && [b, c][1..] == [c];
    assert Join([b, c]) == b + "\n" + c;
    assert a + "\n" + (b + "\n" + c) == a + "\n" + b + "\n" + c;
  }

  /** Code output under a fence marker and an empty line is quoted,
      keeping its indentation; the empty line between them stays. */
  lemma CodeOutputBlock(fence: string, line: string)
    requires IsCodeMarker(fence) && IsIndented(line) && '*' !in line
    ensures FormatText([fence, "", line]) == Ok(fence + "\n" + "" + "\n" + (QuoteMarker + line))
  {
    assert fence[0] == CodeStart[0] == '`';
    assert !IsHeader(fence) by { assert HashRunEnd(fence, 0) == 0; }
    BlankKeptAfterText(fence);
    CodeOutputQuoted(fence, line);
    var c := [fence, "", line];
    assert c[0] == fence && c[1..] == ["", line] && c[1..][1..] == [line];
    var out := [fence, "", QuoteMarker + line];
    assert Run([fence], c[1..]) == Run([fence, ""], [line]);
    assert Run([fence, ""], [line]) == Run(out, []);
    JoinThree(fence, "", QuoteMarker + line);
  }
}
