/** The line classifiers of the reformatter and the code-output quoting
    rule. All of them look at a line's first characters only. */
module Classify {
  import opened Results
  import opened Chars

  /** The fence token `code_start`. */
  const CodeStart: string := "```"

  /** The two indentations `indents`: a tab, or four spaces. */
  const Indents: seq<string> := ["\t", "    "]

  /** The block-quote marker that `quote_if_code_output` writes in front of
      a line. */
  const QuoteMarker: string := "> "

  predicate StartsWith(s: string, prefix: string)
  {
    |prefix| <= |s| && s[..|prefix|] == prefix
  }

  /** `s[a..b]` is made of '#' only. */
  predicate AllHashes(s: string, a: nat, b: nat)
  {
    forall k :: a <= k < b && k < |s| ==> s[k] == '#'
  }

  /** The end of the run of '#' that starts at `i`: what the greedy `#+`
      consumes. */
  function HashRunEnd(s: string, i: nat): (e: nat)
    requires i <= |s|
    ensures i <= e <= |s| && AllHashes(s, i, e)
    ensures e < |s| ==> s[e] != '#'
    decreases |s| - i
  {
    if i < |s| && s[i] == '#' then HashRunEnd(s, i + 1) else i
  }

  /** Where a match of `header_regex`, `(#+)\s`, that starts at `i` ends
      (exclusive), if the pattern matches there. Backtracking `#+` cannot
      help: a shorter run is followed by '#', which is not whitespace. */
  function HeaderMatchAt(s: string, i: nat): (r: Option<nat>)
    requires i <= |s|
    ensures r.Some? ==> i + 2 <= r.value <= |s| && AllHashes(s, i, r.value - 1) && IsSpace(s[r.value - 1])
    ensures r.None? ==> forall n :: i < n < |s| && AllHashes(s, i, n) ==> !IsSpace(s[n])
  {
    var e := HashRunEnd(s, i);
    if i < e < |s| && IsSpace(s[e]) then Some(e + 1) else None
  }

  /** `are_empty`: every line is the empty string. */
  predicate AreEmpty(lines: seq<string>)
  {
    forall k :: 0 <= k < |lines| ==> lines[k] == []
  }

  /** `is_header`: `re.match(header_regex, line)` succeeds. */
  predicate IsHeader(line: string)
  {
    HeaderMatchAt(line, 0).Some?
  }

  /** `is_indented`: the line starts with one of `Indents`. */
  predicate IsIndented(line: string)
  {
    StartsWith(line, Indents[0]) || StartsWith(line, Indents[1])
  }

  /** `is_code_marker`: the line starts with the fence token. */
  predicate IsCodeMarker(line: string)
  {
    StartsWith(line, CodeStart)
  }

  /** `is_empty_line_after_header`. */
  predicate IsEmptyLineAfterHeader(line: string, lastLine: string)
  {
    IsHeader(lastLine) && line == []
  }

  /** `quote_if_code_output`: quote `line` when the window of last emitted
      lines ends with a fence marker and then an empty line. The window is
      indexed from its end; `and` short-circuits, so the second-to-last entry
      is read only when the last one is empty, and reading it from a
      one-line window raises IndexError. */
  function QuoteIfCodeOutput(line: string, lastTwo: seq<string>): (r: Result<string>)
    ensures r.Err? <==> |lastTwo| == 0 || (|lastTwo| == 1 && lastTwo[0] == [])
    ensures r.Ok? ==> r.value == line || r.value == QuoteMarker + line
    ensures r.Ok? ==> (r.value == QuoteMarker + line <==>
                        lastTwo[|lastTwo| - 1] == [] && IsCodeMarker(lastTwo[|lastTwo| - 2]))
  {
    if |lastTwo| == 0 then Err(IndexError)
    else if lastTwo[|lastTwo| - 1] != [] then Ok(line)
    else if |lastTwo| == 1 then Err(IndexError)
    else if IsCodeMarker(lastTwo[|lastTwo| - 2]) then Ok(QuoteMarker + line)
    else Ok(line)
  }

  // ---------------------------------------------------------------------
  // Properties

  /** `is_header` holds exactly when the line is one or more '#' and then a
      whitespace character; there is no limit on the number of '#'. */
  lemma IsHeaderIff(line: string)
    ensures IsHeader(line) <==> exists n :: 1 <= n < |line| && AllHashes(line, 0, n) && IsSpace(line[n])
  {
    if IsHeader(line) {
      var n := HeaderMatchAt(line, 0).value - 1;
      assert 1 <= n < |line| && AllHashes(line, 0, n) && IsSpace(line[n]);
    }
  }

  /** An indented line is never empty. */
  lemma IndentedIsNonEmpty(line: string)
    requires IsIndented(line)
    ensures line != [] && (line[0] == '\t' || line[0] == ' ')
  {
  }

  /** Edge cases of the classifiers: any number of '#' makes a header,
      "#tag" is not one, three spaces are not an indentation, a
      whitespace-only line is not empty, and the empty list is all-empty. */
  lemma ClassifierExamples()
    ensures IsHeader("# Title") && IsHeader("####### Deep") && !IsHeader("#tag") && !IsHeader("#")
    ensures IsIndented("\tx") && IsIndented("    x") && !IsIndented("   x")
    ensures IsCodeMarker("```python") && !IsCodeMarker("``")
    ensures AreEmpty([]) && AreEmpty(["", ""]) && !AreEmpty(["", " "])
  {
    assert HashRunEnd("# Title", 0) == 1;
    assert HashRunEnd("####### Deep", 0) == 7;
    assert HashRunEnd("#tag", 0) == 1;
    assert HashRunEnd("#", 0) == 1;
    assert "\tx"[..1] == "\t";
    assert "    x"[..4] == "    ";
    assert "   x"[..4] != "    " by { assert "   x"[..4][3] == 'x'; }
    assert "   x"[..1] != "\t" by { assert "   x"[..1][0] == ' '; }
    assert ["", " "][1] != [];
  }
}
