/** The Markdown branch of `get_nb_title`: the note title is the first line
    of the text with every header mark `(#+)\s` removed from it. */
module Title {
  import opened Results
  import opened Chars
  import opened Classify

  // ---------------------------------------------------------------------
  // `text.splitlines()[0]`

  /** Where the line that starts at `i` ends: the first line boundary at or
      after `i`, or the end of the text. */
  function LineEnd(text: string, i: nat): (e: nat)
    requires i <= |text|
    ensures i <= e <= |text|
    ensures forall k :: i <= k < e ==> !IsLineBreak(text[k])
    ensures e < |text| ==> IsLineBreak(text[e])
    decreases |text| - i
  {
    if i == |text| || IsLineBreak(text[i]) then i else LineEnd(text, i + 1)
  }

  /** The first element of `text.splitlines()`, which exists exactly when
      the text is not empty; a "\r\n" pair ends the line at its '\r' like
      any other boundary. */
  function FirstLine(text: string): (r: Result<string>)
    ensures r.Err? <==> text == []
    ensures r.Ok? ==> |r.value| <= |text| && r.value == text[..|r.value|]
    ensures r.Ok? ==> forall k :: 0 <= k < |r.value| ==> !IsLineBreak(r.value[k])
    ensures r.Ok? && |r.value| < |text| ==> IsLineBreak(text[|r.value|])
  {
    if text == [] then Err(IndexError) else Ok(text[..LineEnd(text, 0)])
  }

  // ---------------------------------------------------------------------
  // `re.sub(header_regex, "", line)`

  /** The substitution scanned from `i`: a header mark that matches at `i`
      is dropped and the scan resumes after it; otherwise the character at
      `i` is kept. */
  function StripFrom(s: string, i: nat): (r: string)
    requires i <= |s|
    ensures |r| <= |s| - i
    decreases |s| - i
  {
    if i == |s| then []
    else match HeaderMatchAt(s, i)
      case Some(e) => StripFrom(s, e)
      case None => [s[i]] + StripFrom(s, i + 1)
  }

  function StripHeaderMarks(s: string): string
  {
    StripFrom(s, 0)
  }

  /** The title of a Markdown note. */
  function MarkdownTitle(text: string): (r: Result<string>)
    ensures r.Err? <==> text == []
  {
    match FirstLine(text)
    case Err(e) => Err(e)
    case Ok(line) => Ok(StripHeaderMarks(line))
  }

  // ---------------------------------------------------------------------
  // What the substitution leaves

  /** No '#' is directly followed by whitespace: no header mark is left. */
  predicate Unmarked(s: string)
  {
    forall k :: 0 <= k < |s| - 1 && s[k] == '#' ==> !IsSpace(s[k + 1])
  }

  /** A '#' kept by the scan is followed, in the input, by a character that
      is kept too and is not whitespace (or by the end of the input). */
  lemma KeptHashFollower(s: string, i: nat)
    requires i < |s| && s[i] == '#' && HeaderMatchAt(s, i).None?
    ensures i + 1 < |s| ==> HeaderMatchAt(s, i + 1).None? && !IsSpace(s[i + 1])
  {
    var e := HashRunEnd(s, i);
    if i + 1 < |s| {
      if s[i + 1] == '#' {
        assert HashRunEnd(s, i + 1) == e;
      } else {
        assert e == i + 1;
      }
    }
  }

  lemma {:induction false} StripFromUnmarked(s: string, i: nat)
    requires i <= |s|
    ensures Unmarked(StripFrom(s, i))
    decreases |s| - i
  {
    if i < |s| {
      match HeaderMatchAt(s, i)
      case Some(e) =>
        StripFromUnmarked(s, e);
      case None =>
        var rest := StripFrom(s, i + 1);
        var r := [s[i]] + rest;
        assert StripFrom(s, i) == r;
        StripFromUnmarked(s, i + 1);
        if s[i] == '#' && rest != [] {
          KeptHashFollower(s, i);
          assert rest == [s[i + 1]] + StripFrom(s, i + 2);
        }
        forall k | 1 <= k < |r| - 1 ensures r[k] == rest[k - 1] && r[k + 1] == rest[k] { }
    }
  }

  /** After the substitution no header mark is left anywhere in the line. */
  lemma StripLeavesNoMark(s: string)
    ensures Unmarked(StripHeaderMarks(s))
  {
    StripFromUnmarked(s, 0);
  }

  lemma {:induction false} StripFromKeepsUnmarked(s: string, i: nat)
    requires i <= |s| && forall k :: i <= k < |s| - 1 && s[k] == '#' ==> !IsSpace(s[k + 1])
    ensures StripFrom(s, i) == s[i..]
    decreases |s| - i
  {
    if i < |s| {
      var e := HashRunEnd(s, i);
      if i < e < |s| {
        assert s[e - 1] == '#';
      }
      assert HeaderMatchAt(s, i).None?;
      StripFromKeepsUnmarked(s, i + 1);
      assert s[i..] == [s[i]] + s[i + 1..];
    }
  }

  /** A line without header marks is its own title. */
  lemma StripKeepsUnmarked(s: string)
    requires Unmarked(s)
    ensures StripHeaderMarks(s) == s
  {
    StripFromKeepsUnmarked(s, 0);
  }

  /** Stripping the header marks twice is the same as once. */
  lemma StripIdempotent(s: string)
    ensures StripHeaderMarks(StripHeaderMarks(s)) == StripHeaderMarks(s)
  {
    StripLeavesNoMark(s);
    StripKeepsUnmarked(StripHeaderMarks(s));
  }

  // ---------------------------------------------------------------------
  // What the substitution removes

  /** A character that no header mark can contain. */
  predicate IsVisible(c: char)
  {
    c != '#' && !IsSpace(c)
  }

  /** The characters of `s` that no header mark can contain, in order. */
  function Visible(s: string): string
    decreases |s|
  {
    if s == [] then []
    else (if IsVisible(s[0]) then [s[0]] else []) + Visible(s[1..])
  }

  lemma {:induction false} VisibleAppend(a: string, b: string)
    ensures Visible(a + b) == Visible(a) + Visible(b)
    decreases |a|
  {
    if a != [] {
      assert (a + b)[0] == a[0] && (a + b)[1..] == a[1..] + b;
      VisibleAppend(a[1..], b);
    } else {
      assert a + b == b;
    }
  }

  lemma {:induction false} VisibleOfInvisible(t: string)
    requires forall k :: 0 <= k < |t| ==> !IsVisible(t[k])
    ensures Visible(t) == []
    decreases |t|
  {
    if t != [] {
      VisibleOfInvisible(t[1..]);
    }
  }

  lemma {:induction false} StripFromKeepsVisible(s: string, i: nat)
    requires i <= |s|
    ensures Visible(StripFrom(s, i)) == Visible(s[i..])
    decreases |s| - i
  {
    if i < |s| {
      match HeaderMatchAt(s, i)
      case Some(e) =>
        StripFromKeepsVisible(s, e);
        assert s[i..] == s[i..e] + s[e..];
        VisibleAppend(s[i..e], s[e..]);
        forall k | 0 <= k < e - i ensures !IsVisible(s[i..e][k]) {
          assert s[i..e][k] == s[i + k];
        }
        VisibleOfInvisible(s[i..e]);
      case None =>
        StripFromKeepsVisible(s, i + 1);
        var r := [s[i]] + StripFrom(s, i + 1);
        assert r[0] == s[i] && r[1..] == StripFrom(s, i + 1);
        assert s[i..][0] == s[i] && s[i..][1..] == s[i + 1..];
    }
  }

  /** The substitution removes only '#' and whitespace: every other
      character of the line is in the title, in order. */
  lemma StripKeepsVisible(s: string)
    ensures Visible(StripHeaderMarks(s)) == Visible(s)
  {
    StripFromKeepsVisible(s, 0);
    assert s[0..] == s;
  }

  // ---------------------------------------------------------------------
  // The title

  /** The title depends on the first line only. */
  lemma TitleOfFirstLine(line: string, brk: char, body: string)
    requires forall k :: 0 <= k < |line| ==> !IsLineBreak(line[k])
    requires IsLineBreak(brk)
    ensures MarkdownTitle(line + [brk] + body) == Ok(StripHeaderMarks(line))
  {
    var text := line + [brk] + body;
    assert forall k :: 0 <= k < |line| ==> text[k] == line[k];
    assert text[|line|] == brk;
    var e := LineEnd(text, 0);
    assert e == |line|;
    assert text[..e] == line;
  }

  /** A title written with any number of leading '#' loses them and the
      space after them. */
  lemma HeaderTitleExample()
    ensures StripHeaderMarks("## My Note") == "My Note"
  {
    var s := "## My Note";
    assert HashRunEnd(s, 0) == 2;
    assert HeaderMatchAt(s, 0) == Some(3);
    StripFromKeepsUnmarked(s, 3);
    assert s[3..] == "My Note";
  }

  /** A header mark in the middle of the line is removed as well. */
  lemma MidLineMarkExample()
    ensures StripHeaderMarks("a # b") == "a b"
  {
    var s := "a # b";
    assert HashRunEnd(s, 0) == 0 && HashRunEnd(s, 1) == 1 && HashRunEnd(s, 2) == 3;
    assert StripFrom(s, 0) == "a " + StripFrom(s, 2);
    assert StripFrom(s, 2) == StripFrom(s, 4);
    StripFromKeepsUnmarked(s, 4);
  }

  /** A '#' followed by a non-space character is not a header mark. */
  lemma HashtagKeptExample()
    ensures StripHeaderMarks("#tag") == "#tag"
  {
    StripKeepsUnmarked("#tag");
  }

  /** The note title is read from the first line of the text. */
  lemma NoteTitleExample()
    ensures MarkdownTitle("## My Note\nx") == Ok("My Note")
  {
    var line := "## My Note";
    assert forall k :: 0 <= k < |line| ==> !IsLineBreak(line[k]);
    TitleOfFirstLine(line, '\n', "x");
    assert line + ['\n'] + "x" == "## My Note\nx";
    HeaderTitleExample();
  }
}
