/** Inline emphasis rewriting of one Markdown line (`convert_to_pb_markup`):
    the italics substitution and then the bold substitution, each modelled as
    the left-to-right scan that Python's `re.sub` performs, with `\s` read as
    `Chars.IsSpace`. */
module Inline {
  import opened Results
  import opened Chars

  // ---------------------------------------------------------------------
  // Italics: `\*(?=\S)(.+?)(?<=\S)\*` replaced by `/\1/`

  /** A '*' at `i` followed by a non-whitespace character: the pattern's
      opening `\*(?=\S)`. */
  predicate IsOpener(s: string, i: nat)
  {
    i + 1 < |s| && s[i] == '*' && !IsSpace(s[i + 1])
  }

  /** A '*' at `j` preceded by a non-whitespace character: the pattern's
      closing `(?<=\S)\*`. */
  predicate IsCloser(s: string, j: nat)
  {
    1 <= j < |s| && s[j] == '*' && !IsSpace(s[j - 1])
  }

  /** `s[a..b]` holds no '\n', which `.` does not match. */
  predicate NoNewline(s: string, a: nat, b: nat)
  {
    forall k :: a <= k < b && k < |s| ==> s[k] != '\n'
  }

  /** The lazy `(.+?)` search for the closing '*', trying candidates from `j`
      on: the first closer reached before a newline. */
  function CloseFrom(s: string, j: nat): (r: Option<nat>)
    requires 1 <= j <= |s|
    ensures r.Some? ==> j <= r.value < |s| && IsCloser(s, r.value) && NoNewline(s, j, r.value)
    ensures r.Some? ==> forall k :: j <= k < r.value ==> !IsCloser(s, k)
    ensures r.None? ==> forall k :: j <= k < |s| && NoNewline(s, j, k) ==> !IsCloser(s, k)
    decreases |s| - j
  {
    if j == |s| then None
    else if IsCloser(s, j) then Some(j)
    else if s[j] == '\n' then None
    else CloseFrom(s, j + 1)
  }

  /** Position of the closing '*' of the italics match starting at `i`, if
      the pattern matches there. The group holds at least one character, so
      the first candidate is `i + 2`. */
  function ItalicsSpan(s: string, i: nat): Option<nat>
    requires i <= |s|
  {
    if IsOpener(s, i) then CloseFrom(s, i + 2) else None
  }

  /** The substitution applied to `s[i..]`: a match has its two '*' replaced
      by '/', anything else is copied and the scan moves one character on. */
  function ItalicsFrom(s: string, i: nat): (r: string)
    requires i <= |s|
    ensures |r| == |s| - i
    decreases |s| - i
  {
    if i == |s| then []
    else match ItalicsSpan(s, i)
      case Some(j) => ['/'] + s[i + 1..j] + ['/'] + ItalicsFrom(s, j + 1)
      case None => [s[i]] + ItalicsFrom(s, i + 1)
  }

  function ItalicsPass(s: string): string
  {
    ItalicsFrom(s, 0)
  }

  // ---------------------------------------------------------------------
  // Bold: `(\*\*)([^\s]*?)(\*\*)` replaced by `\*\1\*`

  /** `t[a..b]` holds no whitespace (`[^\s]*`). */
  predicate NonSpaceRun(t: string, a: nat, b: nat)
  {
    forall k :: a <= k < b && k < |t| ==> !IsSpace(t[k])
  }

  /** The bold pattern matches `t[p..q + 2]`. */
  predicate BoldMatchAt(t: string, p: nat, q: nat)
  {
    p + 2 <= q && q + 1 < |t| && t[p] == '*' && t[p + 1] == '*'
    && t[q] == '*' && t[q + 1] == '*' && NonSpaceRun(t, p + 2, q)
  }

  /** The lazy `([^\s]*?)(\*\*)` search from `k`: the first "**" reached over
      non-whitespace characters only. */
  function BoldCloseFrom(t: string, k: nat): (r: Option<nat>)
    requires k <= |t|
    ensures r.Some? ==> k <= r.value && r.value + 1 < |t| && t[r.value] == '*' && t[r.value + 1] == '*'
                        && NonSpaceRun(t, k, r.value)
    ensures forall q :: k <= q && q + 1 < |t| && t[q] == '*' && t[q + 1] == '*' && NonSpaceRun(t, k, q)
                        ==> r.Some? && r.value <= q
    decreases |t| - k
  {
    if k + 1 < |t| && t[k] == '*' && t[k + 1] == '*' then Some(k)
    else if k < |t| && !IsSpace(t[k]) then BoldCloseFrom(t, k + 1)
    else None
  }

  function BoldSpan(t: string, p: nat): Option<nat>
    requires p <= |t|
  {
    if p + 1 < |t| && t[p] == '*' && t[p + 1] == '*' then BoldCloseFrom(t, p + 2) else None
  }

  /** The replacement text of a bold match. Python keeps the backslash of the
      unknown escape `\*`, and `\1` is the "**" delimiter group, so the inner
      word is dropped. */
  const BoldReplacement: string := "\\*" + "**" + "\\*"

  /** The bold substitution applied to `t[i..]`. */
  function BoldFrom(t: string, i: nat): (r: string)
    requires i <= |t|
    ensures (forall p, q :: i <= p ==> !BoldMatchAt(t, p, q)) ==> r == t[i..]
    decreases |t| - i
  {
    if i == |t| then []
    else match BoldSpan(t, i)
      case Some(q) => assert BoldMatchAt(t, i, q); BoldReplacement + BoldFrom(t, q + 2)
      case None => [t[i]] + BoldFrom(t, i + 1)
  }

  function BoldPass(t: string): string
  {
    BoldFrom(t, 0)
  }

  // ---------------------------------------------------------------------
  // convert_to_pb_markup

  /** Italics then bold. The result has the line's length, and differs from
      it only where a '*' became '/'. */
  function ConvertToPbMarkup(line: string): (r: string)
    ensures |r| == |line|
    ensures forall k :: 0 <= k < |line| ==> r[k] == line[k] || (line[k] == '*' && r[k] == '/')
    ensures '*' !in line ==> r == line
  {
    BoldPassNeverFires(line);
    ItalicsPassOnlyRewritesStars(line);
    BoldPass(ItalicsPass(line))
  }

  // ---------------------------------------------------------------------
  // Properties

  /** The italics scan changes a character only by turning a '*' into '/'. */
  lemma {:induction false} ItalicsOnlyRewritesStars(s: string, i: nat, k: nat)
    requires i <= k < |s|
    ensures ItalicsFrom(s, i)[k - i] == s[k] || (s[k] == '*' && ItalicsFrom(s, i)[k - i] == '/')
    decreases |s| - i
  {
    var r := ItalicsFrom(s, i);
    match ItalicsSpan(s, i)
    case Some(j) =>
      var inner, rest := s[i + 1..j], ItalicsFrom(s, j + 1);
      assert r == ['/'] + inner + ['/'] + rest;
      if k == i || k == j {
        assert r[k - i] == '/';
      } else if k < j {
        assert r[k - i] == inner[k - i - 1];
      } else {
        assert r[k - i] == rest[k - j - 1];
        ItalicsOnlyRewritesStars(s, j + 1, k);
      }
    case None =>
      var rest := ItalicsFrom(s, i + 1);
      assert r == [s[i]] + rest;
      if k > i {
        assert r[k - i] == rest[k - i - 1];
        ItalicsOnlyRewritesStars(s, i + 1, k);
      }
  }

  lemma ItalicsPassOnlyRewritesStars(s: string)
    ensures forall k :: 0 <= k < |s| ==> ItalicsPass(s)[k] == s[k] || (s[k] == '*' && ItalicsPass(s)[k] == '/')
  {
    forall k | 0 <= k < |s|
      ensures ItalicsPass(s)[k] == s[k] || (s[k] == '*' && ItalicsPass(s)[k] == '/')
    {
      ItalicsOnlyRewritesStars(s, 0, k);
    }
  }

  /** A bold match cannot start inside an italics span: its first two '*'
      would have closed the span earlier. */
  lemma NoBoldMatchInsideSpan(s: string, i: nat, j: nat, p: nat, q: nat)
    requires i < |s| && ItalicsSpan(s, i) == Some(j) && p <= j - i
    ensures !BoldMatchAt(ItalicsFrom(s, i), p, q)
  {
    var r := ItalicsFrom(s, i);
    var inner, rest := s[i + 1..j], ItalicsFrom(s, j + 1);
    assert r == ['/'] + inner + ['/'] + rest;
    assert r[0] == '/' && r[j - i] == '/';
    if 1 <= p && p + 1 < j - i {
      assert r[p] == inner[p - 1] == s[i + p];
      assert r[p + 1] == inner[p] == s[i + p + 1];
      assert !IsCloser(s, i + p + 1);
    }
  }

  /** Two '*' followed, over non-whitespace, by a further '*' open an
      italics span. */
  lemma StarPairOpensSpan(s: string, i: nat, q: nat)
    requires 2 <= q && i + q < |s| && s[i] == '*' && s[i + 1] == '*' && s[i + q] == '*'
    requires forall k :: i + 1 <= k < i + q ==> !IsSpace(s[k])
    ensures ItalicsSpan(s, i).Some?
  {
    assert IsOpener(s, i);
    assert IsCloser(s, i + q);
    assert NoNewline(s, i + 2, i + q);
  }

  /** A bold match cannot start at a '*' the italics scan copied: it would
      have opened an italics span. */
  lemma NoBoldMatchAtCopiedStar(s: string, i: nat, q: nat)
    requires i < |s| && ItalicsSpan(s, i).None?
    ensures !BoldMatchAt(ItalicsFrom(s, i), 0, q)
  {
    var r := ItalicsFrom(s, i);
    if BoldMatchAt(r, 0, q) {
      assert r[0] == s[i];
      ItalicsOnlyRewritesStars(s, i, i + 1);
      ItalicsOnlyRewritesStars(s, i, i + q);
      forall k | i + 2 <= k < i + q ensures !IsSpace(s[k]) {
        ItalicsOnlyRewritesStars(s, i, k);
        assert !IsSpace(r[k - i]);
      }
      StarPairOpensSpan(s, i, q);
    }
  }

  /** A bold match in `a + b` past `a` is a bold match in `b`. */
  lemma BoldMatchShift(a: string, b: string, p: nat, q: nat)
    requires BoldMatchAt(a + b, p + |a|, q + |a|)
    ensures BoldMatchAt(b, p, q)
  {
    var t := a + b;
    assert forall k :: 0 <= k < |b| ==> b[k] == t[k + |a|];
  }

  /** After the italics scan no bold match is left. */
  lemma {:induction false} ItalicsLeavesNoBoldMatch(s: string, i: nat, p: nat, q: nat)
    requires i <= |s|
    ensures !BoldMatchAt(ItalicsFrom(s, i), p, q)
    decreases |s| - i, 1
  {
    if i < |s| && p + 2 <= q {
      match ItalicsSpan(s, i)
      case Some(j) =>
        if p <= j - i {
          NoBoldMatchInsideSpan(s, i, j, p, q);
        } else {
          NoBoldMatchAfterSpan(s, i, j, p, q);
        }
      case None =>
        if p == 0 {
          NoBoldMatchAtCopiedStar(s, i, q);
        } else {
          NoBoldMatchAfterCopy(s, i, p, q);
        }
    }
  }

  lemma {:induction false} NoBoldMatchAfterSpan(s: string, i: nat, j: nat, p: nat, q: nat)
    requires i < |s| && ItalicsSpan(s, i) == Some(j) && j - i < p && p + 2 <= q
    ensures !BoldMatchAt(ItalicsFrom(s, i), p, q)
    decreases |s| - i, 0
  {
    var pre, rest := ['/'] + s[i + 1..j] + ['/'], ItalicsFrom(s, j + 1);
    assert ItalicsFrom(s, i) == pre + rest;
    ItalicsLeavesNoBoldMatch(s, j + 1, p - |pre|, q - |pre|);
    if BoldMatchAt(pre + rest, p, q) {
      BoldMatchShift(pre, rest, p - |pre|, q - |pre|);
    }
  }

  lemma {:induction false} NoBoldMatchAfterCopy(s: string, i: nat, p: nat, q: nat)
    requires i < |s| && ItalicsSpan(s, i).None? && 1 <= p && p + 2 <= q
    ensures !BoldMatchAt(ItalicsFrom(s, i), p, q)
    decreases |s| - i, 0
  {
    var pre, rest := [s[i]], ItalicsFrom(s, i + 1);
    assert ItalicsFrom(s, i) == pre + rest;
    ItalicsLeavesNoBoldMatch(s, i + 1, p - 1, q - 1);
    if BoldMatchAt(pre + rest, p, q) {
      BoldMatchShift(pre, rest, p - 1, q - 1);
    }
  }

  /** The bold substitution of `convert_to_pb_markup` never changes the
      output of the italics substitution. */
  lemma BoldPassNeverFires(s: string)
    ensures BoldPass(ItalicsPass(s)) == ItalicsPass(s)
  {
    var t := ItalicsPass(s);
    forall p, q ensures !BoldMatchAt(t, p, q) {
      ItalicsLeavesNoBoldMatch(s, 0, p, q);
    }
  }

  /** A span `*w*` whose text has no '*' or newline and is bounded by
      non-whitespace becomes `/w/`. */
  lemma ItalicsWrapsSpan(w: string)
    requires |w| >= 1 && '*' !in w && '\n' !in w
    requires !IsSpace(w[0]) && !IsSpace(w[|w| - 1])
    ensures ConvertToPbMarkup("*" + w + "*") == "/" + w + "/"
  {
    var s := "*" + w + "*";
    var j := |w| + 1;
    assert IsOpener(s, 0);
    assert IsCloser(s, j);
    assert NoNewline(s, 2, j);
    assert forall k :: 2 <= k < j ==> !IsCloser(s, k) by {
      forall k | 2 <= k < j ensures !IsCloser(s, k) { assert s[k] == w[k - 1]; }
    }
    assert ItalicsSpan(s, 0) == Some(j);
    assert s[1..j] == w;
    assert ItalicsPass(s) == "/" + w + "/";
  }

  /** A '*' with whitespace or the line's edge on both sides neither opens nor
      closes a span, so it is kept. */
  lemma {:induction false} IsolatedStarKept(s: string, i: nat, k: nat)
    requires i <= k < |s| && s[k] == '*'
    requires k == 0 || IsSpace(s[k - 1])
    requires k + 1 == |s| || IsSpace(s[k + 1])
    ensures ItalicsFrom(s, i)[k - i] == '*'
    decreases |s| - i, 1
  {
    match ItalicsSpan(s, i)
    case Some(j) =>
      IsolatedStarKeptPastSpan(s, i, j, k);
    case None =>
      var rest := ItalicsFrom(s, i + 1);
      assert ItalicsFrom(s, i) == [s[i]] + rest;
      if k > i {
        IsolatedStarKept(s, i + 1, k);
      }
  }

  lemma {:induction false} IsolatedStarKeptPastSpan(s: string, i: nat, j: nat, k: nat)
    requires i <= k < |s| && s[k] == '*' && ItalicsSpan(s, i) == Some(j)
    requires k == 0 || IsSpace(s[k - 1])
    requires k + 1 == |s| || IsSpace(s[k + 1])
    ensures ItalicsFrom(s, i)[k - i] == '*'
    decreases |s| - i, 0
  {
    var r := ItalicsFrom(s, i);
    var inner, rest := s[i + 1..j], ItalicsFrom(s, j + 1);
    assert r == ['/'] + inner + ['/'] + rest;
    assert k != i && k != j;
    if k < j {
      assert r[k - i] == inner[k - i - 1];
    } else {
      IsolatedStarKept(s, j + 1, k);
    }
  }

  /** A list bullet "* " is never rewritten; more generally every isolated
      '*' survives `convert_to_pb_markup`. */
  lemma IsolatedStarSurvivesConversion(s: string, k: nat)
    requires k < |s| && s[k] == '*'
    requires k == 0 || IsSpace(s[k - 1])
    requires k + 1 == |s| || IsSpace(s[k + 1])
    ensures ConvertToPbMarkup(s)[k] == '*'
  {
    BoldPassNeverFires(s);
    IsolatedStarKept(s, 0, k);
  }

  /** A multi-word span becomes slash-delimited. */
  lemma ItalicsExample()
    ensures ConvertToPbMarkup("*hi you*") == "/hi you/"
  {
    var w := "hi you";
    assert !IsSpace(w[0]) && !IsSpace(w[|w| - 1]);
    assert '*' !in w && '\n' !in w;
    ItalicsWrapsSpan(w);
    assert "*" + w + "*" == "*hi you*";
  }

  /** "**ab**": the italics scan consumes "**ab*" first, and the bold
      substitution then finds nothing. */
  lemma DoubleStarExample()
    ensures ConvertToPbMarkup("**ab**") == "/*ab/*"
  {
    var s := "**ab**";
    assert IsOpener(s, 0) && IsCloser(s, 4) && NoNewline(s, 2, 4);
    assert !IsCloser(s, 2) && !IsCloser(s, 3);
    assert ItalicsSpan(s, 0) == Some(4);
    assert !IsOpener(s, 5);
    assert ItalicsFrom(s, 5) == "*";
    BoldPassNeverFires(s);
  }

  /** The list bullet "* " is kept. */
  lemma BulletExample()
    ensures ConvertToPbMarkup("* item")[0] == '*'
  {
    IsolatedStarSurvivesConversion("* item", 0);
  }

  /** Applied on its own, the bold substitution replaces "**bold**" by its
      literal template expansion. */
  lemma BoldTemplateExample()
    ensures BoldPass("**bold**") == "\\***\\*"
  {
    var t := "**bold**";
    assert BoldCloseFrom(t, 6) == Some(6);
    assert BoldSpan(t, 0) == Some(6);
  }
}
