/**
  The string transforms the executor applies to an entry's `exec` template:
  `str::trim` and the single-pass removal of every match of the field-code
  pattern `\s*%\w` (a whitespace run, a percent sign and one word character).
  Whitespace and word characters are the ASCII classes.
 */
module Text {

  /** ASCII whitespace: space, tab, line feed, vertical tab, form feed, carriage return. */
  predicate IsSpace(c: char) {
    c == ' ' || c == '\t' || c == '\n' || c == '\U{000B}' || c == '\U{000C}' || c == '\r'
  }

  /** ASCII word character: a letter, a digit or an underscore. */
  predicate IsWord(c: char) {
    ('a' <= c <= 'z') || ('A' <= c <= 'Z') || ('0' <= c <= '9') || c == '_'
  }

  predicate AllSpace(s: string) {
    forall i :: 0 <= i < |s| ==> IsSpace(s[i])
  }

  // ---------------------------------------------------------------- trimming

  /** Length of the whitespace run at the start of `s`. */
  function SpaceRun(s: string): (n: nat)
    ensures n <= |s|
    ensures forall i :: 0 <= i < n ==> IsSpace(s[i])
    ensures n == |s| || !IsSpace(s[n])
  {
    if s != [] && IsSpace(s[0]) then 1 + SpaceRun(s[1..]) else 0
  }

  /** Length of the whitespace run at the end of `s`. */
  function TrailingSpaceRun(s: string): (n: nat)
    ensures n <= |s|
  {
    if s != [] && IsSpace(s[|s| - 1]) then 1 + TrailingSpaceRun(s[..|s| - 1]) else 0
  }

  /** The trailing run is all whitespace and is preceded by a non-whitespace character, if any. */
  lemma {:induction false} TrailingSpaceRunIsMaximal(s: string)
    ensures AllSpace(s[|s| - TrailingSpaceRun(s)..])
    ensures TrailingSpaceRun(s) == |s| || !IsSpace(s[|s| - 1 - TrailingSpaceRun(s)])
  {
    if s != [] && IsSpace(s[|s| - 1]) {
      var init := s[..|s| - 1];
      TrailingSpaceRunIsMaximal(init);
      var n := TrailingSpaceRun(init);
      assert s[|s| - 1 - n..] == init[|init| - n..] + [s[|s| - 1]];
      assert n == |init| || s[|s| - 2 - n] == init[|init| - 1 - n];
    }
  }

  function TrimStart(s: string): string {
    s[SpaceRun(s)..]
  }

  function TrimEnd(s: string): string {
    s[..|s| - TrailingSpaceRun(s)]
  }

  /** `str::trim`: drops the leading and the trailing whitespace. */
  function Trim(s: string): (r: string)
    ensures |r| <= |s|
    ensures r == [] || (!IsSpace(r[0]) && !IsSpace(r[|r| - 1]))
  {
    var t := TrimStart(s);
    TrailingSpaceRunIsMaximal(t);
    var r := TrimEnd(t);
    assert r != [] ==> r[0] == t[0];
    r
  }

  lemma {:induction false} SpaceRunAfterSpaces(p: string, u: string)
    requires AllSpace(p)
    ensures SpaceRun(p + u) == |p| + SpaceRun(u)
  {
    if p != [] {
      assert (p + u)[1..] == p[1..] + u;
      SpaceRunAfterSpaces(p[1..], u);
    } else {
      assert p + u == u;
    }
  }

  lemma {:induction false} TrailingSpaceRunBeforeSpaces(u: string, q: string)
    requires AllSpace(q)
    ensures TrailingSpaceRun(u + q) == |q| + TrailingSpaceRun(u)
  {
    if q != [] {
      var q' := q[..|q| - 1];
      assert (u + q)[..|u + q| - 1] == u + q';
      TrailingSpaceRunBeforeSpaces(u, q');
    } else {
      assert u + q == u;
    }
  }

  lemma TrimStartAfterSpaces(p: string, u: string)
    requires AllSpace(p)
    requires u == [] || !IsSpace(u[0])
    ensures TrimStart(p + u) == u
  {
    SpaceRunAfterSpaces(p, u);
    assert SpaceRun(u) == 0;
  }

  lemma TrimEndBeforeSpaces(t: string, q: string)
    requires AllSpace(q)
    requires t == [] || !IsSpace(t[|t| - 1])
    ensures TrimEnd(t + q) == t
  {
    TrailingSpaceRunBeforeSpaces(t, q);
    assert TrailingSpaceRun(t) == 0;
    assert (t + q)[..|t|] == t;
  }

  /**
    Trim has exactly one answer: whenever `s` splits into a whitespace run, a
    part that neither starts nor ends with whitespace, and a whitespace run,
    trimming `s` yields that middle part.
   */
  lemma TrimUnique(p: string, t: string, q: string)
    requires AllSpace(p) && AllSpace(q)
    requires t == [] || (!IsSpace(t[0]) && !IsSpace(t[|t| - 1]))
    ensures Trim(p + t + q) == t
  {
    if t == [] {
      assert p + t + q == (p + q) + [];
      TrimStartAfterSpaces(p + q, []);
      assert TrimEnd([]) == [];
    } else {
      assert p + t + q == p + (t + q);
      TrimStartAfterSpaces(p, t + q);
      TrimEndBeforeSpaces(t, q);
    }
  }

  lemma SplitAt(t: string, k: nat)
    requires k <= |t|
    ensures t == t[..k] + t[k..]
  {
  }

  lemma TrimStartSplits(s: string)
    ensures AllSpace(s[..SpaceRun(s)])
    ensures s == s[..SpaceRun(s)] + TrimStart(s)
  {
    var n := SpaceRun(s);
    assert forall i :: 0 <= i < n ==> s[..n][i] == s[i];
    SplitAt(s, n);
  }

  lemma TrimEndSplits(t: string)
    ensures AllSpace(t[|t| - TrailingSpaceRun(t)..])
    ensures t == TrimEnd(t) + t[|t| - TrailingSpaceRun(t)..]
  {
    TrailingSpaceRunIsMaximal(t);
    SplitAt(t, |t| - TrailingSpaceRun(t));
  }

  /** Trim only ever removes whitespace, and only from the two ends. */
  lemma TrimDecompose(s: string) returns (p: string, q: string)
    ensures AllSpace(p) && AllSpace(q)
    ensures s == p + Trim(s) + q
  {
    var t := TrimStart(s);
    p, q := s[..SpaceRun(s)], t[|t| - TrailingSpaceRun(t)..];
    TrimStartSplits(s);
    TrimEndSplits(t);
    var m := TrimEnd(t);
    assert s == p + (m + q);
    assert p + (m + q) == p + m + q;
  }

  /** Trim adds no character: a string without a percent sign trims to one without. */
  lemma TrimWithoutPercent(s: string)
    requires forall i :: 0 <= i < |s| ==> s[i] != '%'
    ensures forall i :: 0 <= i < |Trim(s)| ==> Trim(s)[i] != '%'
  {
  }

  lemma TrimIdempotent(s: string)
    ensures Trim(Trim(s)) == Trim(s)
  {
  }

  // ------------------------------------------------------ field-code removal

  /** The language of the pattern `\s*%\w`. */
  predicate IsFieldCode(t: string) {
    |t| >= 2 && AllSpace(t[..|t| - 2]) && t[|t| - 2] == '%' && IsWord(t[|t| - 1])
  }

  /**
    Length of the match of `\s*%\w` that starts at the beginning of `s`, or 0
    when no match starts there. Greedy `\s*` is the only way to match, since
    `%` is not whitespace; so the match takes the whole whitespace run.
   */
  function FieldCodeLen(s: string): (n: nat)
    ensures n <= |s|
    ensures n > 0 ==> IsFieldCode(s[..n])
  {
    var k := SpaceRun(s);
    if k + 1 < |s| && s[k] == '%' && IsWord(s[k + 1]) then
      assert forall i :: 0 <= i < k ==> s[..k + 2][..k][i] == s[i];
      k + 2
    else 0
  }

  /** A match at the start of `s` is unique: no other prefix of `s` is a field code. */
  lemma FieldCodeLenIsTheMatch(s: string, j: nat)
    requires j <= |s|
    ensures IsFieldCode(s[..j]) <==> (j > 0 && j == FieldCodeLen(s))
  {
  }

  /**
    `Regex::replace_all(s, "")` for `\s*%\w`: leftmost-first, non-overlapping,
    one pass. Where a match starts it is deleted and the scan resumes after
    it; otherwise one character is kept and the scan moves on.
   */
  function Strip(s: string): (r: string)
    ensures |r| <= |s|
    decreases |s|
  {
    if s == [] then []
    else
      var n := FieldCodeLen(s);
      if n > 0 then Strip(s[n..]) else [s[0]] + Strip(s[1..])
  }

  /** `s` contains a percent sign directly followed by a word character. */
  predicate ContainsFieldCode(s: string) {
    exists i :: 0 <= i < |s| - 1 && s[i] == '%' && IsWord(s[i + 1])
  }

  /** The characters of `s` whose mask bit is set, in order. */
  function Keep(s: string, m: seq<bool>): (r: string)
    requires |m| == |s|
    ensures |r| <= |s|
  {
    if s == [] then [] else (if m[0] then [s[0]] else []) + Keep(s[1..], m[1..])
  }

  /** `a` is obtained from `b` by deleting characters. */
  ghost predicate IsSubsequence(a: string, b: string) {
    exists m: seq<bool> :: |m| == |b| && Keep(b, m) == a
  }

  /** Which characters of `s` Strip keeps: false on every character of every match. */
  function StripMask(s: string): (m: seq<bool>)
    ensures |m| == |s|
    decreases |s|
  {
    if s == [] then []
    else
      var n := FieldCodeLen(s);
      if n > 0 then seq(n, _ => false) + StripMask(s[n..]) else [true] + StripMask(s[1..])
  }

  lemma {:induction false} KeepAppend(a: string, b: string, ma: seq<bool>, mb: seq<bool>)
    requires |ma| == |a| && |mb| == |b|
    ensures Keep(a + b, ma + mb) == Keep(a, ma) + Keep(b, mb)
  {
    if a == [] {
      assert a + b == b && ma + mb == mb;
    } else {
      var ab, mab := a + b, ma + mb;
      assert ab[0] == a[0] && mab[0] == ma[0];
      assert ab[1..] == a[1..] + b;
      assert mab[1..] == ma[1..] + mb;
      KeepAppend(a[1..], b, ma[1..], mb);
      var head: string := if ma[0] then [a[0]] else [];
      assert Keep(ab, mab) == head + Keep(ab[1..], mab[1..]);
      assert Keep(a, ma) == head + Keep(a[1..], ma[1..]);
      assert head + (Keep(a[1..], ma[1..]) + Keep(b, mb)) == (head + Keep(a[1..], ma[1..])) + Keep(b, mb);
    }
  }

  lemma {:induction false} KeepNone(s: string)
    ensures Keep(s, seq(|s|, _ => false)) == []
  {
    if s != [] {
      assert seq(|s|, _ => false)[1..] == seq(|s| - 1, _ => false);
      KeepNone(s[1..]);
    }
  }

  /** Strip deletes exactly the characters its mask clears and keeps the rest in order. */
  lemma {:induction false} StripKeepsUnmasked(s: string)
    ensures Strip(s) == Keep(s, StripMask(s))
    decreases |s|
  {
    if s != [] {
      var n := FieldCodeLen(s);
      if n > 0 {
        StripKeepsUnmasked(s[n..]);
        assert s == s[..n] + s[n..];
        KeepAppend(s[..n], s[n..], seq(n, _ => false), StripMask(s[n..]));
        KeepNone(s[..n]);
      } else {
        StripKeepsUnmasked(s[1..]);
      }
    }
  }

  /**
    Every character Strip deletes belongs to a field code: it is whitespace, a
    percent sign or a word character. Quotes, slashes and every other
    character of the command survive.
   */
  lemma {:induction false} StripDeletesOnlyFieldCodeCharacters(s: string, i: nat)
    requires i < |s| && !StripMask(s)[i]
    ensures IsSpace(s[i]) || s[i] == '%' || IsWord(s[i])
    decreases |s|
  {
    var n := FieldCodeLen(s);
    if n > 0 {
      if i >= n {
        assert StripMask(s)[i] == StripMask(s[n..])[i - n];
        StripDeletesOnlyFieldCodeCharacters(s[n..], i - n);
        assert s[n..][i - n] == s[i];
      } else {
        assert s[..n][i] == s[i];
        if i < n - 2 {
          assert s[..n][..n - 2][i] == s[i];
        }
      }
    } else {
      assert StripMask(s)[i] == StripMask(s[1..])[i - 1];
      StripDeletesOnlyFieldCodeCharacters(s[1..], i - 1);
      assert s[1..][i - 1] == s[i];
    }
  }

  lemma StripIsSubsequence(s: string)
    ensures IsSubsequence(Strip(s), s)
  {
    StripKeepsUnmasked(s);
  }

  /** A percent sign followed by a word character anywhere in `s` makes Strip delete something. */
  lemma {:induction false} StripShortensAt(s: string, i: nat)
    requires i + 1 < |s| && s[i] == '%' && IsWord(s[i + 1])
    ensures |Strip(s)| < |s|
    decreases |s|
  {
    if FieldCodeLen(s) == 0 {
      assert SpaceRun(s) == 0 ==> i != 0;
      StripShortensAt(s[1..], i - 1);
    }
  }

  /** Strip deletes something only where `s` holds a percent sign followed by a word character. */
  lemma {:induction false} ShortenedHasFieldCode(s: string)
    requires |Strip(s)| < |s|
    ensures ContainsFieldCode(s)
    decreases |s|
  {
    var n := FieldCodeLen(s);
    if n > 0 {
      assert s[..n][n - 2] == '%' && s[..n][n - 1] == s[n - 1];
      assert s[n - 2] == '%' && IsWord(s[n - 1]);
    } else {
      ShortenedHasFieldCode(s[1..]);
      var i :| 0 <= i < |s[1..]| - 1 && s[1..][i] == '%' && IsWord(s[1..][i + 1]);
      assert s[i + 1] == '%' && IsWord(s[i + 2]);
    }
  }

  /** Strip shortens its input exactly when the input holds a percent sign followed by a word character. */
  lemma StripShortensIff(s: string)
    ensures |Strip(s)| < |s| <==> ContainsFieldCode(s)
  {
    if ContainsFieldCode(s) {
      var i :| 0 <= i < |s| - 1 && s[i] == '%' && IsWord(s[i + 1]);
      StripShortensAt(s, i);
    }
    if |Strip(s)| < |s| {
      ShortenedHasFieldCode(s);
    }
  }

  /** A Strip that deletes nothing returns its input. */
  lemma {:induction false} StripFullLength(s: string)
    requires |Strip(s)| == |s|
    ensures Strip(s) == s
    decreases |s|
  {
    if s != [] {
      assert FieldCodeLen(s) == 0;
      StripFullLength(s[1..]);
      assert s == [s[0]] + s[1..];
    }
  }

  /** Strip leaves a string alone exactly when it holds no percent sign followed by a word character. */
  lemma StripUnchangedIff(s: string)
    ensures Strip(s) == s <==> !ContainsFieldCode(s)
  {
    StripShortensIff(s);
    if !ContainsFieldCode(s) {
      StripFullLength(s);
    }
  }

  /** In particular a string without any percent sign comes out unchanged. */
  lemma StripWithoutPercent(s: string)
    requires forall i :: 0 <= i < |s| ==> s[i] != '%'
    ensures Strip(s) == s
  {
    StripUnchangedIff(s);
  }

  /** One pass only: removing the inner `%f` of `%%ff` leaves a new `%f` behind. */
  lemma StripIsSinglePass()
    ensures Strip("%%ff") == "%f"
    ensures ContainsFieldCode(Strip("%%ff"))
  {
  }

  /** A match takes the whole whitespace run before the percent sign. */
  lemma StripTakesWholeSpaceRun()
    ensures Strip("vim  %f") == "vim"
  {
    assert SpaceRun("vim  %f") == 0 && FieldCodeLen("vim  %f") == 0;
    assert "vim  %f"[1..] == "im  %f";
    assert SpaceRun("im  %f") == 0 && FieldCodeLen("im  %f") == 0;
    assert "im  %f"[1..] == "m  %f";
    assert SpaceRun("m  %f") == 0 && FieldCodeLen("m  %f") == 0;
    assert "m  %f"[1..] == "  %f";
    assert "  %f"[1..] == " %f" && " %f"[1..] == "%f" && "%f"[1..] == "f";
    assert SpaceRun("%f") == 0;
    assert SpaceRun(" %f") == 1;
    assert SpaceRun("  %f") == 2;
    assert FieldCodeLen("  %f") == 4;
    assert "  %f"[4..] == [];
  }
}
