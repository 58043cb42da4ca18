/** Character classes and the string operations both log scripts use:
    `str.strip()`, deleting every `HTTP/1.1` from a path (`re.sub` in one
    script, `str.replace` in the other: the same for a literal pattern), and
    substring containment (`in`). */
module Text {

  /** Python's whitespace: the characters for which `str.isspace()` holds, which
      are also the characters the `\s` class of a `str` regular expression
      matches. `str.strip()` removes exactly these. */
  predicate IsSpace(c: char) {
    var n := c as int;
    (0x09 <= n <= 0x0D) || (0x1C <= n <= 0x20) || n == 0x85 || n == 0xA0 || n == 0x1680
    || (0x2000 <= n <= 0x200A) || n == 0x2028 || n == 0x2029 || n == 0x202F
    || n == 0x205F || n == 0x3000
  }

  /** `\d`, restricted to ASCII digits. */
  predicate IsDigit(c: char) {
    '0' <= c <= '9'
  }

  /** `\w`, restricted to ASCII letters, digits and the underscore. */
  predicate IsWordChar(c: char) {
    ('a' <= c <= 'z') || ('A' <= c <= 'Z') || IsDigit(c) || c == '_'
  }

  predicate NoSpace(s: string) {
    forall i :: 0 <= i < |s| ==> !IsSpace(s[i])
  }

  predicate AllSpace(s: string) {
    forall i :: 0 <= i < |s| ==> IsSpace(s[i])
  }

  predicate AllDigits(s: string) {
    forall i :: 0 <= i < |s| ==> IsDigit(s[i])
  }

  /** What `.` matches: every character except the newline. */
  predicate NoNewline(s: string) {
    forall i :: 0 <= i < |s| ==> s[i] != '\n'
  }

  /** No leading or trailing whitespace: what `str.strip()` leaves. */
  predicate Trimmed(s: string) {
    s == [] || (!IsSpace(s[0]) && !IsSpace(s[|s| - 1]))
  }

  /** Cutting a string in two and joining the halves gives it back. */
  lemma SplitAt(s: string, n: nat)
    requires n <= |s|
    ensures s == s[..n] + s[n..]
  {
  }

  /** The two halves of a concatenation are recovered by slicing. */
  lemma ConcatParts(a: string, b: string)
    ensures (a + b)[..|a|] == a && (a + b)[|a|..] == b
  {
  }

  /** A prefix one character longer. */
  lemma PrefixExtend(s: string, k: nat)
    requires k < |s|
    ensures s[..k + 1] == s[..k] + [s[k]]
  {
  }

  /** A slice one character longer. */
  lemma SliceExtend(s: string, i: nat, k: nat)
    requires i <= k < |s|
    ensures s[i..k + 1] == s[i..k] + [s[k]]
  {
  }

  /** Slices of the tail of a string, seen as slices of the string. */
  lemma TailSlices(s: string, k: nat)
    requires 1 <= k <= |s|
    ensures s[1..][k - 1..] == s[k..]
    ensures [s[0]] + s[1..][..k - 1] == s[..k]
  {
  }

  // ---------------------------------------------------------------------
  // str.strip()
  // ---------------------------------------------------------------------

  /** Removes leading whitespace. */
  function TrimLeft(s: string): (r: string)
    ensures |r| <= |s| && r == s[|s| - |r|..]
    ensures AllSpace(s[..|s| - |r|])
    ensures r == [] || !IsSpace(r[0])
  {
    if s != [] && IsSpace(s[0]) then
      var r := TrimLeft(s[1..]);
      assert s[..|s| - |r|] == [s[0]] + s[1..][..|s| - 1 - |r|];
      r
    else s
  }

  /** Removes trailing whitespace. */
  function TrimRight(s: string): (r: string)
    ensures |r| <= |s| && r == s[..|r|]
    ensures AllSpace(s[|r|..])
    ensures r == [] || !IsSpace(r[|r| - 1])
  {
    if s != [] && IsSpace(s[|s| - 1]) then
      var r := TrimRight(s[..|s| - 1]);
      assert s[|r|..] == s[..|s| - 1][|r|..] + [s[|s| - 1]];
      r
    else s
  }

  /** `s.strip()`. */
  function Strip(s: string): (r: string)
    ensures Trimmed(r)
    ensures |r| <= |s|
  {
    TrimRight(TrimLeft(s))
  }

  lemma {:induction false} TrimLeftPadded(w: string, c: string)
    requires AllSpace(w)
    requires c == [] || !IsSpace(c[0])
    ensures TrimLeft(w + c) == c
  {
    if w != [] {
      assert (w + c)[1..] == w[1..] + c;
      TrimLeftPadded(w[1..], c);
    }
  }

  lemma {:induction false} TrimRightPadded(c: string, w: string)
    requires AllSpace(w)
    requires c == [] || !IsSpace(c[|c| - 1])
    ensures TrimRight(c + w) == c
  {
    if w != [] {
      assert (c + w)[..|c + w| - 1] == c + w[..|w| - 1];
      TrimRightPadded(c, w[..|w| - 1]);
    }
  }

  /** A string made of whitespace, then a core with no
      whitespace at either end, then whitespace, strips to exactly that core. */
  lemma StripUnique(w1: string, c: string, w2: string)
    requires AllSpace(w1) && AllSpace(w2) && Trimmed(c)
    ensures Strip(w1 + c + w2) == c
  {
    if c == [] {
      assert w1 + c + w2 == w1 + w2;
      assert AllSpace(w1 + w2);
      TrimLeftPadded(w1 + w2, []);
      assert w1 + w2 + [] == w1 + w2;
    } else {
      assert w1 + c + w2 == w1 + (c + w2);
      TrimLeftPadded(w1, c + w2);
      TrimRightPadded(c, w2);
    }
  }

  /** Leading and trailing whitespace around a string never changes what it
      strips to. */
  lemma StripIgnoresPadding(w1: string, s: string, w2: string)
    requires AllSpace(w1) && AllSpace(w2)
    ensures Strip(w1 + s + w2) == Strip(s)
  {
    var t := TrimLeft(s);
    assert w1 + s + w2 == w1 + (s + w2);
    TrimLeftSkips(w1, s + w2);
    TrimLeftAppend(s, w2);
    if t == [] {
      assert w2 + [] == w2;
      TrimLeftSkips(w2, []);
    } else {
      TrimRightSkips(t, w2);
    }
    assert TrimLeft(w1 + s + w2) == TrimLeft(s + w2);
  }

  lemma {:induction false} TrimLeftSkips(w: string, s: string)
    requires AllSpace(w)
    ensures TrimLeft(w + s) == TrimLeft(s)
  {
    if w == [] {
      assert w + s == s;
    } else {
      var ws := w + s;
      assert ws[0] == w[0];
      assert TrimLeft(ws) == TrimLeft(ws[1..]);
      assert ws[1..] == w[1..] + s;
      TrimLeftSkips(w[1..], s);
    }
  }

  lemma {:induction false} TrimRightSkips(s: string, w: string)
    requires AllSpace(w)
    ensures TrimRight(s + w) == TrimRight(s)
  {
    if w == [] {
      assert s + w == s;
    } else {
      var sw := s + w;
      assert sw[|sw| - 1] == w[|w| - 1];
      assert TrimRight(sw) == TrimRight(sw[..|sw| - 1]);
      assert sw[..|sw| - 1] == s + w[..|w| - 1];
      TrimRightSkips(s, w[..|w| - 1]);
    }
  }

  lemma {:induction false} TrimLeftAppend(s: string, w: string)
    ensures TrimLeft(s + w) == if TrimLeft(s) == [] then TrimLeft(w) else TrimLeft(s) + w
  {
    if s == [] {
      assert s + w == w;
    } else {
      assert (s + w)[0] == s[0];
      if IsSpace(s[0]) {
        assert (s + w)[1..] == s[1..] + w;
        TrimLeftAppend(s[1..], w);
      }
    }
  }

  /** A string with no whitespace at all is left as it is by `strip()`. */
  lemma StripNoSpace(s: string)
    requires NoSpace(s)
    ensures Strip(s) == s
  {
    assert s == [] + s + [];
    StripUnique([], s, []);
  }

  // ---------------------------------------------------------------------
  // Substring occurrences, containment and deletion
  // ---------------------------------------------------------------------

  /** `pat` occurs in `s` starting at index `i`. */
  ghost predicate OccursAt(s: string, pat: string, i: int) {
    0 <= i && i + |pat| <= |s| && s[i..i + |pat|] == pat
  }

  /** `pat in s`: tries every start index from `i` on. */
  function ContainsFrom(s: string, pat: string, i: nat): (b: bool)
    requires i <= |s|
    ensures b <==> exists j :: i <= j && OccursAt(s, pat, j)
    decreases |s| - i
  {
    if |s| - i < |pat| then false
    else if s[i..i + |pat|] == pat then assert OccursAt(s, pat, i); true
    else ContainsFrom(s, pat, i + 1)
  }

  /** `pat in s` for Python strings. */
  function Contains(s: string, pat: string): (b: bool)
    ensures b <==> exists j :: OccursAt(s, pat, j)
  {
    ContainsFrom(s, pat, 0)
  }

  /** The protocol text both scripts delete from request paths. */
  const HttpVersion: string := "HTTP/1.1"

  /** `s.replace(pat, "")` (equivalently `re.sub` with a literal pattern):
      scanning left to right, every occurrence of `pat` that does not overlap
      an occurrence already deleted is deleted. */
  function RemoveAll(s: string, pat: string): (r: string)
    requires pat != []
    ensures |r| <= |s|
    decreases |s|
  {
    if |s| < |pat| then s
    else if s[..|pat|] == pat then RemoveAll(s[|pat|..], pat)
    else [s[0]] + RemoveAll(s[1..], pat)
  }

  /** Occurrences in the tail of a string are the occurrences in the string,
      shifted by one. */
  lemma OccursShift(s: string, pat: string, j: nat)
    requires s != []
    ensures OccursAt(s[1..], pat, j) <==> OccursAt(s, pat, j + 1)
  {
    if j + 1 + |pat| <= |s| {
      assert s[1..][j..j + |pat|] == s[j + 1..j + 1 + |pat|];
    }
  }

  /** A string in which `pat` does not occur is returned unchanged. */
  lemma {:induction false} RemoveAllAbsent(s: string, pat: string)
    requires pat != []
    requires forall j :: !OccursAt(s, pat, j)
    ensures RemoveAll(s, pat) == s
    decreases |s|
  {
    if |s| >= |pat| {
      assert !OccursAt(s, pat, 0);
      forall j: nat ensures !OccursAt(s[1..], pat, j) {
        OccursShift(s, pat, j);
      }
      RemoveAllAbsent(s[1..], pat);
      assert s == [s[0]] + s[1..];
    }
  }

  /** The leftmost occurrence of `pat` is deleted, the text before it is kept,
      and deletion resumes right after it. With RemoveAllAbsent this determines
      RemoveAll completely. */
  lemma {:induction false} RemoveAllLeftmost(s: string, pat: string, i: nat)
    requires pat != []
    requires OccursAt(s, pat, i)
    requires forall j :: 0 <= j < i ==> !OccursAt(s, pat, j)
    ensures RemoveAll(s, pat) == s[..i] + RemoveAll(s[i + |pat|..], pat)
    decreases i, 1
  {
    if i == 0 {
      LeftmostAtStart(s, pat);
    } else {
      LeftmostLater(s, pat, i);
    }
  }

  lemma {:induction false} LeftmostLater(s: string, pat: string, i: nat)
    requires pat != [] && 0 < i
    requires OccursAt(s, pat, i)
    requires forall j :: 0 <= j < i ==> !OccursAt(s, pat, j)
    ensures RemoveAll(s, pat) == s[..i] + RemoveAll(s[i + |pat|..], pat)
    decreases i, 0
  {
    LeftmostInTail(s, pat, i);
    RemoveAllLeftmost(s[1..], pat, i - 1);
    LeftmostStep(s, pat, i);
  }

  lemma LeftmostAtStart(s: string, pat: string)
    requires pat != [] && OccursAt(s, pat, 0)
    ensures RemoveAll(s, pat) == s[..0] + RemoveAll(s[|pat|..], pat)
  {
    assert s[..|pat|] == pat;
    assert s[..0] + RemoveAll(s[|pat|..], pat) == RemoveAll(s[|pat|..], pat);
  }

  /** One step of `RemoveAllLeftmost`: its statement for the tail gives it
      for the string. */
  lemma LeftmostStep(s: string, pat: string, i: nat)
    requires pat != [] && 0 < i && i + |pat| <= |s| && !OccursAt(s, pat, 0)
    requires RemoveAll(s[1..], pat) == s[1..][..i - 1] + RemoveAll(s[1..][i - 1 + |pat|..], pat)
    ensures RemoveAll(s, pat) == s[..i] + RemoveAll(s[i + |pat|..], pat)
  {
    var rest := RemoveAll(s[i + |pat|..], pat);
    RemoveAllStep(s, pat);
    TailSlices(s, i + |pat|);
    PrefixRejoin(s, i, rest);
  }

  /** The leftmost occurrence, seen from the tail of the string. */
  lemma LeftmostInTail(s: string, pat: string, i: nat)
    requires 0 < i && OccursAt(s, pat, i)
    requires forall j :: 0 <= j < i ==> !OccursAt(s, pat, j)
    ensures OccursAt(s[1..], pat, i - 1)
    ensures forall j :: 0 <= j < i - 1 ==> !OccursAt(s[1..], pat, j)
  {
    OccursShift(s, pat, i - 1);
    forall j: nat | j < i - 1 ensures !OccursAt(s[1..], pat, j) {
      OccursShift(s, pat, j);
    }
  }

  /** The first character, put back in front of a prefix of the tail. */
  lemma PrefixRejoin(s: string, i: nat, rest: string)
    requires 1 <= i <= |s|
    ensures [s[0]] + (s[1..][..i - 1] + rest) == s[..i] + rest
  {
    TailSlices(s, i);
    ConcatAssoc([s[0]], s[1..][..i - 1], rest);
  }

  /** Where `pat` does not start the string, its first character is kept. */
  lemma RemoveAllStep(s: string, pat: string)
    requires pat != [] && !OccursAt(s, pat, 0) && s != []
    ensures RemoveAll(s, pat) == [s[0]] + RemoveAll(s[1..], pat)
  {
  }

  /** Concatenation is associative. */
  lemma ConcatAssoc(a: string, b: string, c: string)
    ensures a + (b + c) == (a + b) + c
  {
  }

  /** Deleting never introduces a character: every character of the result
      is a character of the input. */
  lemma {:induction false} RemoveAllChars(s: string, pat: string, k: nat)
    requires pat != []
    requires k < |RemoveAll(s, pat)|
    ensures RemoveAll(s, pat)[k] in s
    decreases |s|
  {
    if |s| >= |pat| {
      if s[..|pat|] == pat {
        RemoveAllChars(s[|pat|..], pat, k);
        assert RemoveAll(s[|pat|..], pat)[k] in s[|pat|..];
      } else if k > 0 {
        RemoveAllChars(s[1..], pat, k - 1);
        assert RemoveAll(s[1..], pat)[k - 1] in s[1..];
      }
    }
  }

  /** Deleting from a string without whitespace leaves a string without
      whitespace, which `strip()` then leaves unchanged. */
  lemma RemoveAllKeepsNoSpace(s: string, pat: string)
    requires pat != [] && NoSpace(s)
    ensures NoSpace(RemoveAll(s, pat))
    ensures Strip(RemoveAll(s, pat)) == RemoveAll(s, pat)
  {
    var r := RemoveAll(s, pat);
    forall k | 0 <= k < |r| ensures !IsSpace(r[k]) {
      RemoveAllChars(s, pat, k);
    }
    StripNoSpace(r);
  }

  /** Deletion is a single pass: removing `HTTP/1.1` from `HTTP/HTTP/1.11.1`
      leaves `HTTP/1.1`, formed by the deletion, in place. */
  lemma RemoveAllSinglePass()
    ensures RemoveAll("HTTP/HTTP/1.11.1", HttpVersion) == HttpVersion
  {
    var s := "HTTP/HTTP/1.11.1";
    assert s[5..13] == HttpVersion;
    forall j | 0 <= j < 5 ensures !OccursAt(s, HttpVersion, j) {
      if j == 0 {
        assert s[..8][5] != HttpVersion[5];
      } else {
        assert s[j..j + 8][0] != HttpVersion[0];
      }
    }
    RemoveAllLeftmost(s, HttpVersion, 5);
    assert s[13..] == "1.1";
  }
}
