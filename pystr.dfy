/**
 * The few operations of Python's `str` that the subscriber registry relies on:
 * `strip()` with no argument, `lower()` (on the ASCII range) and the
 * substring test `needle in haystack`.
 */
module PyStr {

  /** Python's `str.isspace()` for one character: the characters whose
      bidirectional class is WS, B or S, or whose category is Zs. */
  predicate IsSpace(c: char) {
    || c == ' ' || c == '\t' || c == '\n' || c == '\r'
    || c == '\U{000B}' || c == '\U{000C}'
    || ('\U{001C}' <= c <= '\U{001F}')
    || c == '\U{0085}' || c == '\U{00A0}' || c == '\U{1680}'
    || ('\U{2000}' <= c <= '\U{200A}')
    || c == '\U{2028}' || c == '\U{2029}' || c == '\U{202F}' || c == '\U{205F}'
    || c == '\U{3000}'
  }

  predicate AllSpace(s: string) {
    forall i :: 0 <= i < |s| ==> IsSpace(s[i])
  }

  /** Number of leading whitespace characters of `s`. */
  function Indent(s: string): (n: nat)
    ensures n <= |s|
    ensures AllSpace(s[..n])
    ensures n < |s| ==> !IsSpace(s[n])
  {
    if s != [] && IsSpace(s[0]) then
      var m := Indent(s[1..]);
      assert s[..m + 1] == [s[0]] + s[1..][..m];
      m + 1
    else
      0
  }

  /** `s` with its trailing whitespace removed. */
  function TrimEnd(s: string): (r: string)
    ensures |r| <= |s| && r == s[..|r|]
    ensures AllSpace(s[|r|..])
    ensures r != [] ==> !IsSpace(r[|r| - 1])
  {
    if s != [] && IsSpace(s[|s| - 1]) then
      var init := s[..|s| - 1];
      var r := TrimEnd(init);
      assert init[..|r|] == s[..|r|];
      assert s[|r|..] == init[|r|..] + [s[|s| - 1]];
      r
    else
      s
  }

  /** Python's `s.strip()`: the slice of `s` left when whitespace is removed
      from both ends. The result sits at offset `Indent(s)`, everything
      outside it is whitespace, and it neither starts nor ends with
      whitespace; these three facts determine it (see StripUnique). */
  function Strip(s: string): (r: string)
    ensures Indent(s) + |r| <= |s|
    ensures r == s[Indent(s)..Indent(s) + |r|]
    ensures AllSpace(s[..Indent(s)]) && AllSpace(s[Indent(s) + |r|..])
    ensures r != [] ==> !IsSpace(r[0]) && !IsSpace(r[|r| - 1])
  {
    var n := Indent(s);
    var r := TrimEnd(s[n..]);
    assert s[n..][..|r|] == s[n..n + |r|];
    assert s[n + |r|..] == s[n..][|r|..];
    assert r != [] ==> r[0] == s[n];
    r
  }

  /** Any split of `s` into whitespace, a core that neither starts nor ends
      with whitespace, and whitespace, has `Strip(s)` as its core. */
  lemma StripUnique(a: string, r: string, b: string)
    requires AllSpace(a) && AllSpace(b)
    requires r != [] ==> !IsSpace(r[0]) && !IsSpace(r[|r| - 1])
    ensures Strip(a + r + b) == r
  {
    var s := a + r + b;
    var n := Indent(s);
    var t := Strip(s);
    if r == [] {
      assert AllSpace(s) by {
        forall i | 0 <= i < |s| ensures IsSpace(s[i]) {
          if i < |a| { assert s[i] == a[i]; } else { assert s[i] == b[i - |a|]; }
        }
      }
      assert n == |s|;
    } else {
      assert s[|a|] == r[0];
      assert n == |a|;
      var last := |a| + |r| - 1;
      assert s[last] == r[|r| - 1];
      assert |t| == |r|;
      assert t == s[|a|..|a| + |r|] == r;
    }
  }

  /** Stripping is idempotent: a stripped string has nothing left to strip. */
  lemma StripIdempotent(s: string)
    ensures Strip(Strip(s)) == Strip(s)
  {
    StripUnique([], Strip(s), []);
    assert [] + Strip(s) + [] == Strip(s);
  }

  lemma AllSpaceConcat(x: string, y: string)
    requires AllSpace(x) && AllSpace(y)
    ensures AllSpace(x + y)
  {
    assert forall i :: 0 <= i < |x| ==> (x + y)[i] == x[i];
    assert forall i :: |x| <= i < |x + y| ==> (x + y)[i] == y[i - |x|];
  }

  /** Surrounding whitespace does not change the stripped form. */
  lemma StripPadded(a: string, t: string, b: string)
    requires AllSpace(a) && AllSpace(b)
    ensures Strip(a + t + b) == Strip(t)
  {
    var p, r, q := StripSplit(t);
    AllSpaceConcat(a, p);
    AllSpaceConcat(q, b);
    Regroup(a, p, r, q, b);
    StripUnique(a + p, r, q + b);
  }

  lemma Regroup(a: string, p: string, r: string, q: string, b: string)
    ensures a + (p + r + q) + b == (a + p) + r + (q + b)
  {
  }

  /** `s` is its leading whitespace, its stripped form and its trailing
      whitespace, in that order. */
  lemma StripSplit(s: string) returns (p: string, r: string, q: string)
    ensures s == p + r + q && r == Strip(s)
    ensures AllSpace(p) && AllSpace(q)
    ensures r != [] ==> !IsSpace(r[0]) && !IsSpace(r[|r| - 1])
  {
    var n := Indent(s);
    r := Strip(s);
    p, q := s[..n], s[n + |r|..];
    assert s == s[..n] + s[n..n + |r|] + s[n + |r|..];
  }

  /** ASCII lower-casing of one character; every other character is left
      as it is. */
  function LowerChar(c: char): (d: char)
  {
    if 'A' <= c <= 'Z' then (c as int + 32) as char else c
  }

  /** `s.lower()` on the ASCII range. */
  function Lower(s: string): (r: string)
  {
    seq(|s|, i requires 0 <= i < |s| => LowerChar(s[i]))
  }

  lemma LowerConcat(x: string, y: string)
    ensures Lower(x + y) == Lower(x) + Lower(y)
  {
  }

  /** Lower-casing maps whitespace to whitespace and everything else to
      non-whitespace. */
  lemma LowerKeepsSpace(x: string)
    ensures |Lower(x)| == |x|
    ensures forall i :: 0 <= i < |x| ==> IsSpace(Lower(x)[i]) == IsSpace(x[i])
  {
  }

  /** Lower-casing and stripping commute. */
  lemma StripLower(s: string)
    ensures Strip(Lower(s)) == Lower(Strip(s))
  {
    var p, r, q := StripSplit(s);
    LowerConcat(p + r, q);
    LowerConcat(p, r);
    LowerKeepsSpace(p);
    LowerKeepsSpace(r);
    LowerKeepsSpace(q);
    StripUnique(Lower(p), Lower(r), Lower(q));
  }

  /** Python's `needle in haystack` for two strings. */
  predicate Contains(haystack: string, needle: string)
    decreases |haystack|
  {
    needle <= haystack || (haystack != [] && Contains(haystack[1..], needle))
  }

  /** `needle` occurs in `haystack` starting at offset `k`. */
  predicate OccursAt(haystack: string, needle: string, k: int) {
    0 <= k && k + |needle| <= |haystack| && haystack[k..k + |needle|] == needle
  }

  /** An occurrence at any offset makes `needle in haystack` true. */
  lemma {:induction false} ContainsAt(haystack: string, needle: string, k: nat)
    requires OccursAt(haystack, needle, k)
    ensures Contains(haystack, needle)
    decreases k
  {
    if k > 0 {
      assert OccursAt(haystack[1..], needle, k - 1) by {
        assert haystack[1..][k - 1..k - 1 + |needle|] == haystack[k..k + |needle|];
      }
      ContainsAt(haystack[1..], needle, k - 1);
    } else {
      assert needle == haystack[..|needle|];
    }
  }

  /** The converse of ContainsAt: when `needle in haystack` holds, `needle`
      occurs at some offset of `haystack`. */
  lemma {:induction false} ContainsSomewhere(haystack: string, needle: string)
    requires Contains(haystack, needle)
    ensures exists k :: OccursAt(haystack, needle, k)
    decreases |haystack|
  {
    if needle <= haystack {
      assert OccursAt(haystack, needle, 0);
    } else {
      ContainsSomewhere(haystack[1..], needle);
      var k :| OccursAt(haystack[1..], needle, k);
      assert haystack[1..][k..k + |needle|] == haystack[k + 1..k + 1 + |needle|];
      assert OccursAt(haystack, needle, k + 1);
    }
  }
}
