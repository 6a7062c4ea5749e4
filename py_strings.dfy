/**
 * The handful of Python `str` operations the text analyzer relies on,
 * stated over `seq<char>`: `isspace`, `strip`, `startswith`, the
 * substring test `in`, and counting the matches of a one-character
 * regular-expression class (`len(re.findall("[...]", s))`).
 */
module PyStrings {

  /** Python's `str.isspace` for a single character: the ASCII blanks,
      the four ASCII separators U+001C..U+001F, NEL, NBSP, and the
      Unicode space separators and line/paragraph separators. */
  predicate IsWhitespace(c: char) {
    || c == ' ' || c == '\t' || c == '\n' || c == '\r'
    || c == '\U{000B}' || c == '\U{000C}'
    || ('\U{001C}' <= c <= '\U{001F}')
    || c == '\U{0085}' || c == '\U{00A0}' || c == '\U{1680}'
    || ('\U{2000}' <= c <= '\U{200A}')
    || c == '\U{2028}' || c == '\U{2029}' || c == '\U{202F}'
    || c == '\U{205F}' || c == '\U{3000}'
  }

  /** Every character of `s` from index `lo` up to (not including) `hi` is whitespace. */
  predicate WhitespaceBetween(s: string, lo: nat, hi: nat)
    requires lo <= hi <= |s|
  {
    forall i :: lo <= i < hi ==> IsWhitespace(s[i])
  }

  /** `not s.strip()`: every character of `s` is whitespace (vacuously true of ""). */
  predicate AllWhitespace(s: string) {
    WhitespaceBetween(s, 0, |s|)
  }

  /** `s.lstrip()`: the longest suffix of `s` that does not start with whitespace. */
  function LStrip(s: string): (r: string)
    ensures |r| <= |s| && r == s[|s| - |r|..]
    ensures WhitespaceBetween(s, 0, |s| - |r|)
    ensures r == [] || !IsWhitespace(r[0])
  {
    if s == [] || !IsWhitespace(s[0]) then s else LStrip(s[1..])
  }

  /** `s.rstrip()`: the longest prefix of `s` that does not end with whitespace. */
  function RStrip(s: string): (r: string)
    ensures |r| <= |s| && r == s[..|r|]
    ensures WhitespaceBetween(s, |r|, |s|)
    ensures r == [] || !IsWhitespace(r[|r| - 1])
  {
    if s == [] || !IsWhitespace(s[|s| - 1]) then s else RStrip(s[..|s| - 1])
  }

  /** `s` is `r`, placed at index `k`, with whitespace on both sides. */
  predicate PaddedAt(s: string, r: string, k: nat) {
    && k + |r| <= |s|
    && s[k..k + |r|] == r
    && WhitespaceBetween(s, 0, k)
    && WhitespaceBetween(s, k + |r|, |s|)
  }

  /** `s` is `r` with whitespace added on both sides. */
  ghost predicate PaddedBy(s: string, r: string) {
    exists k: nat :: PaddedAt(s, r, k)
  }

  /** A string that neither starts nor ends with whitespace. */
  predicate Trimmed(r: string) {
    r == [] || (!IsWhitespace(r[0]) && !IsWhitespace(r[|r| - 1]))
  }

  /** `s.strip()`: the text with leading and trailing whitespace removed.
      It is blank exactly when every character of `s` is whitespace. */
  function Strip(s: string): (r: string)
    ensures Trimmed(r)
    ensures r == [] <==> AllWhitespace(s)
  {
    StripPadding(s);
    RStrip(LStrip(s))
  }

  /** What `strip` removes is whitespace on both sides. */
  lemma StripPadded(s: string)
    ensures PaddedBy(s, Strip(s))
  {
    StripPadding(s);
  }

  /** `rstrip` after `lstrip` leaves `s` padded on both sides. */
  lemma StripPadding(s: string)
    ensures PaddedAt(s, RStrip(LStrip(s)), |s| - |LStrip(s)|)
    ensures RStrip(LStrip(s)) == [] <==> AllWhitespace(s)
  {
    var l := LStrip(s);
    var r := RStrip(l);
    var k := |s| - |l|;
    StripInside(s, l, r);
    StripTrailing(s, l, r);
    assert k + |r| <= |s|;
    assert WhitespaceBetween(s, 0, k);
    assert s[k..k + |r|] == r;
    assert WhitespaceBetween(s, k + |r|, |s|);
    assert PaddedAt(s, r, k);
    StripBlank(s);
  }

  /** What is left lies at the index where `lstrip` stopped. */
  lemma StripInside(s: string, l: string, r: string)
    requires |l| <= |s| && l == s[|s| - |l|..]
    requires |r| <= |l| && r == l[..|r|]
    ensures s[|s| - |l|..|s| - |l| + |r|] == r
  {
    var k := |s| - |l|;
    assert s[k..k + |r|] == s[k..][..|r|];
  }

  /** What `rstrip` removed from the end of `l` is whitespace at the end of `s`. */
  lemma StripTrailing(s: string, l: string, r: string)
    requires |l| <= |s| && l == s[|s| - |l|..]
    requires |r| <= |l| && WhitespaceBetween(l, |r|, |l|)
    ensures WhitespaceBetween(s, |s| - |l| + |r|, |s|)
  {
    var k := |s| - |l|;
    forall i | k + |r| <= i < |s| ensures IsWhitespace(s[i]) {
      assert s[i] == l[i - k];
    }
  }

  /** `rstrip` after `lstrip` leaves nothing exactly when `s` is all whitespace. */
  lemma StripBlank(s: string)
    ensures RStrip(LStrip(s)) == [] <==> AllWhitespace(s)
  {
    var l := LStrip(s);
    if l != [] {
      assert s[|s| - |l|] == l[0];
      RStripKeepsHead(l);
    }
  }

  /** `rstrip` never removes a first character that is not whitespace. */
  lemma RStripKeepsHead(l: string)
    requires l != [] && !IsWhitespace(l[0])
    ensures RStrip(l) != []
  {
    assert WhitespaceBetween(l, |RStrip(l)|, |l|);
  }

  /** Whitespace padding is removed by `strip` whatever it is: `Strip` is the
      only trimmed string that `s` is a padding of. */
  lemma StripUnique(s: string, r: string)
    requires PaddedBy(s, r) && Trimmed(r)
    ensures r == Strip(s)
  {
    var k: nat :| PaddedAt(s, r, k);
    if r == [] {
      forall i | 0 <= i < |s| ensures IsWhitespace(s[i]) {
        assert WhitespaceBetween(s, 0, k) && WhitespaceBetween(s, k, |s|);
      }
    } else {
      assert s[k] == s[k..k + |r|][0];
      LStripSkips(s, k);
      var l := s[k..];
      assert l[..|r|] == r;
      forall i | |r| <= i < |l| ensures IsWhitespace(l[i]) {
        assert l[i] == s[k + i];
      }
      RStripSkips(l, |r|);
    }
  }

  /** `lstrip` removes exactly the leading run of whitespace. */
  lemma {:induction false} LStripSkips(s: string, k: nat)
    requires k <= |s| && WhitespaceBetween(s, 0, k) && (k == |s| || !IsWhitespace(s[k]))
    ensures LStrip(s) == s[k..]
  {
    if k > 0 {
      LStripSkips(s[1..], k - 1);
      assert s[1..][k - 1..] == s[k..];
    }
  }

  /** `rstrip` removes exactly the trailing run of whitespace. */
  lemma {:induction false} RStripSkips(s: string, m: nat)
    requires m <= |s| && WhitespaceBetween(s, m, |s|) && (m == 0 || !IsWhitespace(s[m - 1]))
    ensures RStrip(s) == s[..m]
    decreases |s| - m
  {
    if m < |s| {
      RStripSkips(s[..|s| - 1], m);
      assert s[..|s| - 1][..m] == s[..m];
    }
  }

  /** A text that neither starts nor ends with whitespace is its own strip. */
  lemma StripOfTrimmed(s: string)
    requires Trimmed(s)
    ensures Strip(s) == s
  {
    LStripSkips(s, 0);
    RStripSkips(s, |s|);
  }

  /** `s.startswith(p)`: `s` is `p` followed by the rest of `s`. */
  predicate StartsWith(s: string, p: string)
    ensures StartsWith(s, p) <==> |p| <= |s| && s == p + s[|p|..]
  {
    |p| <= |s| && s[..|p|] == p
  }

  /** The window of `s` at index `i` spells `p`. */
  predicate MatchAt(s: string, p: string, i: nat) {
    i + |p| <= |s| && s[i..i + |p|] == p
  }

  /** `p in s`: `p` occurs in `s` as a contiguous substring. The empty
      string occurs in every text, and nothing longer than the text does. */
  predicate Contains(s: string, p: string)
    ensures p == [] ==> Contains(s, p)
    ensures Contains(s, p) ==> |p| <= |s|
    decreases |s|
  {
    StartsWith(s, p) || (s != [] && Contains(s[1..], p))
  }

  /** The scanning definition of `in` agrees with "some window of `s` equals `p`". */
  lemma {:induction false} ContainsAt(s: string, p: string)
    ensures Contains(s, p) <==> exists i: nat :: MatchAt(s, p, i)
    decreases |s|
  {
    if StartsWith(s, p) {
      assert MatchAt(s, p, 0);
    }
    if s != [] {
      ContainsAt(s[1..], p);
      if Contains(s[1..], p) {
        var i: nat :| MatchAt(s[1..], p, i);
        assert s[i + 1..i + 1 + |p|] == s[1..][i..i + |p|];
        assert MatchAt(s, p, i + 1);
      }
      if exists i: nat :: MatchAt(s, p, i) {
        var i: nat :| MatchAt(s, p, i);
        if i > 0 {
          assert s[1..][i - 1..i - 1 + |p|] == s[i..i + |p|];
          assert MatchAt(s[1..], p, i - 1);
        } else {
          assert s[..|p|] == s[i..i + |p|];
        }
      }
    } else {
      if exists i: nat :: MatchAt(s, p, i) {
        var i: nat :| MatchAt(s, p, i);
        assert i == 0 && s[..|p|] == s[i..i + |p|];
      }
    }
  }

  /** `any(s.startswith(p) for p in ps)`. */
  predicate StartsWithAny(s: string, ps: seq<string>) {
    ps != [] && (StartsWith(s, ps[0]) || StartsWithAny(s, ps[1..]))
  }

  lemma {:induction false} StartsWithAnyAt(s: string, ps: seq<string>)
    ensures StartsWithAny(s, ps) <==> exists i :: 0 <= i < |ps| && StartsWith(s, ps[i])
  {
    if ps != [] {
      StartsWithAnyAt(s, ps[1..]);
      if exists i :: 0 <= i < |ps| && StartsWith(s, ps[i]) {
        var i :| 0 <= i < |ps| && StartsWith(s, ps[i]);
        if i > 0 { assert ps[1..][i - 1] == ps[i]; }
      }
    }
  }

  /** `any(p in s for p in ps)`. */
  predicate ContainsAny(s: string, ps: seq<string>) {
    ps != [] && (Contains(s, ps[0]) || ContainsAny(s, ps[1..]))
  }

  lemma {:induction false} ContainsAnyAt(s: string, ps: seq<string>)
    ensures ContainsAny(s, ps) <==> exists i :: 0 <= i < |ps| && Contains(s, ps[i])
  {
    if ps != [] {
      ContainsAnyAt(s, ps[1..]);
      if exists i :: 0 <= i < |ps| && Contains(s, ps[i]) {
        var i :| 0 <= i < |ps| && Contains(s, ps[i]);
        if i > 0 { assert ps[1..][i - 1] == ps[i]; }
      }
    }
  }

  /** A window of `s` that equals `p` is a witness for `p in s`. */
  lemma ContainsWitness(s: string, p: string, i: nat)
    requires MatchAt(s, p, i)
    ensures Contains(s, p)
  {
    ContainsAt(s, p);
  }

  /** `len(re.findall("[cs]", s))`: the number of characters of `s` that belong to `cs`. */
  function CountIn(s: string, cs: set<char>): (n: nat)
    ensures n <= |s|
  {
    if s == [] then 0 else (if s[0] in cs then 1 else 0) + CountIn(s[1..], cs)
  }

  /** Counting distributes over concatenation. */
  lemma {:induction false} CountInConcat(a: string, b: string, cs: set<char>)
    ensures CountIn(a + b, cs) == CountIn(a, cs) + CountIn(b, cs)
    decreases |a|
  {
    if a == [] {
      assert a + b == b;
    } else {
      assert (a + b)[1..] == a[1..] + b;
      CountInConcat(a[1..], b, cs);
    }
  }

  /** The count is zero exactly when no character of `s` is in the class. */
  lemma {:induction false} CountInZero(s: string, cs: set<char>)
    ensures CountIn(s, cs) == 0 <==> forall i :: 0 <= i < |s| ==> s[i] !in cs
  {
    if s != [] {
      CountInZero(s[1..], cs);
      if CountIn(s, cs) == 0 {
        forall i | 0 <= i < |s| ensures s[i] !in cs {
          if i > 0 { assert s[i] == s[1..][i - 1]; }
        }
      }
    }
  }
}
