/** The string primitives the engine relies on, with Python's semantics:
    whitespace stripping, bounded character search from the left and from
    the right, clamped slicing, left-to-right substring replacement, joining
    with a separator, decimal rendering of a number, and `min` of two
    numbers.
 */
module Text {
  import opened Results

  /** The characters for which Python's `str.isspace` holds; `str.strip()`
      without arguments removes exactly these from both ends. */
  predicate IsWhitespace(c: char) {
    || ('\t' <= c <= '\r')
    || ('\U{1C}' <= c <= '\U{1F}')
    || c == ' ' || c == '\U{85}' || c == '\U{A0}' || c == '\U{1680}'
    || ('\U{2000}' <= c <= '\U{200A}')
    || c == '\U{2028}' || c == '\U{2029}' || c == '\U{202F}' || c == '\U{205F}'
    || c == '\U{3000}'
  }

  /** Position `i` of `s` holds a character that is not whitespace. */
  predicate ContentAt(s: string, i: int)
    requires 0 <= i < |s|
  {
    !IsWhitespace(s[i])
  }

  /** The number of leading whitespace characters of `s`: the index of its
      first non-whitespace character, or `|s|` when there is none. */
  function ContentStart(s: string): (a: nat)
    ensures a <= |s|
    ensures forall i | 0 <= i < a :: !ContentAt(s, i)
    ensures a < |s| ==> ContentAt(s, a)
  {
    if |s| > 0 && IsWhitespace(s[0]) then
      var a := 1 + ContentStart(s[1..]);
      assert forall i | 1 <= i < a :: !ContentAt(s, i) by {
        forall i | 1 <= i < a ensures !ContentAt(s, i) {
          assert s[i] == s[1..][i - 1] && !ContentAt(s[1..], i - 1);
        }
      }
      a
    else 0
  }

  /** The length of `s` without its trailing whitespace: one past the index
      of its last non-whitespace character, or 0 when there is none. */
  function ContentEnd(s: string): (b: nat)
    ensures b <= |s|
    ensures forall i | b <= i < |s| :: !ContentAt(s, i)
    ensures b > 0 ==> ContentAt(s, b - 1)
  {
    if |s| > 0 && IsWhitespace(s[|s| - 1]) then
      var b := ContentEnd(s[..|s| - 1]);
      assert forall i | b <= i < |s| - 1 :: !ContentAt(s, i) by {
        forall i | b <= i < |s| - 1 ensures !ContentAt(s, i) {
          assert s[i] == s[..|s| - 1][i] && !ContentAt(s[..|s| - 1], i);
        }
      }
      b
    else |s|
  }

  /** `s` holds a character that is not whitespace, i.e. `s.strip()` is truthy. */
  predicate HasContent(s: string) {
    ContentStart(s) < |s|
  }

  /** `HasContent` says what its name says: some position holds a
      non-whitespace character. */
  lemma HasContentIff(s: string)
    ensures HasContent(s) <==> exists i | 0 <= i < |s| :: ContentAt(s, i)
  {
  }

  /** A non-whitespace character at any position makes `s` non-blank. */
  lemma ContentWitness(s: string, i: nat)
    requires i < |s| && ContentAt(s, i)
    ensures HasContent(s)
  {
  }

  /** Python's `s.strip()`: what is left of `s` once the leading and
      trailing whitespace is removed. */
  function Strip(s: string): (r: string)
    ensures r == [] <==> !HasContent(s)
    ensures r != [] ==> ContentAt(r, 0) && ContentAt(r, |r| - 1)
    ensures r != [] ==>
      var a := ContentStart(s);
      && a + |r| <= |s| && r == s[a..a + |r|]
      && (forall i | a + |r| <= i < |s| :: !ContentAt(s, i))
  {
    var a := ContentStart(s);
    var b := ContentEnd(s);
    if a < b then
      s[a..b]
    else
      []
  }

  /** Stripping an already stripped text changes nothing. */
  lemma StripIdempotent(s: string)
    ensures Strip(Strip(s)) == Strip(s)
  {
    var r := Strip(s);
    if r != [] {
      assert ContentStart(r) == 0;
      assert ContentEnd(r) == |r|;
      assert r[0..|r|] == r;
    }
  }

  /** A text that begins and ends with a non-whitespace character is its
      own `strip()`. */
  lemma StripTrimmed(s: string)
    requires 0 < |s| && ContentAt(s, 0) && ContentAt(s, |s| - 1)
    ensures Strip(s) == s
  {
    assert ContentStart(s) == 0;
    assert ContentEnd(s) == |s|;
    assert s[0..|s|] == s;
  }

  /** Python's `s.find(c, lo, hi)` for `lo >= 0`: the lowest index in
      `[lo, min(hi, |s|))` holding `c`, or `None` (the `-1` of Python). */
  function FindIn(s: string, c: char, lo: nat, hi: int): Option<nat>
    decreases |s| - lo
  {
    if lo >= hi || lo >= |s| then None
    else if s[lo] == c then Some(lo)
    else FindIn(s, c, lo + 1, hi)
  }

  /** `FindIn` finds the first occurrence in the searched range, and
      reports none exactly when the range holds no `c`. */
  lemma {:induction false} FindInSpec(s: string, c: char, lo: nat, hi: int)
    ensures var r := FindIn(s, c, lo, hi);
      && (r.Some? ==> lo <= r.value < hi && r.value < |s| && s[r.value] == c)
      && (r.Some? ==> forall q | lo <= q < r.value :: s[q] != c)
      && (r.None? ==> forall q | lo <= q < hi && q < |s| :: s[q] != c)
    decreases |s| - lo
  {
    if lo < hi && lo < |s| && s[lo] != c {
      FindInSpec(s, c, lo + 1, hi);
    }
  }

  /** Python's `s.find(c)`. */
  function Find(s: string, c: char): Option<nat> {
    FindIn(s, c, 0, |s|)
  }

  /** Python's `s.rfind(c)` restricted to `s[..hi]`: the highest index below
      `hi` holding `c`. */
  function FindLastBefore(s: string, c: char, hi: nat): Option<nat>
    requires hi <= |s|
  {
    if hi == 0 then None
    else if s[hi - 1] == c then Some(hi - 1)
    else FindLastBefore(s, c, hi - 1)
  }

  lemma {:induction false} FindLastBeforeSpec(s: string, c: char, hi: nat)
    requires hi <= |s|
    ensures var r := FindLastBefore(s, c, hi);
      && (r.Some? ==> r.value < hi && s[r.value] == c)
      && (r.Some? ==> forall q | r.value < q < hi :: s[q] != c)
      && (r.None? ==> forall q | 0 <= q < hi :: s[q] != c)
  {
    if hi > 0 && s[hi - 1] != c {
      FindLastBeforeSpec(s, c, hi - 1);
    }
  }

  /** Python's `s.rfind(c)`. */
  function FindLast(s: string, c: char): Option<nat> {
    FindLastBefore(s, c, |s|)
  }

  /** Python's `min(a, b)`. */
  function Min(a: int, b: int): int {
    if a < b then a else b
  }

  /** Python's `s[a:b]` for non-negative bounds: both are clamped to the
      length, and a reversed range is empty. */
  function Slice(s: string, a: nat, b: nat): (r: string)
    ensures a < b <= |s| ==> r == s[a..b]
    ensures b <= a ==> r == []
    ensures a <= |s| <= b ==> r == s[a..]
    ensures |s| <= a ==> r == []
  {
    var lo := if a < |s| then a else |s|;
    var hi := if b < |s| then b else |s|;
    if lo >= hi then [] else s[lo..hi]
  }

  /** `pat` occurs in `s` starting at index `i`. */
  predicate OccursAt(s: string, pat: string, i: nat) {
    i + |pat| <= |s| && s[i..i + |pat|] == pat
  }

  predicate Contains(s: string, pat: string) {
    exists i: nat | i <= |s| :: OccursAt(s, pat, i)
  }

  lemma OccursInTail(s: string, pat: string, i: nat)
    requires 0 < |s| && OccursAt(s[1..], pat, i)
    ensures OccursAt(s, pat, i + 1)
  {
    assert s[i + 1..i + 1 + |pat|] == s[1..][i..i + |pat|];
  }

  /** An occurrence in a piece of `s` is an occurrence in `s`. */
  lemma OccursInInfix(s: string, pat: string, a: nat, b: nat, i: nat)
    requires a <= b <= |s| && OccursAt(s[a..b], pat, i)
    ensures OccursAt(s, pat, a + i)
  {
    var t := s[a..b];
    forall k | 0 <= k < |pat| ensures s[a + i + k] == pat[k] {
      assert t[i + k] == s[a + i + k];
      assert t[i..i + |pat|][k] == pat[k];
    }
    assert s[a + i..a + i + |pat|] == pat;
  }

  /** An occurrence in `t` is an occurrence in any text `t` sits in. */
  lemma OccursInMiddle(x: string, t: string, y: string, pat: string, p: nat)
    requires OccursAt(t, pat, p)
    ensures OccursAt(x + t + y, pat, |x| + p)
  {
    var w := x + t + y;
    assert w[|x|..|x| + |t|] == t;
    OccursInInfix(w, pat, |x|, |x| + |t|, p);
  }

  lemma OccursInSuffix(s: string, pat: string, k: nat, i: nat)
    requires k <= |s| && OccursAt(s[k..], pat, i)
    ensures OccursAt(s, pat, i + k)
  {
    assert s[i + k..i + k + |pat|] == s[k..][i..i + |pat|];
  }

  /** Python's `s.replace(pat, rep)` for a non-empty `pat`: occurrences are
      found from the left and do not overlap; scanning resumes after each
      replaced occurrence. */
  function Replace(s: string, pat: string, rep: string): (r: string)
    requires |pat| > 0
    ensures !Contains(s, pat) ==> r == s
    decreases |s|
  {
    if |s| < |pat| then s
    else if s[..|pat|] == pat then
      assert OccursAt(s, pat, 0);
      rep + Replace(s[|pat|..], pat, rep)
    else
      var r := [s[0]] + Replace(s[1..], pat, rep);
      assert Contains(s[1..], pat) ==> Contains(s, pat) by {
        if Contains(s[1..], pat) {
          var i: nat :| i <= |s[1..]| && OccursAt(s[1..], pat, i);
          OccursInTail(s, pat, i);
        }
      }
      r
  }

  /** Python's `sep.join(xs)`. */
  function Join(sep: string, xs: seq<string>): (r: string)
    ensures |xs| == 1 ==> r == xs[0]
    ensures xs == [] ==> r == []
  {
    if |xs| == 0 then []
    else if |xs| == 1 then xs[0]
    else xs[0] + sep + Join(sep, xs[1..])
  }

  /** Every joined part occurs in the joined text. */
  lemma {:induction false} JoinContainsEach(sep: string, xs: seq<string>, i: nat)
    requires i < |xs|
    ensures Contains(Join(sep, xs), xs[i])
    decreases |xs|
  {
    var j := Join(sep, xs);
    if |xs| == 1 {
      assert OccursAt(j, xs[i], 0);
    } else if i == 0 {
      assert j[..|xs[0]|] == xs[0];
      assert OccursAt(j, xs[i], 0);
    } else {
      var rest := Join(sep, xs[1..]);
      JoinContainsEach(sep, xs[1..], i - 1);
      var p: nat :| p <= |rest| && OccursAt(rest, xs[1..][i - 1], p);
      var k := |xs[0] + sep|;
      assert j[k..] == rest;
      OccursInSuffix(j, xs[i], k, p);
    }
  }

  function DigitChar(d: nat): (c: char)
    requires d < 10
    ensures '0' <= c <= '9'
  {
    "0123456789"[d]
  }

  /** The decimal rendering of `n`, as Python's `str(int)` gives it. */
  function NatToString(n: nat): (r: string)
    ensures |r| > 0
    ensures forall i | 0 <= i < |r| :: '0' <= r[i] <= '9'
    ensures r[0] == '0' ==> n == 0
  {
    if n < 10 then [DigitChar(n)]
    else NatToString(n / 10) + [DigitChar(n % 10)]
  }

  /** The number a string of decimal digits denotes. */
  function ParseNat(s: string): nat
    requires forall i | 0 <= i < |s| :: '0' <= s[i] <= '9'
  {
    if |s| == 0 then 0
    else 10 * ParseNat(s[..|s| - 1]) + ((s[|s| - 1] as int - '0' as int) as nat)
  }

  /** The rendering loses nothing: the label number of a chunk reads back as
      that number. */
  lemma {:induction false} ParseNatToString(n: nat)
    ensures ParseNat(NatToString(n)) == n
  {
    var r := NatToString(n);
    if n >= 10 {
      ParseNatToString(n / 10);
      assert r[..|r| - 1] == NatToString(n / 10);
      assert "0123456789"[n % 10] as int - '0' as int == n % 10;
    } else {
      assert "0123456789"[n] as int - '0' as int == n;
    }
  }
}
