/**
 * The few pieces of Python's `str` and `re` that the dashboard relies on, on `seq<char>`:
 * whitespace as `str.isspace` and `\s` see it, `strip`, `split("\n")`, `lower`,
 * substring search and the ordering `sorted` uses on names.
 */
module Text {
  import opened Options

  /** Python's `str.isspace()`; `str.strip()` and the regex class `\s` use the same set. */
  predicate IsSpace(c: char) {
    ('\t' <= c <= '\r') || ('\U{1C}' <= c <= '\U{1F}') || c == ' ' || c == '\U{85}' || c == '\U{A0}'
    || c == '\U{1680}' || ('\U{2000}' <= c <= '\U{200A}') || c == '\U{2028}' || c == '\U{2029}'
    || c == '\U{202F}' || c == '\U{205F}' || c == '\U{3000}'
  }

  /** The regex class `\w`, restricted to ASCII. */
  predicate IsWordChar(c: char) {
    ('a' <= c <= 'z') || ('A' <= c <= 'Z') || ('0' <= c <= '9') || c == '_'
  }

  predicate AllSpace(s: string) {
    forall i | 0 <= i < |s| :: IsSpace(s[i])
  }

  /** `str.lower()` on one character, modelled for A-Z and the KELVIN SIGN; every other character is kept. */
  function LowerChar(c: char): (r: char)
    ensures !('A' <= r <= 'Z')
    ensures 'A' <= c <= 'Z' ==> r as int == c as int + 32
    ensures c == '\U{212A}' ==> r == 'k'
    ensures r != c ==> 'A' <= c <= 'Z' || c == '\U{212A}'
  {
    if 'A' <= c <= 'Z' then (c as int + 32) as char
    else if c == '\U{212A}' then 'k'
    else c
  }

  /**
   * `str.lower()`: A-Z move 32 code points up to a-z, the KELVIN SIGN becomes `k`, no
   * upper-case ASCII letter is left, and nothing else changes.
   */
  function Lower(s: string): (r: string)
    ensures |r| == |s|
    ensures forall i | 0 <= i < |r| :: !('A' <= r[i] <= 'Z')
    ensures forall i | 0 <= i < |s| && 'A' <= s[i] <= 'Z' :: r[i] as int == s[i] as int + 32
    ensures forall i | 0 <= i < |s| && s[i] == '\U{212A}' :: r[i] == 'k'
    ensures forall i | 0 <= i < |r| :: r[i] == s[i] || 'A' <= s[i] <= 'Z' || s[i] == '\U{212A}'
  {
    seq(|s|, i requires 0 <= i < |s| => LowerChar(s[i]))
  }

  /** `u` is an upper-case form of the lower-case letter `l`: A-Z 32 code points below a-z, or the KELVIN SIGN for `k`. */
  predicate CasePair(u: char, l: char) {
    ('A' <= u <= 'Z' && l as int == u as int + 32) || (u == '\U{212A}' && l == 'k')
  }

  /** The two strings differ only in the case of their letters, character by character. */
  predicate SameUpToCase(a: string, b: string) {
    |a| == |b| && forall i | 0 <= i < |a| :: a[i] == b[i] || CasePair(a[i], b[i]) || CasePair(b[i], a[i])
  }

  /** Lower-casing twice is lower-casing once. */
  lemma LowerIdempotent(s: string)
    ensures Lower(Lower(s)) == Lower(s)
  {
    assert forall i | 0 <= i < |s| :: Lower(Lower(s))[i] == LowerChar(LowerChar(s[i])) == LowerChar(s[i]);
  }

  /** Strings equal up to case lower-case to the same string. */
  lemma LowerSameUpToCase(a: string, b: string)
    requires SameUpToCase(a, b)
    ensures Lower(a) == Lower(b)
  {
    forall i | 0 <= i < |a| ensures Lower(a)[i] == Lower(b)[i] {
      assert Lower(a)[i] == LowerChar(a[i]) && Lower(b)[i] == LowerChar(b[i]);
    }
  }

  /** An occurrence of `pat` in `s`, in any case, is an occurrence of `Lower(pat)` in `Lower(s)`. */
  lemma LowerKeepsOccurrence(s: string, pat: string, i: nat)
    requires StartsWithAt(s, pat, i)
    ensures StartsWithAt(Lower(s), Lower(pat), i)
  {
    forall k | 0 <= k < |pat| ensures Lower(s)[i..i + |pat|][k] == Lower(pat)[k] {
      assert s[i + k] == s[i..i + |pat|][k];
    }
  }

  predicate StartsWithAt(s: string, pat: string, i: nat) {
    i + |pat| <= |s| && s[i..i + |pat|] == pat
  }

  /** A prefix found at `w` is still a prefix of any slice that starts at `w` and holds it. */
  lemma StartsWithSlice(s: string, pat: string, w: nat, e: nat)
    requires StartsWithAt(s, pat, w) && w + |pat| <= e <= |s|
    ensures StartsWithAt(s[w..e], pat, 0)
  {
    assert s[w..e][..|pat|] == s[w..w + |pat|];
  }

  /** `pat in s`. */
  predicate Contains(s: string, pat: string) {
    exists i | 0 <= i <= |s| :: StartsWithAt(s, pat, i)
  }

  /** `s.find(pat, from)`, `None` standing for -1. */
  function FindFrom(s: string, pat: string, from: nat): (r: Option<nat>)
    ensures r.Some? ==> from <= r.value && StartsWithAt(s, pat, r.value)
    ensures r.Some? ==> forall i | from <= i < r.value :: !StartsWithAt(s, pat, i)
    ensures r.None? ==> forall i | from <= i :: !StartsWithAt(s, pat, i)
    decreases |s| - from
  {
    if from + |pat| > |s| then None
    else if s[from..from + |pat|] == pat then Some(from)
    else FindFrom(s, pat, from + 1)
  }

  /** `pat` occurs at `p` and nowhere from `from` up to `p`: the occurrence a search from `from` finds. */
  predicate FirstAt(s: string, pat: string, from: nat, p: nat) {
    from <= p && StartsWithAt(s, pat, p) && forall q | from <= q < p :: !StartsWithAt(s, pat, q)
  }

  /** A search from `from` finds the first occurrence. */
  lemma FoundFirst(s: string, pat: string, from: nat, p: nat)
    requires FirstAt(s, pat, from, p)
    ensures FindFrom(s, pat, from) == Some(p)
  {
  }

  /** A first occurrence that lies inside `s` stays the first once text is appended. */
  lemma FirstAtExtend(s: string, t: string, pat: string, from: nat, p: nat)
    requires FirstAt(s, pat, from, p)
    ensures FirstAt(s + t, pat, from, p)
  {
    forall q | from <= q <= p ensures StartsWithAt(s + t, pat, q) == StartsWithAt(s, pat, q) {
      if q + |pat| <= |s| {
        assert (s + t)[q..q + |pat|] == s[q..q + |pat|];
      }
    }
  }

  /** The first index at or after `from` where `f` holds, or `|s|` when there is none. */
  function FirstFrom(s: string, from: nat, f: char -> bool): (r: nat)
    requires from <= |s|
    ensures from <= r <= |s|
    ensures forall k | from <= k < r :: !f(s[k])
    ensures r < |s| ==> f(s[r])
    decreases |s| - from
  {
    if from == |s| || f(s[from]) then from else FirstFrom(s, from + 1, f)
  }

  /** The end of the run of whitespace that starts at `i`. */
  function SkipSpaces(s: string, i: nat): (r: nat)
    requires i <= |s|
    ensures i <= r <= |s|
    ensures forall k | i <= k < r :: IsSpace(s[k])
    ensures r < |s| ==> !IsSpace(s[r])
    decreases |s| - i
  {
    if i == |s| || !IsSpace(s[i]) then i else SkipSpaces(s, i + 1)
  }

  /** The end of the run of non-whitespace that starts at `i`. */
  function WordEnd(s: string, i: nat): (r: nat)
    requires i <= |s|
    ensures i <= r <= |s|
    ensures forall k | i <= k < r :: !IsSpace(s[k])
    ensures r < |s| ==> IsSpace(s[r])
    decreases |s| - i
  {
    if i == |s| || IsSpace(s[i]) then i else WordEnd(s, i + 1)
  }

  /** The index of the first newline at or after `i`, or `|s|`. */
  function LineEnd(s: string, i: nat): (r: nat)
    requires i <= |s|
    ensures i <= r <= |s|
    ensures forall k | i <= k < r :: s[k] != '\n'
    ensures r < |s| ==> s[r] == '\n'
    decreases |s| - i
  {
    if i == |s| || s[i] == '\n' then i else LineEnd(s, i + 1)
  }

  /** The start of the run of whitespace that ends at `j`. */
  function TrimEnd(s: string, j: nat): (r: nat)
    requires j <= |s|
    ensures r <= j
    ensures forall k | r <= k < j :: IsSpace(s[k])
    ensures r > 0 ==> !IsSpace(s[r - 1])
  {
    if j == 0 || !IsSpace(s[j - 1]) then j else TrimEnd(s, j - 1)
  }

  /** Trimming the end of a text that holds a non-blank at `w` stops past `w`. */
  lemma {:induction false} TrimEndPast(s: string, w: nat, j: nat)
    requires w < j <= |s| && !IsSpace(s[w])
    ensures w < TrimEnd(s, j)
    decreases j
  {
    if IsSpace(s[j - 1]) {
      TrimEndPast(s, w, j - 1);
    }
  }

  /** Where `str.strip()` starts: the length of the leading whitespace. */
  function StripStart(s: string): (a: nat)
    ensures a <= |s|
  {
    SkipSpaces(s, 0)
  }

  /** Where the whitespace from `i` ends, found from its two sides. */
  lemma SkipSpacesTo(s: string, i: nat, j: nat)
    requires i <= j <= |s| && forall k | i <= k < j :: IsSpace(s[k])
    requires j == |s| || !IsSpace(s[j])
    ensures SkipSpaces(s, i) == j
  {
  }

  /** Where the line from `i` ends, found from its two sides. */
  lemma LineEndAt(s: string, i: nat, j: nat)
    requires i <= j <= |s| && forall k | i <= k < j :: s[k] != '\n'
    requires j == |s| || s[j] == '\n'
    ensures LineEnd(s, i) == j
  {
  }

  /** A text that starts with a non-blank loses only its trailing whitespace to `str.strip()`. */
  lemma StripLine(s: string, w: nat, j: nat)
    requires w < j <= |s| && !IsSpace(s[w])
    ensures w < TrimEnd(s, j) && Strip(s[w..j]) == s[w..TrimEnd(s, j)]
  {
    var t := s[w..j];
    assert t[0] == s[w];
    StripFromStart(t);
    TrimEndSlice(s, w, j, j - w);
    var e := TrimEnd(s, j);
    assert TrimEnd(t, |t|) == e - w;
    assert Strip(t) == t[..e - w];
    TakeOfSlice(s, w, j, e);
  }

  lemma TakeOfSlice(s: string, w: nat, j: nat, e: nat)
    requires w <= e <= j <= |s|
    ensures s[w..j][..e - w] == s[w..e]
  {
  }

  lemma StripFromStart(t: string)
    requires t != [] && !IsSpace(t[0])
    ensures 0 < TrimEnd(t, |t|) && Strip(t) == t[..TrimEnd(t, |t|)]
  {
    SkipSpacesTo(t, 0, 0);
  }

  /** Trimming the end of a slice is trimming the end of the text, down to the slice's non-blank start. */
  lemma {:induction false} TrimEndSlice(s: string, w: nat, j: nat, k: nat)
    requires w < j <= |s| && !IsSpace(s[w]) && 1 <= k <= j - w
    ensures w < TrimEnd(s, w + k) && TrimEnd(s[w..j], k) == TrimEnd(s, w + k) - w
  {
    var t := s[w..j];
    assert t[k - 1] == s[w + k - 1];
    if IsSpace(s[w + k - 1]) {
      TrimEndSlice(s, w, j, k - 1);
    }
  }

  /** A text whose last character is not blank keeps its end. */
  lemma TrimEndAt(s: string, j: nat)
    requires 0 < j <= |s| && !IsSpace(s[j - 1])
    ensures TrimEnd(s, j) == j
  {
  }

  /** Neither end of `u` is whitespace: the text `str.strip()` leaves as it is. */
  predicate Stripped(u: string) {
    u != [] && !IsSpace(u[0]) && !IsSpace(u[|u| - 1])
  }

  lemma StripStripped(u: string)
    requires Stripped(u)
    ensures Strip(u) == u
  {
    assert !AllSpace(u[..1]) && !AllSpace(u[|u| - 1..]);
  }

  /** `str.strip()`: the text between the leading and the trailing whitespace. */
  function Strip(s: string): (r: string)
    ensures StripStart(s) + |r| <= |s|
    ensures r == [] <==> AllSpace(s)
    ensures r != [] ==> !IsSpace(r[0]) && !IsSpace(r[|r| - 1])
    ensures r == s[StripStart(s)..StripStart(s) + |r|]
    ensures AllSpace(s[..StripStart(s)]) && AllSpace(s[StripStart(s) + |r|..])
  {
    var a := SkipSpaces(s, 0);
    var e := TrimEnd(s, |s|);
    if e <= a then [] else s[a..e]
  }

  /** `xs[:n]`, on strings and lists alike. */
  function Take<T>(xs: seq<T>, n: nat): (r: seq<T>)
    ensures |r| == if |xs| <= n then |xs| else n
    ensures r <= xs
  {
    if |xs| <= n then xs else xs[..n]
  }

  /** `xs[-n:]`. */
  function LastN<T>(xs: seq<T>, n: nat): (r: seq<T>)
    ensures |r| == if |xs| <= n then |xs| else n
    ensures r == xs[|xs| - |r|..]
  {
    if |xs| <= n then xs else xs[|xs| - n..]
  }

  /** The inverse of `Split`: the pieces put back together with `sep` between them. */
  function Join(pieces: seq<string>, sep: char): string {
    if |pieces| == 0 then ""
    else if |pieces| == 1 then pieces[0]
    else pieces[0] + [sep] + Join(pieces[1..], sep)
  }

  /** `s.split(sep)` for a one-character separator. */
  function Split(s: string, sep: char): (r: seq<string>)
    ensures |r| >= 1
    ensures Join(r, sep) == s
    ensures forall k | 0 <= k < |r| :: sep !in r[k]
  {
    if |s| == 0 then [""]
    else if s[0] == sep then
      var rest := Split(s[1..], sep);
      assert s == [sep] + s[1..];
      [""] + rest
    else
      var rest := Split(s[1..], sep);
      var r := [[s[0]] + rest[0]] + rest[1..];
      assert r[1..] == rest[1..];
      assert s == [s[0]] + s[1..];
      r
  }

  /** `pat` cannot occur in `s` when its first two characters never stand side by side in `s`. */
  lemma AbsentByPair(s: string, pat: string)
    requires |pat| >= 2
    requires forall i | 0 <= i < |s| - 1 :: !(s[i] == pat[0] && s[i + 1] == pat[1])
    ensures !Contains(s, pat)
  {
    forall i | 0 <= i <= |s| ensures !StartsWithAt(s, pat, i) {
      if i + |pat| <= |s| {
        assert s[i..i + |pat|][0] == s[i] && s[i..i + |pat|][1] == s[i + 1];
      }
    }
  }

  /** Python's `<` on strings: code point by code point, a proper prefix first. */
  predicate LexLess(a: string, b: string) {
    if a == [] then b != []
    else if b == [] then false
    else if a[0] != b[0] then a[0] < b[0]
    else LexLess(a[1..], b[1..])
  }

  lemma {:induction false} LexLessIrreflexive(a: string)
    ensures !LexLess(a, a)
  {
    if a != [] { LexLessIrreflexive(a[1..]); }
  }

  lemma {:induction false} LexLessTransitive(a: string, b: string, c: string)
    requires LexLess(a, b) && LexLess(b, c)
    ensures LexLess(a, c)
  {
    if a != [] && b != [] && c != [] && a[0] == b[0] && b[0] == c[0] {
      LexLessTransitive(a[1..], b[1..], c[1..]);
    }
  }

  lemma {:induction false} LexLessTotal(a: string, b: string)
    ensures a == b || LexLess(a, b) || LexLess(b, a)
  {
    if a != [] && b != [] && a[0] == b[0] {
      LexLessTotal(a[1..], b[1..]);
      if a[1..] == b[1..] {
        assert a == [a[0]] + a[1..] && b == [b[0]] + b[1..];
      }
    }
  }
}
