/**
 * `parse_published`: the journal of published projects, a markdown document, read as
 * one record per level-2 section. Each regex of the parser is written out as the
 * search the regex engine performs, backtracking included.
 */
module Catalog {
  import opened Options
  import opened Text

  datatype Project = Project(name: string, date: string, repo: string, description: string, stack: string, status: string)

  // ---------------------------------------------------------------- sections

  /** The lookahead `(?=^## \w)` under MULTILINE holds at `p`. */
  predicate SplitAt(text: string, p: nat) {
    p + 4 <= |text| && (p == 0 || text[p - 1] == '\n') && OpensSection(text[p..])
  }

  /** The first split position at or after `from`, or `|text|` when there is none. */
  function NextSplit(text: string, from: nat): (r: nat)
    requires from <= |text|
    ensures from <= r <= |text|
    ensures forall q | from <= q < r :: !SplitAt(text, q)
    ensures r < |text| ==> SplitAt(text, r)
    decreases |text| - from
  {
    if from == |text| || SplitAt(text, from) then from else NextSplit(text, from + 1)
  }

  /** A piece after the first begins with `## ` and a word character. */
  predicate OpensSection(piece: string) {
    |piece| >= 4 && piece[0] == '#' && piece[1] == '#' && piece[2] == ' ' && IsWordChar(piece[3])
  }

  /** No line inside the piece (past its first character) opens a section. */
  predicate NoInnerSplit(piece: string) {
    forall i | 0 <= i && i + 4 < |piece| :: !(piece[i] == '\n' && OpensSection(piece[i + 1..]))
  }

  function Concat(pieces: seq<string>): string {
    if pieces == [] then "" else pieces[0] + Concat(pieces[1..])
  }

  /**
   * The pieces of `re.split` from the piece that starts at `start`, looking for the next
   * split at `from` (one past `start` once `start` is itself a split).
   */
  function Pieces(text: string, start: nat, from: nat): (r: seq<string>)
    requires start <= from <= |text|
    requires from == start || (from == start + 1 && SplitAt(text, start))
    requires start > 0 ==> from == start + 1
    ensures |r| >= 1
    ensures Concat(r) == text[start..]
    ensures from == start + 1 ==> OpensSection(r[0])
    ensures forall k | 1 <= k < |r| :: OpensSection(r[k])
    ensures forall k | 0 <= k < |r| :: NoInnerSplit(r[k])
    ensures StartsAtSplits(text, start, r)
    decreases |text| - from
  {
    var q := NextSplit(text, from);
    PieceHasNoInnerSplit(text, start, from, q);
    if q == |text| then
      assert text[start..q] == text[start..];
      [text[start..]]
    else
      var rest := Pieces(text, q, q + 1);
      PiecesCons(text, start, q, rest);
      StartsAtSplitsCons(text, start, q, text[start..q], rest);
      [text[start..q]] + rest
  }

  /** Every piece of `r` after the first starts at a split position of `text`, counting from `start`. */
  predicate StartsAtSplits(text: string, start: nat, r: seq<string>) {
    forall k | 1 <= k < |r| :: SplitAt(text, start + |Concat(r[..k])|)
  }

  /** A piece put in front of pieces that start at splits from `q`, where `q` is itself a split. */
  lemma StartsAtSplitsCons(text: string, start: nat, q: nat, a: string, rest: seq<string>)
    requires start + |a| == q && SplitAt(text, q)
    requires StartsAtSplits(text, q, rest)
    ensures StartsAtSplits(text, start, [a] + rest)
  {
    var r := [a] + rest;
    forall k | 1 <= k < |r| ensures SplitAt(text, start + |Concat(r[..k])|) {
      assert r[..k] == [a] + rest[..k - 1];
      ConcatCons(a, rest[..k - 1]);
      if k == 1 {
        assert rest[..0] == [];
      } else {
        var j := k - 1;
        assert SplitAt(text, q + |Concat(rest[..j])|);
      }
    }
  }

  lemma PiecesCons(text: string, start: nat, q: nat, rest: seq<string>)
    requires start <= q <= |text| && |rest| >= 1
    requires Concat(rest) == text[q..]
    requires OpensSection(rest[0])
    requires forall k | 1 <= k < |rest| :: OpensSection(rest[k])
    ensures Concat([text[start..q]] + rest) == text[start..]
    ensures forall k | 1 <= k < |rest| + 1 :: OpensSection(([text[start..q]] + rest)[k])
  {
    PiecesJoin(text, start, q, rest);
    var r := [text[start..q]] + rest;
    forall k | 1 <= k < |r| ensures OpensSection(r[k]) {
      assert r[k] == rest[k - 1];
    }
  }

  lemma PiecesJoin(text: string, start: nat, q: nat, rest: seq<string>)
    requires start <= q <= |text|
    requires Concat(rest) == text[q..]
    ensures Concat([text[start..q]] + rest) == text[start..]
  {
    ConcatCons(text[start..q], rest);
    assert text[start..] == text[start..q] + text[q..];
  }

  lemma ConcatCons(a: string, rest: seq<string>)
    ensures Concat([a] + rest) == a + Concat(rest)
  {
    assert ([a] + rest)[1..] == rest;
  }

  lemma PieceHasNoInnerSplit(text: string, start: nat, from: nat, q: nat)
    requires start <= from <= q <= |text|
    requires from == start || (from == start + 1 && SplitAt(text, start))
    requires forall p | from <= p < q :: !SplitAt(text, p)
    requires q < |text| ==> SplitAt(text, q)
    ensures NoInnerSplit(text[start..q])
    ensures from == start + 1 ==> OpensSection(text[start..q])
  {
    var piece := text[start..q];
    forall i | 0 <= i && i + 4 < |piece| ensures !(piece[i] == '\n' && OpensSection(piece[i + 1..])) {
      if piece[i] == '\n' && OpensSection(piece[i + 1..]) {
        assert SplitAt(text, start + i + 1);
      }
    }
    if from == start + 1 {
      assert text[start] == '#' && text[start + 1] == '#' && text[start + 2] == ' ';
      assert !SplitAt(text, start + 1) && !SplitAt(text, start + 2) && !SplitAt(text, start + 3);
      assert q >= start + 4;
    }
  }

  /** `re.split(r"(?=^## \w)", text, flags=re.MULTILINE)`. */
  function Sections(text: string): (r: seq<string>)
    ensures |r| >= 1 && Concat(r) == text
    ensures forall k | 1 <= k < |r| :: OpensSection(r[k])
    ensures forall k | 0 <= k < |r| :: NoInnerSplit(r[k])
    ensures StartsAtSplits(text, 0, r)
  {
    Pieces(text, 0, 0)
  }

  // ---------------------------------------------------------------- the heading

  /** `\s*$` under MULTILINE matches at `q`: the whitespace from `q` reaches the end or a newline. */
  predicate AtLineEnd(s: string, q: nat)
    requires q <= |s|
  {
    var e := SkipSpaces(s, q);
    e == |s| || LineEnd(s, q) < e
  }

  /** `d` stands between a `(` and a `)` after which only blanks remain on the line. */
  predicate Parenthesised(sec: string, d: string) {
    exists o: nat, j: nat | o < j < |sec| :: sec[o] == '(' && d == sec[o + 1..j] && sec[j] == ')' && AtLineEnd(sec, j + 1)
  }

  /** `(.+?)\)\s*$` for a date that starts at `a`, trying the closing parenthesis at `j`. */
  function DateFrom(sec: string, a: nat, j: nat): (r: Option<string>)
    requires a < j <= |sec|
    requires forall i | a <= i < j - 1 :: sec[i] != '\n'
    ensures r.Some? ==> r.value != "" && '\n' !in r.value
    decreases |sec| - j
  {
    if j == |sec| || sec[j - 1] == '\n' then None
    else if sec[j] == ')' && AtLineEnd(sec, j + 1) then Some(sec[a..j])
    else DateFrom(sec, a, j + 1)
  }

  /** The optional group `(?:\s*\((.+?)\))` followed by `\s*$`, tried where the name ends. */
  function DateGroup(sec: string, n: nat): (r: Option<string>)
    requires n <= |sec|
    ensures r.Some? ==> r.value != "" && '\n' !in r.value
  {
    var w := SkipSpaces(sec, n);
    if w + 1 < |sec| && sec[w] == '(' then
      DateFrom(sec, w + 1, w + 2)
    else None
  }

  /** A date stands between a `(` and a `)` that ends its line. */
  lemma DateGroupParenthesised(sec: string, n: nat)
    requires n <= |sec|
    ensures DateGroup(sec, n).Some? ==> Parenthesised(sec, DateGroup(sec, n).value)
  {
    var w := SkipSpaces(sec, n);
    if w + 1 < |sec| && sec[w] == '(' && DateFrom(sec, w + 1, w + 2).Some? {
      var e := DateFromClose(sec, w + 1, w + 2);
      assert sec[w] == '(' && DateGroup(sec, n).value == sec[w + 1..e] && sec[e] == ')' && AtLineEnd(sec, e + 1);
    }
  }

  /** The lazy name `(.+?)` of the heading, trying the name `sec[3..n]`; `le` ends the heading line. */
  function HeaderFrom(sec: string, n: nat, le: nat): (r: Option<(string, string)>)
    requires 4 <= n <= le <= |sec|
    requires le == |sec| || sec[le] == '\n'
    requires forall i | 3 <= i < le :: sec[i] != '\n'
    ensures r.Some?
    ensures '\n' !in r.value.0 && '\n' !in r.value.1
    decreases le - n
  {
    assert '\n' !in sec[3..n];
    match DateGroup(sec, n)
    case Some(d) => Some((Strip(sec[3..n]), d))
    case None =>
      if AtLineEnd(sec, n) then Some((Strip(sec[3..n]), ""))
      else if n < le then HeaderFrom(sec, n + 1, le)
      else
        assert false;
        None
  }

  /** A date the heading captures stands between parentheses that end the heading line. */
  lemma {:induction false} HeaderFromParenthesised(sec: string, n: nat, le: nat)
    requires 4 <= n <= le <= |sec|
    requires le == |sec| || sec[le] == '\n'
    requires forall i | 3 <= i < le :: sec[i] != '\n'
    ensures HeaderFrom(sec, n, le).value.1 != "" ==> Parenthesised(sec, HeaderFrom(sec, n, le).value.1)
    decreases le - n
  {
    DateGroupParenthesised(sec, n);
    if DateGroup(sec, n).None? && !AtLineEnd(sec, n) && n < le {
      HeaderFromParenthesised(sec, n + 1, le);
    }
  }

  /**
   * A `)` at `e` closes a date that starts at `a`: the date is not empty, stays on one line,
   * and only blanks follow the parenthesis on that line.
   */
  predicate DateCloseAt(sec: string, a: nat, e: nat) {
    a < e < |sec| && sec[e] == ')' && AtLineEnd(sec, e + 1) && forall i | a <= i < e :: sec[i] != '\n'
  }

  /** `e` is the first closing parenthesis at or after `j`: where the lazy date stops. */
  predicate FirstClose(sec: string, a: nat, j: nat, e: nat) {
    j <= e && DateCloseAt(sec, a, e) && forall i | j <= i < e :: !DateCloseAt(sec, a, i)
  }

  /** No parenthesis closes a date that starts at `a`. */
  predicate NoClose(sec: string, a: nat) {
    forall e: nat | a < e < |sec| :: !DateCloseAt(sec, a, e)
  }

  /** With a first closing parenthesis at `e`, the date is the text up to it. */
  lemma {:induction false} DateFromAt(sec: string, a: nat, j: nat, e: nat)
    requires a < j <= |sec|
    requires forall i | a <= i < j - 1 :: sec[i] != '\n'
    requires FirstClose(sec, a, j, e)
    ensures DateFrom(sec, a, j) == Some(sec[a..e])
    decreases e - j
  {
    assert sec[j - 1] != '\n';
    if j < e {
      assert !DateCloseAt(sec, a, j);
      assert !(sec[j] == ')' && AtLineEnd(sec, j + 1));
      DateFromAt(sec, a, j + 1, e);
    }
  }

  /** A date ends at the first closing parenthesis. */
  lemma {:induction false} DateFromClose(sec: string, a: nat, j: nat) returns (e: nat)
    requires a < j <= |sec|
    requires forall i | a <= i < j - 1 :: sec[i] != '\n'
    requires DateFrom(sec, a, j).Some?
    ensures FirstClose(sec, a, j, e) && DateFrom(sec, a, j).value == sec[a..e]
    decreases |sec| - j
  {
    assert j < |sec| && sec[j - 1] != '\n';
    if sec[j] == ')' && AtLineEnd(sec, j + 1) {
      e := j;
      assert DateCloseAt(sec, a, j);
    } else {
      assert DateFrom(sec, a, j) == DateFrom(sec, a, j + 1);
      e := DateFromClose(sec, a, j + 1);
      assert !DateCloseAt(sec, a, j);
    }
  }

  /** Without a closing parenthesis there is no date. */
  lemma {:induction false} DateFromNone(sec: string, a: nat, j: nat)
    requires a < j <= |sec|
    requires forall i | a <= i < j - 1 :: sec[i] != '\n'
    requires forall e: nat | j <= e :: !DateCloseAt(sec, a, e)
    ensures DateFrom(sec, a, j).None?
    decreases |sec| - j
  {
    if j < |sec| && sec[j - 1] != '\n' {
      assert !DateCloseAt(sec, a, j);
      DateFromNone(sec, a, j + 1);
    }
  }

  /** A `(` after the blanks at `n` and a first closing parenthesis at `e` give the date between them. */
  lemma DateGroupAt(sec: string, n: nat, e: nat)
    requires n <= |sec|
    requires var w := SkipSpaces(sec, n); w < |sec| && sec[w] == '(' && FirstClose(sec, w + 1, w + 2, e)
    ensures DateGroup(sec, n) == Some(sec[SkipSpaces(sec, n) + 1..e])
  {
    var w := SkipSpaces(sec, n);
    DateFromAt(sec, w + 1, w + 2, e);
    assert w + 1 < |sec| && sec[w] == '(';
  }

  /** Without a `(` after the blanks, or without a parenthesis that closes it, there is no date. */
  lemma DateGroupNone(sec: string, n: nat)
    requires n <= |sec|
    requires || SkipSpaces(sec, n) == |sec| || sec[SkipSpaces(sec, n)] != '('
             || NoClose(sec, SkipSpaces(sec, n) + 1)
    ensures DateGroup(sec, n).None?
  {
    var w := SkipSpaces(sec, n);
    if w + 1 < |sec| && sec[w] == '(' {
      DateFromNone(sec, w + 1, w + 2);
    }
  }

  /** The date the heading captures when the name ends at `m`, `""` without one. */
  function DateAt(sec: string, m: nat): string
    requires m <= |sec|
  {
    match DateGroup(sec, m)
    case Some(d) => d
    case None => ""
  }

  /** The lazy name `(.+?)` can stop at `m`: the optional date group or the line end matches there. */
  predicate NameStopsAt(sec: string, m: nat)
    requires m <= |sec|
  {
    DateGroup(sec, m).Some? || AtLineEnd(sec, m)
  }

  /** `m` is the first place at or after `n` where the name can stop. */
  predicate FirstNameStop(sec: string, n: nat, m: nat) {
    n <= m <= |sec| && NameStopsAt(sec, m) && forall i | n <= i < m :: !NameStopsAt(sec, i)
  }

  /** From `n` on, the lazy name stops at the first place it can and keeps the date found there. */
  lemma {:induction false} HeaderFromAt(sec: string, n: nat, le: nat, m: nat)
    requires 4 <= n <= le <= |sec|
    requires le == |sec| || sec[le] == '\n'
    requires forall i | 3 <= i < le :: sec[i] != '\n'
    requires FirstNameStop(sec, n, m)
    ensures HeaderFrom(sec, n, le) == Some((Strip(sec[3..m]), DateAt(sec, m)))
    decreases le - n
  {
    if n < m {
      LineEndStops(sec, le);
      assert !NameStopsAt(sec, n);
      HeaderFromAt(sec, n + 1, le, m);
    }
  }

  /** At the end of a line the name can always stop. */
  lemma LineEndStops(sec: string, le: nat)
    requires le <= |sec| && (le == |sec| || sec[le] == '\n')
    ensures AtLineEnd(sec, le)
  {
  }

  /**
   * A heading line names the project with the text up to the first place where the name can
   * stop, and dates it with the parenthesised text found there, if any.
   */
  lemma HeaderAt(sec: string, m: nat)
    requires |sec| >= 4 && sec[..3] == "## " && sec[3] != '\n'
    requires FirstNameStop(sec, 4, m)
    ensures Header(sec) == Some((Strip(sec[3..m]), DateAt(sec, m)))
  {
    var le := LineEnd(sec, 3);
    HeaderFromAt(sec, 4, le, m);
  }

  /** Every heading line has a first place where the name can stop, at the latest its end. */
  lemma {:induction false} HeaderNameEnd(sec: string, n: nat, le: nat) returns (m: nat)
    requires 4 <= n <= le <= |sec|
    requires le == |sec| || sec[le] == '\n'
    ensures FirstNameStop(sec, n, m) && m <= le
    decreases le - n
  {
    LineEndStops(sec, le);
    if NameStopsAt(sec, n) {
      m := n;
    } else {
      m := HeaderNameEnd(sec, n + 1, le);
    }
  }

  /** `re.match(r"^## (.+?)(?:\s*\((.+?)\))?\s*$", sec, re.MULTILINE)`: the name and the date. */
  function Header(sec: string): (r: Option<(string, string)>)
    ensures r.Some? <==> |sec| >= 4 && sec[..3] == "## " && sec[3] != '\n'
    ensures r.Some? ==> '\n' !in r.value.0 && '\n' !in r.value.1
  {
    if |sec| < 4 || sec[..3] != "## " then None
    else
      var le := LineEnd(sec, 3);
      if le < 4 then None else HeaderFrom(sec, 4, le)
  }

  /** The date of a heading stands between parentheses that end its line. */
  lemma HeaderParenthesised(sec: string)
    ensures Header(sec).Some? && Header(sec).value.1 != "" ==> Parenthesised(sec, Header(sec).value.1)
  {
    if |sec| >= 4 && sec[..3] == "## " && LineEnd(sec, 3) >= 4 {
      HeaderFromParenthesised(sec, 4, LineEnd(sec, 3));
    }
  }

  // ---------------------------------------------------------------- the fields

  const RepoLabel := "**Repo:**"
  const WhatLabel := "**What:**"
  const StackLabel := "**Stack:**"
  const StatusLabel := "**Status:**"

  /** No character of `u` is whitespace: what `\S+` matches. */
  predicate NoSpace(u: string) {
    forall i | 0 <= i < |u| :: !IsSpace(u[i])
  }

  /** A URL as `https?://\S+` accepts it. */
  predicate IsUrl(u: string) {
    (StartsWithAt(u, "https://", 0) || StartsWithAt(u, "http://", 0)) && |u| > 7 && NoSpace(u)
  }

  /** `https?://` and one non-space stand at `w`: where `https?://\S+` can match. */
  predicate UrlStartsAt(sec: string, w: nat) {
    || (StartsWithAt(sec, "https://", w) && w + 8 < |sec| && !IsSpace(sec[w + 8]))
    || (StartsWithAt(sec, "http://", w) && w + 7 < |sec| && !IsSpace(sec[w + 7]))
  }

  /** `https?://\S+` matched at `w`: the URL runs from `w` to the first whitespace. */
  function UrlAt(sec: string, w: nat): (r: Option<string>)
    requires w <= |sec|
    ensures r.Some? <==> UrlStartsAt(sec, w)
    ensures r.Some? ==> IsUrl(r.value)
    ensures r.Some? ==> && w + |r.value| <= |sec| && r.value == sec[w..w + |r.value|]
                        && (w + |r.value| == |sec| || IsSpace(sec[w + |r.value|]))
  {
    SchemesExclusive(sec, w);
    var scheme := if StartsWithAt(sec, "https://", w) then "https://" else "http://";
    var u := if StartsWithAt(sec, "https://", w) || StartsWithAt(sec, "http://", w) then w + |scheme| else w;
    if u > w && u < |sec| && !IsSpace(sec[u]) then
      var e := WordEnd(sec, u);
      StartsWithSlice(sec, scheme, w, e);
      UrlNoSpace(sec, w, scheme, e);
      Some(sec[w..e])
    else None
  }

  /** A scheme without blanks and a run of non-blanks after it make a URL without blanks. */
  lemma UrlNoSpace(sec: string, w: nat, scheme: string, e: nat)
    requires StartsWithAt(sec, scheme, w) && w + |scheme| <= e <= |sec|
    requires NoSpace(scheme)
    requires forall k | w + |scheme| <= k < e :: !IsSpace(sec[k])
    ensures NoSpace(sec[w..e])
  {
    var url := sec[w..e];
    forall i | 0 <= i < |url| ensures !IsSpace(url[i]) {
      if i < |scheme| {
        assert url[i] == sec[w..w + |scheme|][i] == scheme[i];
      } else {
        assert url[i] == sec[w + i];
      }
    }
  }

  /** The letter after `http` tells the two schemes apart. */
  lemma SchemesExclusive(sec: string, w: nat)
    ensures StartsWithAt(sec, "https://", w) ==> sec[w + 4] == 's'
    ensures StartsWithAt(sec, "http://", w) ==> sec[w + 4] == ':'
  {
    if StartsWithAt(sec, "https://", w) {
      assert sec[w..w + 8][4] == sec[w + 4];
    }
    if StartsWithAt(sec, "http://", w) {
      assert sec[w..w + 7][4] == sec[w + 4];
    }
  }

  /** `\*\*Repo:\*\*\s*(https?://\S+)` matches at `p`. */
  predicate RepoMatchAt(sec: string, p: nat) {
    StartsWithAt(sec, RepoLabel, p) && UrlStartsAt(sec, SkipSpaces(sec, p + |RepoLabel|))
  }

  /**
   * `re.search(r"\*\*Repo:\*\*\s*(https?://\S+)", sec)` from `from` on: the URL after the
   * first label that has one, `""` when no label has one. The source strips the match;
   * `RepoStripped` shows that stripping leaves it as it is.
   */
  function RepoFrom(sec: string, from: nat): (r: string)
    requires from <= |sec|
    ensures r == "" || IsUrl(r)
    decreases |sec| - from
  {
    match FindFrom(sec, RepoLabel, from)
    case None => ""
    case Some(p) =>
      var w := SkipSpaces(sec, p + |RepoLabel|);
      if UrlStartsAt(sec, w) then UrlAt(sec, w).value else RepoFrom(sec, p + 1)
  }

  /** The first label from `from` on that has a URL after it stands at `p`. */
  predicate FirstRepo(sec: string, from: nat, p: nat) {
    from <= p && RepoMatchAt(sec, p) && forall q | from <= q < p :: !RepoMatchAt(sec, q)
  }

  /** The repo is the URL after the first label that has one. */
  lemma {:induction false} RepoFromAt(sec: string, from: nat, p: nat)
    requires from <= |sec| && FirstRepo(sec, from, p)
    ensures UrlAt(sec, SkipSpaces(sec, p + |RepoLabel|)).Some?
    ensures RepoFrom(sec, from) == UrlAt(sec, SkipSpaces(sec, p + |RepoLabel|)).value
    decreases |sec| - from
  {
    var found := FindFrom(sec, RepoLabel, from);
    assert found.Some? && found.value <= p by {
      assert StartsWithAt(sec, RepoLabel, p);
    }
    var q := found.value;
    var url := UrlAt(sec, SkipSpaces(sec, p + |RepoLabel|)).value;
    if q < p {
      assert !RepoMatchAt(sec, q);
      RepoFromSkips(sec, from, q);
      RepoFromAt(sec, q + 1, p);
      assert RepoFrom(sec, q + 1) == url;
    } else {
      assert q == p;
      RepoFromTakes(sec, from);
      assert RepoFrom(sec, from) == url;
    }
  }

  /** A label without a URL after it is passed over. */
  lemma RepoFromSkips(sec: string, from: nat, q: nat)
    requires from <= |sec| && FindFrom(sec, RepoLabel, from) == Some(q)
    requires !UrlStartsAt(sec, SkipSpaces(sec, q + |RepoLabel|))
    ensures RepoFrom(sec, from) == RepoFrom(sec, q + 1)
  {
  }

  /** The URL after the label the search finds is the repo, when there is one. */
  lemma RepoFromTakes(sec: string, from: nat)
    requires from <= |sec| && FindFrom(sec, RepoLabel, from).Some?
    requires UrlStartsAt(sec, SkipSpaces(sec, FindFrom(sec, RepoLabel, from).value + |RepoLabel|))
    ensures RepoFrom(sec, from) == UrlAt(sec, SkipSpaces(sec, FindFrom(sec, RepoLabel, from).value + |RepoLabel|)).value
  {
  }

  /** Without a label that has a URL after it, the repo is `""`. */
  lemma {:induction false} RepoFromAbsent(sec: string, from: nat)
    requires from <= |sec|
    requires forall p | from <= p :: !RepoMatchAt(sec, p)
    ensures RepoFrom(sec, from) == ""
    decreases |sec| - from
  {
    if FindFrom(sec, RepoLabel, from).Some? {
      var q := FindFrom(sec, RepoLabel, from).value;
      assert !RepoMatchAt(sec, q);
      RepoFromAbsent(sec, q + 1);
    }
  }

  /** The repo is what `str.strip()` leaves of it. */
  lemma RepoStripped(sec: string, from: nat)
    requires from <= |sec|
    ensures Strip(RepoFrom(sec, from)) == RepoFrom(sec, from)
  {
    if RepoFrom(sec, from) != "" {
      StripUrl(RepoFrom(sec, from));
    }
  }

  lemma StripUrl(u: string)
    requires IsUrl(u)
    ensures Strip(u) == u
  {
    assert u[0] in u && u[|u| - 1] in u;
    assert !AllSpace(u[..0]) ==> false;
  }

  /** `(?:\n\n|\n\*\*)` matches at `t`. */
  predicate EndsDescription(s: string, t: nat) {
    t + 2 <= |s| && s[t] == '\n' && (s[t + 1] == '\n' || (t + 3 <= |s| && s[t + 1] == '*' && s[t + 2] == '*'))
  }

  /** The first position at or after `from` where the description ends, or `|s|`. */
  function NextEnd(s: string, from: nat): (r: nat)
    ensures r == |s| || (from <= r < |s| && EndsDescription(s, r))
    ensures forall t | from <= t < r :: !EndsDescription(s, t)
    ensures r == |s| ==> forall t | from <= t :: !EndsDescription(s, t)
    decreases |s| - from
  {
    if from >= |s| then |s|
    else if EndsDescription(s, from) then from
    else NextEnd(s, from + 1)
  }

  /** The text holds no blank line and no line that opens with `**`. */
  predicate NoDescriptionEnd(d: string) {
    !Contains(d, "\n\n") && !Contains(d, "\n**")
  }

  /**
   * `re.search(r"\*\*What:\*\*\s*(.+?)(?:\n\n|\n\*\*)", sec, re.DOTALL)` from `from` on,
   * stripped. The greedy `\s*` is tried first and the lazy group stops at the first end
   * after it; the group then opens with a non-blank, so stripping only trims its end
   * (`WhatStripped` states it as `str.strip()`). When no end follows, the engine backtracks
   * into the whitespace, and an end inside it leaves the group a single blank, which strips
   * to `""`.
   */
  function WhatFrom(sec: string, from: nat): (r: string)
    requires from <= |sec|
    ensures NoDescriptionEnd(r)
    ensures (forall i | from <= i :: !StartsWithAt(sec, WhatLabel, i)) ==> r == ""
    decreases |sec| - from, 1
  {
    match FindFrom(sec, WhatLabel, from)
    case None => ""
    case Some(p) => WhatAt(sec, p)
  }

  /** The match tried at the label at `p`, and the search past it when that fails. */
  function WhatAt(sec: string, p: nat): (r: string)
    requires p + |WhatLabel| <= |sec|
    ensures NoDescriptionEnd(r)
    decreases |sec| - p, 0
  {
    var v := p + |WhatLabel|;
    var w := SkipSpaces(sec, v);
    var t := NextEnd(sec, w + 1);
    if t < |sec| then
      DescriptionClean(sec, w, t);
      sec[w..TrimEnd(sec, t)]
    else if NextEnd(sec, v + 1) < |sec| then ""
    else WhatFrom(sec, p + 1)
  }

  lemma DescriptionClean(sec: string, w: nat, t: nat)
    requires w < t < |sec| && !IsSpace(sec[w])
    requires forall q | w + 1 <= q < t :: !EndsDescription(sec, q)
    ensures w < TrimEnd(sec, t) && NoDescriptionEnd(sec[w..TrimEnd(sec, t)])
  {
    var r := sec[w..TrimEnd(sec, t)];
    forall i | 0 <= i <= |r| ensures !StartsWithAt(r, "\n\n", i) && !StartsWithAt(r, "\n**", i) {
      NoEndInside(sec, w, t, r, w, i);
    }
  }

  /** A stretch `r` of `sec[w..t]` has no end at its position `i`. */
  lemma NoEndInside(sec: string, w: nat, t: nat, r: string, o: nat, i: nat)
    requires w < t < |sec| && sec[w] != '\n'
    requires forall q | w + 1 <= q < t :: !EndsDescription(sec, q)
    requires w <= o && o + |r| <= t && forall k | 0 <= k < |r| :: r[k] == sec[o + k]
    ensures !StartsWithAt(r, "\n\n", i) && !StartsWithAt(r, "\n**", i)
  {
    if StartsWithAt(r, "\n\n", i) {
      assert r[i..i + 2][0] == r[i] && r[i..i + 2][1] == r[i + 1];
      assert EndsDescription(sec, o + i);
    }
    if StartsWithAt(r, "\n**", i) {
      assert r[i..i + 3][0] == r[i] && r[i..i + 3][1] == r[i + 1] && r[i..i + 3][2] == r[i + 2];
      assert EndsDescription(sec, o + i);
    }
  }

  /**
   * `re.search(tag + r"\s*(.+)", sec)`, stripped: the rest of the line on which the text
   * after the first `tag` resumes, `""` without a match.
   */
  function LineField(sec: string, tag: string): (r: string)
  {
    match FindFrom(sec, tag, 0)
    case None => ""
    case Some(p) => FieldAt(sec, tag, p)
  }

  /** The field after the `tag` found at `p`. */
  function FieldAt(sec: string, tag: string, p: nat): (r: string)
    requires p + |tag| <= |sec|
  {
    RestOfLine(sec, p + |tag|)
  }

  /**
   * `\s*(.+)` from `v`, stripped. The capture starts at the first non-blank `w`, so
   * stripping only trims the end of its line (`RestOfLineValue` shows it is `str.strip()`).
   * With nothing but whitespace after `v` the match either fails or captures blanks, and
   * the field is `""` both ways.
   */
  function RestOfLine(sec: string, v: nat): (r: string)
    requires v <= |sec|
  {
    var w := SkipSpaces(sec, v);
    if w < |sec| then sec[w..TrimEnd(sec, LineEnd(sec, w))] else ""
  }

  /** A field stays on one line. */
  lemma LineFieldOneLine(sec: string, tag: string)
    ensures '\n' !in LineField(sec, tag)
  {
    var found := FindFrom(sec, tag, 0);
    if found.Some? {
      var w := SkipSpaces(sec, found.value + |tag|);
      if w < |sec| {
        var r := sec[w..TrimEnd(sec, LineEnd(sec, w))];
        assert forall i | 0 <= i < |r| :: r[i] == sec[w + i];
      }
    }
  }

  /**
   * At the first `tag`, the field is the rest of the line on which the text resumes after
   * the tag and its whitespace; it is `""` exactly when only whitespace follows the tag.
   */
  lemma LineFieldAtFirst(sec: string, tag: string, p: nat)
    requires FirstAt(sec, tag, 0, p)
    ensures var w := SkipSpaces(sec, p + |tag|);
            && (w < |sec| ==> var e := TrimEnd(sec, LineEnd(sec, w));
                              w < e && LineField(sec, tag) == sec[w..e] && !IsSpace(sec[e - 1]))
            && (w == |sec| ==> LineField(sec, tag) == "")
  {
    LineFieldAtTag(sec, tag, p);
    var w := SkipSpaces(sec, p + |tag|);
    if w < |sec| {
      StripLine(sec, w, LineEnd(sec, w));
    }
  }

  /** Without a `tag` the field is `""`. */
  lemma LineFieldAbsent(sec: string, tag: string)
    requires forall i | 0 <= i <= |sec| :: !StartsWithAt(sec, tag, i)
    ensures LineField(sec, tag) == ""
  {
  }

  lemma RestOfLineValue(sec: string, v: nat)
    requires v <= |sec|
    ensures var w := SkipSpaces(sec, v);
            && (w < |sec| ==> RestOfLine(sec, v) == Strip(sec[w..LineEnd(sec, w)]) != "")
            && (w == |sec| ==> RestOfLine(sec, v) == "")
  {
    var w := SkipSpaces(sec, v);
    if w < |sec| {
      StripLine(sec, w, LineEnd(sec, w));
    }
  }

  /**
   * At the first `**What:**`, with `w` where its whitespace ends: the description runs from
   * `w` to the first end after `w`; when none follows but one lies inside the whitespace,
   * the description is blank.
   */
  lemma WhatAtFirst(sec: string, from: nat, p: nat)
    requires from <= |sec| && FirstAt(sec, WhatLabel, from, p)
    ensures var v := p + |WhatLabel|;
            var w := SkipSpaces(sec, v);
            && (NextEnd(sec, w + 1) < |sec| ==> var e := TrimEnd(sec, NextEnd(sec, w + 1));
                                              w < e && WhatFrom(sec, from) == sec[w..e] && !IsSpace(sec[e - 1]))
            && (NextEnd(sec, w + 1) == |sec| && NextEnd(sec, v + 1) < |sec| ==> WhatFrom(sec, from) == "")
  {
    FoundFirst(sec, WhatLabel, from, p);
    assert WhatFrom(sec, from) == WhatAt(sec, p);
    WhatAtLabel(sec, p);
  }

  /**
   * What as the last field: when no `\n\n` or `\n**` follows the first `**What:**`, the
   * search fails at that label and at every later one, and the description stays `""`.
   */
  lemma WhatLastField(sec: string, from: nat, p: nat)
    requires from <= |sec| && FirstAt(sec, WhatLabel, from, p)
    requires forall t | p + |WhatLabel| < t :: !EndsDescription(sec, t)
    ensures WhatFrom(sec, from) == ""
  {
    FoundFirst(sec, WhatLabel, from, p);
    assert WhatFrom(sec, from) == WhatAt(sec, p);
    WhatAtNoEnd(sec, p);
    WhatFromNoEnd(sec, p + 1);
  }

  /** With no end anywhere past `from` and a label, every attempt fails and the description is `""`. */
  lemma {:induction false} WhatFromNoEnd(sec: string, from: nat)
    requires from <= |sec|
    requires forall t | from + |WhatLabel| < t :: !EndsDescription(sec, t)
    ensures WhatFrom(sec, from) == ""
    decreases |sec| - from
  {
    match FindFrom(sec, WhatLabel, from)
    case None =>
    case Some(p) =>
      assert WhatFrom(sec, from) == WhatAt(sec, p);
      WhatAtNoEnd(sec, p);
      WhatFromNoEnd(sec, p + 1);
  }

  /** A label with no end after it: the attempt there fails and the search goes on past it. */
  lemma WhatAtNoEnd(sec: string, p: nat)
    requires p + |WhatLabel| <= |sec|
    requires forall t | p + |WhatLabel| < t :: !EndsDescription(sec, t)
    ensures WhatAt(sec, p) == WhatFrom(sec, p + 1)
  {
    var v := p + |WhatLabel|;
    assert NextEnd(sec, v + 1) == |sec|;
    assert NextEnd(sec, SkipSpaces(sec, v) + 1) == |sec|;
  }

  /** The match tried at the label at `p`. */
  lemma WhatAtLabel(sec: string, p: nat)
    requires p + |WhatLabel| <= |sec|
    ensures var v := p + |WhatLabel|;
            var w := SkipSpaces(sec, v);
            && (NextEnd(sec, w + 1) < |sec| ==> var e := TrimEnd(sec, NextEnd(sec, w + 1));
                                              w < e && WhatAt(sec, p) == sec[w..e] && !IsSpace(sec[e - 1]))
            && (NextEnd(sec, w + 1) == |sec| && NextEnd(sec, v + 1) < |sec| ==> WhatAt(sec, p) == "")
  {
    var w := SkipSpaces(sec, p + |WhatLabel|);
    var t := NextEnd(sec, w + 1);
    if t < |sec| {
      assert w < |sec| && !IsSpace(sec[w]);
      TrimEndPast(sec, w, t);
    }
  }

  /** The description is what `str.strip()` leaves of the text from `w` to the first end. */
  lemma WhatStripped(sec: string, from: nat, p: nat)
    requires from <= |sec| && FirstAt(sec, WhatLabel, from, p)
    ensures var w := SkipSpaces(sec, p + |WhatLabel|);
            NextEnd(sec, w + 1) < |sec| ==> WhatFrom(sec, from) == Strip(sec[w..NextEnd(sec, w + 1)])
  {
    var w := SkipSpaces(sec, p + |WhatLabel|);
    var t := NextEnd(sec, w + 1);
    if t < |sec| {
      WhatAtFirst(sec, from, p);
      assert w < t && !IsSpace(sec[w]);
      StripLine(sec, w, t);
    }
  }

  lemma LineFieldAtTag(sec: string, tag: string, p: nat)
    requires FirstAt(sec, tag, 0, p)
    ensures LineField(sec, tag) == RestOfLine(sec, p + |tag|)
  {
    FoundFirst(sec, tag, 0, p);
    assert LineField(sec, tag) == FieldAt(sec, tag, p);
  }

  // ---------------------------------------------------------------- records

  /** `sec.startswith("## ")`. */
  predicate IsHeading(sec: string) {
    |sec| >= 3 && sec[..3] == "## "
  }

  /** The dictionary `parse_published` appends for a section with its name and date. */
  function Record(sec: string, name: string, date: string): Project {
    Project(name, date, RepoFrom(sec, 0), WhatFrom(sec, 0), LineField(sec, StackLabel), LineField(sec, StatusLabel))
  }

  /** One iteration of the loop of `parse_published`: the record of a piece, if it makes one. */
  function ParseSection(piece: string): Option<Project> {
    var sec := Strip(piece);
    if !IsHeading(sec) then None
    else
      match Header(sec)
      case None => None
      case Some((name, date)) => Some(Record(sec, name, date))
  }

  /**
   * A piece gives a record exactly when, stripped, it starts with `## ` and a character
   * other than a newline; name, date, stack and status are then single-line, the repo is
   * empty or a URL, and the description holds no blank line and no `**` line.
   */
  lemma SectionRecordShape(piece: string)
    ensures var sec := Strip(piece);
            ParseSection(piece).Some? <==> |sec| >= 4 && sec[..3] == "## " && sec[3] != '\n'
    ensures ParseSection(piece).Some? ==>
              var p := ParseSection(piece).value;
              '\n' !in p.name && '\n' !in p.date && '\n' !in p.stack && '\n' !in p.status
              && (p.repo == "" || IsUrl(p.repo)) && NoDescriptionEnd(p.description)
              && (p.date != "" ==> Parenthesised(Strip(piece), p.date))
  {
    var sec := Strip(piece);
    HeaderParenthesised(sec);
    LineFieldOneLine(sec, StackLabel);
    LineFieldOneLine(sec, StatusLabel);
  }

  /** The values `f` gives to the pieces it accepts, in order. */
  function Collect<T>(pieces: seq<string>, f: string -> Option<T>): seq<T> {
    if pieces == [] then []
    else Collect(pieces[..|pieces| - 1], f) + match f(pieces[|pieces| - 1]) case Some(p) => [p] case None => []
  }

  /** The records of a sequence of pieces, in order. */
  function Records(pieces: seq<string>): seq<Project> {
    Collect(pieces, ParseSection)
  }

  /** What `parse_published()` returns for the journal's text, `None` when the file is absent. */
  function Published(doc: Option<string>): seq<Project> {
    match doc
    case None => []
    case Some(text) => Records(Sections(text))
  }

  /** `parse_published`: no journal gives no records. */
  method ParsePublished(doc: Option<string>) returns (projects: seq<Project>)
    ensures projects == Published(doc)
  {
    if doc.None? {
      return [];
    }
    var sections := Sections(doc.value);
    projects := ParseSections(sections);
  }

  /** The loop of `parse_published` over the pieces of the split. */
  method ParseSections(sections: seq<string>) returns (projects: seq<Project>)
    ensures projects == Records(sections)
  {
    projects := [];
    var i := 0;
    while i < |sections|
      invariant 0 <= i <= |sections|
      invariant projects == Collect(sections[..i], ParseSection)
    {
      CollectStep(sections, i, ParseSection);
      var sec := Strip(sections[i]);
      if IsHeading(sec) {
        var header := Header(sec);
        if header.Some? {
          var (name, date) := header.value;
          projects := projects + [Record(sec, name, date)];
        }
      }
      i := i + 1;
    }
    assert sections[..i] == sections;
  }

  // ---------------------------------------------------------------- what parsing promises

  lemma CollectStep<T>(xs: seq<string>, i: nat, f: string -> Option<T>)
    requires i < |xs|
    ensures Collect(xs[..i + 1], f) == Collect(xs[..i], f) + match f(xs[i]) case Some(p) => [p] case None => []
  {
    assert xs[..i + 1][..i] == xs[..i];
  }

  /** Records of consecutive pieces are the records of each part, in order, duplicates kept. */
  lemma {:induction false} CollectConcat<T>(a: seq<string>, b: seq<string>, f: string -> Option<T>)
    ensures Collect(a + b, f) == Collect(a, f) + Collect(b, f)
  {
    if b == [] {
      assert a + b == a;
    } else {
      var b' := b[..|b| - 1];
      assert (a + b)[..|a + b| - 1] == a + b';
      assert (a + b)[|a + b| - 1] == b[|b| - 1];
      CollectConcat(a, b', f);
    }
  }

  /** When `f` accepts every piece, each piece gives exactly one value, at its own position. */
  lemma {:induction false} CollectAll<T>(pieces: seq<string>, f: string -> Option<T>)
    requires forall k | 0 <= k < |pieces| :: f(pieces[k]).Some?
    ensures |Collect(pieces, f)| == |pieces|
    ensures forall k | 0 <= k < |pieces| :: Collect(pieces, f)[k] == f(pieces[k]).value
  {
    if pieces != [] {
      var init := pieces[..|pieces| - 1];
      assert forall k | 0 <= k < |init| :: init[k] == pieces[k];
      CollectAll(init, f);
    }
  }

  /** Stripping a piece that opens a section keeps its opening. */
  lemma StripOpening(piece: string)
    requires OpensSection(piece)
    ensures var sec := Strip(piece); |sec| >= 4 && sec[..4] == piece[..4]
  {
    var sec := Strip(piece);
    var a := StripStart(piece);
    assert a == 0 && |sec| >= 4;
  }

  /** A piece that opens a section always gives a record. */
  lemma OpeningParses(piece: string)
    requires OpensSection(piece)
    ensures ParseSection(piece).Some?
  {
    StripOpening(piece);
    var sec := Strip(piece);
    assert sec[..3] == "## " && sec[3] != '\n' by {
      assert sec[..4] == piece[..4];
      assert sec[0] == piece[0] && sec[1] == piece[1] && sec[2] == piece[2] && sec[3] == piece[3];
    }
    SectionRecordShape(piece);
  }

  /**
   * Every section opened by a `## ` line with a word character gives exactly one record,
   * in document order; the text before the first such line gives one only when, once
   * stripped, it too starts with `## ` followed by something other than a newline.
   */
  lemma OneRecordPerSection(text: string)
    ensures var s := Sections(text);
            && Published(Some(text)) == Records([s[0]]) + Records(s[1..])
            && |Records(s[1..])| == |s| - 1
            && forall k | 1 <= k < |s| :: ParseSection(s[k]) == Some(Records(s[1..])[k - 1])
  {
    var s := Sections(text);
    forall k | 1 <= k < |s| ensures ParseSection(s[k]).Some? {
      OpeningParses(s[k]);
    }
    CollectAfterFirst(s, ParseSection);
  }

  /** When `f` accepts every piece but the first, the first contributes at most one value, before the rest. */
  lemma CollectAfterFirst<T>(s: seq<string>, f: string -> Option<T>)
    requires |s| >= 1
    requires forall k | 1 <= k < |s| :: f(s[k]).Some?
    ensures Collect(s, f) == Collect([s[0]], f) + Collect(s[1..], f)
    ensures |Collect(s[1..], f)| == |s| - 1
    ensures forall k | 1 <= k < |s| :: Collect(s[1..], f)[k - 1] == f(s[k]).value
  {
    var rest := s[1..];
    assert forall k | 0 <= k < |rest| :: rest[k] == s[k + 1];
    CollectAll(rest, f);
    assert s == [s[0]] + rest;
    CollectConcat([s[0]], rest, f);
  }
}
