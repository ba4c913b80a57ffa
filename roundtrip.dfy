/**
 * Round trips of the journal parser: a heading, a field line, a repo URL and a description
 * laid out the way the journal writes them read back as the values that were laid out.
 */
module CatalogRoundTrip {
  import opened Options
  import opened Text
  import opened Catalog

  // ---------------------------------------------------------------- the heading

  /** A name of one line, free of `(`, and a date free of `)`, laid out as a heading line. */
  predicate HeadingLaidOut(sec: string, name: string, date: string) {
    var m := 3 + |name|;
    var e := m + 2 + |date|;
    && Stripped(name) && '\n' !in name && '(' !in name
    && date != "" && '\n' !in date && ')' !in date
    && e < |sec| && sec[..3] == "## " && sec[3..m] == name && sec[m] == ' ' && sec[m + 1] == '('
    && sec[m + 2..e] == date && sec[e] == ')' && (e + 1 == |sec| || sec[e + 1] == '\n')
  }

  /** On a laid-out heading line the date group matches right after the name. */
  lemma DateAfterName(sec: string, name: string, date: string)
    requires HeadingLaidOut(sec, name, date)
    ensures DateGroup(sec, 3 + |name|) == Some(date)
  {
    var m := 3 + |name|;
    var e := m + 2 + |date|;
    assert forall k | 0 <= k < |date| :: sec[m + 2 + k] == date[k] && date[k] in date;
    SkipSpacesTo(sec, m, m + 1);
    LineEndStops(sec, e + 1);
    assert DateCloseAt(sec, m + 2, e);
    DateGroupAt(sec, m, e);
  }

  /** Inside the name of a laid-out heading line the name cannot stop. */
  lemma NameGoesOn(sec: string, name: string, date: string, i: nat)
    requires HeadingLaidOut(sec, name, date) && 4 <= i < 3 + |name|
    ensures !NameStopsAt(sec, i)
  {
    var m := 3 + |name|;
    assert forall k | 0 <= k < |name| :: sec[3 + k] == name[k] && name[k] in name;
    var k := SkipSpaces(sec, i);
    assert k < m;
    assert sec[k] != '(';
    DateGroupNone(sec, i);
  }

  /** A heading line written out of a name and a date reads back as that name and date. */
  lemma HeaderIs(sec: string, name: string, date: string)
    requires HeadingLaidOut(sec, name, date)
    ensures Header(sec) == Some((name, date))
  {
    var m := 3 + |name|;
    DateAfterName(sec, name, date);
    forall i | 4 <= i < m ensures !NameStopsAt(sec, i) {
      NameGoesOn(sec, name, date, i);
    }
    assert FirstNameStop(sec, 4, m);
    assert sec[3] == name[0];
    HeaderAt(sec, m);
    StripStripped(name);
  }

  /**
   * `## name (date)` followed by the end or a new line reads back as the name and the date,
   * when the name is one line without `(` or blanks at its ends and the date one line without `)`.
   */
  lemma HeaderRoundTrip(name: string, date: string, rest: string)
    requires Stripped(name) && '\n' !in name && '(' !in name
    requires date != "" && '\n' !in date && ')' !in date
    requires rest == "" || rest[0] == '\n'
    ensures Header("## " + name + " (" + date + ")" + rest) == Some((name, date))
  {
    var sec := "## " + name + " (" + date + ")" + rest;
    var m := 3 + |name|;
    var e := m + 2 + |date|;
    assert sec[..3] == "## " && sec[3..m] == name && sec[m] == ' ' && sec[m + 1] == '(';
    assert sec[m + 2..e] == date && sec[e] == ')';
    assert e + 1 < |sec| ==> sec[e + 1] == rest[0];
    HeaderIs(sec, name, date);
  }

  // ---------------------------------------------------------------- the fields

  /** The first description end at or after `from`, found from its two sides. */
  lemma NextEndAt(s: string, from: nat, t: nat)
    requires from <= t && EndsDescription(s, t)
    requires forall u | from <= u < t :: !EndsDescription(s, u)
    ensures NextEnd(s, from) == t
  {
  }

  /** A blank at `w - 1`, then `v`, then the end of the line. */
  predicate BlankThen(sec: string, w: nat, v: string) {
    1 <= w && w + |v| <= |sec| && IsSpace(sec[w - 1]) && sec[w..w + |v|] == v
  }

  /** After the first `tag`, a blank and a value alone on the rest of its line: the field is the value. */
  lemma LineFieldIs(sec: string, tag: string, p: nat, v: string)
    requires FirstAt(sec, tag, 0, p) && BlankThen(sec, p + |tag| + 1, v)
    requires Stripped(v) && '\n' !in v
    requires var e := p + |tag| + 1 + |v|; e == |sec| || sec[e] == '\n'
    ensures LineField(sec, tag) == v
  {
    RestOfLineIs(sec, p + |tag|, v);
    LineFieldAtTag(sec, tag, p);
  }

  /** A blank, then a value alone on the rest of its line: `\s*(.+)` captures the value. */
  lemma RestOfLineIs(sec: string, u: nat, v: string)
    requires BlankThen(sec, u + 1, v) && Stripped(v) && '\n' !in v
    requires u + 1 + |v| == |sec| || sec[u + 1 + |v|] == '\n'
    ensures RestOfLine(sec, u) == v
  {
    BlankThenEnds(sec, u, v);
    assert sec[u + |v|] == v[|v| - 1];
  }

  lemma BlankThenEnds(sec: string, u: nat, v: string)
    requires BlankThen(sec, u + 1, v) && Stripped(v) && '\n' !in v
    requires u + 1 + |v| == |sec| || sec[u + 1 + |v|] == '\n'
    ensures SkipSpaces(sec, u) == u + 1 && LineEnd(sec, u + 1) == u + 1 + |v|
  {
    var w := u + 1;
    assert forall k | 0 <= k < |v| :: sec[w + k] == v[k];
    SkipSpacesTo(sec, u, w);
    LineEndAt(sec, w, w + |v|);
  }

  /** A URL standing at `w` up to whitespace or the end is what `https?://\S+` captures there. */
  lemma UrlAtRoundTrip(sec: string, w: nat, url: string)
    requires UrlStartsAt(url, 0) && NoSpace(url)
    requires w + |url| <= |sec| && sec[w..w + |url|] == url
    requires w + |url| == |sec| || IsSpace(sec[w + |url|])
    ensures UrlAt(sec, w) == Some(url)
  {
    assert forall k | 0 <= k < |url| :: sec[w + k] == url[k];
    if StartsWithAt(url, "https://", 0) {
      assert sec[w..w + 8] == url[..8];
    }
    if StartsWithAt(url, "http://", 0) {
      assert sec[w..w + 7] == url[..7];
    }
    assert UrlStartsAt(sec, w);
    var r := UrlAt(sec, w).value;
    assert r == sec[w..w + |url|];
  }

  /** After the first `**Repo:**`, a blank and a URL up to whitespace or the end: the repo is the URL. */
  lemma RepoIs(sec: string, p: nat, url: string)
    requires FirstAt(sec, RepoLabel, 0, p) && BlankThen(sec, p + |RepoLabel| + 1, url)
    requires UrlStartsAt(url, 0) && NoSpace(url)
    requires var e := p + |RepoLabel| + 1 + |url|; e == |sec| || IsSpace(sec[e])
    ensures RepoFrom(sec, 0) == url
  {
    UrlAfterBlank(sec, p, url);
    RepoFirstMatch(sec, p, url);
  }

  /** The blank after the label is skipped and the URL is read from where it starts. */
  lemma UrlAfterBlank(sec: string, p: nat, url: string)
    requires BlankThen(sec, p + |RepoLabel| + 1, url)
    requires UrlStartsAt(url, 0) && NoSpace(url)
    requires var e := p + |RepoLabel| + 1 + |url|; e == |sec| || IsSpace(sec[e])
    ensures SkipSpaces(sec, p + |RepoLabel|) == p + |RepoLabel| + 1
    ensures UrlAt(sec, p + |RepoLabel| + 1) == Some(url)
  {
    var w := p + |RepoLabel| + 1;
    assert sec[w] == url[0];
    SkipSpacesTo(sec, w - 1, w);
    UrlAtRoundTrip(sec, w, url);
  }

  /** The repo is the URL after the first label when a URL follows it. */
  lemma RepoFirstMatch(sec: string, p: nat, url: string)
    requires FirstAt(sec, RepoLabel, 0, p) && p + |RepoLabel| < |sec|
    requires SkipSpaces(sec, p + |RepoLabel|) == p + |RepoLabel| + 1
    requires UrlAt(sec, p + |RepoLabel| + 1) == Some(url)
    ensures RepoFrom(sec, 0) == url
  {
    assert FirstRepo(sec, 0, p);
    RepoFromAt(sec, 0, p);
  }

  /** After the first `**What:**`, a blank and a description closed by an end: the description reads back. */
  lemma WhatIs(sec: string, p: nat, d: string)
    requires FirstAt(sec, WhatLabel, 0, p) && BlankThen(sec, p + |WhatLabel| + 1, d)
    requires Stripped(d) && NoDescriptionEnd(d)
    requires EndsDescription(sec, p + |WhatLabel| + 1 + |d|)
    ensures WhatFrom(sec, 0) == d
  {
    var w := p + |WhatLabel| + 1;
    var t := w + |d|;
    assert sec[w..t] == d;
    assert forall k | 0 <= k < |d| :: sec[w + k] == d[k];
    assert !IsSpace(sec[w]);
    SkipSpacesTo(sec, w - 1, w);
    forall u | w + 1 <= u < t ensures !EndsDescription(sec, u) {
      DescriptionInside(sec, w, d, u);
    }
    NextEndAt(sec, w + 1, t);
    assert sec[t - 1] == d[|d| - 1];
    TrimEndAt(sec, t);
    WhatAtFirst(sec, 0, p);
    assert WhatFrom(sec, 0) == sec[w..TrimEnd(sec, t)];
  }

  /** No description ends inside a description that holds no end and ends in a non-space. */
  lemma DescriptionInside(sec: string, w: nat, d: string, u: nat)
    requires Stripped(d) && NoDescriptionEnd(d)
    requires w + |d| < |sec| && sec[w + |d|] == '\n'
    requires forall k | 0 <= k < |d| :: sec[w + k] == d[k]
    requires w + 1 <= u < w + |d|
    ensures !EndsDescription(sec, u)
  {
    var i := u - w;
    assert !StartsWithAt(d, "\n\n", i) && !StartsWithAt(d, "\n**", i);
    if i + 2 <= |d| {
      assert d[i..i + 2] == [d[i], d[i + 1]];
    }
    if i + 3 <= |d| {
      assert d[i..i + 3] == [d[i], d[i + 1], d[i + 2]];
    }
  }

  /** A label written first, a blank and a value: where each part stands in the text. */
  lemma Framed(pre: string, tag: string, v: string, post: string)
    requires FirstAt(pre + tag, tag, 0, |pre|)
    ensures var sec := pre + tag + " " + v + post;
            var e := |pre| + |tag| + 1 + |v|;
            && FirstAt(sec, tag, 0, |pre|) && BlankThen(sec, |pre| + |tag| + 1, v)
            && |sec| == e + |post| && forall k | 0 <= k < |post| :: sec[e + k] == post[k]
  {
    var sec := pre + tag + " " + v + post;
    var w := |pre| + |tag| + 1;
    assert sec == (pre + tag) + (" " + v + post);
    FirstAtExtend(pre + tag, " " + v + post, tag, 0, |pre|);
    assert sec[w - 1] == ' ';
    assert sec[w..w + |v|] == v;
  }

  /** `**Stack:** value` or `**Status:** value` on its own line, after the first such label, reads back. */
  lemma LineFieldRoundTrip(pre: string, tag: string, v: string, post: string)
    requires FirstAt(pre + tag, tag, 0, |pre|)
    requires Stripped(v) && '\n' !in v
    requires post == "" || post[0] == '\n'
    ensures LineField(pre + tag + " " + v + post, tag) == v
  {
    Framed(pre, tag, v, post);
    LineFieldIs(pre + tag + " " + v + post, tag, |pre|, v);
  }

  /** `**Repo:** url`, after the first such label and ended by whitespace or the end, reads back. */
  lemma RepoRoundTrip(pre: string, url: string, post: string)
    requires FirstAt(pre + RepoLabel, RepoLabel, 0, |pre|)
    requires UrlStartsAt(url, 0) && NoSpace(url)
    requires post == "" || IsSpace(post[0])
    ensures RepoFrom(pre + RepoLabel + " " + url + post, 0) == url
  {
    Framed(pre, RepoLabel, url, post);
    RepoIs(pre + RepoLabel + " " + url + post, |pre|, url);
  }

  /**
   * `**What:** description`, after the first such label and closed by a blank line or a
   * line that opens with `**`, reads back.
   */
  lemma WhatRoundTrip(pre: string, d: string, post: string)
    requires FirstAt(pre + WhatLabel, WhatLabel, 0, |pre|)
    requires Stripped(d) && NoDescriptionEnd(d)
    requires EndsDescription(post, 0)
    ensures WhatFrom(pre + WhatLabel + " " + d + post, 0) == d
  {
    Framed(pre, WhatLabel, d, post);
    var sec := pre + WhatLabel + " " + d + post;
    var e := |pre| + |WhatLabel| + 1 + |d|;
    assert sec[e] == post[0] && sec[e + 1] == post[1];
    assert post[1] != '\n' ==> sec[e + 2] == post[2];
    WhatIs(sec, |pre|, d);
  }

  /** The `\s*` after an empty `**Stack:**` crosses the newline: the stack is the next line. */
  lemma StackFromNextLine()
    ensures LineField("**Stack:**\n**Status:** live", StackLabel) == "**Status:** live"
  {
    var sec := "**Stack:**\n**Status:** live";
    assert sec[0..10] == StackLabel;
    assert sec[11..27] == "**Status:** live";
    LineFieldIs(sec, StackLabel, 0, "**Status:** live");
  }
}
