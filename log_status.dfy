/**
 * The status endpoint: choose the newest agent log, read what was appended since the
 * last poll, and summarise the last fifty non-blank lines of it as a snapshot
 * `{state, activity, lastAction, logs}`.
 *
 * The pure parts (line classification, message extraction, the summary and what one
 * poll does to the cursor) are functions; `ScanLines` is the scanning loop, proved
 * equal to `Summary`.
 */
module LogStatus {
  import opened Options
  import opened Text

  datatype State = Sleeping | Searching | Pushing | Coding | Thinking

  /** The `type` of a log entry; the code only ever produces these three. */
  datatype Kind = Info | Error | Success

  datatype LogEntry = LogEntry(message: string, kind: Kind)

  datatype Status = Status(state: State, activity: string, lastAction: string, logs: seq<LogEntry>)

  /** A state together with the activity text shown next to it. */
  datatype Busy = Busy(state: State, activity: string)

  const NoActivity := "No recent activity"
  const WindowLines := 50
  const MaxEntries := 8
  const MessageLimit := 200
  const ActionLimit := 120
  const StaleAfter: real := 30.0

  /** The snapshot `_idle(msg)` builds. */
  function Idle(msg: string): Status {
    Status(Sleeping, msg, "Waiting for tasks", [])
  }

  /** The snapshot of a poll that found nothing new. */
  const Quiet := Status(Sleeping, "Idle", NoActivity, [])

  // ---------------------------------------------------------------- choosing the file

  /** The glob `moltbot-*.log`. */
  predicate IsLogName(name: string) {
    |name| >= 12 && name[..8] == "moltbot-" && name[|name| - 4..] == ".log"
  }

  function LogNames(names: seq<string>): (r: seq<string>)
    ensures forall n :: n in r <==> n in names && IsLogName(n)
  {
    if names == [] then []
    else (if IsLogName(names[0]) then [names[0]] else []) + LogNames(names[1..])
  }

  /** `sorted(names)[-1]`. */
  function Newest(names: seq<string>): (r: string)
    requires names != []
    ensures r in names
    ensures forall n | n in names :: n == r || LexLess(n, r)
  {
    if |names| == 1 then names[0]
    else
      var m := Newest(names[1..]);
      if LexLess(m, names[0]) then
        assert forall n | n in names[1..] :: n == names[0] || LexLess(n, names[0]) by {
          forall n | n in names[1..] ensures n == names[0] || LexLess(n, names[0]) {
            if n != m { LexLessTransitive(n, m, names[0]); }
          }
        }
        names[0]
      else
        LexLessTotal(m, names[0]);
        m
  }

  /** The log file a poll reads: the greatest log name in the directory, if any. */
  function Target(listing: Option<seq<string>>): (r: Option<string>)
    ensures r.Some? ==> listing.Some? && r.value in listing.value && IsLogName(r.value)
    ensures r.Some? ==> forall n | n in listing.value && IsLogName(n) :: n == r.value || LexLess(n, r.value)
    ensures r.None? <==> listing.None? || forall n | n in listing.value :: !IsLogName(n)
  {
    match listing
    case None => None
    case Some(names) =>
      var logs := LogNames(names);
      if logs == [] then None else Some(Newest(logs))
  }

  // ---------------------------------------------------------------- reading lines

  /** What `f.seek(pos); f.read()` returns, the offset taken as a character index. */
  function Chunk(content: string, pos: nat): string {
    if pos <= |content| then content[pos..] else ""
  }

  /** What `f.tell()` returns after that read. */
  function EndPos(content: string, pos: nat): (r: nat)
    ensures r >= pos
    ensures pos <= |content| ==> r == |content|
  {
    if pos <= |content| then |content| else pos
  }

  /** The elements `keep` accepts, in order. */
  function Filter<T>(xs: seq<T>, keep: T -> bool): (r: seq<T>)
    ensures |r| <= |xs|
  {
    if xs == [] then [] else (if keep(xs[0]) then [xs[0]] else []) + Filter(xs[1..], keep)
  }

  lemma {:induction false} FilterConcat<T>(a: seq<T>, b: seq<T>, keep: T -> bool)
    ensures Filter(a + b, keep) == Filter(a, keep) + Filter(b, keep)
  {
    if a != [] {
      assert (a + b)[1..] == a[1..] + b;
      FilterConcat(a[1..], b, keep);
    } else {
      assert a + b == b;
    }
  }

  lemma {:induction false} FilterMembers<T>(xs: seq<T>, keep: T -> bool)
    ensures forall x | x in Filter(xs, keep) :: x in xs && keep(x)
    ensures forall x | x in xs && keep(x) :: x in Filter(xs, keep)
  {
    if xs != [] {
      FilterMembers(xs[1..], keep);
      assert xs == [xs[0]] + xs[1..];
    }
  }

  predicate IsNonBlank(l: string) {
    Strip(l) != ""
  }

  /** `[l for l in ls if l.strip()]`. */
  function NonBlank(ls: seq<string>): (r: seq<string>)
    ensures |r| <= |ls|
  {
    Filter(ls, IsNonBlank)
  }

  /** The filter keeps order and multiplicity: it works line by line, a blank line dropped and any other kept. */
  lemma NonBlankConcat(a: seq<string>, b: seq<string>)
    ensures NonBlank(a + b) == NonBlank(a) + NonBlank(b)
  {
    FilterConcat(a, b, IsNonBlank);
  }

  lemma NonBlankOne(l: string)
    ensures NonBlank([l]) == if Strip(l) != "" then [l] else []
  {
    assert [l][1..] == [];
  }

  /** The filter keeps exactly the non-blank lines. */
  lemma NonBlankMembers(ls: seq<string>)
    ensures forall l | l in NonBlank(ls) :: l in ls && Strip(l) != ""
    ensures forall l | l in ls && Strip(l) != "" :: l in NonBlank(ls)
  {
    FilterMembers(ls, IsNonBlank);
  }

  /** `[l for l in pieces if l.strip()][-50:]`: the last fifty non-blank pieces, in order. */
  function Window(pieces: seq<string>): (r: seq<string>)
    ensures var all := NonBlank(pieces);
            && |r| == (if |all| <= WindowLines then |all| else WindowLines)
            && r == all[|all| - |r|..]
  {
    LastN(NonBlank(pieces), WindowLines)
  }

  /** Every line of the window is one of the pieces, and none is blank. */
  lemma WindowClean(pieces: seq<string>)
    ensures forall l | l in Window(pieces) :: l in pieces && Strip(l) != ""
  {
    var all := NonBlank(pieces);
    var r := Window(pieces);
    NonBlankMembers(pieces);
    forall l | l in r ensures l in pieces && Strip(l) != "" {
      var k :| 0 <= k < |r| && r[k] == l;
      assert l == all[|all| - |r| + k];
      assert l in all;
    }
  }

  /** `[l for l in chunk.strip().split("\n") if l.strip()][-50:]`. */
  function Lines(chunk: string): seq<string> {
    Window(Split(Strip(chunk), '\n'))
  }

  /** No line of the window holds a newline or is blank. */
  lemma LinesClean(chunk: string)
    ensures forall l | l in Lines(chunk) :: '\n' !in l && Strip(l) != ""
  {
    var pieces := Split(Strip(chunk), '\n');
    WindowClean(pieces);
    forall l | l in Lines(chunk) ensures '\n' !in l {
      var k :| 0 <= k < |pieces| && pieces[k] == l;
    }
  }

  // ---------------------------------------------------------------- one line

  /**
   * The shape in which `re.search(r"\[(.*?)\].*?\s+(.*)", line)` succeeds: `p` is the
   * first `[`, `j` the first `]` after it, `k` the first whitespace after that and `e`
   * the end of the whitespace run starting at `k`; the message is `line[e..]`.
   */
  predicate MessageLayout(line: string, p: nat, j: nat, k: nat, e: nat) {
    p < j < k < e <= |line|
    && line[p] == '[' && (forall i | 0 <= i < p :: line[i] != '[')
    && line[j] == ']' && (forall i | p < i < j :: line[i] != ']')
    && (forall i | j < i < k :: !IsSpace(line[i]))
    && (forall i | k <= i < e :: IsSpace(line[i]))
    && (e == |line| || !IsSpace(line[e]))
  }

  /** Group 2 of `\[(.*?)\].*?\s+(.*)` searched in `line` (a line holds no newline). */
  function ExtractMessage(line: string): (r: Option<string>)
    ensures r.Some? <==> exists p, j, k | 0 <= p < j < k < |line| :: line[p] == '[' && line[j] == ']' && IsSpace(line[k])
    ensures r.Some? ==> exists p: nat, j: nat, k: nat, e: nat :: MessageLayout(line, p, j, k, e) && r.value == line[e..]
  {
    var p := FirstFrom(line, 0, c => c == '[');
    if p == |line| then None
    else
      var j := FirstFrom(line, p + 1, c => c == ']');
      if j == |line| then None
      else
        var k := FirstFrom(line, j + 1, IsSpace);
        if k == |line| then
          assert forall p', j', k' | 0 <= p' < j' < k' < |line| && line[p'] == '[' && line[j'] == ']' :: !IsSpace(line[k']);
          None
        else
          var e := SkipSpaces(line, k);
          assert MessageLayout(line, p, j, k, e);
          Some(line[e..])
  }

  const CodeExtensions := ["py", "js", "ts", "html", "css", "rs", "go"]

  /** `\.ext\b` matches at `i`: the extension is followed by a non-word character or the end. */
  predicate CodeFileAt(s: string, i: nat, ext: string) {
    i < |s| && s[i] == '.' && StartsWithAt(s, ext, i + 1)
    && (i + 1 + |ext| == |s| || !IsWordChar(s[i + 1 + |ext|]))
  }

  /** `re.search(r"\.(py|js|ts|html|css|rs|go)\b", low)`. */
  predicate MentionsCodeFile(s: string) {
    exists i, ext | 0 <= i < |s| && ext in CodeExtensions :: CodeFileAt(s, i, ext)
  }

  /** One keyword rule: any of its keywords, plus a code-file name when `needsCodeFile`. */
  datatype Rule = Rule(keywords: seq<string>, needsCodeFile: bool, busy: Busy)

  /** The keyword rules in the order the classifier tries them. */
  const Rules: seq<Rule> := [
    Rule(["web_search", "web_fetch"], false, Busy(Searching, "Researching")),
    Rule(["git push", "gh repo create"], false, Busy(Pushing, "Publishing")),
    Rule(["git commit"], false, Busy(Pushing, "Committing")),
    Rule(["write", "edit"], true, Busy(Coding, "Writing code")),
    Rule(["thinking", "analyzing"], false, Busy(Thinking, "Thinking"))
  ]

  predicate Fires(rule: Rule, low: string) {
    (exists w | w in rule.keywords :: Contains(low, w)) && (rule.needsCodeFile ==> MentionsCodeFile(low))
  }

  /** What each rule's `Fires` amounts to, keyword by keyword. */
  lemma RulesSpelledOut(low: string)
    ensures Fires(Rules[0], low) <==> Contains(low, "web_search") || Contains(low, "web_fetch")
    ensures Fires(Rules[1], low) <==> Contains(low, "git push") || Contains(low, "gh repo create")
    ensures Fires(Rules[2], low) <==> Contains(low, "git commit")
    ensures Fires(Rules[3], low) <==> MentionsCodeFile(low) && (Contains(low, "write") || Contains(low, "edit"))
    ensures Fires(Rules[4], low) <==> Contains(low, "thinking") || Contains(low, "analyzing")
  {
    assert Rules[0].keywords == ["web_search", "web_fetch"];
    assert Rules[1].keywords == ["git push", "gh repo create"];
    assert Rules[2].keywords == ["git commit"];
    assert Rules[3].keywords == ["write", "edit"];
    assert Rules[4].keywords == ["thinking", "analyzing"];
  }

  /** The `if`/`elif` chain on the lower-cased line: the first rule that fires wins. */
  function Classify(low: string): (r: Option<Busy>)
    ensures r.None? <==> forall k | 0 <= k < |Rules| :: !Fires(Rules[k], low)
    ensures r.Some? ==> exists k | 0 <= k < |Rules| :: Fires(Rules[k], low) && Rules[k].busy == r.value
                                                       && forall j | 0 <= j < k :: !Fires(Rules[j], low)
  {
    RulesSpelledOut(low);
    if Contains(low, "web_search") || Contains(low, "web_fetch") then
      Some(Busy(Searching, "Researching"))
    else if Contains(low, "git push") || Contains(low, "gh repo create") then
      Some(Busy(Pushing, "Publishing"))
    else if Contains(low, "git commit") then
      Some(Busy(Pushing, "Committing"))
    else if MentionsCodeFile(low) && (Contains(low, "write") || Contains(low, "edit")) then
      Some(Busy(Coding, "Writing code"))
    else if Contains(low, "thinking") || Contains(low, "analyzing") then
      Some(Busy(Thinking, "Thinking"))
    else
      None
  }

  /** The entry type: "error" wins over the success words, anything else is "info". */
  function KindOf(low: string): (r: Kind)
    ensures r == Error <==> Contains(low, "error")
    ensures r == Success <==> !Contains(low, "error")
                              && (Contains(low, "success") || Contains(low, "complete") || Contains(low, "shipped"))
  {
    if Contains(low, "error") then Error
    else if Contains(low, "success") || Contains(low, "complete") || Contains(low, "shipped") then Success
    else Info
  }

  // ---------------------------------------------------------------- the window

  /** A line that the bracket pattern matched: the lower-cased line and its message. */
  datatype Hit = Hit(low: string, msg: string)

  function HitOf(line: string): seq<Hit> {
    match ExtractMessage(line)
    case None => []
    case Some(m) => [Hit(Lower(line), m)]
  }

  /** What `f` gives for each element, the last element's first. */
  function NewestFirst<T>(xs: seq<string>, f: string -> seq<T>): seq<T> {
    if xs == [] then [] else NewestFirst(xs[1..], f) + f(xs[0])
  }

  /** The bracket-matching lines of the window, newest first (`lines` is oldest first). */
  function Matches(lines: seq<string>): seq<Hit> {
    NewestFirst(lines, HitOf)
  }

  lemma {:induction false} NewestFirstSnoc<T>(xs: seq<string>, x: string, f: string -> seq<T>)
    ensures NewestFirst(xs + [x], f) == f(x) + NewestFirst(xs, f)
  {
    if xs != [] {
      assert (xs + [x])[1..] == xs[1..] + [x];
      NewestFirstSnoc(xs[1..], x, f);
    } else {
      assert [x][1..] == [];
    }
  }

  /** Every hit comes from a line of the window. */
  lemma {:induction false} MatchesFromLines(lines: seq<string>)
    ensures forall h | h in Matches(lines) :: exists l | l in lines :: HitOf(l) == [h]
  {
    if lines != [] {
      MatchesFromLines(lines[1..]);
      forall h | h in Matches(lines) ensures exists l | l in lines :: HitOf(l) == [h] {
        if h in Matches(lines[1..]) {
          var l :| l in lines[1..] && HitOf(l) == [h];
          assert l in lines;
        } else {
          assert HitOf(lines[0]) == [h];
        }
      }
    }
  }

  /** The state set by the oldest hit that some rule classifies. */
  function OldestBusy(hits: seq<Hit>): Option<Busy> {
    if hits == [] then None
    else match Classify(hits[|hits| - 1].low)
      case Some(b) => Some(b)
      case None => OldestBusy(hits[..|hits| - 1])
  }

  /** `last_action`: taken from hits newest first while it still reads "No recent activity". */
  function FirstAction(hits: seq<Hit>): string {
    if hits == [] then NoActivity
    else if Take(hits[0].msg, ActionLimit) != NoActivity then Take(hits[0].msg, ActionLimit)
    else FirstAction(hits[1..])
  }

  function Entry(h: Hit): LogEntry {
    LogEntry(Take(h.msg, MessageLimit), KindOf(h.low))
  }

  function Entries(hits: seq<Hit>): (r: seq<LogEntry>)
    ensures |r| == |hits| && forall k | 0 <= k < |hits| :: r[k] == Entry(hits[k])
  {
    seq(|hits|, k requires 0 <= k < |hits| => Entry(hits[k]))
  }

  function BusyOrIdle(b: Option<Busy>): Busy {
    match b case Some(b) => b case None => Busy(Sleeping, "Idle")
  }

  /** The snapshot of a window of lines, before the staleness override. */
  function Summary(lines: seq<string>): (r: Status)
    ensures var hits := Matches(lines);
            && |r.logs| == (if |hits| <= MaxEntries then |hits| else MaxEntries)
            && forall k | 0 <= k < |r.logs| :: r.logs[k] == Entry(hits[k])
    ensures |r.logs| <= MaxEntries
    ensures forall e | e in r.logs :: |e.message| <= MessageLimit
    ensures |r.lastAction| <= ActionLimit
  {
    var hits := Matches(lines);
    var busy := BusyOrIdle(OldestBusy(hits));
    FirstActionBound(hits);
    Status(busy.state, busy.activity, FirstAction(hits), Entries(Take(hits, MaxEntries)))
  }

  lemma {:induction false} FirstActionBound(hits: seq<Hit>)
    ensures |FirstAction(hits)| <= ActionLimit
  {
    if hits != [] { FirstActionBound(hits[1..]); }
  }

  lemma {:induction false} FirstActionAppend(hits: seq<Hit>, h: Hit)
    ensures FirstAction(hits + [h]) == if FirstAction(hits) != NoActivity then FirstAction(hits) else Take(h.msg, ActionLimit)
  {
    if hits != [] {
      assert (hits + [h])[1..] == hits[1..] + [h];
      FirstActionAppend(hits[1..], h);
    } else {
      assert hits + [h] == [h] && [h][1..] == [];
    }
  }

  /**
   * The `for line in reversed(lines)` loop of `_parse_log`: every bracket-matching line
   * overwrites state and activity when a rule fires (the `if`/`elif` chain is `Classify`),
   * sets `last_action` while it is still the placeholder, and adds an entry (its type
   * chosen by `KindOf`) while fewer than eight are kept.
   */
  method ScanLines(lines: seq<string>) returns (snap: Status)
    ensures snap == Summary(lines)
  {
    var state, activity, lastAction, logs := Sleeping, "Idle", NoActivity, [];
    ghost var hits: seq<Hit> := [];
    var i := |lines|;
    while i > 0
      invariant 0 <= i <= |lines|
      invariant hits == Matches(lines[i..])
      invariant Busy(state, activity) == BusyOrIdle(OldestBusy(hits))
      invariant lastAction == FirstAction(hits)
      invariant logs == Entries(Take(hits, MaxEntries))
    {
      i := i - 1;
      var line := lines[i];
      MatchesStep(lines, i);
      var m := ExtractMessage(line);
      if m.None? {
        continue;
      }
      var msg := m.value;
      var low := Lower(line);
      ScanStep(hits, Hit(low, msg));
      hits := hits + [Hit(low, msg)];
      var busy := Classify(low);
      if busy.Some? {
        state, activity := busy.value.state, busy.value.activity;
      }
      if lastAction == NoActivity {
        lastAction := Take(msg, ActionLimit);
      }
      if |logs| < MaxEntries {
        var kind := KindOf(low);
        logs := logs + [LogEntry(Take(msg, MessageLimit), kind)];
      }
    }
    assert lines[0..] == lines;
    snap := Status(state, activity, lastAction, logs);
  }

  lemma MatchesStep(lines: seq<string>, i: nat)
    requires i < |lines|
    ensures Matches(lines[i..]) == Matches(lines[i + 1..]) + HitOf(lines[i])
  {
    assert lines[i..][1..] == lines[i + 1..];
  }

  /** What one more, older, hit does to each part of the summary. */
  lemma ScanStep(hits: seq<Hit>, h: Hit)
    ensures OldestBusy(hits + [h]) == if Classify(h.low).Some? then Classify(h.low) else OldestBusy(hits)
    ensures FirstAction(hits + [h]) == if FirstAction(hits) != NoActivity then FirstAction(hits) else Take(h.msg, ActionLimit)
    ensures Entries(Take(hits + [h], MaxEntries))
            == if |hits| < MaxEntries then Entries(Take(hits, MaxEntries)) + [Entry(h)] else Entries(Take(hits, MaxEntries))
  {
    OldestBusyStep(hits, h);
    FirstActionAppend(hits, h);
    EntriesStep(hits, h);
  }

  lemma OldestBusyStep(hits: seq<Hit>, h: Hit)
    ensures OldestBusy(hits + [h]) == if Classify(h.low).Some? then Classify(h.low) else OldestBusy(hits)
  {
    assert (hits + [h])[..|hits|] == hits;
    assert (hits + [h])[|hits|] == h;
  }

  lemma EntriesStep(hits: seq<Hit>, h: Hit)
    ensures Entries(Take(hits + [h], MaxEntries))
            == if |hits| < MaxEntries then Entries(Take(hits, MaxEntries)) + [Entry(h)] else Entries(Take(hits, MaxEntries))
  {
    if |hits| >= MaxEntries {
      assert Take(hits + [h], MaxEntries) == Take(hits, MaxEntries);
    } else {
      assert Take(hits + [h], MaxEntries) == hits + [h];
      assert Entries(hits + [h]) == Entries(hits) + [Entry(h)];
    }
  }

  // ---------------------------------------------------------------- what the summary promises

  /** A line appended to the log (a newer line) becomes the first hit. */
  lemma MatchesNewest(lines: seq<string>, x: string)
    ensures Matches(lines + [x]) == HitOf(x) + Matches(lines)
  {
    NewestFirstSnoc(lines, x, HitOf);
  }

  /** A line the bracket pattern does not match changes nothing, wherever it stands. */
  lemma UnmatchedLineIgnored(lines: seq<string>, x: string)
    requires ExtractMessage(x).None?
    ensures Summary(lines + [x]) == Summary(lines)
    ensures Summary([x] + lines) == Summary(lines)
  {
    MatchesNewest(lines, x);
    assert HitOf(x) + Matches(lines) == Matches(lines);
    assert ([x] + lines)[1..] == lines;
    assert Matches([x] + lines) == Matches(lines) + HitOf(x);
    assert Matches(lines) + HitOf(x) == Matches(lines);
  }

  /** The newest bracket-matching line heads `logs` and, unless its message reads as the placeholder, gives `lastAction`. */
  lemma NewestLineLeads(lines: seq<string>, x: string, m: string)
    requires ExtractMessage(x) == Some(m)
    ensures |Summary(lines + [x]).logs| > 0
    ensures Summary(lines + [x]).logs[0] == LogEntry(Take(m, MessageLimit), KindOf(Lower(x)))
    ensures Take(m, ActionLimit) != NoActivity ==> Summary(lines + [x]).lastAction == Take(m, ActionLimit)
  {
    MatchesNewest(lines, x);
    var hits := Matches(lines + [x]);
    assert hits[0] == Hit(Lower(x), m);
    assert Take(hits, MaxEntries)[0] == hits[0];
  }

  /** Hits of consecutive runs of lines: the newer run's hits come first. */
  lemma {:induction false} NewestFirstConcat<T>(a: seq<string>, b: seq<string>, f: string -> seq<T>)
    ensures NewestFirst(a + b, f) == NewestFirst(b, f) + NewestFirst(a, f)
  {
    if a == [] {
      assert a + b == b;
    } else {
      assert (a + b)[1..] == a[1..] + b;
      NewestFirstConcat(a[1..], b, f);
    }
  }

  /** Hits older than every classified one leave the state where the newer hits put it. */
  lemma {:induction false} OldestBusySkips(hits: seq<Hit>, older: seq<Hit>)
    requires forall h | h in older :: Classify(h.low).None?
    ensures OldestBusy(hits + older) == OldestBusy(hits)
  {
    if older == [] {
      assert hits + older == hits;
    } else {
      var init := older[..|older| - 1];
      assert older[|older| - 1] in older;
      assert forall h | h in init :: h in older;
      OldestBusySkips(hits, init);
      assert (hits + older)[..|hits + older| - 1] == hits + init;
    }
  }

  /** The hits around one line: the newer lines' first, then the line's own, then the older lines'. */
  lemma MatchesAround(older: seq<string>, x: string, newer: seq<string>)
    ensures Matches(older + [x] + newer) == Matches(newer) + HitOf(x) + Matches(older)
  {
    NewestFirstConcat(older + [x], newer, HitOf);
    NewestFirstSnoc(older, x, HitOf);
  }

  /** Lines on which no rule fires give hits on which no rule fires. */
  lemma UnclassifiedHits(lines: seq<string>)
    requires forall l | l in lines :: ExtractMessage(l).None? || Classify(Lower(l)).None?
    ensures forall h | h in Matches(lines) :: Classify(h.low).None?
  {
    MatchesFromLines(lines);
    forall h | h in Matches(lines) ensures Classify(h.low).None? {
      var l :| l in lines && HitOf(l) == [h];
    }
  }

  /** The hit of the oldest classified line is the one `OldestBusy` picks. */
  lemma OldestHitDecides(older: seq<string>, x: string, newer: seq<string>, b: Busy)
    requires forall l | l in older :: ExtractMessage(l).None? || Classify(Lower(l)).None?
    requires ExtractMessage(x).Some? && Classify(Lower(x)) == Some(b)
    ensures OldestBusy(Matches(older + [x] + newer)) == Some(b)
  {
    var hx := Hit(Lower(x), ExtractMessage(x).value);
    MatchesAround(older, x, newer);
    assert HitOf(x) == [hx];
    UnclassifiedHits(older);
    OldestBusySkips(Matches(newer) + [hx], Matches(older));
    OldestBusyStep(Matches(newer), hx);
  }

  /**
   * The oldest bracket-matching line on which a rule fires decides the state, whatever
   * newer lines follow and however many older lines, unclassified, precede it.
   */
  lemma OldestLineSetsState(older: seq<string>, x: string, newer: seq<string>, b: Busy)
    requires forall l | l in older :: ExtractMessage(l).None? || Classify(Lower(l)).None?
    requires ExtractMessage(x).Some? && Classify(Lower(x)) == Some(b)
    ensures Summary(older + [x] + newer).state == b.state && Summary(older + [x] + newer).activity == b.activity
  {
    OldestHitDecides(older, x, newer, b);
  }

  lemma {:induction false} OldestBusyNone(hits: seq<Hit>)
    requires forall h | h in hits :: Classify(h.low).None?
    ensures OldestBusy(hits) == None
  {
    if hits != [] {
      assert hits[|hits| - 1] in hits;
      OldestBusyNone(hits[..|hits| - 1]);
    }
  }

  /** When no rule fires on any bracket-matching line the state stays "sleeping"/"Idle". */
  lemma NoRuleStaysIdle(lines: seq<string>)
    requires forall l | l in lines :: ExtractMessage(l).None? || Classify(Lower(l)).None?
    ensures Summary(lines).state == Sleeping && Summary(lines).activity == "Idle"
  {
    MatchesFromLines(lines);
    forall h | h in Matches(lines) ensures Classify(h.low).None? {
      var l :| l in lines && HitOf(l) == [h];
    }
    OldestBusyNone(Matches(lines));
  }

  /** With no bracket-matching line the snapshot is the "No recent activity" one. */
  lemma {:induction false} NoMatchIsQuiet(lines: seq<string>)
    requires forall l | l in lines :: ExtractMessage(l).None?
    ensures Matches(lines) == []
    ensures Summary(lines) == Quiet
  {
    if lines != [] {
      assert lines[0] in lines;
      NoMatchIsQuiet(lines[1..]);
    }
  }

  /** A line that reads as code being written: a `.py` file and "write", none of the earlier keywords. */
  const CodingLine := "[1] write a.py"

  lemma CodingLineMatches()
    ensures Lower(CodingLine) == CodingLine
    ensures ExtractMessage(CodingLine).Some?
  {
    assert forall i | 0 <= i < |CodingLine| :: LowerChar(CodingLine[i]) == CodingLine[i];
    assert CodingLine[0] == '[' && CodingLine[2] == ']' && IsSpace(CodingLine[3]);
  }

  lemma CodingLineKeywords()
    ensures MentionsCodeFile(CodingLine) && Contains(CodingLine, "write")
    ensures !Contains(CodingLine, "web_search") && !Contains(CodingLine, "web_fetch")
    ensures !Contains(CodingLine, "git push") && !Contains(CodingLine, "gh repo create") && !Contains(CodingLine, "git commit")
  {
    assert CodeFileAt(CodingLine, 11, "py");
    assert StartsWithAt(CodingLine, "write", 4);
    AbsentByPair(CodingLine, "web_search");
    AbsentByPair(CodingLine, "web_fetch");
    AbsentByPair(CodingLine, "git push");
    AbsentByPair(CodingLine, "gh repo create");
    AbsentByPair(CodingLine, "git commit");
  }

  lemma CodingLineClassified()
    ensures ExtractMessage(CodingLine).Some?
    ensures Classify(Lower(CodingLine)) == Some(Busy(Coding, "Writing code"))
  {
    CodingLineMatches();
    CodingLineKeywords();
  }

  /**
   * Whatever newer lines follow it in the window (a `git commit` line, say), an oldest
   * line that writes a `.py` file makes the snapshot read "coding"/"Writing code".
   */
  lemma OldestCodingLineWins(older: seq<string>, newer: seq<string>)
    requires forall l | l in older :: ExtractMessage(l).None? || Classify(Lower(l)).None?
    ensures Summary(older + [CodingLine] + newer).state == Coding
    ensures Summary(older + [CodingLine] + newer).activity == "Writing code"
  {
    CodingLineClassified();
    OldestLineSetsState(older, CodingLine, newer, Busy(Coding, "Writing code"));
  }

  /** Matching is case-insensitive: lines equal up to case get the same state and the same entry type. */
  lemma CaseIgnored(a: string, b: string)
    requires SameUpToCase(a, b)
    ensures Classify(Lower(a)) == Classify(Lower(b))
    ensures KindOf(Lower(a)) == KindOf(Lower(b))
  {
    LowerSameUpToCase(a, b);
  }

  /** A keyword in any case fires its rule: `GIT COMMIT` reads as committing, like `git commit`. */
  lemma UpperCaseKeywordFires(line: string, i: nat)
    requires StartsWithAt(line, "GIT COMMIT", i)
    ensures Contains(Lower(line), "git commit")
  {
    LowerKeepsOccurrence(line, "GIT COMMIT", i);
    assert Lower("GIT COMMIT") == "git commit" by {
      assert forall k | 0 <= k < 10 :: Lower("GIT COMMIT")[k] == LowerChar("GIT COMMIT"[k]);
    }
  }

  // ---------------------------------------------------------------- one poll

  /** The class-level `last_log_file` and `last_log_pos`. */
  datatype Cursor = Cursor(file: Option<string>, pos: nat)

  /**
   * What the file system and the clock show at one poll: the names in the log directory
   * (`None` when it does not exist), the content of the file the poll opens, whether
   * opening and reading it succeeded, and the file's age in seconds (`None` when
   * `getmtime` fails).
   */
  datatype LogView = LogView(listing: Option<seq<string>>, content: string, readOk: bool, age: Option<real>)

  /** The offset the read starts from: the cursor's, or 0 for a file not tracked before. */
  function StartPos(c: Cursor, name: string): nat {
    if c.file == Some(name) then c.pos else 0
  }

  /** The override for a log not touched for more than 30 seconds. */
  function Staled(s: Status, age: Option<real>): Status {
    if age.Some? && age.value > StaleAfter then s.(state := Sleeping, activity := "Idle") else s
  }

  /** The cursor after `_parse_log` of the file `name`. */
  function FileCursor(c: Cursor, name: string, v: LogView): (r: Cursor)
    ensures r.file == Some(name)
    ensures c.file != Some(name) && !v.readOk ==> r.pos == 0
    ensures c.file != Some(name) && v.readOk ==> r.pos == |v.content|
    ensures c.file == Some(name) ==> r.pos >= c.pos
    ensures c.file == Some(name) && v.readOk && c.pos <= |v.content| ==> r.pos == |v.content|
  {
    var start := StartPos(c, name);
    Cursor(Some(name), if v.readOk then EndPos(v.content, start) else start)
  }

  /** The snapshot `_parse_log` of the file `name` returns. */
  function FileStatus(c: Cursor, name: string, v: LogView): (r: Status)
    ensures !v.readOk ==> r == Idle("Error reading logs")
    ensures v.readOk && v.age.Some? && v.age.value > StaleAfter ==> r.state == Sleeping && r.activity == "Idle"
    ensures v.readOk && (v.age.None? || v.age.value <= StaleAfter) ==> r == Summary(Lines(Chunk(v.content, StartPos(c, name))))
    ensures |r.logs| <= MaxEntries && forall e | e in r.logs :: |e.message| <= MessageLimit
  {
    if !v.readOk then Idle("Error reading logs")
    else Staled(Summary(Lines(Chunk(v.content, StartPos(c, name)))), v.age)
  }

  /** The cursor after `_build_status`: it follows the newest log file, and stays put when there is none. */
  function PollCursor(c: Cursor, v: LogView): (r: Cursor)
    ensures Target(v.listing).None? ==> r == c
    ensures Target(v.listing).Some? ==> r == FileCursor(c, Target(v.listing).value, v)
    ensures Target(v.listing).Some? ==> r.file == Target(v.listing)
    ensures Target(v.listing).Some? && c.file == Target(v.listing) ==> r.pos >= c.pos
    ensures Target(v.listing).Some? && c.file != Target(v.listing) ==> r.pos == if v.readOk then |v.content| else 0
    ensures Target(v.listing).Some? && v.readOk && (c.file != Target(v.listing) || c.pos <= |v.content|) ==> r.pos == |v.content|
  {
    match Target(v.listing)
    case None => c
    case Some(name) => FileCursor(c, name, v)
  }

  /** The snapshot `_build_status` returns. */
  function PollStatus(c: Cursor, v: LogView): (r: Status)
    ensures v.listing.None? ==> r == Idle("No logs found")
    ensures v.listing.Some? && (forall n | n in v.listing.value :: !IsLogName(n)) ==> r == Idle("Idle")
    ensures Target(v.listing).Some? ==> r == FileStatus(c, Target(v.listing).value, v)
    ensures r.state == Sleeping || (Target(v.listing).Some? && v.readOk)
    ensures |r.logs| <= MaxEntries && forall e | e in r.logs :: |e.message| <= MessageLimit
  {
    match Target(v.listing)
    case None => if v.listing.None? then Idle("No logs found") else Idle("Idle")
    case Some(name) => FileStatus(c, name, v)
  }

  /**
   * A change of log file starts the read at offset 0; a successful read leaves the cursor
   * at the end of the content; a failed one leaves the offset where the read started.
   */
  lemma CursorAfterPoll(c: Cursor, v: LogView)
    requires Target(v.listing).Some?
    ensures var name := Target(v.listing).value;
            && PollCursor(c, v).file == Some(name)
            && (c.file != Some(name) ==> PollStatus(c, v) == FileStatus(Cursor(None, 0), name, v))
            && (v.readOk && StartPos(c, name) <= |v.content| ==> PollCursor(c, v).pos == |v.content|)
            && (!v.readOk ==> PollCursor(c, v).pos == StartPos(c, name))
  {
  }

  /** The staleness override replaces state and activity and nothing else. */
  lemma StalenessOverride(c: Cursor, v: LogView, a: real)
    requires Target(v.listing).Some? && v.readOk
    ensures a > StaleAfter ==> PollStatus(c, v.(age := Some(a))) == PollStatus(c, v.(age := None)).(state := Sleeping, activity := "Idle")
    ensures a <= StaleAfter ==> PollStatus(c, v.(age := Some(a))) == PollStatus(c, v.(age := None))
  {
  }

  /** A poll after a successful read summarises exactly the text appended since. */
  lemma IncrementalRead(c: Cursor, v: LogView, extra: string)
    requires Target(v.listing).Some? && v.readOk && StartPos(c, Target(v.listing).value) <= |v.content|
    ensures PollCursor(PollCursor(c, v), v.(content := v.content + extra)).pos == |v.content| + |extra|
    ensures PollStatus(PollCursor(c, v), v.(content := v.content + extra)) == Staled(Summary(Lines(extra)), v.age)
  {
    assert (v.content + extra)[|v.content|..] == extra;
  }

  /** A second poll of a file that received nothing new reports "No recent activity" and no logs. */
  lemma SecondPollQuiet(c: Cursor, v: LogView, age: Option<real>)
    requires Target(v.listing).Some? && v.readOk
    ensures PollStatus(PollCursor(c, v), v.(age := age)) == Quiet
  {
    var name := Target(v.listing).value;
    var c' := PollCursor(c, v);
    assert Chunk(v.content, StartPos(c', name)) == "";
    assert Split("", '\n') == [""];
    assert Lines("") == [];
  }
}
