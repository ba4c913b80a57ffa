/**
 * `DashboardHandler`: the class-level state shared by every request (the log cursor and
 * the stats cache) and the members that read and update it.
 */
module Dashboard {
  import opened Options
  import opened LogStatus
  import Catalog
  import Stats

  // ---------------------------------------------------------------- the stats cache

  /** How long (in seconds) a computed stats dictionary is served unchanged. */
  const CacheWindow: real := 30.0

  /** `_stats_cache` and `_stats_ts`. */
  datatype StatsCache = StatsCache(value: Option<Stats.Stats>, ts: real)

  /** The cache must be refilled: it is empty, or more than 30 seconds old. */
  predicate Expired(c: StatsCache, now: real) {
    c.value.None? || now - c.ts > CacheWindow
  }

  /**
   * A freshly computed stats dictionary: the git totals and the number of published
   * projects. Every count that succeeded is in its total, the totals are 0 when none did
   * or the projects directory is missing, and a missing journal counts no project.
   */
  function Collected(entries: Option<seq<Stats.RepoProbe>>, doc: Option<string>): (r: Stats.Stats)
    ensures entries.None? ==> r.commits == 0 && r.loc == 0
    ensures entries.Some? ==> r.commits == Stats.TotalCommits(entries.value) && r.loc == Stats.TotalLoc(entries.value)
    ensures r.projects == |Catalog.Published(doc)|
    ensures entries.Some? ==>
              forall k | 0 <= k < |entries.value| && Stats.IsRepo(entries.value[k]) ::
                && (entries.value[k].commits.Some? ==> r.commits >= entries.value[k].commits.value)
                && (entries.value[k].loc.Some? ==> r.loc >= entries.value[k].loc.value)
    ensures entries.Some? && Stats.NoCount(entries.value) ==> r.commits == 0 && r.loc == 0
    ensures doc.None? ==> r.projects == 0
  {
    match entries
    case None => Stats.Stats(0, 0, |Catalog.Published(doc)|)
    case Some(ps) =>
      Stats.TotalsBounds(ps);
      Stats.Stats(Stats.TotalCommits(ps), Stats.TotalLoc(ps), |Catalog.Published(doc)|)
  }

  /** The cache after one `_cached_stats` call at time `now`. */
  function CacheAfter(c: StatsCache, now: real, entries: Option<seq<Stats.RepoProbe>>, doc: Option<string>): (r: StatsCache)
    ensures r.value.Some?
    ensures r.ts >= now - CacheWindow
  {
    if Expired(c, now) then StatsCache(Some(Collected(entries, doc)), now) else c
  }

  /** Stats are recomputed only when the cache is empty or too old; otherwise the cache is served as it is. */
  lemma RecomputedOnlyWhenExpired(c: StatsCache, now: real, entries: Option<seq<Stats.RepoProbe>>, doc: Option<string>)
    ensures !Expired(c, now) ==> CacheAfter(c, now, entries, doc) == c
    ensures Expired(c, now) ==> CacheAfter(c, now, entries, doc) == StatsCache(Some(Collected(entries, doc)), now)
  {
  }

  /**
   * Whatever the repositories and the journal look like at a later call, a call within 30
   * seconds of a refill serves exactly the dictionary that refill computed.
   */
  lemma ServedWithinWindow(c: StatsCache, t: real, e: Option<seq<Stats.RepoProbe>>, d: Option<string>,
                           now: real, e': Option<seq<Stats.RepoProbe>>, d': Option<string>)
    requires Expired(c, t)
    requires now - t <= CacheWindow
    ensures CacheAfter(CacheAfter(c, t, e, d), now, e', d') == StatsCache(Some(Collected(e, d)), t)
  {
  }

  /** More than 30 seconds after a refill the next call computes the dictionary afresh. */
  lemma RefilledAfterWindow(c: StatsCache, now: real, e: Option<seq<Stats.RepoProbe>>, d: Option<string>)
    requires c.value.Some? && now - c.ts > CacheWindow
    ensures CacheAfter(c, now, e, d) == StatsCache(Some(Collected(e, d)), now)
  {
  }

  /** The served totals do not depend on the order in which the projects directory is listed. */
  lemma CollectedIgnoresOrder(ps: seq<Stats.RepoProbe>, qs: seq<Stats.RepoProbe>, doc: Option<string>)
    requires multiset(ps) == multiset(qs)
    ensures Collected(Some(ps), doc) == Collected(Some(qs), doc)
  {
    Stats.TotalsPermutation(ps, qs);
  }

  // ---------------------------------------------------------------- the handler

  class Handler {
    var lastLogPos: nat
    var lastLogFile: Option<string>
    var statsCache: Option<Stats.Stats>
    var statsTs: real

    /** The class attributes as the class body initialises them. */
    constructor ()
      ensures LogCursor() == Cursor(None, 0)
      ensures Cache() == StatsCache(None, 0.0)
    {
      lastLogPos := 0;
      lastLogFile := None;
      statsCache := None;
      statsTs := 0.0;
    }

    function LogCursor(): Cursor
      reads this
    {
      Cursor(lastLogFile, lastLogPos)
    }

    function Cache(): StatsCache
      reads this
    {
      StatsCache(statsCache, statsTs)
    }

    /** `_cached_stats`: serve the cached dictionary, refilling it first when it has expired. */
    method CachedStats(now: real, entries: Option<seq<Stats.RepoProbe>>, doc: Option<string>) returns (s: Stats.Stats)
      modifies this`statsCache, this`statsTs
      ensures Cache() == CacheAfter(old(Cache()), now, entries, doc)
      ensures statsCache == Some(s)
    {
      if statsCache.None? || now - statsTs > CacheWindow {
        var commits, loc := Stats.GitStats(entries);
        var projects := Catalog.ParsePublished(doc);
        statsCache := Some(Stats.Stats(commits, loc, |projects|));
        statsTs := now;
      }
      s := statsCache.value;
    }

    /** `_build_status`: pick the newest `moltbot-*.log` and summarise what was appended to it. */
    method BuildStatus(v: LogView) returns (snap: Status)
      modifies this`lastLogPos, this`lastLogFile
      ensures LogCursor() == PollCursor(old(LogCursor()), v)
      ensures snap == PollStatus(old(LogCursor()), v)
    {
      if v.listing.None? {
        return Idle("No logs found");
      }
      var logFiles := LogNames(v.listing.value);
      if logFiles == [] {
        return Idle("Idle");
      }
      snap := ParseLog(Newest(logFiles), v);
    }

    /** `_parse_log`: move the cursor over the newly appended text and summarise it. */
    method ParseLog(name: string, v: LogView) returns (snap: Status)
      modifies this`lastLogPos, this`lastLogFile
      ensures LogCursor() == FileCursor(old(LogCursor()), name, v)
      ensures snap == FileStatus(old(LogCursor()), name, v)
    {
      if lastLogFile != Some(name) {
        lastLogPos := 0;
        lastLogFile := Some(name);
      }
      if !v.readOk {
        return Idle("Error reading logs");
      }
      var chunk := Chunk(v.content, lastLogPos);
      lastLogPos := EndPos(v.content, lastLogPos);
      var lines := Lines(chunk);
      snap := ScanLines(lines);
      if v.age.Some? && v.age.value > StaleAfter {
        snap := snap.(state := Sleeping, activity := "Idle");
      }
    }
  }
}
