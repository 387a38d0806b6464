/** The session reconstructor of pyunhrcnominate/enrich.py: a single pass over
    the date-ascending stream of (resolution, date, voters) rows that groups
    consecutive resolutions with the same roster of voters into Council
    "sessions", and stops with a `Regression` when a roster comes back after
    the membership had moved away from it. */
module Enrich {
  import opened Results
  import opened Types
  import opened Runs
  import Strings

  /** One row of the input stream: a resolution, its vote date, and the
      country codes of every vote row stored for it (any order, repeats allowed). */
  datatype Row = Row(resolution: string, date: Date, voters: seq<string>)

  /** A period of stable Council membership. */
  datatype Session = Session(
    index: nat,
    members: set<string>,
    resolutions: set<string>,
    firstVote: Date,
    lastVote: Date)

  /** The flapping-roster error: the row whose roster came back, and the
      index of the session that roster already belongs to. */
  datatype Regression = Regression(resolution: string, date: Date, sessionIndex: nat)

  /** One entry of the roster-key cache, which keeps insertion order. */
  datatype CacheEntry<K> = CacheEntry(key: K, session: Session)

  /** The fold's state: the cache, the previous row's key, the next index. */
  datatype Context<K> = Context(cache: seq<CacheEntry<K>>, lastKey: Option<K>, nextIndex: nat)

  /** The roster as `get_resolution_countries` returns it: sorted, without repeats. */
  function Roster(voters: seq<string>): (r: seq<string>)
    ensures Strings.StrictlyIncreasing(r)
    ensures Strings.Elems(r) == Strings.Elems(voters)
  {
    Strings.SortedSet(voters)
  }

  /** `'|'.join(countries)`: the cache key of a roster. */
  function RosterKey(voters: seq<string>): string {
    Strings.Join(Roster(voters))
  }

  /** The key depends only on the set of voters: row order and repeats do not matter. */
  lemma RosterKeyOfEqualSets(a: seq<string>, b: seq<string>)
    requires Strings.Elems(a) == Strings.Elems(b)
    ensures RosterKey(a) == RosterKey(b)
  {
    Strings.StrictlyIncreasingUnique(Roster(a), Roster(b));
  }

  /** Country codes that are non-empty and free of `'|'`. */
  predicate CleanCodes(voters: seq<string>) {
    forall k :: 0 <= k < |voters| ==> Strings.Clean(voters[k])
  }

  lemma RosterIsClean(voters: seq<string>)
    requires CleanCodes(voters)
    ensures CleanCodes(Roster(voters))
  {
    var r := Roster(voters);
    forall k | 0 <= k < |r|
      ensures Strings.Clean(r[k])
    {
      assert r[k] in Strings.Elems(voters);
    }
  }

  /** With clean codes, two rosters share a key exactly when they have the same voters. */
  lemma RosterKeyIffSameSet(a: seq<string>, b: seq<string>)
    requires CleanCodes(a) && CleanCodes(b)
    ensures RosterKey(a) == RosterKey(b) <==> Strings.Elems(a) == Strings.Elems(b)
  {
    if Strings.Elems(a) == Strings.Elems(b) {
      RosterKeyOfEqualSets(a, b);
    }
    RosterIsClean(a);
    RosterIsClean(b);
    Strings.JoinInjective(Roster(a), Roster(b));
  }

  // ---------------------------------------------------------------------
  // The fold

  /** The state before the first row: empty cache, no previous key, index 1. */
  function Start<K>(): Context<K> {
    Context([], None, 1)
  }

  /** The cache's keys, in insertion order. */
  function Keys<K>(cache: seq<CacheEntry<K>>): (keys: seq<K>)
    ensures |keys| == |cache|
    ensures forall i :: 0 <= i < |cache| ==> keys[i] == cache[i].key
  {
    seq(|cache|, i requires 0 <= i < |cache| => cache[i].key)
  }

  /** `key in session_cache`. */
  predicate Cached<K(==)>(cache: seq<CacheEntry<K>>, key: K) {
    key in Keys(cache)
  }

  function FindFrom<K(==)>(cache: seq<CacheEntry<K>>, key: K, from: nat): (i: nat)
    requires from <= |cache|
    requires exists k :: from <= k < |cache| && cache[k].key == key
    ensures from <= i < |cache| && cache[i].key == key
    ensures forall k :: from <= k < i ==> cache[k].key != key
    decreases |cache| - from
  {
    if cache[from].key == key then from else FindFrom(cache, key, from + 1)
  }

  /** The position of `key` in the cache. */
  function Find<K(==)>(cache: seq<CacheEntry<K>>, key: K): (i: nat)
    requires Cached(cache, key)
    ensures i < |cache| && cache[i].key == key
  {
    FindFrom(cache, key, 0)
  }

  /** A new session for a roster not seen before: it takes the next index and
      becomes the last entry of the cache. */
  function Open<K>(ctx: Context<K>, key: K, row: Row, members: set<string>): (r: Context<K>)
    ensures |r.cache| == |ctx.cache| + 1
    ensures forall k :: 0 <= k < |ctx.cache| ==> r.cache[k] == ctx.cache[k]
    ensures r.cache[|ctx.cache|] == CacheEntry(key, Session(ctx.nextIndex, members, {row.resolution}, row.date, row.date))
    ensures r.lastKey == Some(key) && r.nextIndex == ctx.nextIndex + 1
  {
    var created := Session(ctx.nextIndex, members, {row.resolution}, row.date, row.date);
    Context(ctx.cache + [CacheEntry(key, created)], Some(key), ctx.nextIndex + 1)
  }

  /** The cached session at position `i` absorbs the row: its `last_vote`
      becomes the row's date and the row's id joins its resolutions. */
  function Extend<K>(ctx: Context<K>, i: nat, row: Row): (r: Context<K>)
    requires i < |ctx.cache|
    ensures |r.cache| == |ctx.cache|
    ensures forall k :: 0 <= k < |ctx.cache| && k != i ==> r.cache[k] == ctx.cache[k]
    ensures r.cache[i].key == ctx.cache[i].key
    ensures r.cache[i].session == ctx.cache[i].session.(
      lastVote := row.date, resolutions := ctx.cache[i].session.resolutions + {row.resolution})
    ensures r.lastKey == Some(ctx.cache[i].key) && r.nextIndex == ctx.nextIndex
  {
    var entry := ctx.cache[i];
    var s := entry.session;
    var extended := s.(lastVote := row.date, resolutions := s.resolutions + {row.resolution});
    Context(ctx.cache[i := entry.(session := extended)], Some(entry.key), ctx.nextIndex)
  }

  /** One iteration of the loop of `calculate_sessions`, given the row's
      roster key. The new session's members are `set(countries)`, the set of
      the row's voters. */
  function Advance<K(==)>(ctx: Context<K>, key: K, row: Row): Result<Context<K>, Regression> {
    if ctx.lastKey != Some(key) && Cached(ctx.cache, key) then
      Failure(Regression(row.resolution, row.date, ctx.cache[Find(ctx.cache, key)].session.index))
    else if !Cached(ctx.cache, key) then
      Success(Open(ctx, key, row, Strings.Elems(row.voters)))
    else
      Success(Extend(ctx, Find(ctx.cache, key), row))
  }

  /** The state after advancing over `rows`, whose keys are `ks`; the first
      regression stops the fold. */
  function Fold<K(==)>(rows: seq<Row>, ks: seq<K>): Result<Context<K>, Regression>
    requires |ks| == |rows|
  {
    if |rows| == 0 then Success(Start())
    else
      match Fold(rows[..|rows| - 1], ks[..|ks| - 1])
      case Failure(e) => Failure(e)
      case Success(ctx) => Advance(ctx, ks[|ks| - 1], rows[|rows| - 1])
  }

  /** The roster keys of the rows, in stream order. */
  function KeySeq(rows: seq<Row>): (ks: seq<string>)
    ensures |ks| == |rows|
    ensures forall j :: 0 <= j < |rows| ==> ks[j] == RosterKey(rows[j].voters)
  {
    seq(|rows|, j requires 0 <= j < |rows| => RosterKey(rows[j].voters))
  }

  /** The loop of `calculate_sessions` over the stream: each row advances the
      state under its roster key. */
  function Process(rows: seq<Row>): Result<Context<string>, Regression> {
    Fold(rows, KeySeq(rows))
  }

  /** The cache's sessions, in insertion order. */
  function SessionsOf<K>(cache: seq<CacheEntry<K>>): (ss: seq<Session>)
    ensures |ss| == |cache|
    ensures forall i :: 0 <= i < |cache| ==> ss[i] == cache[i].session
  {
    seq(|cache|, i requires 0 <= i < |cache| => cache[i].session)
  }

  /** `calculate_sessions`: every session in creation order, or the regression. */
  function Reconstruct(rows: seq<Row>): Result<seq<Session>, Regression> {
    match Process(rows)
    case Success(ctx) => Success(SessionsOf(ctx.cache))
    case Failure(e) => Failure(e)
  }

  // ---------------------------------------------------------------------
  // Runs of equal keys: the reference the fold is measured against

  /** The ids of the rows in run `i + 1`. */
  ghost function RunResolutions<K>(rows: seq<Row>, ks: seq<K>, i: nat): set<string>
    requires |ks| == |rows|
  {
    set j | 0 <= j < |rows| && RunOf(ks, j) == i + 1 :: rows[j].resolution
  }

  // ---------------------------------------------------------------------
  // The fold's invariant

  /** One cache entry per run, the next index one past the last, the last run's key current. */
  ghost predicate Numbered<K>(ks: seq<K>, ctx: Context<K>) {
    && ctx.nextIndex == |ctx.cache| + 1
    && |ctx.cache| == RunCount(ks)
    && ctx.lastKey == (if |ks| == 0 then None else Some(ks[|ks| - 1]))
  }

  /** Sessions are numbered 1, 2, ... in cache order. */
  predicate Indexed<K>(cache: seq<CacheEntry<K>>) {
    forall i :: 0 <= i < |cache| ==> cache[i].session.index == i + 1
  }

  /** Each session holds the ids of exactly the rows of its run. */
  ghost predicate ResolutionsMatch<K>(rows: seq<Row>, ks: seq<K>, cache: seq<CacheEntry<K>>)
    requires |ks| == |rows|
  {
    forall i :: 0 <= i < |cache| ==> cache[i].session.resolutions == RunResolutions(rows, ks, i)
  }

  /** Each session's first vote and members come from the first row of its run. */
  ghost predicate FirstVotesMatch<K>(rows: seq<Row>, ks: seq<K>, cache: seq<CacheEntry<K>>)
    requires |ks| == |rows| && RunsWithin(ks, |cache|)
  {
    forall j {:trigger Opens(ks, j)} :: 0 <= j < |ks| && Opens(ks, j) ==>
      cache[RunOf(ks, j) - 1].session.firstVote == rows[j].date
      && cache[RunOf(ks, j) - 1].session.members == Strings.Elems(rows[j].voters)
  }

  /** Each session's last vote comes from the last row of its run. */
  ghost predicate LastVotesMatch<K>(rows: seq<Row>, ks: seq<K>, cache: seq<CacheEntry<K>>)
    requires |ks| == |rows| && RunsWithin(ks, |cache|)
  {
    forall j {:trigger Closes(ks, j)} :: 0 <= j < |ks| && Closes(ks, j) ==>
      cache[RunOf(ks, j) - 1].session.lastVote == rows[j].date
  }

  /** What the cache holds after the fold has consumed `rows` (whose keys are `ks`). */
  ghost predicate Inv<K>(rows: seq<Row>, ks: seq<K>, ctx: Context<K>) {
    && |ks| == |rows|
    && Contiguous(ks)
    && Numbered(ks, ctx)
    && Indexed(ctx.cache)
    && RunKeys(ks, Keys(ctx.cache))
    && Distinct(Keys(ctx.cache))
    && ResolutionsMatch(rows, ks, ctx.cache)
    && FirstVotesMatch(rows, ks, ctx.cache)
    && LastVotesMatch(rows, ks, ctx.cache)
  }

  /** The fold stopped at row `k`: the first flap, reported with the index
      of the session its roster already owns. */
  ghost predicate RegressionAt<K>(rows: seq<Row>, ks: seq<K>, e: Regression, k: nat) {
    && |ks| == |rows|
    && k < |ks|
    && Regresses(ks, k)
    && (forall m :: 0 <= m < k ==> !Regresses(ks, m))
    && e.resolution == rows[k].resolution
    && e.date == rows[k].date
    && (forall j :: 0 <= j < k && ks[j] == ks[k] ==> e.sessionIndex == RunOf(ks, j))
  }

  lemma RunResolutionsAppend<K>(rows: seq<Row>, ks: seq<K>, row: Row, key: K, i: nat)
    requires |ks| == |rows|
    ensures RunResolutions(rows + [row], ks + [key], i) ==
      RunResolutions(rows, ks, i) + (if RunOf(ks + [key], |ks|) == i + 1 then {row.resolution} else {})
  {
    RunResolutionsShrink(rows, ks, row, key, i);
    RunResolutionsGrow(rows, ks, row, key, i);
  }

  lemma RunResolutionsShrink<K>(rows: seq<Row>, ks: seq<K>, row: Row, key: K, i: nat)
    requires |ks| == |rows|
    ensures RunResolutions(rows + [row], ks + [key], i) <=
      RunResolutions(rows, ks, i) + (if RunOf(ks + [key], |ks|) == i + 1 then {row.resolution} else {})
  {
    var rows', ks' := rows + [row], ks + [key];
    forall x | x in RunResolutions(rows', ks', i)
      ensures x in RunResolutions(rows, ks, i) || (RunOf(ks', |ks|) == i + 1 && x == row.resolution)
    {
      var j :| 0 <= j < |rows'| && RunOf(ks', j) == i + 1 && rows'[j].resolution == x;
      if j < |rows| {
        KeptInRun(rows, ks, row, key, i, j);
      }
    }
  }

  /** An earlier row of run `i + 1` was already in that run before the append. */
  lemma KeptInRun<K>(rows: seq<Row>, ks: seq<K>, row: Row, key: K, i: nat, j: nat)
    requires |ks| == |rows| && j < |rows| && RunOf(ks + [key], j) == i + 1
    ensures (rows + [row])[j].resolution in RunResolutions(rows, ks, i)
  {
    RunOfAppend(ks, key, j);
    assert (rows + [row])[j] == rows[j];
  }

  lemma RunResolutionsGrow<K>(rows: seq<Row>, ks: seq<K>, row: Row, key: K, i: nat)
    requires |ks| == |rows|
    ensures RunResolutions(rows, ks, i) + (if RunOf(ks + [key], |ks|) == i + 1 then {row.resolution} else {})
      <= RunResolutions(rows + [row], ks + [key], i)
  {
    var rows', ks' := rows + [row], ks + [key];
    forall x | x in RunResolutions(rows, ks, i)
      ensures x in RunResolutions(rows', ks', i)
    {
      var j :| 0 <= j < |rows| && RunOf(ks, j) == i + 1 && rows[j].resolution == x;
      RunOfAppend(ks, key, j);
      assert rows'[j].resolution == x;
    }
    if RunOf(ks', |ks|) == i + 1 {
      assert rows'[|rows|].resolution == row.resolution;
    }
  }

  /** A regression: the row's key sits at position `f` of the cache but is not the previous row's. */
  lemma RegressFacts<K>(rows: seq<Row>, ks: seq<K>, c: seq<CacheEntry<K>>, row: Row, key: K, f: nat)
    requires |ks| == |rows| && Contiguous(ks) && |c| == RunCount(ks)
    requires RunKeys(ks, Keys(c)) && Distinct(Keys(c))
    requires |ks| > 0 ==> key != ks[|ks| - 1]
    requires f < |c| && c[f].key == key
    ensures RegressionAt(rows + [row], ks + [key], Regression(row.resolution, row.date, f + 1), |rows|)
  {
    assert Keys(c)[f] == key;
    RunKeysRegress(ks, Keys(c), f);
  }

  /** `c'` is `c` with `entry` appended. */
  ghost predicate Appended<K>(c: seq<CacheEntry<K>>, c': seq<CacheEntry<K>>, entry: CacheEntry<K>) {
    && |c'| == |c| + 1
    && c'[|c|] == entry
    && forall k :: 0 <= k < |c| ==> c'[k] == c[k]
  }

  lemma KeysAppended<K>(c: seq<CacheEntry<K>>, c': seq<CacheEntry<K>>, entry: CacheEntry<K>)
    requires Appended(c, c', entry)
    ensures Keys(c') == Keys(c) + [entry.key]
  {
  }

  lemma ResolutionsAfterOpen<K>(rows: seq<Row>, ks: seq<K>, c: seq<CacheEntry<K>>, c': seq<CacheEntry<K>>, row: Row, entry: CacheEntry<K>)
    requires |ks| == |rows| && RunKeys(ks, Keys(c)) && ResolutionsMatch(rows, ks, c) && Appended(c, c', entry)
    requires entry.session.resolutions == {row.resolution}
    requires RunOf(ks + [entry.key], |ks|) == |c| + 1
    ensures ResolutionsMatch(rows + [row], ks + [entry.key], c')
  {
    forall i | 0 <= i < |c'|
      ensures c'[i].session.resolutions == RunResolutions(rows + [row], ks + [entry.key], i)
    {
      RunResolutionsAppend(rows, ks, row, entry.key, i);
      if i == |c| {
        forall j | 0 <= j < |rows|
          ensures RunOf(ks, j) != i + 1
        {
          assert RunOf(ks, j) <= |c|;
        }
        assert RunResolutions(rows, ks, i) == {};
      }
    }
  }

  lemma FirstVotesAfterOpen<K>(rows: seq<Row>, ks: seq<K>, c: seq<CacheEntry<K>>, c': seq<CacheEntry<K>>, row: Row, entry: CacheEntry<K>)
    requires |ks| == |rows| && RunsWithin(ks, |c|) && Appended(c, c', entry)
    requires FirstVotesMatch(rows, ks, c)
    requires entry.session.firstVote == row.date && entry.session.members == Strings.Elems(row.voters)
    requires RunOf(ks + [entry.key], |ks|) == |c| + 1
    requires RunsWithin(ks + [entry.key], |c'|)
    ensures FirstVotesMatch(rows + [row], ks + [entry.key], c')
  {
    var rows', ks', n := rows + [row], ks + [entry.key], |ks|;
    forall j | 0 <= j < |ks'| && Opens(ks', j)
      ensures c'[RunOf(ks', j) - 1].session.firstVote == rows'[j].date
      ensures c'[RunOf(ks', j) - 1].session.members == Strings.Elems(rows'[j].voters)
    {
      if j < n {
        RunOfAppend(ks, entry.key, j);
        assert Opens(ks, j);
        assert RunOf(ks, j) <= |c|;
        assert rows'[j] == rows[j];
      } else {
        assert rows'[j] == row;
      }
    }
  }

  lemma LastVotesAfterOpen<K>(rows: seq<Row>, ks: seq<K>, c: seq<CacheEntry<K>>, c': seq<CacheEntry<K>>, row: Row, entry: CacheEntry<K>)
    requires |ks| == |rows| && RunsWithin(ks, |c|) && Appended(c, c', entry)
    requires LastVotesMatch(rows, ks, c)
    requires entry.session.lastVote == row.date
    requires RunOf(ks + [entry.key], |ks|) == |c| + 1
    requires RunsWithin(ks + [entry.key], |c'|)
    ensures LastVotesMatch(rows + [row], ks + [entry.key], c')
  {
    var rows', ks', n := rows + [row], ks + [entry.key], |ks|;
    forall j | 0 <= j < |ks'| && Closes(ks', j)
      ensures c'[RunOf(ks', j) - 1].session.lastVote == rows'[j].date
    {
      if j < n {
        RunOfAppend(ks, entry.key, j);
        assert RunOf(ks, j) <= |c|;
        assert rows'[j] == rows[j];
        assert Closes(ks, j);
      }
    }
  }

  /** Opening a session for a new key keeps the invariant. */
  lemma OpenKeeps<K>(rows: seq<Row>, ks: seq<K>, ctx: Context<K>, row: Row, key: K)
    requires Inv(rows, ks, ctx) && !Cached(ctx.cache, key)
    ensures Inv(rows + [row], ks + [key], Open(ctx, key, row, Strings.Elems(row.voters)))
  {
    var ks', n := ks + [key], |ks|;
    var next := Open(ctx, key, row, Strings.Elems(row.voters));
    var c, c' := ctx.cache, next.cache;
    var entry := c'[|c|];
    assert Appended(c, c', entry);
    KeysAppended(c, c', entry);
    RunKeysNew(ks, Keys(c), key);
    DistinctAppend(Keys(c), key);
    assert Indexed(c') by {
      forall i | 0 <= i < |c'|
        ensures c'[i].session.index == i + 1
      {
      }
    }
    ResolutionsAfterOpen(rows, ks, c, c', row, entry);
    FirstVotesAfterOpen(rows, ks, c, c', row, entry);
    LastVotesAfterOpen(rows, ks, c, c', row, entry);
    AppendFacts(ks, key);
    forall k | 0 <= k < |ks'|
      ensures !Regresses(ks', k)
    {
      if k < n {
        assert !Regresses(ks, k);
      }
    }
  }

  /** `c'` is `c` with the session at position `i` extended by `row`. */
  ghost predicate Extended<K>(c: seq<CacheEntry<K>>, c': seq<CacheEntry<K>>, i: nat, row: Row) {
    && i < |c| == |c'|
    && (forall k :: 0 <= k < |c| && k != i ==> c'[k] == c[k])
    && c'[i].key == c[i].key
    && c'[i].session.index == c[i].session.index
    && c'[i].session.members == c[i].session.members
    && c'[i].session.firstVote == c[i].session.firstVote
    && c'[i].session.lastVote == row.date
    && c'[i].session.resolutions == c[i].session.resolutions + {row.resolution}
  }

  lemma KeysExtended<K>(c: seq<CacheEntry<K>>, c': seq<CacheEntry<K>>, i: nat, row: Row)
    requires Extended(c, c', i, row)
    ensures Keys(c') == Keys(c)
    ensures Indexed(c) ==> Indexed(c')
  {
    forall k | 0 <= k < |c|
      ensures c'[k].key == c[k].key && c'[k].session.index == c[k].session.index
    {
    }
  }

  lemma ResolutionsAfterExtend<K>(rows: seq<Row>, ks: seq<K>, key: K, c: seq<CacheEntry<K>>, c': seq<CacheEntry<K>>, row: Row, last: nat)
    requires |ks| == |rows| && ResolutionsMatch(rows, ks, c) && Extended(c, c', last, row)
    requires RunOf(ks + [key], |ks|) == last + 1
    ensures ResolutionsMatch(rows + [row], ks + [key], c')
  {
    forall i | 0 <= i < |c'|
      ensures c'[i].session.resolutions == RunResolutions(rows + [row], ks + [key], i)
    {
      RunResolutionsAppend(rows, ks, row, key, i);
    }
  }

  lemma FirstVotesAfterExtend<K>(rows: seq<Row>, ks: seq<K>, key: K, c: seq<CacheEntry<K>>, c': seq<CacheEntry<K>>, row: Row, last: nat)
    requires |ks| == |rows| && |ks| > 0 && key == ks[|ks| - 1] && RunsWithin(ks, |c|)
    requires FirstVotesMatch(rows, ks, c)
    requires RunOf(ks + [key], |ks|) == last + 1
    requires Extended(c, c', last, row)
    requires RunsWithin(ks + [key], |c'|)
    ensures FirstVotesMatch(rows + [row], ks + [key], c')
  {
    var n := |ks|;
    var rows', ks' := rows + [row], ks + [key];
    forall j | 0 <= j < |ks'| && Opens(ks', j)
      ensures c'[RunOf(ks', j) - 1].session.firstVote == rows'[j].date
      ensures c'[RunOf(ks', j) - 1].session.members == Strings.Elems(rows'[j].voters)
    {
      assert j < n;
      RunOfAppend(ks, key, j);
      assert rows'[j] == rows[j];
      assert Opens(ks, j);
      assert RunOf(ks, j) <= |c|;
    }
  }

  lemma LastVotesAfterExtend<K>(rows: seq<Row>, ks: seq<K>, key: K, c: seq<CacheEntry<K>>, c': seq<CacheEntry<K>>, row: Row, last: nat)
    requires |ks| == |rows| && |ks| > 0 && key == ks[|ks| - 1] && RunsWithin(ks, |c|)
    requires LastVotesMatch(rows, ks, c)
    requires RunOf(ks, |ks| - 1) == last + 1 && RunOf(ks + [key], |ks|) == last + 1
    requires Extended(c, c', last, row)
    requires RunsWithin(ks + [key], |c'|)
    ensures LastVotesMatch(rows + [row], ks + [key], c')
  {
    var n := |ks|;
    var rows', ks' := rows + [row], ks + [key];
    forall j | 0 <= j < |ks'| && Closes(ks', j)
      ensures c'[RunOf(ks', j) - 1].session.lastVote == rows'[j].date
    {
      if j < n {
        RunOfAppend(ks, key, j);
        assert j < n - 1;
        assert Closes(ks, j);
        ClosedRunIsEarlier(ks, j, n - 1);
        assert RunOf(ks, j) <= |c|;
        assert RunOf(ks, j) - 1 != last;
        assert rows'[j] == rows[j];
      }
    }
  }

  /** Extending the last session with a row of the same key keeps the invariant. */
  lemma ExtendKeeps<K>(rows: seq<Row>, ks: seq<K>, ctx: Context<K>, row: Row)
    requires Inv(rows, ks, ctx) && |ks| > 0
    ensures 0 <= RunCount(ks) - 1 < |ctx.cache|
    ensures ctx.cache[RunCount(ks) - 1].key == ks[|ks| - 1]
    ensures Inv(rows + [row], ks + [ks[|ks| - 1]], Extend(ctx, RunCount(ks) - 1, row))
  {
    var n := |ks|;
    var key := ks[n - 1];
    var ks' := ks + [key];
    var c := ctx.cache;
    RunKeysSame(ks, Keys(c));
    var last := RunCount(ks) - 1;
    var next := Extend(ctx, last, row);
    var c' := next.cache;
    assert Extended(c, c', last, row);
    KeysExtended(c, c', last, row);
    ResolutionsAfterExtend(rows, ks, key, c, c', row, last);
    FirstVotesAfterExtend(rows, ks, key, c, c', row, last);
    LastVotesAfterExtend(rows, ks, key, c, c', row, last);
    ContiguousRepeat(ks);
  }

  /** One step either keeps the invariant or reports the row as the first flap. */
  lemma AdvanceFacts<K>(rows: seq<Row>, ks: seq<K>, ctx: Context<K>, key: K, row: Row)
    requires Inv(rows, ks, ctx)
    ensures Advance(ctx, key, row).Success? ==>
      Inv(rows + [row], ks + [key], Advance(ctx, key, row).value)
    ensures Advance(ctx, key, row).Failure? ==>
      RegressionAt(rows + [row], ks + [key], Advance(ctx, key, row).error, |rows|)
  {
    if ctx.lastKey != Some(key) && Cached(ctx.cache, key) {
      AdvanceRegress(rows, ks, ctx, key, row);
    } else if !Cached(ctx.cache, key) {
      OpenKeeps(rows, ks, ctx, row, key);
    } else {
      AdvanceExtend(rows, ks, ctx, key, row);
    }
  }

  lemma AdvanceRegress<K>(rows: seq<Row>, ks: seq<K>, ctx: Context<K>, key: K, row: Row)
    requires Inv(rows, ks, ctx)
    requires ctx.lastKey != Some(key) && Cached(ctx.cache, key)
    ensures Advance(ctx, key, row).Failure?
    ensures RegressionAt(rows + [row], ks + [key], Advance(ctx, key, row).error, |rows|)
  {
    var f := Find(ctx.cache, key);
    assert ctx.cache[f].session.index == f + 1;
    RegressFacts(rows, ks, ctx.cache, row, key, f);
  }

  lemma AdvanceExtend<K>(rows: seq<Row>, ks: seq<K>, ctx: Context<K>, key: K, row: Row)
    requires Inv(rows, ks, ctx)
    requires ctx.lastKey == Some(key) && Cached(ctx.cache, key)
    ensures Advance(ctx, key, row).Success?
    ensures Inv(rows + [row], ks + [key], Advance(ctx, key, row).value)
  {
    var n := |ks|;
    assert n > 0 && ks[n - 1] == key;
    var last := RunCount(ks) - 1;
    RunKeysSame(ks, Keys(ctx.cache));
    assert ctx.cache[last].key == key;
    FindUnique(ctx.cache, key, last);
    assert Advance(ctx, key, row) == Success(Extend(ctx, last, row));
    ExtendKeeps(rows, ks, ctx, row);
  }

  /** With distinct keys, the lookup finds the one entry holding the key. */
  lemma FindUnique<K>(cache: seq<CacheEntry<K>>, key: K, i: nat)
    requires Distinct(Keys(cache)) && i < |cache| && cache[i].key == key
    ensures Cached(cache, key) && Find(cache, key) == i
  {
    assert Keys(cache)[i] == key;
    var f := Find(cache, key);
    assert Keys(cache)[f] == key;
  }

  lemma RegressionPersists<K>(rows: seq<Row>, ks: seq<K>, e: Regression, k: nat, row: Row, key: K)
    requires RegressionAt(rows, ks, e, k)
    ensures RegressionAt(rows + [row], ks + [key], e, k)
  {
    AppendFacts(ks, key);
  }

  /** The fold either keeps the invariant over all rows or stops at the first flap. */
  lemma {:induction false} FoldFacts<K>(rows: seq<Row>, ks: seq<K>)
    requires |ks| == |rows|
    ensures Fold(rows, ks).Success? ==> Inv(rows, ks, Fold(rows, ks).value)
    ensures Fold(rows, ks).Failure? ==> exists k :: RegressionAt(rows, ks, Fold(rows, ks).error, k)
    decreases |rows|
  {
    if |rows| > 0 {
      var pre, kpre := rows[..|rows| - 1], ks[..|ks| - 1];
      var row, key := rows[|rows| - 1], ks[|ks| - 1];
      assert rows == pre + [row];
      assert ks == kpre + [key];
      FoldFacts(pre, kpre);
      match Fold(pre, kpre)
      case Failure(e) =>
        var k :| RegressionAt(pre, kpre, e, k);
        RegressionPersists(pre, kpre, e, k, row, key);
      case Success(ctx) =>
        AdvanceFacts(pre, kpre, ctx, key, row);
    }
  }

  /** After a successful fold, the state satisfies the invariant. */
  lemma Settled<K>(rows: seq<Row>, ks: seq<K>) returns (ctx: Context<K>)
    requires |ks| == |rows| && Fold(rows, ks).Success?
    ensures Fold(rows, ks) == Success(ctx) && Inv(rows, ks, ctx)
  {
    FoldFacts(rows, ks);
    ctx := Fold(rows, ks).value;
  }

  // ---------------------------------------------------------------------
  // Facts about one row or one session of a successful fold

  /** The session of row `j` took its members and first vote from the first
      row of the run. */
  lemma FirstOfRow<K>(rows: seq<Row>, ks: seq<K>, cache: seq<CacheEntry<K>>, j: nat)
    requires |ks| == |rows| && RunsWithin(ks, |cache|) && j < |rows|
    requires FirstVotesMatch(rows, ks, cache)
    ensures 1 <= RunOf(ks, j) <= |cache|
    ensures cache[RunOf(ks, j) - 1].session.members == Strings.Elems(rows[RunStart(ks, j)].voters)
    ensures cache[RunOf(ks, j) - 1].session.firstVote == rows[RunStart(ks, j)].date
  {
    var s := RunStart(ks, j);
    assert RunOf(ks, j) <= |cache|;
    assert Opens(ks, s);
  }

  /** The session of row `j` took its last vote from the last row of the run. */
  lemma LastOfRow<K>(rows: seq<Row>, ks: seq<K>, cache: seq<CacheEntry<K>>, j: nat)
    requires |ks| == |rows| && RunsWithin(ks, |cache|) && j < |rows|
    requires LastVotesMatch(rows, ks, cache)
    ensures 1 <= RunOf(ks, j) <= |cache|
    ensures cache[RunOf(ks, j) - 1].session.lastVote == rows[RunEnd(ks, j)].date
  {
    var e := RunEnd(ks, j);
    assert RunOf(ks, j) <= |cache|;
    assert Closes(ks, e);
  }

  /** The row that opened session `i + 1`: its key is the session's and its
      voters give the session's members. */
  lemma SessionOpener<K>(rows: seq<Row>, ks: seq<K>, ctx: Context<K>, i: nat) returns (s: nat)
    requires Inv(rows, ks, ctx) && i < |ctx.cache|
    ensures s < |rows| && ks[s] == ctx.cache[i].key
    ensures ctx.cache[i].session.members == Strings.Elems(rows[s].voters)
  {
    RunKeysCovered(ks, Keys(ctx.cache), i);
    var j :| 0 <= j < |ks| && RunOf(ks, j) == i + 1 && ks[j] == Keys(ctx.cache)[i];
    s := RunStart(ks, j);
    assert Opens(ks, s);
  }

  /** The first vote of session `i + 1`, seen from one of its rows, for any keys. */
  lemma FirstDateOf<K>(rows: seq<Row>, ks: seq<K>, i: nat, j: nat)
    requires |ks| == |rows| && Fold(rows, ks).Success? && j < |rows| && RunOf(ks, j) == i + 1
    ensures
      var ss := SessionsOf(Fold(rows, ks).value.cache);
      && i < |ss|
      && (Opens(ks, j) ==> ss[i].firstVote == rows[j].date)
      && (Ascending(rows) ==> DateLe(ss[i].firstVote, rows[j].date))
  {
    var ctx := Settled(rows, ks);
    FirstOfRow(rows, ks, ctx.cache, j);
    var s := RunStart(ks, j);
    if Ascending(rows) {
      assert DateLe(rows[s].date, rows[j].date);
    }
  }

  /** The last vote of session `i + 1`, seen from one of its rows, for any keys. */
  lemma LastDateOf<K>(rows: seq<Row>, ks: seq<K>, i: nat, j: nat)
    requires |ks| == |rows| && Fold(rows, ks).Success? && j < |rows| && RunOf(ks, j) == i + 1
    ensures
      var ss := SessionsOf(Fold(rows, ks).value.cache);
      && i < |ss|
      && (Closes(ks, j) ==> ss[i].lastVote == rows[j].date)
      && (Ascending(rows) ==> DateLe(rows[j].date, ss[i].lastVote))
  {
    var ctx := Settled(rows, ks);
    LastOfRow(rows, ks, ctx.cache, j);
    var e := RunEnd(ks, j);
    if Ascending(rows) {
      assert DateLe(rows[j].date, rows[e].date);
    }
  }

  /** The members of the session of one row, for any keys: those of the row
      that opened it. */
  lemma MembersOf<K>(rows: seq<Row>, ks: seq<K>, j: nat)
    requires |ks| == |rows| && Fold(rows, ks).Success? && j < |rows|
    ensures
      var ss := SessionsOf(Fold(rows, ks).value.cache);
      && RunOf(ks, j) <= |ss|
      && RunStart(ks, j) <= j && ks[RunStart(ks, j)] == ks[j]
      && ss[RunOf(ks, j) - 1].members == Strings.Elems(rows[RunStart(ks, j)].voters)
  {
    var ctx := Settled(rows, ks);
    FirstOfRow(rows, ks, ctx.cache, j);
  }

  /** Sessions of a successful fold, for any keys: numbered in order, one per run. */
  lemma NumberingOf<K>(rows: seq<Row>, ks: seq<K>)
    requires |ks| == |rows| && Fold(rows, ks).Success?
    ensures
      var ss := SessionsOf(Fold(rows, ks).value.cache);
      && |ss| == RunCount(ks)
      && (forall i :: 0 <= i < |ss| ==> ss[i].index == i + 1)
      && (forall j :: 0 <= j < |rows| ==> 1 <= RunOf(ks, j) <= |ss|)
      && (forall i :: 0 <= i < |ss| ==> ss[i].resolutions == RunResolutions(rows, ks, i))
  {
    var ctx := Settled(rows, ks);
  }

  /** Two sessions of a successful fold have different keys and were opened
      by rows with those keys. */
  lemma OpenersOf<K>(rows: seq<Row>, ks: seq<K>, i: nat, i': nat) returns (s: nat, s': nat)
    requires |ks| == |rows| && Fold(rows, ks).Success?
    requires i < i' < |Fold(rows, ks).value.cache|
    ensures s < |rows| && s' < |rows| && ks[s] != ks[s']
    ensures
      var ss := SessionsOf(Fold(rows, ks).value.cache);
      && ss[i].members == Strings.Elems(rows[s].voters)
      && ss[i'].members == Strings.Elems(rows[s'].voters)
  {
    var ctx := Settled(rows, ks);
    s := SessionOpener(rows, ks, ctx, i);
    s' := SessionOpener(rows, ks, ctx, i');
    assert Keys(ctx.cache)[i] != Keys(ctx.cache)[i'];
  }

  // ---------------------------------------------------------------------
  // What `calculate_sessions` promises

  /** Resolution ids are unique, as the store's primary key makes them. */
  predicate DistinctIds(rows: seq<Row>) {
    forall j, j' :: 0 <= j < j' < |rows| ==> rows[j].resolution != rows[j'].resolution
  }

  /** Vote dates never decrease along the stream. */
  predicate Ascending(rows: seq<Row>) {
    forall j, j' :: 0 <= j <= j' < |rows| ==> DateLe(rows[j].date, rows[j'].date)
  }

  /** Every voter code of every row is non-empty and free of `'|'`. */
  predicate CleanRows(rows: seq<Row>) {
    forall j :: 0 <= j < |rows| ==> CleanCodes(rows[j].voters)
  }

  /** The reconstruction succeeds exactly when no roster comes back after the
      membership moved away from it. */
  lemma SucceedsIffNoFlap(rows: seq<Row>)
    ensures Reconstruct(rows).Success? <==> Contiguous(KeySeq(rows))
  {
    FoldSucceedsIffContiguous(rows, KeySeq(rows));
  }

  /** For any keys, the fold succeeds exactly when no key flaps. */
  lemma FoldSucceedsIffContiguous<K>(rows: seq<Row>, ks: seq<K>)
    requires |ks| == |rows|
    ensures Fold(rows, ks).Success? <==> Contiguous(ks)
  {
    FoldFacts(rows, ks);
    if Fold(rows, ks).Failure? {
      var k :| RegressionAt(rows, ks, Fold(rows, ks).error, k);
    }
  }

  /** On failure, the error names the first flapping row, its date, and the
      index of the session that its roster already owns. */
  lemma RegressionReported(rows: seq<Row>)
    ensures Reconstruct(rows).Failure? ==>
      exists k :: 0 <= k < |rows| && RegressionAt(rows, KeySeq(rows), Reconstruct(rows).error, k)
  {
    FoldFacts(rows, KeySeq(rows));
  }

  /** Sessions are numbered 1, 2, ..., n in the order their rosters first
      appear; there is one per run of equal rosters, so none for no rows. */
  lemma SessionNumbering(rows: seq<Row>)
    ensures Reconstruct(rows).Success? ==>
      var ss, ks := Reconstruct(rows).value, KeySeq(rows);
      && |ss| == RunCount(ks)
      && (|rows| == 0 <==> |ss| == 0)
      && (forall i :: 0 <= i < |ss| ==> ss[i].index == i + 1)
      && (forall j :: 0 <= j < |rows| ==> 1 <= RunOf(ks, j) <= |ss|)
      && (forall j, j' :: 0 <= j <= j' < |rows| ==> RunOf(ks, j) <= RunOf(ks, j'))
  {
    var ks := KeySeq(rows);
    if Reconstruct(rows).Success? {
      NumberingOf(rows, ks);
    }
    forall j, j' | 0 <= j <= j' < |rows|
      ensures RunOf(ks, j) <= RunOf(ks, j')
    {
      RunOfMonotone(ks, j, j');
    }
  }

  /** A session's resolutions are exactly the ids of the rows of its run. */
  lemma SessionResolutions(rows: seq<Row>)
    ensures Reconstruct(rows).Success? ==>
      var ss, ks := Reconstruct(rows).value, KeySeq(rows);
      forall i :: 0 <= i < |ss| ==>
        ss[i].resolutions == set j | 0 <= j < |rows| && RunOf(ks, j) == i + 1 :: rows[j].resolution
  {
    if Reconstruct(rows).Success? {
      NumberingOf(rows, KeySeq(rows));
    }
  }

  /** With unique ids, every resolution lies in exactly one session: the one
      of its run. */
  lemma ResolutionsPartitioned(rows: seq<Row>)
    requires DistinctIds(rows)
    ensures Reconstruct(rows).Success? ==>
      var ss, ks := Reconstruct(rows).value, KeySeq(rows);
      forall j, i :: 0 <= j < |rows| && 0 <= i < |ss| ==>
        (rows[j].resolution in ss[i].resolutions <==> i == RunOf(ks, j) - 1)
  {
    if Reconstruct(rows).Success? {
      var ss, ks := Reconstruct(rows).value, KeySeq(rows);
      NumberingOf(rows, ks);
      forall j, i | 0 <= j < |rows| && 0 <= i < |ss|
        ensures rows[j].resolution in ss[i].resolutions <==> i == RunOf(ks, j) - 1
      {
        if rows[j].resolution in ss[i].resolutions {
          var j' :| 0 <= j' < |rows| && RunOf(ks, j') == i + 1 && rows[j'].resolution == rows[j].resolution;
          assert j' == j;
        }
      }
    }
  }

  /** Each run is one contiguous block of rows: rows between two rows of a
      run belong to it too, and all of them carry the same roster key. */
  lemma SessionsAreContiguous(rows: seq<Row>)
    ensures var ks := KeySeq(rows);
      forall j, m, j' :: 0 <= j <= m <= j' < |rows| && RunOf(ks, j) == RunOf(ks, j') ==>
        RunOf(ks, m) == RunOf(ks, j) && ks[m] == ks[j]
  {
    var ks := KeySeq(rows);
    forall j, m, j' | 0 <= j <= m <= j' < |rows| && RunOf(ks, j) == RunOf(ks, j')
      ensures RunOf(ks, m) == RunOf(ks, j) && ks[m] == ks[j]
    {
      RunOfMonotone(ks, j, m);
      RunOfMonotone(ks, m, j');
      RunOfMonotone(ks, j, j');
    }
  }

  /** With unique ids, the rows of a session form one interval of the stream:
      a row lying between two rows of the session belongs to it. */
  lemma SessionIsInterval(rows: seq<Row>)
    requires DistinctIds(rows)
    ensures Reconstruct(rows).Success? ==>
      var ss := Reconstruct(rows).value;
      forall i, j, m, j' ::
        (0 <= i < |ss| && 0 <= j <= m <= j' < |rows|
         && rows[j].resolution in ss[i].resolutions && rows[j'].resolution in ss[i].resolutions) ==>
        rows[m].resolution in ss[i].resolutions
  {
    if Reconstruct(rows).Success? {
      var ss := Reconstruct(rows).value;
      forall i, j, m, j' | 0 <= i < |ss| && 0 <= j <= m <= j' < |rows|
        && rows[j].resolution in ss[i].resolutions && rows[j'].resolution in ss[i].resolutions
        ensures rows[m].resolution in ss[i].resolutions
      {
        IntervalStep(rows, i, j, m, j');
      }
    }
  }

  lemma IntervalStep(rows: seq<Row>, i: nat, j: nat, m: nat, j': nat)
    requires DistinctIds(rows) && Reconstruct(rows).Success?
    requires i < |Reconstruct(rows).value| && j <= m <= j' < |rows|
    requires rows[j].resolution in Reconstruct(rows).value[i].resolutions
    requires rows[j'].resolution in Reconstruct(rows).value[i].resolutions
    ensures rows[m].resolution in Reconstruct(rows).value[i].resolutions
  {
    var ks := KeySeq(rows);
    ResolutionsPartitioned(rows);
    assert RunOf(ks, j) == i + 1 && RunOf(ks, j') == i + 1;
    SessionsAreContiguous(rows);
    assert RunOf(ks, m) == i + 1;
  }

  /** A session's members are the voters of the row that opened it; with clean
      codes, they are the voters of every row of the session. */
  lemma SessionMembers(rows: seq<Row>)
    ensures Reconstruct(rows).Success? ==>
      var ss, ks := Reconstruct(rows).value, KeySeq(rows);
      forall i, j :: 0 <= i < |ss| && 0 <= j < |rows| && RunOf(ks, j) == i + 1 ==>
        && (Opens(ks, j) ==> ss[i].members == Strings.Elems(rows[j].voters))
        && (CleanRows(rows) ==> ss[i].members == Strings.Elems(rows[j].voters))
  {
    if Reconstruct(rows).Success? {
      var ss, ks := Reconstruct(rows).value, KeySeq(rows);
      forall i, j | 0 <= i < |ss| && 0 <= j < |rows| && RunOf(ks, j) == i + 1
        ensures Opens(ks, j) ==> ss[i].members == Strings.Elems(rows[j].voters)
        ensures CleanRows(rows) ==> ss[i].members == Strings.Elems(rows[j].voters)
      {
        MembersOfRow(rows, j);
      }
    }
  }

  /** The members of the session of one row. */
  lemma MembersOfRow(rows: seq<Row>, j: nat)
    requires Reconstruct(rows).Success? && j < |rows|
    ensures
      var ss, ks := Reconstruct(rows).value, KeySeq(rows);
      && RunOf(ks, j) <= |ss|
      && (Opens(ks, j) ==> ss[RunOf(ks, j) - 1].members == Strings.Elems(rows[j].voters))
      && (CleanRows(rows) ==> ss[RunOf(ks, j) - 1].members == Strings.Elems(rows[j].voters))
  {
    var ks := KeySeq(rows);
    MembersOf(rows, ks, j);
    var s := RunStart(ks, j);
    if CleanRows(rows) {
      assert CleanCodes(rows[s].voters) && CleanCodes(rows[j].voters);
      RosterKeyIffSameSet(rows[s].voters, rows[j].voters);
    }
  }

  /** `first_vote` is the date of the session's first row; on an ascending
      stream no row of the session is older. */
  lemma SessionFirstVotes(rows: seq<Row>)
    ensures Reconstruct(rows).Success? ==>
      var ss, ks := Reconstruct(rows).value, KeySeq(rows);
      forall i, j :: 0 <= i < |ss| && 0 <= j < |rows| && RunOf(ks, j) == i + 1 ==>
        && (Opens(ks, j) ==> ss[i].firstVote == rows[j].date)
        && (Ascending(rows) ==> DateLe(ss[i].firstVote, rows[j].date))
  {
    if Reconstruct(rows).Success? {
      var ks := KeySeq(rows);
      assert Reconstruct(rows).value == SessionsOf(Fold(rows, ks).value.cache);
      FirstVotesOf(rows, ks);
    }
  }

  lemma FirstVotesOf<K>(rows: seq<Row>, ks: seq<K>)
    requires |ks| == |rows| && Fold(rows, ks).Success?
    ensures
      var ss := SessionsOf(Fold(rows, ks).value.cache);
      forall i, j :: 0 <= i < |ss| && 0 <= j < |rows| && RunOf(ks, j) == i + 1 ==>
        && (Opens(ks, j) ==> ss[i].firstVote == rows[j].date)
        && (Ascending(rows) ==> DateLe(ss[i].firstVote, rows[j].date))
  {
    var ss := SessionsOf(Fold(rows, ks).value.cache);
    forall i, j | 0 <= i < |ss| && 0 <= j < |rows| && RunOf(ks, j) == i + 1
      ensures Opens(ks, j) ==> ss[i].firstVote == rows[j].date
      ensures Ascending(rows) ==> DateLe(ss[i].firstVote, rows[j].date)
    {
      FirstDateOf(rows, ks, i, j);
    }
  }

  /** `last_vote` is the date of the session's last row; on an ascending
      stream no row of the session is newer. */
  lemma SessionLastVotes(rows: seq<Row>)
    ensures Reconstruct(rows).Success? ==>
      var ss, ks := Reconstruct(rows).value, KeySeq(rows);
      forall i, j :: 0 <= i < |ss| && 0 <= j < |rows| && RunOf(ks, j) == i + 1 ==>
        && (Closes(ks, j) ==> ss[i].lastVote == rows[j].date)
        && (Ascending(rows) ==> DateLe(rows[j].date, ss[i].lastVote))
  {
    if Reconstruct(rows).Success? {
      var ks := KeySeq(rows);
      assert Reconstruct(rows).value == SessionsOf(Fold(rows, ks).value.cache);
      LastVotesOf(rows, ks);
    }
  }

  lemma LastVotesOf<K>(rows: seq<Row>, ks: seq<K>)
    requires |ks| == |rows| && Fold(rows, ks).Success?
    ensures
      var ss := SessionsOf(Fold(rows, ks).value.cache);
      forall i, j :: 0 <= i < |ss| && 0 <= j < |rows| && RunOf(ks, j) == i + 1 ==>
        && (Closes(ks, j) ==> ss[i].lastVote == rows[j].date)
        && (Ascending(rows) ==> DateLe(rows[j].date, ss[i].lastVote))
  {
    var ss := SessionsOf(Fold(rows, ks).value.cache);
    forall i, j | 0 <= i < |ss| && 0 <= j < |rows| && RunOf(ks, j) == i + 1
      ensures Closes(ks, j) ==> ss[i].lastVote == rows[j].date
      ensures Ascending(rows) ==> DateLe(rows[j].date, ss[i].lastVote)
    {
      LastDateOf(rows, ks, i, j);
    }
  }

  /** On a date-ascending stream, every session's `first_vote` is no later
      than its `last_vote`. */
  lemma SessionDatesOrdered(rows: seq<Row>)
    requires Ascending(rows)
    ensures Reconstruct(rows).Success? ==>
      var ss := Reconstruct(rows).value;
      forall i :: 0 <= i < |ss| ==> DateLe(ss[i].firstVote, ss[i].lastVote)
  {
    if Reconstruct(rows).Success? {
      var ss := Reconstruct(rows).value;
      forall i | 0 <= i < |ss|
        ensures DateLe(ss[i].firstVote, ss[i].lastVote)
      {
        SessionDatesStep(rows, i);
      }
    }
  }

  lemma SessionDatesStep(rows: seq<Row>, i: nat)
    requires Ascending(rows) && Reconstruct(rows).Success? && i < |Reconstruct(rows).value|
    ensures DateLe(Reconstruct(rows).value[i].firstVote, Reconstruct(rows).value[i].lastVote)
  {
    var ss, ks := Reconstruct(rows).value, KeySeq(rows);
    SessionNumbering(rows);
    RunsCovered(ks);
    assert HasRow(ks, i);
    var j :| 0 <= j < |ks| && RunOf(ks, j) == i + 1;
    SessionFirstVotes(rows);
    SessionLastVotes(rows);
    DateLeTransitive(ss[i].firstVote, rows[j].date, ss[i].lastVote);
  }

  /** No two sessions have the same members. */
  lemma DistinctMemberSets(rows: seq<Row>)
    ensures Reconstruct(rows).Success? ==>
      var ss := Reconstruct(rows).value;
      forall i, i' :: 0 <= i < i' < |ss| ==> ss[i].members != ss[i'].members
  {
    if Reconstruct(rows).Success? {
      var ss, ks := Reconstruct(rows).value, KeySeq(rows);
      forall i, i' | 0 <= i < i' < |ss|
        ensures ss[i].members != ss[i'].members
      {
        var s, s' := OpenersOf(rows, ks, i, i');
        if ss[i].members == ss[i'].members {
          RosterKeyOfEqualSets(rows[s].voters, rows[s'].voters);
          assert false;
        }
      }
    }
  }

  /** `calculate_sessions` as a program: compute the roster keys, run the
      loop, and list the cache's sessions. */
  method CalculateSessions(rows: seq<Row>) returns (r: Result<seq<Session>, Regression>)
    ensures r == Reconstruct(rows)
  {
    var ks := KeySeq(rows);
    var folded := FoldLoop(rows, ks);
    match folded
    case Failure(e) => r := Failure(e);
    case Success(ctx) => r := Success(SessionsOf(ctx.cache));
  }

  /** The loop of `calculate_sessions`: it advances the state row by row
      under each row's key, updating the cache in place, and stops at the
      first regression. */
  method FoldLoop<K(==)>(rows: seq<Row>, ks: seq<K>) returns (r: Result<Context<K>, Regression>)
    requires |ks| == |rows|
    ensures r == Fold(rows, ks)
    ensures r.Success? <==> Contiguous(ks)
  {
    FoldSucceedsIffContiguous(rows, ks);
    var ctx: Context<K> := Start();
    var i := 0;
    while i < |rows|
      invariant i <= |rows|
      invariant Fold(rows[..i], ks[..i]) == Success(ctx)
    {
      var next := Advance(ctx, ks[i], rows[i]);
      FoldStep(rows, ks, i, ctx);
      if next.Failure? {
        PrefixFailurePersists(rows, ks, i + 1);
        return Failure(next.error);
      }
      ctx := next.value;
      i := i + 1;
    }
    FoldWhole(rows, ks);
    return Success(ctx);
  }

  /** Folding one more row advances the state by that row and its key. */
  lemma FoldStep<K>(rows: seq<Row>, ks: seq<K>, i: nat, ctx: Context<K>)
    requires |ks| == |rows| && i < |rows| && Fold(rows[..i], ks[..i]) == Success(ctx)
    ensures Fold(rows[..i + 1], ks[..i + 1]) == Advance(ctx, ks[i], rows[i])
  {
    assert rows[..i + 1][..i] == rows[..i];
    assert ks[..i + 1][..i] == ks[..i];
  }

  lemma FoldWhole<K>(rows: seq<Row>, ks: seq<K>)
    requires |ks| == |rows|
    ensures Fold(rows[..|rows|], ks[..|ks|]) == Fold(rows, ks)
  {
    assert rows[..|rows|] == rows && ks[..|ks|] == ks;
  }

  /** Once a prefix of the stream fails, the whole stream fails with the same error. */
  lemma {:induction false} PrefixFailurePersists<K>(rows: seq<Row>, ks: seq<K>, n: nat)
    requires |ks| == |rows| && n <= |rows| && Fold(rows[..n], ks[..n]).Failure?
    ensures Fold(rows, ks) == Fold(rows[..n], ks[..n])
    decreases |rows| - n
  {
    if n < |rows| {
      assert rows[..n + 1][..n] == rows[..n];
      assert ks[..n + 1][..n] == ks[..n];
      PrefixFailurePersists(rows, ks, n + 1);
    } else {
      FoldWhole(rows, ks);
    }
  }
}
