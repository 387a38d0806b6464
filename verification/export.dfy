/** The shaping logic of the CSV exporter (pyunhrcnominate/export.py): loading
    a resolution's votes, the sorted union of voters, the vote matrix, the
    keyword filter, the year batches, and the alignment of voter codes with the
    country table. Database reads and file writes are left to the caller: the
    model takes the rows read and returns the rows to be written. */
module Export {
  import opened Results
  import opened Types
  import Strings
  import opened Buckets
  import opened Seqs

  // ---------------------------------------------------------------------
  // Loading votes
  // ---------------------------------------------------------------------

  /** One row of the vote table: a country code and the text stored for its vote. */
  datatype StoredVote = StoredVote(country: string, vote: string)

  /** What the scraper writes for one resolution: each item of its votes, with
      the vote's `name`. */
  function Store(vs: Votes): (rows: seq<StoredVote>)
    ensures |rows| == |vs|
    ensures forall i :: 0 <= i < |vs| ==> rows[i] == StoredVote(vs[i].country, Name(vs[i].vote))
  {
    seq(|vs|, i requires 0 <= i < |vs| => StoredVote(vs[i].country, Name(vs[i].vote)))
  }

  /** Each row decoded with `decode`, in row order; `None` when some stored
      text does not decode (the exception that abandons the comprehension). */
  function DecodeAll(decode: string -> Option<Vote>, rows: seq<StoredVote>): (r: Option<Votes>)
    ensures r.Some? ==> |r.value| == |rows|
    decreases |rows|
  {
    if |rows| == 0 then Some([])
    else
      var n := |rows| - 1;
      match DecodeAll(decode, rows[..n])
      case None => None
      case Some(vs) =>
        match decode(rows[n].vote)
        case None => None
        case Some(v) => Some(vs + [CountryVote(rows[n].country, v)])
  }

  /** The dictionary built from decoded items: a later item for a country
      replaces the earlier value in place. */
  function Build(items: Votes): (r: Votes)
    ensures DistinctCountries(r)
    decreases |items|
  {
    if |items| == 0 then []
    else
      var n := |items| - 1;
      Put(Build(items[..n]), items[n].country, items[n].vote)
  }

  /** The `OrderedDict` comprehension over the rows, decoding each stored text
      with `decode`. */
  function LoadWith(decode: string -> Option<Vote>, rows: seq<StoredVote>): (r: Option<Votes>)
    ensures r.Some? ==> DistinctCountries(r.value)
  {
    match DecodeAll(decode, rows)
    case None => None
    case Some(items) => Some(Build(items))
  }

  /** Decoding fails exactly when some stored text does not decode. */
  lemma {:induction false} DecodeAllSucceedsIff(decode: string -> Option<Vote>, rows: seq<StoredVote>)
    ensures DecodeAll(decode, rows).Some? <==> forall i :: 0 <= i < |rows| ==> decode(rows[i].vote).Some?
    decreases |rows|
  {
    if |rows| > 0 {
      var n := |rows| - 1;
      var pre := rows[..n];
      DecodeAllSucceedsIff(decode, pre);
      if DecodeAll(decode, pre).None? {
        var i :| 0 <= i < n && decode(pre[i].vote).None?;
        assert pre[i] == rows[i];
      } else if decode(rows[n].vote).None? {
        assert DecodeAll(decode, rows).None?;
      } else {
        forall i | 0 <= i < |rows|
          ensures decode(rows[i].vote).Some?
        {
          if i < n {
            assert pre[i] == rows[i];
            assert decode(pre[i].vote).Some?;
          }
        }
      }
    }
  }

  /** Loading fails exactly when some stored text does not decode. */
  lemma LoadSucceedsIff(decode: string -> Option<Vote>, rows: seq<StoredVote>)
    ensures LoadWith(decode, rows).Some? <==> forall i :: 0 <= i < |rows| ==> decode(rows[i].vote).Some?
  {
    DecodeAllSucceedsIff(decode, rows);
  }

  /** `get_votes_by_resolution` as written: every stored text goes through
      `Vote.from_record_value`. */
  function LoadVotesAsWritten(rows: seq<StoredVote>): (r: Option<Votes>)
    ensures r.Some? <==> forall i :: 0 <= i < |rows| ==> FromRecordValue(rows[i].vote).Some?
  {
    LoadSucceedsIff(FromRecordValue, rows);
    LoadWith(FromRecordValue, rows)
  }

  /** As written, the votes of any resolution the scraper stored with at least
      one vote cannot be loaded: the first stored name already fails to decode. */
  lemma StoredVotesNeverLoad(vs: Votes)
    requires |vs| > 0
    ensures LoadVotesAsWritten(Store(vs)) == None
  {
    StoredNamesRejected(vs[0].vote);
    assert Store(vs)[0].vote == Name(vs[0].vote);
  }

  /** The loader with the decoder of stored names. */
  function LoadVotes(rows: seq<StoredVote>): (r: Option<Votes>)
    ensures r.Some? <==> forall i :: 0 <= i < |rows| ==> FromStoredName(rows[i].vote).Some?
    ensures r.Some? ==> DistinctCountries(r.value)
  {
    LoadSucceedsIff(FromStoredName, rows);
    LoadWith(FromStoredName, rows)
  }

  /** Decoding the stored names gives back the items they were stored from. */
  lemma {:induction false} DecodeStored(vs: Votes)
    ensures DecodeAll(FromStoredName, Store(vs)) == Some(vs)
    decreases |vs|
  {
    if |vs| > 0 {
      var n := |vs| - 1;
      var rows, pre := Store(vs), vs[..n];
      assert DecodeAll(FromStoredName, rows[..n]) == Some(pre) by {
        assert rows[..n] == Store(pre) by {
          assert forall i :: 0 <= i < n ==> rows[..n][i] == Store(pre)[i];
        }
        DecodeStored(pre);
      }
      assert FromStoredName(rows[n].vote) == Some(vs[n].vote) by {
        assert rows[n] == StoredVote(vs[n].country, Name(vs[n].vote));
        StoredNameRoundTrip(vs[n].vote);
      }
      assert DecodeAll(FromStoredName, rows) == Some(pre + [CountryVote(rows[n].country, vs[n].vote)]);
      assert vs == pre + [vs[n]];
    }
  }

  /** Items with distinct countries build the dictionary that lists them in order. */
  lemma {:induction false} BuildDistinct(vs: Votes)
    requires DistinctCountries(vs)
    ensures Build(vs) == vs
    decreases |vs|
  {
    if |vs| > 0 {
      var n := |vs| - 1;
      LastKeyFresh(vs);
      BuildDistinct(vs[..n]);
      BuildStep(vs);
    }
  }

  /** The last item of a dictionary's item list is appended by the build. */
  lemma BuildStep(vs: Votes)
    requires DistinctCountries(vs) && |vs| > 0
    requires Build(vs[..|vs| - 1]) == vs[..|vs| - 1]
    ensures Build(vs) == vs
  {
    var n := |vs| - 1;
    var pre, c, v := vs[..n], vs[n].country, vs[n].vote;
    LastKeyFresh(vs);
    PutFresh(pre, c, v);
    assert CountryVote(c, v) == vs[n];
    SplitLast(vs);
  }

  /** Storing a resolution's votes and loading them back gives the same
      dictionary, items in the same order. */
  lemma LoadStoreRoundTrip(vs: Votes)
    requires DistinctCountries(vs)
    ensures LoadVotes(Store(vs)) == Some(vs)
  {
    DecodeStored(vs);
    BuildDistinct(vs);
  }

  // ---------------------------------------------------------------------
  // The voters of a list of resolutions
  // ---------------------------------------------------------------------

  /** Every key of every resolution's votes, resolution by resolution. */
  function Voters(rs: seq<Resolution>): seq<string>
    decreases |rs|
  {
    if |rs| == 0 then [] else Voters(rs[..|rs| - 1]) + Countries(rs[|rs| - 1].votes)
  }

  /** `c` is a key of the votes of some resolution of `rs`. */
  predicate VotedSomewhere(rs: seq<Resolution>, c: string) {
    exists i :: 0 <= i < |rs| && c in Countries(rs[i].votes)
  }

  lemma {:induction false} VotersMembers(rs: seq<Resolution>, c: string)
    ensures c in Voters(rs) <==> VotedSomewhere(rs, c)
    decreases |rs|
  {
    if |rs| > 0 {
      var n := |rs| - 1;
      VotersMembers(rs[..n], c);
      if VotedSomewhere(rs[..n], c) {
        var i :| 0 <= i < n && c in Countries(rs[..n][i].votes);
        assert rs[i] == rs[..n][i];
      }
      if VotedSomewhere(rs, c) {
        var i :| 0 <= i < |rs| && c in Countries(rs[i].votes);
        if i < n {
          assert rs[..n][i] == rs[i];
        }
      }
    }
  }

  /** `countries_for_resolutions`: the set of all voter keys, sorted. */
  function CountriesForResolutions(rs: seq<Resolution>): (r: seq<string>)
    ensures Strings.StrictlyIncreasing(r)
    ensures forall c :: c in r <==> VotedSomewhere(rs, c)
  {
    var r := Strings.SortedSet(Voters(rs));
    assert forall c :: c in r <==> VotedSomewhere(rs, c) by {
      forall c
        ensures c in r <==> VotedSomewhere(rs, c)
      {
        VotersMembers(rs, c);
        assert c in r <==> c in Strings.Elems(r);
        assert c in Voters(rs) <==> c in Strings.Elems(Voters(rs));
      }
    }
    r
  }

  /** The list is THE sorted listing of the voters: any strictly increasing
      list of exactly the voters is equal to it. */
  lemma CountriesForResolutionsUnique(rs: seq<Resolution>, s: seq<string>)
    requires Strings.StrictlyIncreasing(s)
    requires forall c :: c in s <==> VotedSomewhere(rs, c)
    ensures s == CountriesForResolutions(rs)
  {
    var r := CountriesForResolutions(rs);
    assert Strings.Elems(s) == Strings.Elems(r);
    Strings.StrictlyIncreasingUnique(s, r);
  }

  // ---------------------------------------------------------------------
  // The vote matrix
  // ---------------------------------------------------------------------

  /** `str(n)` for a one-digit natural number. */
  function Digit(n: int): (s: string)
    requires 0 <= n <= 9
  {
    [('0' as int + n) as char]
  }

  /** A cell of the vote matrix: the decimal value of the country's vote, or
      the value of NOT_IN_SESSION when it did not vote on the resolution. */
  function Cell(res: Resolution, c: string): (s: string)
    ensures |s| == 1 && '0' <= s[0] <= '4'
    ensures c !in Countries(res.votes) ==> s == "4"
  {
    if c in Countries(res.votes) then Digit(Value(Lookup(res.votes, c).value))
    else Digit(Value(NotInSession))
  }

  /** `Vote(int(s))` for a cell: reads the matrix back. */
  function ParseCell(s: string): (r: Option<Vote>)
    ensures r.Some? ==> |s| == 1
  {
    if |s| == 1 && '0' <= s[0] <= '9' then FromValue(s[0] as int - '0' as int) else None
  }

  /** Reading a cell gives the country's vote, NOT_IN_SESSION for an absent country. */
  lemma CellRoundTrip(res: Resolution, c: string)
    ensures ParseCell(Cell(res, c)) == Some(VoteIn(res.votes, c))
  {
    ValueRoundTrip(VoteIn(res.votes, c));
  }

  /** The header row: `Country`, then the resolution names in order. */
  function Header(rs: seq<Resolution>): (h: seq<string>)
    ensures |h| == |rs| + 1 && h[0] == "Country"
    ensures forall i :: 0 <= i < |rs| ==> h[i + 1] == rs[i].name
  {
    ["Country"] + seq(|rs|, i requires 0 <= i < |rs| => rs[i].name)
  }

  /** The row of one country: the country, then one cell per resolution. */
  function Row(rs: seq<Resolution>, c: string): (row: seq<string>)
    ensures |row| == |rs| + 1 && row[0] == c
    ensures forall i :: 0 <= i < |rs| ==> row[i + 1] == Cell(rs[i], c)
  {
    [c] + seq(|rs|, i requires 0 <= i < |rs| => Cell(rs[i], c))
  }

  /** The rows `write_votes` writes: the header, then one row per country. */
  function VotesTable(rs: seq<Resolution>, countries: seq<string>): (t: seq<seq<string>>)
    ensures |t| == |countries| + 1
  {
    [Header(rs)] + seq(|countries|, k requires 0 <= k < |countries| => Row(rs, countries[k]))
  }

  /** Reading the matrix back: the header names the resolutions in order, every
      row is as wide as the header, starts with its country, and its cell under
      a resolution reads as that country's vote on it. */
  lemma VotesTableDecodes(rs: seq<Resolution>, countries: seq<string>)
    ensures var t := VotesTable(rs, countries);
      && |t| == |countries| + 1
      && |t[0]| == |rs| + 1 && t[0][0] == "Country"
      && (forall i :: 0 <= i < |rs| ==> t[0][i + 1] == rs[i].name)
      && forall k, i :: 0 <= k < |countries| && 0 <= i < |rs| ==>
        && |t[k + 1]| == |t[0]|
        && t[k + 1][0] == countries[k]
        && ParseCell(t[k + 1][i + 1]) == Some(VoteIn(rs[i].votes, countries[k]))
  {
    var t := VotesTable(rs, countries);
    forall k, i | 0 <= k < |countries| && 0 <= i < |rs|
      ensures |t[k + 1]| == |t[0]|
      ensures t[k + 1][0] == countries[k]
      ensures ParseCell(t[k + 1][i + 1]) == Some(VoteIn(rs[i].votes, countries[k]))
    {
      assert t[k + 1] == Row(rs, countries[k]);
      CellRoundTrip(rs[i], countries[k]);
    }
  }

  // ---------------------------------------------------------------------
  // Keyword filter
  // ---------------------------------------------------------------------

  /** `kw.lower() in summary.lower()`. */
  predicate MatchesKeyword(summary: string, kw: string) {
    Strings.Contains(Strings.Lower(summary), Strings.Lower(kw))
  }

  /** A resolution is kept when there are no keywords, or when its summary
      contains one of them, ignoring case. */
  predicate Selected(summary: string, keywords: seq<string>) {
    |keywords| == 0 || exists k :: 0 <= k < |keywords| && MatchesKeyword(summary, keywords[k])
  }

  /** The resolutions kept by the keyword filter, in their original order. */
  function FilterResolutions(rs: seq<Resolution>, keywords: seq<string>): (kept: seq<Resolution>)
    ensures |kept| <= |rs|
    ensures forall r :: r in kept ==> Selected(r.summary, keywords)
    decreases |rs|
  {
    if |rs| == 0 then []
    else
      var n := |rs| - 1;
      var pre := FilterResolutions(rs[..n], keywords);
      if Selected(rs[n].summary, keywords) then pre + [rs[n]] else pre
  }

  /** A resolution is kept iff it is one of the input and is selected. */
  lemma {:induction false} FilterMembers(rs: seq<Resolution>, keywords: seq<string>, r: Resolution)
    ensures r in FilterResolutions(rs, keywords) <==> r in rs && Selected(r.summary, keywords)
    decreases |rs|
  {
    if |rs| > 0 {
      var n := |rs| - 1;
      FilterMembers(rs[..n], keywords, r);
      assert rs == rs[..n] + [rs[n]];
    }
  }

  /** The filter distributes over concatenation: it keeps the relative order. */
  lemma {:induction false} FilterAppend(a: seq<Resolution>, b: seq<Resolution>, keywords: seq<string>)
    ensures FilterResolutions(a + b, keywords) == FilterResolutions(a, keywords) + FilterResolutions(b, keywords)
    decreases |b|
  {
    if |b| == 0 {
      assert a + b == a;
    } else {
      var n, ab := |b| - 1, a + b;
      var x := b[n];
      FilterAppend(a, b[..n], keywords);
      assert ab[..|ab| - 1] == a + b[..n] && ab[|ab| - 1] == x;
      var fa, fb := FilterResolutions(a, keywords), FilterResolutions(b[..n], keywords);
      if Selected(x.summary, keywords) {
        assert FilterResolutions(ab, keywords) == (fa + fb) + [x];
        assert FilterResolutions(b, keywords) == fb + [x];
        assert (fa + fb) + [x] == fa + (fb + [x]);
      } else {
        assert FilterResolutions(ab, keywords) == fa + fb;
        assert FilterResolutions(b, keywords) == fb;
      }
    }
  }

  /** Without keywords every resolution is kept. */
  lemma {:induction false} FilterNoKeywords(rs: seq<Resolution>)
    ensures FilterResolutions(rs, []) == rs
    decreases |rs|
  {
    if |rs| > 0 {
      var n := |rs| - 1;
      FilterNoKeywords(rs[..n]);
      assert rs == rs[..n] + [rs[n]];
    }
  }

  /** The filtering loop of `main`, keywords tried in order until one matches. */
  method SelectResolutions(rs: seq<Resolution>, keywords: seq<string>) returns (kept: seq<Resolution>)
    ensures kept == FilterResolutions(rs, keywords)
  {
    kept := [];
    var i := 0;
    while i < |rs|
      invariant i <= |rs|
      invariant kept == FilterResolutions(rs[..i], keywords)
    {
      var lowerRes := Strings.Lower(rs[i].summary);
      var matched := |keywords| == 0;
      var k := 0;
      while k < |keywords|
        invariant k <= |keywords|
        invariant matched <==> |keywords| == 0 || exists m :: 0 <= m < k && MatchesKeyword(rs[i].summary, keywords[m])
      {
        if Strings.Contains(lowerRes, Strings.Lower(keywords[k])) {
          matched := true;
          break;
        }
        k := k + 1;
      }
      assert matched <==> Selected(rs[i].summary, keywords);
      assert rs[..i + 1][..i] == rs[..i];
      if matched {
        kept := kept + [rs[i]];
      }
      i := i + 1;
    }
    assert rs[..|rs|] == rs;
  }

  // ---------------------------------------------------------------------
  // Year batches
  // ---------------------------------------------------------------------

  /** A batch name: `all`, or the text of a year. */
  datatype BatchKey = All | Year(year: int)

  /** The key each resolution is filed under: the text of its year. */
  function YearKeys(rs: seq<Resolution>): (ks: seq<BatchKey>)
    ensures |ks| == |rs|
    ensures forall i :: 0 <= i < |rs| ==> ks[i] == Year(rs[i].date.year)
  {
    seq(|rs|, i requires 0 <= i < |rs| => Year(rs[i].date.year))
  }

  /** The `batches` dictionary of `main`: `all` holding every filtered
      resolution, then each resolution appended to the batch of its year. */
  function Batches(filtered: seq<Resolution>): (bs: seq<Bucket<BatchKey, Resolution>>)
    ensures DistinctKeys(bs)
  {
    GroupFrom([Bucket(All, filtered)], YearKeys(filtered), filtered)
  }

  lemma BatchesShape(filtered: seq<Resolution>)
    ensures Shaped(Batches(filtered), [Bucket(All, filtered)], YearKeys(filtered), filtered)
  {
    var init := [Bucket(All, filtered)];
    assert Fresh(init, YearKeys(filtered)) by {
      forall i | 0 <= i < |filtered|
        ensures YearKeys(filtered)[i] != All
      {
      }
    }
    GroupFromShaped(init, YearKeys(filtered), filtered);
  }

  /** `batches['all']` is the filtered list itself. */
  lemma BatchAll(filtered: seq<Resolution>)
    ensures |Batches(filtered)| > 0
    ensures Batches(filtered)[0] == Bucket(All, filtered)
  {
    BatchesShape(filtered);
  }

  /** After `all` come the years of the filtered resolutions, each once, in
      order of first appearance. */
  lemma YearBatchKeys(filtered: seq<Resolution>)
    ensures var bs, ys := Batches(filtered), FirstSeen(YearKeys(filtered));
      && |bs| == |ys| + 1
      && (forall k :: 0 <= k < |ys| ==> bs[k + 1].key == ys[k])
      && forall k, l :: 1 <= k < l < |bs| ==> Before(YearKeys(filtered), bs[k].key, bs[l].key)
  {
    BatchesShape(filtered);
    ShapedKeys(Batches(filtered), [Bucket(All, filtered)], YearKeys(filtered), filtered);
  }

  /** Each year batch holds the filtered resolutions of its year, in their
      original order. */
  lemma YearBatches(filtered: seq<Resolution>)
    ensures var bs := Batches(filtered);
      forall k :: 1 <= k < |bs| ==> bs[k].items == Having(YearKeys(filtered), filtered, bs[k].key)
  {
    BatchesShape(filtered);
    ShapedItems(Batches(filtered), [Bucket(All, filtered)], YearKeys(filtered), filtered);
  }

  /** A resolution lies in a year batch iff it was kept by the filter and its
      year is the batch's year. */
  lemma YearBatchMembers(filtered: seq<Resolution>, k: nat, x: Resolution)
    requires 1 <= k < |Batches(filtered)|
    ensures x in Batches(filtered)[k].items <==> x in filtered && Batches(filtered)[k].key == Year(x.date.year)
  {
    YearBatches(filtered);
    var ks, key := YearKeys(filtered), Batches(filtered)[k].key;
    HavingMembers(ks, filtered, key, x);
    if x in filtered && key == Year(x.date.year) {
      var i :| 0 <= i < |filtered| && filtered[i] == x;
      assert ks[i] == key;
    }
  }

  /** Every filtered resolution lies in some year batch. */
  lemma InSomeYearBatch(filtered: seq<Resolution>, x: Resolution)
    requires x in filtered
    ensures exists k :: 1 <= k < |Batches(filtered)| && x in Batches(filtered)[k].items
  {
    var ks, ys := YearKeys(filtered), FirstSeen(YearKeys(filtered));
    YearBatchKeys(filtered);
    var m :| 0 <= m < |filtered| && filtered[m] == x;
    assert ks[m] == Year(x.date.year);
    var k :| 0 <= k < |ys| && ys[k] == ks[m];
    YearBatchMembers(filtered, k + 1, x);
  }

  /** Every filtered resolution lies in exactly one year batch. */
  lemma OneYearBatchEach(filtered: seq<Resolution>, x: Resolution)
    requires x in filtered
    ensures var bs := Batches(filtered);
      && (exists k :: 1 <= k < |bs| && x in bs[k].items)
      && forall k, l :: 1 <= k < |bs| && 1 <= l < |bs| && x in bs[k].items && x in bs[l].items ==> k == l
  {
    var bs := Batches(filtered);
    InSomeYearBatch(filtered, x);
    forall k, l | 1 <= k < |bs| && 1 <= l < |bs| && x in bs[k].items && x in bs[l].items
      ensures k == l
    {
      YearBatchMembers(filtered, k, x);
      YearBatchMembers(filtered, l, x);
    }
  }

  // ---------------------------------------------------------------------
  // Aligning voter codes with the country table
  // ---------------------------------------------------------------------

  /** Row `k` is the last row with code `name`. */
  predicate LastNamed(countries: seq<Country>, name: string, k: int) {
    && 0 <= k < |countries|
    && countries[k].shortName == name
    && forall l :: k < l < |countries| ==> countries[l].shortName != name
  }

  /** `{c.short_name: c for c in countries}[name]`: the row the
      comprehension keeps for the code, the last one; `None` for a missing
      code (the `KeyError`). */
  function CountryNamed(countries: seq<Country>, name: string): (r: Option<Country>)
    ensures r.None? <==> forall k :: 0 <= k < |countries| ==> countries[k].shortName != name
    ensures r.Some? ==> r.value.shortName == name
    decreases |countries|
  {
    if |countries| == 0 then None
    else
      var n := |countries| - 1;
      if countries[n].shortName == name then Some(countries[n])
      else
        var r := CountryNamed(countries[..n], name);
        assert forall k :: 0 <= k < n ==> countries[..n][k] == countries[k];
        r
  }

  /** A later row for a code wins over an earlier one: the row found is the
      last row with the code. */
  lemma {:induction false} CountryNamedIsLast(countries: seq<Country>, name: string, k: nat)
    requires LastNamed(countries, name, k)
    ensures CountryNamed(countries, name) == Some(countries[k])
    decreases |countries|
  {
    var n := |countries| - 1;
    if k < n {
      assert countries[n].shortName != name;
      var pre := countries[..n];
      assert pre[k] == countries[k];
      assert forall l :: k < l < n ==> pre[l] == countries[l];
      CountryNamedIsLast(pre, name, k);
    }
  }

  /** The legislator list of `export`: the country row of every name, in the
      order of the names; `None` (the `KeyError`) when a name has no row. */
  function AlignCountries(countries: seq<Country>, names: seq<string>): (r: Option<seq<Country>>)
    ensures r.Some? <==> forall i :: 0 <= i < |names| ==> CountryNamed(countries, names[i]).Some?
    ensures r.Some? ==> |r.value| == |names|
    ensures r.Some? ==> forall i :: 0 <= i < |names| ==> Some(r.value[i]) == CountryNamed(countries, names[i])
    decreases |names|
  {
    if |names| == 0 then Some([])
    else
      match CountryNamed(countries, names[0])
      case None => None
      case Some(c) =>
        match AlignCountries(countries, names[1..])
        case None => None
        case Some(rest) => Some([c] + rest)
  }

  /** The legislators of one batch: the country rows of its sorted voters.
      It fails exactly when some voter has no row in the country table. */
  lemma LegislatorsFailIffUnknownVoter(rs: seq<Resolution>, countries: seq<Country>)
    ensures AlignCountries(countries, CountriesForResolutions(rs)).None? <==>
      exists c :: VotedSomewhere(rs, c) && forall k :: 0 <= k < |countries| ==> countries[k].shortName != c
  {
    var names := CountriesForResolutions(rs);
    if AlignCountries(countries, names).None? {
      var i :| 0 <= i < |names| && CountryNamed(countries, names[i]).None?;
      assert names[i] in names;
    }
    if exists c :: VotedSomewhere(rs, c) && forall k :: 0 <= k < |countries| ==> countries[k].shortName != c {
      var c :| VotedSomewhere(rs, c) && forall k :: 0 <= k < |countries| ==> countries[k].shortName != c;
      var i :| 0 <= i < |names| && names[i] == c;
      assert CountryNamed(countries, names[i]).None?;
    }
  }
}
