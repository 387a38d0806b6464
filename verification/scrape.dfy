/** The pure parts of the scraper in pyunhrcnominate/scrape.py: the loop of
    `record_to_resolution` that turns a MARC record's vote fields into the
    resolution's votes, and the paging loop of `resolutions`. The XML is
    replaced by its extracted fields and the search service by the pages it
    would return. */
module Scrape {
  import opened Results
  import opened Types
  import opened Seqs

  // ---------------------------------------------------------------------
  // Vote entries of one record

  /** One vote field (tag 967) of a record: the country code (subfield `b`)
      and the vote letter (subfield `d`), which may be missing. */
  datatype Entry = Entry(country: string, code: Option<string>)

  /** The record carried a vote letter the decoder does not know;
      `from_record_value` stops in the debugger there. */
  datatype BadCode = BadCode(country: string, code: string)

  /** Only three-letter country codes are kept. */
  predicate ValidCountry(country: string) {
    |country| == 3
  }

  /** The vote an entry stands for: a missing letter is NO_VOTE, otherwise
      the letter's decoding (`None` when it does not decode). */
  function EntryVote(e: Entry): (r: Option<Vote>)
    ensures e.code.None? ==> r == Some(NoVote)
    ensures e.code.Some? ==> r == FromRecordValue(e.code.value)
  {
    match e.code
    case None => Some(NoVote)
    case Some(letter) => FromRecordValue(letter)
  }

  /** A kept entry whose letter does not decode. */
  predicate Rejected(e: Entry) {
    ValidCountry(e.country) && EntryVote(e).None?
  }

  /** The loop of `record_to_resolution` over the vote fields: entries with
      a code of the wrong length are skipped, and each kept entry sets the
      country's vote in the ordered dictionary. */
  function NormaliseVotes(entries: seq<Entry>): (r: Result<Votes, BadCode>)
    ensures r.Success? ==> DistinctCountries(r.value)
    decreases |entries|
  {
    if |entries| == 0 then Success([])
    else
      match NormaliseVotes(entries[..|entries| - 1])
      case Failure(err) => Failure(err)
      case Success(vs) =>
        var e := entries[|entries| - 1];
        if !ValidCountry(e.country) then Success(vs)
        else
          match EntryVote(e)
          case None => Failure(BadCode(e.country, e.code.value))
          case Some(v) => Success(Put(vs, e.country, v))
  }

  /** The countries of the kept entries, in record order, repeats included. */
  function KeptCountries(entries: seq<Entry>): (r: seq<string>)
    ensures forall k :: 0 <= k < |r| ==> ValidCountry(r[k])
    decreases |entries|
  {
    if |entries| == 0 then []
    else
      var pre := KeptCountries(entries[..|entries| - 1]);
      var e := entries[|entries| - 1];
      if ValidCountry(e.country) then pre + [e.country] else pre
  }

  /** A country is kept exactly when some entry has it and it has three letters. */
  lemma {:induction false} KeptCountriesMembers(entries: seq<Entry>, c: string)
    ensures c in KeptCountries(entries) <==>
      ValidCountry(c) && exists k :: 0 <= k < |entries| && entries[k].country == c
    decreases |entries|
  {
    if |entries| > 0 {
      var n := |entries| - 1;
      var pre := entries[..n];
      KeptCountriesMembers(pre, c);
      if exists k :: 0 <= k < n && pre[k].country == c {
        var k :| 0 <= k < n && pre[k].country == c;
        assert entries[k].country == c;
      }
      if exists k :: 0 <= k < |entries| && entries[k].country == c {
        var k :| 0 <= k < |entries| && entries[k].country == c;
        if k < n {
          assert pre[k].country == c;
        }
      }
    }
  }

  /** The last kept entry for `c`, if any. */
  function LastEntry(entries: seq<Entry>, c: string): (r: Option<Entry>)
    ensures r.Some? ==> r.value.country == c && ValidCountry(c) && r.value in entries
    decreases |entries|
  {
    if |entries| == 0 then None
    else
      var e := entries[|entries| - 1];
      if e.country == c && ValidCountry(c) then Some(e)
      else
        var r := LastEntry(entries[..|entries| - 1], c);
        assert r.Some? ==> r.value in entries by {
          if r.Some? {
            var k :| 0 <= k < |entries| - 1 && entries[..|entries| - 1][k] == r.value;
            assert entries[k] == r.value;
          }
        }
        r
  }

  /** The reading fails exactly when some kept entry has a letter that does not decode. */
  lemma {:induction false} NormaliseFailsIffRejected(entries: seq<Entry>)
    ensures NormaliseVotes(entries).Failure? <==>
      exists k :: 0 <= k < |entries| && Rejected(entries[k])
    decreases |entries|
  {
    if |entries| > 0 {
      var n := |entries| - 1;
      var pre := entries[..n];
      NormaliseFailsIffRejected(pre);
      assert forall k :: 0 <= k < n ==> pre[k] == entries[k];
      if NormaliseVotes(pre).Failure? {
        var k :| 0 <= k < n && Rejected(pre[k]);
        assert Rejected(entries[k]);
      } else if NormaliseVotes(entries).Failure? {
        assert Rejected(entries[n]);
      } else {
        forall k | 0 <= k < |entries|
          ensures !Rejected(entries[k])
        {
          if k < n {
            assert !Rejected(pre[k]);
          }
        }
      }
    }
  }

  /** On failure, the error names the first kept entry whose letter does not decode. */
  lemma {:induction false} NormaliseReportsFirstRejected(entries: seq<Entry>)
    ensures NormaliseVotes(entries).Failure? ==>
      exists k :: 0 <= k < |entries| && Rejected(entries[k])
        && (forall m :: 0 <= m < k ==> !Rejected(entries[m]))
        && NormaliseVotes(entries).error == BadCode(entries[k].country, entries[k].code.value)
    decreases |entries|
  {
    if |entries| > 0 {
      var n := |entries| - 1;
      var pre := entries[..n];
      NormaliseReportsFirstRejected(pre);
      NormaliseFailsIffRejected(pre);
      assert forall k :: 0 <= k < n ==> pre[k] == entries[k];
      if NormaliseVotes(pre).Failure? {
        var k :| 0 <= k < n && Rejected(pre[k])
          && (forall m :: 0 <= m < k ==> !Rejected(pre[m]))
          && NormaliseVotes(pre).error == BadCode(pre[k].country, pre[k].code.value);
        assert Rejected(entries[k]);
      } else if NormaliseVotes(entries).Failure? {
        assert forall m :: 0 <= m < n ==> !Rejected(pre[m]);
        assert Rejected(entries[n]);
      }
    }
  }

  /** The dictionary's keys are the kept countries, each once. */
  lemma {:induction false} NormaliseKeys(entries: seq<Entry>)
    ensures NormaliseVotes(entries).Success? ==>
      forall c :: c in Countries(NormaliseVotes(entries).value) <==> c in KeptCountries(entries)
    decreases |entries|
  {
    if |entries| > 0 && NormaliseVotes(entries).Success? {
      var n := |entries| - 1;
      var pre, e := entries[..n], entries[n];
      NormaliseKeys(pre);
      if ValidCountry(e.country) {
        assert NormaliseVotes(entries).value == Put(NormaliseVotes(pre).value, e.country, EntryVote(e).value);
      }
    }
  }

  /** `keys` lists its elements in the order of their first occurrence in `seen`. */
  predicate InFirstSeenOrder(keys: seq<string>, seen: seq<string>) {
    forall i, j :: 0 <= i < j < |keys| ==>
      IndexOf(seen, keys[i]).Some? && IndexOf(seen, keys[j]).Some?
      && IndexOf(seen, keys[i]).value < IndexOf(seen, keys[j]).value
  }

  /** The keys are in the order of each country's first entry: a later entry
      for a country does not move it. */
  lemma {:induction false} NormaliseKeyOrder(entries: seq<Entry>)
    ensures NormaliseVotes(entries).Success? ==>
      InFirstSeenOrder(Countries(NormaliseVotes(entries).value), KeptCountries(entries))
    decreases |entries|
  {
    if |entries| > 0 && NormaliseVotes(entries).Success? {
      var n := |entries| - 1;
      var pre, e := entries[..n], entries[n];
      NormaliseKeyOrder(pre);
      NormaliseKeys(pre);
      var vs := NormaliseVotes(pre).value;
      var keys0, kept0 := Countries(vs), KeptCountries(pre);
      if ValidCountry(e.country) {
        assert KeptCountries(entries) == kept0 + [e.country];
        assert NormaliseVotes(entries).value == Put(vs, e.country, EntryVote(e).value);
        KeyOrderAfterPut(keys0, kept0, e.country);
      } else {
        assert KeptCountries(entries) == kept0;
        assert NormaliseVotes(entries).value == vs;
      }
    }
  }

  /** One kept entry preserves the key order. */
  lemma KeyOrderAfterPut(keys0: seq<string>, kept0: seq<string>, c: string)
    requires forall x :: x in keys0 <==> x in kept0
    requires InFirstSeenOrder(keys0, kept0)
    ensures InFirstSeenOrder(if c in keys0 then keys0 else keys0 + [c], kept0 + [c])
  {
    var kept := kept0 + [c];
    var keys := if c in keys0 then keys0 else keys0 + [c];
    forall x | x in kept0
      ensures IndexOf(kept, x) == IndexOf(kept0, x)
    {
      IndexOfAppendPresent(kept0, c, x);
    }
    forall i, j | 0 <= i < j < |keys|
      ensures IndexOf(kept, keys[i]).Some? && IndexOf(kept, keys[j]).Some?
      ensures IndexOf(kept, keys[i]).value < IndexOf(kept, keys[j]).value
    {
      assert keys[i] == keys0[i] && keys[i] in kept0;
      if j < |keys0| {
        assert keys[j] == keys0[j];
      } else {
        assert keys[j] == c && c !in kept0;
        assert IndexOf(kept, c).value == |kept0|;
      }
    }
  }

  /** Each country's vote is that of its last entry: a missing letter is
      NO_VOTE, a present one is its decoding. */
  lemma {:induction false} NormaliseLastWins(entries: seq<Entry>, c: string)
    ensures NormaliseVotes(entries).Success? ==>
      var last := LastEntry(entries, c);
      && (Lookup(NormaliseVotes(entries).value, c).Some? <==> last.Some?)
      && (last.Some? ==> Lookup(NormaliseVotes(entries).value, c) == EntryVote(last.value))
    decreases |entries|
  {
    if |entries| > 0 && NormaliseVotes(entries).Success? {
      var n := |entries| - 1;
      var pre, e := entries[..n], entries[n];
      NormaliseLastWins(pre, c);
      var vs := NormaliseVotes(pre).value;
      if !ValidCountry(e.country) {
        assert NormaliseVotes(entries).value == vs;
        assert LastEntry(entries, c) == LastEntry(pre, c);
      } else if e.country == c {
        assert NormaliseVotes(entries).value == Put(vs, c, EntryVote(e).value);
        assert LastEntry(entries, c) == Some(e);
      } else {
        assert NormaliseVotes(entries).value == Put(vs, e.country, EntryVote(e).value);
        assert LastEntry(entries, c) == LastEntry(pre, c);
      }
    }
  }

  /** The vote recorded for a country comes from its last entry: NO_VOTE
      when that entry has no letter, the letter's decoding otherwise. */
  lemma {:induction false} NormaliseVoteOfEntry(entries: seq<Entry>, c: string)
    requires NormaliseVotes(entries).Success? && LastEntry(entries, c).Some?
    ensures LastEntry(entries, c).value.code.None? ==>
      Lookup(NormaliseVotes(entries).value, c) == Some(NoVote)
    ensures LastEntry(entries, c).value.code.Some? ==>
      Lookup(NormaliseVotes(entries).value, c) == FromRecordValue(LastEntry(entries, c).value.code.value)
  {
    NormaliseLastWins(entries, c);
  }

  /** Only three-letter codes become keys. */
  lemma NormaliseDropsInvalid(entries: seq<Entry>)
    ensures NormaliseVotes(entries).Success? ==>
      forall c :: c in Countries(NormaliseVotes(entries).value) <==>
        ValidCountry(c) && exists k :: 0 <= k < |entries| && entries[k].country == c
  {
    NormaliseKeys(entries);
    forall c {
      KeptCountriesMembers(entries, c);
    }
  }

  // ---------------------------------------------------------------------
  // Records

  /** The fields `record_to_resolution` extracts from one MARC record: the
      resolution name (791 a), its date (269 a), the summary (the 245
      subfields, concatenated), the agenda (the 991 subfields, concatenated)
      and the vote fields. */
  datatype Record = Record(name: string, date: Date, summary: string, agenda: string, entries: seq<Entry>)

  /** What `record_to_resolution` builds: the resolution and its agenda,
      which `record_to_resolution` passes to `Resolution` as a fifth argument. */
  datatype Scraped = Scraped(resolution: Resolution, agenda: string)

  /** `record_to_resolution`. */
  function RecordToResolution(rec: Record): (r: Result<Scraped, BadCode>)
    ensures r.Success? <==> forall k :: 0 <= k < |rec.entries| ==> !Rejected(rec.entries[k])
    ensures r.Success? ==>
      && r.value.resolution.name == rec.name
      && r.value.resolution.date == rec.date
      && r.value.resolution.summary == rec.summary
      && r.value.agenda == rec.agenda
      && DistinctCountries(r.value.resolution.votes)
    ensures r.Success? ==> NormaliseVotes(rec.entries).Success? && r.value.resolution.votes == NormaliseVotes(rec.entries).value
  {
    NormaliseFailsIffRejected(rec.entries);
    match NormaliseVotes(rec.entries)
    case Failure(err) => Failure(err)
    case Success(vs) => Success(Scraped(Resolution(rec.name, rec.date, rec.summary, vs), rec.agenda))
  }

  // ---------------------------------------------------------------------
  // Paging

  /** Records requested per page. */
  const ChunkSize: nat := 100

  /** `get_records_page(offset)` against a service whose result pages are
      `pages`: the page starting at `offset`, or nothing past the end. */
  function PageAt<R>(pages: seq<seq<R>>, offset: nat): seq<R> {
    if offset % ChunkSize == 0 && offset / ChunkSize < |pages| then pages[offset / ChunkSize] else []
  }

  /** The number of pages before the first empty one. */
  function FirstEmpty<R>(pages: seq<seq<R>>): (m: nat)
    ensures m <= |pages|
    ensures forall p :: 0 <= p < m ==> |pages[p]| > 0
    ensures m < |pages| ==> |pages[m]| == 0
  {
    if |pages| == 0 || |pages[0]| == 0 then 0
    else 1 + FirstEmpty(pages[1..])
  }

  /** `resolutions()`: request pages at offsets 0, 100, 200, ... until one
      comes back empty, and emit the records of the earlier pages in order.
      `offsets` lists the requests made. */
  method Harvest<R>(pages: seq<seq<R>>) returns (records: seq<R>, offsets: seq<nat>)
    ensures |offsets| == FirstEmpty(pages) + 1
    ensures forall p :: 0 <= p < |offsets| ==> offsets[p] == p * ChunkSize
    ensures records == Concat(pages[..FirstEmpty(pages)])
  {
    var n: nat := 0;
    records, offsets := [], [];
    while true
      invariant n % ChunkSize == 0 && n / ChunkSize <= FirstEmpty(pages)
      invariant |offsets| == n / ChunkSize
      invariant forall p :: 0 <= p < |offsets| ==> offsets[p] == p * ChunkSize
      invariant records == Concat(pages[..n / ChunkSize])
      decreases |pages| - n / ChunkSize
    {
      var page := PageAt(pages, n);
      offsets := offsets + [n];
      if |page| == 0 {
        assert n / ChunkSize == FirstEmpty(pages);
        return;
      }
      assert pages[..n / ChunkSize + 1][..n / ChunkSize] == pages[..n / ChunkSize];
      records := records + page;
      n := n + ChunkSize;
    }
  }
}
