/** The records shared by the pipeline (pyunhrcnominate/types.py): the vote
    enumeration with its one-letter decoder, per-country votes, resolutions,
    and the country table row read by the exporters. */
module Types {
  import opened Results
  import Strings

  /** A calendar date; Python orders `date` values by year, then month, then day. */
  datatype Date = Date(year: int, month: int, day: int)

  /** Python's `a <= b` on dates. */
  predicate DateLe(a: Date, b: Date) {
    a.year < b.year
    || (a.year == b.year && a.month < b.month)
    || (a.year == b.year && a.month == b.month && a.day <= b.day)
  }

  lemma DateLeTransitive(a: Date, b: Date, c: Date)
    requires DateLe(a, b) && DateLe(b, c)
    ensures DateLe(a, c)
  {
  }

  /** The `Vote` enumeration. */
  datatype Vote = No | Yes | Abstain | NoVote | NotInSession

  /** The enumeration's integer `value`. */
  function Value(v: Vote): (n: int)
    ensures 0 <= n <= 4
    ensures n == 4 <==> v == NotInSession
  {
    match v
    case No => 0
    case Yes => 1
    case Abstain => 2
    case NoVote => 3
    case NotInSession => 4
  }

  /** `Vote(n)`: the member whose value is `n`, if any. */
  function FromValue(n: int): (r: Option<Vote>)
    ensures r.Some? <==> 0 <= n <= 4
    ensures r.Some? ==> Value(r.value) == n
  {
    if n == 0 then Some(No)
    else if n == 1 then Some(Yes)
    else if n == 2 then Some(Abstain)
    else if n == 3 then Some(NoVote)
    else if n == 4 then Some(NotInSession)
    else None
  }

  /** The values are distinct: reading a value back gives the member it came from. */
  lemma ValueRoundTrip(v: Vote)
    ensures FromValue(Value(v)) == Some(v)
  {
  }

  /** The enumeration's `name`, the text the scraper stores in the vote table. */
  function Name(v: Vote): string {
    match v
    case No => "NO"
    case Yes => "YES"
    case Abstain => "ABSTAIN"
    case NoVote => "NO_VOTE"
    case NotInSession => "NOT_IN_SESSION"
  }

  /** `Vote.from_record_value`: a one-letter code of the MARC record, read
      case-insensitively. `from_record_value` halts on any other text; that is `None`. */
  function FromRecordValue(val: string): (r: Option<Vote>)
    ensures r != Some(NotInSession)
    ensures r.Some? <==> |val| == 1 && val[0] in "NnYyAa."
  {
    var u := Strings.Upper(val);
    if u == "N" then Some(No)
    else if u == "Y" then Some(Yes)
    else if u == "A" then Some(Abstain)
    else if u == "." then Some(NoVote)
    else None
  }

  /** The letters the decoder accepts, in both cases. */
  lemma RecordLetters()
    ensures FromRecordValue("N") == Some(No) && FromRecordValue("n") == Some(No)
    ensures FromRecordValue("Y") == Some(Yes) && FromRecordValue("y") == Some(Yes)
    ensures FromRecordValue("A") == Some(Abstain) && FromRecordValue("a") == Some(Abstain)
    ensures FromRecordValue(".") == Some(NoVote)
  {
  }

  /** Decoding ignores ASCII case. */
  lemma RecordValueIgnoresCase(val: string)
    ensures FromRecordValue(val) == FromRecordValue(Strings.Upper(val))
  {
    Strings.UpperIdempotent(val);
  }

  /** The names the scraper stores are never decoded by `FromRecordValue`:
      each is longer than one character, so every stored vote is the error case. */
  lemma StoredNamesRejected(v: Vote)
    ensures FromRecordValue(Name(v)) == None
  {
    assert |Name(v)| >= 2;
  }

  /** The decoder the loader evidently needs: it reads back a stored `name`. */
  function FromStoredName(s: string): (r: Option<Vote>)
    ensures r.Some? ==> Name(r.value) == s
  {
    if s == "NO" then Some(No)
    else if s == "YES" then Some(Yes)
    else if s == "ABSTAIN" then Some(Abstain)
    else if s == "NO_VOTE" then Some(NoVote)
    else if s == "NOT_IN_SESSION" then Some(NotInSession)
    else None
  }

  /** Storing a vote by name and reading it back gives the same vote. */
  lemma StoredNameRoundTrip(v: Vote)
    ensures FromStoredName(Name(v)) == Some(v)
  {
  }

  /** `CountryVote`: one country's vote on one resolution. */
  datatype CountryVote = CountryVote(country: string, vote: Vote)

  /** `Votes`, an `OrderedDict` from country code to `CountryVote`, as its item list. */
  type Votes = seq<CountryVote>

  /** The dictionary's keys, in insertion order. */
  function Countries(vs: Votes): (r: seq<string>)
    ensures |r| == |vs|
    ensures forall i :: 0 <= i < |vs| ==> r[i] == vs[i].country
  {
    seq(|vs|, i requires 0 <= i < |vs| => vs[i].country)
  }

  /** No key occurs twice. */
  predicate DistinctCountries(vs: Votes) {
    forall i, j :: 0 <= i < j < |vs| ==> vs[i].country != vs[j].country
  }

  /** The position of the first occurrence of `x` in `s`, if any. */
  function IndexOf<K(==)>(s: seq<K>, x: K): (r: Option<nat>)
    ensures r.Some? <==> x in s
    ensures r.Some? ==> r.value < |s| && s[r.value] == x
    ensures r.Some? ==> forall k :: 0 <= k < r.value ==> s[k] != x
  {
    if |s| == 0 then None
    else if s[0] == x then Some(0)
    else
      var rest := IndexOf(s[1..], x);
      assert x in s[1..] ==> x in s by {
        if x in s[1..] {
          var k :| 0 <= k < |s[1..]| && s[1..][k] == x;
          assert s[k + 1] == x;
        }
      }
      assert x in s ==> x in s[1..] by {
        if x in s {
          var k :| 0 <= k < |s| && s[k] == x;
          assert s[1..][k - 1] == x;
        }
      }
      match rest
      case None => None
      case Some(i) => Some(i + 1)
  }

  /** Appending a different element does not move the first occurrence of `x`. */
  lemma IndexOfAppend<K>(s: seq<K>, y: K, x: K)
    requires x != y
    ensures IndexOf(s + [y], x) == IndexOf(s, x)
  {
    var t := s + [y];
    assert x in t <==> x in s by {
      if x in t {
        var k :| 0 <= k < |t| && t[k] == x;
        assert s[k] == x;
      }
      if x in s {
        var k :| 0 <= k < |s| && s[k] == x;
        assert t[k] == x;
      }
    }
    if x in s {
      var i, i' := IndexOf(t, x).value, IndexOf(s, x).value;
      assert t[i'] == x;
      assert s[i] == x;
    }
  }

  /** Appending does not move the first occurrence of an element already present. */
  lemma IndexOfAppendPresent<K>(s: seq<K>, y: K, x: K)
    requires x in s
    ensures IndexOf(s + [y], x) == IndexOf(s, x)
  {
    var t := s + [y];
    var i' := IndexOf(s, x).value;
    assert t[i'] == x;
    var i := IndexOf(t, x).value;
    assert i <= i';
    assert s[i] == x;
    assert i == i';
    assert IndexOf(t, x) == Some(i) && IndexOf(s, x) == Some(i');
  }

  /** `votes[c].vote` when `c in votes`: the vote stored under the first (in a
      dictionary, the only) entry for `c`. */
  function Lookup(vs: Votes, c: string): (r: Option<Vote>)
    ensures r.Some? <==> c in Countries(vs)
    ensures r.Some? ==> CountryVote(c, r.value) in vs
  {
    match IndexOf(Countries(vs), c)
    case None => None
    case Some(i) => Some(vs[i].vote)
  }

  /** The vote a country is recorded with: its own vote when it is a key,
      NOT_IN_SESSION when it did not take part. */
  function VoteIn(vs: Votes, c: string): (r: Vote)
    ensures c in Countries(vs) ==> Some(r) == Lookup(vs, c)
    ensures c !in Countries(vs) ==> r == NotInSession
  {
    match Lookup(vs, c)
    case Some(v) => v
    case None => NotInSession
  }

  /** `votes[c] = CountryVote(c, v)`: replaces the value in place when `c` is
      a key, and appends otherwise. */
  function Put(vs: Votes, c: string, v: Vote): (r: Votes)
    requires DistinctCountries(vs)
    ensures DistinctCountries(r)
    ensures Lookup(r, c) == Some(v)
    ensures forall d :: d != c ==> Lookup(r, d) == Lookup(vs, d)
    ensures Countries(r) == if c in Countries(vs) then Countries(vs) else Countries(vs) + [c]
  {
    match IndexOf(Countries(vs), c)
    case Some(i) =>
      var r := vs[i := CountryVote(c, v)];
      assert Countries(r) == Countries(vs);
      r
    case None =>
      var r := vs + [CountryVote(c, v)];
      assert Countries(r) == Countries(vs) + [c];
      assert forall d :: d != c ==> Lookup(r, d) == Lookup(vs, d) by {
        forall d | d != c
          ensures Lookup(r, d) == Lookup(vs, d)
        {
          IndexOfAppend(Countries(vs), c, d);
        }
      }
      r
  }

  /** Assigning a new key appends one item and leaves the others in place. */
  lemma PutFresh(vs: Votes, c: string, v: Vote)
    requires DistinctCountries(vs)
    requires c !in Countries(vs)
    ensures Put(vs, c, v) == vs + [CountryVote(c, v)]
  {
    assert IndexOf(Countries(vs), c) == None;
  }

  /** In a dictionary, the last key does not occur among the earlier ones. */
  lemma LastKeyFresh(vs: Votes)
    requires DistinctCountries(vs) && |vs| > 0
    ensures DistinctCountries(vs[..|vs| - 1])
    ensures vs[|vs| - 1].country !in Countries(vs[..|vs| - 1])
  {
    var n := |vs| - 1;
    forall k | 0 <= k < n
      ensures Countries(vs[..n])[k] != vs[n].country
    {
      assert vs[..n][k] == vs[k];
    }
  }

  /** `Resolution`: a roll-call vote and the votes cast on it. */
  datatype Resolution = Resolution(name: string, date: Date, summary: string, votes: Votes)

  /** One row of the country table: code, long name and political category. */
  datatype Country = Country(shortName: string, longName: string, category: string)
}
