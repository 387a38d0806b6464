/** The spreadsheet exporter (pyunhrcnominate/excel.py): the country codes
    grouped by political category, the header row with one section per
    category, and the row of each resolution with its vote tallies and the
    vote of every country under that country's column. */
module Excel {
  import opened Results
  import opened Types
  import Strings
  import opened Seqs
  import opened Buckets

  // ---------------------------------------------------------------------
  // Countries grouped by category
  // ---------------------------------------------------------------------

  /** The category of each row of the country table, in table order. */
  function Categories(cs: seq<Country>): (r: seq<string>)
    ensures |r| == |cs|
    ensures forall i :: 0 <= i < |cs| ==> r[i] == cs[i].category
  {
    seq(|cs|, i requires 0 <= i < |cs| => cs[i].category)
  }

  /** The code of each row of the country table, in table order. */
  function Codes(cs: seq<Country>): (r: seq<string>)
    ensures |r| == |cs|
    ensures forall i :: 0 <= i < |cs| ==> r[i] == cs[i].shortName
  {
    seq(|cs|, i requires 0 <= i < |cs| => cs[i].shortName)
  }

  /** The country table's primary key: no code occurs on two rows. */
  predicate UniqueCodes(cs: seq<Country>) {
    forall i, j :: 0 <= i < j < |cs| ==> cs[i].shortName != cs[j].shortName
  }

  /** The grouping loop: each code appended to the list of its category, a
      category's list opened the first time the category is met. */
  function Grouped(cs: seq<Country>): (gs: seq<Bucket<string, string>>)
    ensures DistinctKeys(gs)
  {
    GroupFrom([], Categories(cs), Codes(cs))
  }

  /** `country_map` once each list is sorted: same categories in the same
      order, each list an ascending rearrangement of the grouped codes. */
  function CountryMap(cs: seq<Country>): (gs: seq<Bucket<string, string>>)
    ensures |gs| == |Grouped(cs)|
    ensures forall k :: 0 <= k < |gs| ==> gs[k].key == Grouped(cs)[k].key
    ensures forall k :: 0 <= k < |gs| ==> Strings.NonDecreasing(gs[k].items)
    ensures forall k :: 0 <= k < |gs| ==> multiset(gs[k].items) == multiset(Grouped(cs)[k].items)
  {
    var g := Grouped(cs);
    seq(|g|, k requires 0 <= k < |g| => Bucket(g[k].key, Strings.Sort(g[k].items)))
  }

  lemma GroupedShape(cs: seq<Country>)
    ensures Shaped(Grouped(cs), [], Categories(cs), Codes(cs))
  {
    GroupFromShaped([], Categories(cs), Codes(cs));
  }

  /** The categories are those of the table, each once, in order of first
      appearance. */
  lemma CategoryKeys(cs: seq<Country>)
    ensures var gs := CountryMap(cs);
      && |gs| == |FirstSeen(Categories(cs))|
      && forall k :: 0 <= k < |gs| ==> gs[k].key == FirstSeen(Categories(cs))[k]
  {
    GroupedShape(cs);
    ShapedKeys(Grouped(cs), [], Categories(cs), Codes(cs));
  }

  /** An earlier category first appears in the table before a later one. */
  lemma CategoryOrder(cs: seq<Country>)
    ensures var gs := CountryMap(cs);
      forall k, l :: 0 <= k < l < |gs| ==> Before(Categories(cs), gs[k].key, gs[l].key)
  {
    GroupedShape(cs);
    ShapedKeys(Grouped(cs), [], Categories(cs), Codes(cs));
  }

  /** Sorting a list keeps its members. */
  lemma SortKeepsMembers(cs: seq<Country>, k: nat, code: string)
    requires k < |CountryMap(cs)|
    ensures code in CountryMap(cs)[k].items <==> code in Grouped(cs)[k].items
  {
    var a, b := CountryMap(cs)[k].items, Grouped(cs)[k].items;
    assert multiset(a) == multiset(b);
    assert code in a <==> code in multiset(a);
    assert code in b <==> code in multiset(b);
  }

  /** A code is listed under a category iff some row of the table has that
      code and that category. */
  lemma GroupMembers(cs: seq<Country>, k: nat, code: string)
    requires k < |CountryMap(cs)|
    ensures code in CountryMap(cs)[k].items <==>
      exists i :: 0 <= i < |cs| && cs[i].shortName == code && cs[i].category == CountryMap(cs)[k].key
  {
    var g := Grouped(cs);
    var key := g[k].key;
    SortKeepsMembers(cs, k, code);
    GroupedShape(cs);
    ShapedItems(g, [], Categories(cs), Codes(cs));
    assert g[k].items == Having(Categories(cs), Codes(cs), key);
    HavingMembers(Categories(cs), Codes(cs), key, code);
    if exists i :: 0 <= i < |cs| && cs[i].shortName == code && cs[i].category == key {
      var i :| 0 <= i < |cs| && cs[i].shortName == code && cs[i].category == key;
      assert Categories(cs)[i] == key && Codes(cs)[i] == code;
    }
  }

  /** With unique codes, a country is listed under a category iff it is its own. */
  lemma OwnGroupAt(cs: seq<Country>, i: nat, k: nat)
    requires UniqueCodes(cs) && i < |cs| && k < |CountryMap(cs)|
    ensures cs[i].shortName in CountryMap(cs)[k].items <==> CountryMap(cs)[k].key == cs[i].category
  {
    var key, code := CountryMap(cs)[k].key, cs[i].shortName;
    GroupMembers(cs, k, code);
    if code in CountryMap(cs)[k].items {
      var i' :| 0 <= i' < |cs| && cs[i'].shortName == code && cs[i'].category == key;
      assert i' == i;
    }
  }

  /** With unique codes, every country is listed in exactly one group: the
      group of its own category. */
  lemma OwnGroupOnly(cs: seq<Country>, i: nat)
    requires UniqueCodes(cs) && i < |cs|
    ensures var gs := CountryMap(cs);
      && (exists k :: 0 <= k < |gs| && gs[k].key == cs[i].category)
      && forall k :: 0 <= k < |gs| ==> (cs[i].shortName in gs[k].items <==> gs[k].key == cs[i].category)
  {
    var gs, ys := CountryMap(cs), FirstSeen(Categories(cs));
    CategoryKeys(cs);
    assert Categories(cs)[i] == cs[i].category;
    var k :| 0 <= k < |ys| && ys[k] == cs[i].category;
    assert gs[k].key == cs[i].category;
    forall k | 0 <= k < |gs|
      ensures cs[i].shortName in gs[k].items <==> gs[k].key == cs[i].category
    {
      OwnGroupAt(cs, i, k);
    }
  }

  // ---------------------------------------------------------------------
  // Header row
  // ---------------------------------------------------------------------

  /** The fixed leading columns: seven resolution fields, then the tallies. */
  const Fixed: seq<string> := ["Name", "Type", "Start of Session", "Date", "Summary", "Agenda", "Passed", "Yes", "No", "Abstain", "Missing"]

  /** The header section of one category: an empty column, the category, its codes. */
  function HeaderSection(g: Bucket<string, string>): (s: seq<string>)
    ensures |s| == |g.items| + 2 && s[0] == "" && s[1] == g.key
    ensures forall j :: 0 <= j < |g.items| ==> s[j + 2] == g.items[j]
  {
    ["", g.key] + g.items
  }

  function HeaderSections(gs: seq<Bucket<string, string>>): (ss: seq<seq<string>>)
    ensures |ss| == |gs|
    ensures forall k :: 0 <= k < |gs| ==> ss[k] == HeaderSection(gs[k])
  {
    seq(|gs|, k requires 0 <= k < |gs| => HeaderSection(gs[k]))
  }

  /** The header row: the fixed columns, then each category's section in order. */
  function Header(gs: seq<Bucket<string, string>>): (h: seq<string>)
    ensures |h| >= |Fixed| && h[..|Fixed|] == Fixed
  {
    Fixed + Concat(HeaderSections(gs))
  }

  // ---------------------------------------------------------------------
  // Resolution rows
  // ---------------------------------------------------------------------

  /** A spreadsheet cell: text, or a number. */
  datatype Cell = Text(text: string) | Number(n: int)

  /** The number of values of the votes dictionary equal to `v`. */
  function Tally(vs: Votes, v: Vote): (n: nat)
    ensures n <= |vs|
    decreases |vs|
  {
    if |vs| == 0 then 0
    else Tally(vs[..|vs| - 1], v) + (if vs[|vs| - 1].vote == v then 1 else 0)
  }

  /** The votes cast, one per item of the dictionary. */
  function Cast(vs: Votes): (r: seq<Vote>)
    ensures |r| == |vs|
    ensures forall i :: 0 <= i < |vs| ==> r[i] == vs[i].vote
  {
    seq(|vs|, i requires 0 <= i < |vs| => vs[i].vote)
  }

  /** A tally is the multiplicity of its vote among the votes cast. */
  lemma {:induction false} TallyCounts(vs: Votes, v: Vote)
    ensures Tally(vs, v) == multiset(Cast(vs))[v]
    decreases |vs|
  {
    if |vs| > 0 {
      var n := |vs| - 1;
      TallyCounts(vs[..n], v);
      assert Cast(vs) == Cast(vs[..n]) + [vs[n].vote];
    }
  }

  /** The five tallies together count every vote once. */
  lemma {:induction false} TalliesCover(vs: Votes)
    ensures Tally(vs, Yes) + Tally(vs, No) + Tally(vs, Abstain) + Tally(vs, NoVote) + Tally(vs, NotInSession) == |vs|
    decreases |vs|
  {
    if |vs| > 0 {
      TalliesCover(vs[..|vs| - 1]);
    }
  }

  /** The four tallies of the row add up to the number of votes when no vote
      is NOT_IN_SESSION, as none of the scraper's is. */
  lemma FourTalliesCover(vs: Votes)
    requires forall i :: 0 <= i < |vs| ==> vs[i].vote != NotInSession
    ensures Tally(vs, Yes) + Tally(vs, No) + Tally(vs, Abstain) + Tally(vs, NoVote) == |vs|
  {
    TalliesCover(vs);
    TallyCounts(vs, NotInSession);
    assert NotInSession !in Cast(vs);
  }

  /** The tallies of a row, in column order: YES, NO, ABSTAIN, NO_VOTE. */
  function Tallies(vs: Votes): (r: seq<Cell>)
    ensures |r| == 4
  {
    [Number(Tally(vs, Yes)), Number(Tally(vs, No)), Number(Tally(vs, Abstain)), Number(Tally(vs, NoVote))]
  }

  /** A country's cell: the name of its vote, or NOT_IN_SESSION when it did
      not take part. */
  function CellName(vs: Votes, c: string): (s: string)
    ensures c !in Countries(vs) ==> s == "NOT_IN_SESSION"
  {
    if c in Countries(vs) then Name(Lookup(vs, c).value) else Name(NotInSession)
  }

  /** Reading a cell back by vote name gives the country's vote. */
  lemma CellNameRoundTrip(vs: Votes, c: string)
    ensures FromStoredName(CellName(vs, c)) == Some(VoteIn(vs, c))
  {
    StoredNameRoundTrip(VoteIn(vs, c));
  }

  /** The row section of one category: an empty cell, the category, then the
      vote of each of its countries. */
  function VoteSection(vs: Votes, g: Bucket<string, string>): (s: seq<Cell>)
    ensures |s| == |HeaderSection(g)|
    ensures s[0] == Text("") && s[1] == Text(g.key)
    ensures forall j :: 0 <= j < |g.items| ==> s[j + 2] == Text(CellName(vs, g.items[j]))
  {
    [Text(""), Text(g.key)] + seq(|g.items|, j requires 0 <= j < |g.items| => Text(CellName(vs, g.items[j])))
  }

  function VoteSections(vs: Votes, gs: seq<Bucket<string, string>>): (ss: seq<seq<Cell>>)
    ensures |ss| == |gs|
    ensures forall k :: 0 <= k < |gs| ==> ss[k] == VoteSection(vs, gs[k])
  {
    seq(|gs|, k requires 0 <= k < |gs| => VoteSection(vs, gs[k]))
  }

  /** The row of one resolution. `lead` stands for its seven leading fields
      (name, type, session start, date, summary, agenda, passed). */
  function Row(lead: seq<Cell>, res: Resolution, gs: seq<Bucket<string, string>>): seq<Cell> {
    lead + Tallies(res.votes) + Concat(VoteSections(res.votes, gs))
  }

  /** Where the section of category `k` starts, after the fixed columns. */
  function SectionStart(gs: seq<Bucket<string, string>>, k: nat): nat
    requires k <= |gs|
  {
    |Fixed| + Start(HeaderSections(gs), k)
  }

  /** The tally columns sit under their headers. */
  lemma TallyColumns(lead: seq<Cell>, res: Resolution, gs: seq<Bucket<string, string>>)
    requires |lead| == 7
    ensures var h, row := Header(gs), Row(lead, res, gs);
      && h[7] == "Yes" && row[7] == Number(Tally(res.votes, Yes))
      && h[8] == "No" && row[8] == Number(Tally(res.votes, No))
      && h[9] == "Abstain" && row[9] == Number(Tally(res.votes, Abstain))
      && h[10] == "Missing" && row[10] == Number(Tally(res.votes, NoVote))
  {
    var h := Header(gs);
    assert h[7] == h[..|Fixed|][7];
    assert h[8] == h[..|Fixed|][8];
    assert h[9] == h[..|Fixed|][9];
    assert h[10] == h[..|Fixed|][10];
  }

  lemma SectionWidths(vs: Votes, gs: seq<Bucket<string, string>>, k: nat)
    requires k <= |gs|
    ensures Start(VoteSections(vs, gs), k) == Start(HeaderSections(gs), k)
    ensures |Concat(VoteSections(vs, gs))| == |Concat(HeaderSections(gs))|
  {
    var a, b := VoteSections(vs, gs), HeaderSections(gs);
    assert forall j :: 0 <= j < |a| ==> |a[j]| == |b[j]|;
    SameStarts(a, b, k);
    SameShape(a, b);
  }

  /** Column `i` of the section of category `k`, in the header. */
  lemma HeaderCell(gs: seq<Bucket<string, string>>, k: nat, i: nat)
    requires k < |gs| && i < |gs[k].items| + 2
    ensures SectionStart(gs, k) + i < |Header(gs)|
    ensures Header(gs)[SectionStart(gs, k) + i] == HeaderSection(gs[k])[i]
  {
    ConcatAtAfter(Fixed, HeaderSections(gs), k, i);
  }

  /** Column `i` of the section of category `k`, in a row. */
  lemma RowCell(lead: seq<Cell>, res: Resolution, gs: seq<Bucket<string, string>>, k: nat, i: nat)
    requires |lead| == 7 && k < |gs| && i < |gs[k].items| + 2
    ensures SectionStart(gs, k) + i < |Row(lead, res, gs)|
    ensures Row(lead, res, gs)[SectionStart(gs, k) + i] == VoteSection(res.votes, gs[k])[i]
  {
    var vs := res.votes;
    var front, rs := lead + Tallies(vs), VoteSections(vs, gs);
    SectionWidths(vs, gs, k);
    assert Row(lead, res, gs) == front + Concat(rs);
    ConcatAtAfter(front, rs, k, i);
  }

  /** In the header, the section of category `k` is the empty column, the
      category, then its codes. */
  lemma HeaderAt(gs: seq<Bucket<string, string>>, k: nat, j: nat)
    requires k < |gs| && j < |gs[k].items|
    ensures var h, p := Header(gs), SectionStart(gs, k);
      && p + 2 + j < |h|
      && h[p] == "" && h[p + 1] == gs[k].key && h[p + 2 + j] == gs[k].items[j]
  {
    HeaderCell(gs, k, 0);
    HeaderCell(gs, k, 1);
    HeaderCell(gs, k, j + 2);
  }

  /** In a row, the section of category `k` opens with an empty cell and the
      category. */
  lemma RowSectionHead(lead: seq<Cell>, res: Resolution, gs: seq<Bucket<string, string>>, k: nat)
    requires |lead| == 7 && k < |gs|
    ensures SectionStart(gs, k) + 1 < |Row(lead, res, gs)|
    ensures Row(lead, res, gs)[SectionStart(gs, k)] == Text("")
    ensures Row(lead, res, gs)[SectionStart(gs, k) + 1] == Text(gs[k].key)
  {
    RowCell(lead, res, gs, k, 0);
    RowCell(lead, res, gs, k, 1);
  }

  /** In a row, the section of category `k` holds the vote of each of its
      countries, in the order of the codes. */
  lemma RowAt(lead: seq<Cell>, res: Resolution, gs: seq<Bucket<string, string>>, k: nat, j: nat)
    requires |lead| == 7 && k < |gs| && j < |gs[k].items|
    ensures SectionStart(gs, k) + 2 + j < |Row(lead, res, gs)|
    ensures Row(lead, res, gs)[SectionStart(gs, k) + 2 + j] == Text(CellName(res.votes, gs[k].items[j]))
  {
    RowCell(lead, res, gs, k, j + 2);
  }

  /** Every row is exactly as wide as the header. */
  lemma RowWidth(lead: seq<Cell>, res: Resolution, gs: seq<Bucket<string, string>>)
    requires |lead| == 7
    ensures |Row(lead, res, gs)| == |Header(gs)|
  {
    SectionWidths(res.votes, gs, 0);
  }

  /** Every row is as wide as the header, and within the section of each
      category the row agrees with the header on the empty column and the
      category, and holds, under each country's column, that country's vote. */
  lemma RowUnderHeader(lead: seq<Cell>, res: Resolution, gs: seq<Bucket<string, string>>, k: nat, j: nat)
    requires |lead| == 7 && k < |gs| && j < |gs[k].items|
    ensures var h, row, p := Header(gs), Row(lead, res, gs), SectionStart(gs, k);
      && |row| == |h| && p + 2 + j < |h|
      && h[p] == "" && row[p] == Text(h[p])
      && h[p + 1] == gs[k].key && row[p + 1] == Text(h[p + 1])
      && h[p + 2 + j] == gs[k].items[j] && row[p + 2 + j] == Text(CellName(res.votes, h[p + 2 + j]))
  {
    RowWidth(lead, res, gs);
    HeaderAt(gs, k, j);
    RowSectionHead(lead, res, gs, k);
    RowAt(lead, res, gs, k, j);
  }
}
