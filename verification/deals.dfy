/** The deal finder: visit every player's negotiation page, keep the players
    whose estimated transfer value exceeds the asking price, and report the
    twenty largest differences. */
module Deals {
  import opened Wrappers
  import opened Text
  import opened PlayerMap
  import Money

  // ---------------------------------------------------------------------------
  // The negotiation page

  /** What the negotiation page offers the scraper: a "transfer is already
      closed" notice, a page the scrape fails on (it then returns `{}`), or
      the texts of the cells after "Estimated Transfer Value" and "Asking
      Price for Bid" ("" when a cell is missing). */
  datatype NegotiationPage = ClosedPage | BrokenPage | OpenPage(estimatedText: string, askingText: string)

  /** `scrapeNegotiationValues`' result: `{ closed: true }`, or the values
      read, each possibly absent. */
  datatype Negotiation =
    | Closed
    | Read(estimated: Option<nat>, asking: Option<nat>, difference: Option<int>)

  /** The difference is computed only when both amounts are non-zero (both
      truthy); a page the scrape fails on yields no values at all. */
  function ScrapeNegotiation(page: NegotiationPage): (v: Negotiation)
    ensures v.Closed? <==> page.ClosedPage?
    ensures page.BrokenPage? ==> v == Read(None, None, None)
    ensures page.OpenPage? ==> v.Read? && v.estimated == Some(Money.ParseValue(page.estimatedText))
                               && v.asking == Some(Money.ParseValue(page.askingText))
    ensures v.Read? && v.difference.Some? ==>
              v.estimated.Some? && v.asking.Some? && v.estimated.value > 0 && v.asking.value > 0
              && v.difference.value == v.estimated.value - v.asking.value
    ensures page.OpenPage? && Money.ParseValue(page.estimatedText) > 0 && Money.ParseValue(page.askingText) > 0
            ==> v.difference.Some?
  {
    match page
    case ClosedPage => Closed
    case BrokenPage => Read(None, None, None)
    case OpenPage(e, a) =>
      var est := Money.ParseValue(e);
      var ask := Money.ParseValue(a);
      Read(Some(est), Some(ask), if est != 0 && ask != 0 then Some(est - ask) else None)
  }

  // ---------------------------------------------------------------------------
  // Deals

  datatype Deal = Deal(playerId: string, name: string, estimated: int, asking: int, difference: int,
                       estimatedFormatted: string, askingFormatted: string, differenceFormatted: string,
                       url: string)

  const NegotiationPath: string := "/comprar_jog_lista.asp?jg_id="

  /** The negotiation page of a player. */
  function NegotiationUrl(base: string, playerId: string): (url: string)
    ensures |url| == |base| + |NegotiationPath| + |playerId|
  {
    base + NegotiationPath + playerId
  }

  /** The player ID is the tail of the negotiation URL, so distinct players
      get distinct URLs. */
  lemma NegotiationUrlId(base: string, playerId: string)
    ensures var url := NegotiationUrl(base, playerId);
            url[..|base| + |NegotiationPath|] == base + NegotiationPath
            && url[|base| + |NegotiationPath|..] == playerId
  {
  }

  /** `playerData[0]`: the first cell of the row; an empty row has none and
      the name reads as "". */
  function PlayerName(row: Row): string {
    if |row| > 0 then row[0] else ""
  }

  /** The deal record for a player with a positive difference. */
  function MakeDeal(base: string, e: Entry, est: nat, ask: nat): (d: Deal)
    requires est > ask
    ensures d.playerId == e.id && d.difference > 0 && d.difference == d.estimated - d.asking
    ensures d.differenceFormatted == Money.FormatValue(d.difference)
            && d.estimatedFormatted == Money.FormatValue(d.estimated)
            && d.askingFormatted == Money.FormatValue(d.asking)
    ensures Money.ParseValue(d.differenceFormatted) == d.difference
    ensures Money.ParseValue(d.estimatedFormatted) == d.estimated
    ensures Money.ParseValue(d.askingFormatted) == d.asking
  {
    Money.ParseFormatValue(est);
    Money.ParseFormatValue(ask);
    Money.ParseFormatValue(est - ask);
    Deal(e.id, PlayerName(e.row), est, ask, est - ask,
         Money.FormatValue(est), Money.FormatValue(ask), Money.FormatValue(est - ask),
         NegotiationUrl(base, e.id))
  }

  /** One iteration of the loop over the players. `Skipped` continues with
      the next player even in test mode: the navigation failed (the `catch`)
      or the transfer is closed (`continue`). `Checked` is a player whose
      values were read, with the deal it yields, if any; test mode stops
      after it. */
  datatype Visit = Skipped | Checked(deal: Option<Deal>)

  /** `pages` holds the negotiation pages that load; a player missing from it
      is one whose navigation fails. */
  function VisitPlayer(base: string, e: Entry, pages: map<string, NegotiationPage>): (v: Visit)
    ensures v.Skipped? <==> e.id !in pages || pages[e.id].ClosedPage?
    ensures v.Checked? && v.deal.Some? ==>
              var n := ScrapeNegotiation(pages[e.id]);
              && n.Read? && n.difference.Some? && n.difference.value > 0
              && v.deal.value.playerId == e.id && v.deal.value.difference == n.difference.value
              && v.deal.value.estimated == n.estimated.value && v.deal.value.asking == n.asking.value
    ensures v.Checked? && v.deal.None? ==>
              var n := ScrapeNegotiation(pages[e.id]);
              n.Read? && (n.difference.None? || n.difference.value <= 0)
  {
    if e.id !in pages then Skipped
    else
      match ScrapeNegotiation(pages[e.id])
      case Closed => Skipped
      case Read(est, ask, diff) =>
        if diff.Some? && diff.value > 0 then Checked(Some(MakeDeal(base, e, est.value, ask.value)))
        else Checked(None)
  }

  /** The deal a player yields when visited. */
  function DealOf(base: string, e: Entry, pages: map<string, NegotiationPage>): Option<Deal> {
    match VisitPlayer(base, e, pages)
    case Skipped => None
    case Checked(d) => d
  }

  function OptionList(d: Option<Deal>): seq<Deal> {
    if d.Some? then [d.value] else []
  }

  /** The loop over the players in map order, pushing each deal found; in
      test mode it breaks after the first player whose values were read. */
  function CollectDeals(base: string, entries: seq<Entry>, pages: map<string, NegotiationPage>,
                        testMode: bool): (deals: seq<Deal>)
    ensures |deals| <= |entries|
    decreases |entries|
  {
    if |entries| == 0 then []
    else
      match VisitPlayer(base, entries[0], pages)
      case Skipped => CollectDeals(base, entries[1..], pages, testMode)
      case Checked(d) => OptionList(d) + (if testMode then [] else CollectDeals(base, entries[1..], pages, testMode))
  }

  /** Outside test mode, the deals are exactly the deals of the players. */
  lemma {:induction false} CollectAllDeals(base: string, entries: seq<Entry>, pages: map<string, NegotiationPage>, d: Deal)
    ensures d in CollectDeals(base, entries, pages, false)
            <==> exists k :: 0 <= k < |entries| && DealOf(base, entries[k], pages) == Some(d)
    decreases |entries|
  {
    if |entries| > 0 {
      var rest := entries[1..];
      CollectAllDeals(base, rest, pages, d);
      CollectCons(base, entries, pages);
      var f := (e: Entry) => DealOf(base, e, pages);
      SomeAtCons(entries, Some(d), f);
    }
  }

  /** Outside test mode, the loop pushes the first player's deal, if any,
      and carries on. */
  lemma CollectCons(base: string, entries: seq<Entry>, pages: map<string, NegotiationPage>)
    requires |entries| > 0
    ensures CollectDeals(base, entries, pages, false)
            == OptionList(DealOf(base, entries[0], pages)) + CollectDeals(base, entries[1..], pages, false)
  {
  }

  /** A value is found in a list exactly when it is found at its head or in
      its tail. */
  lemma SomeAtCons<T, U>(xs: seq<T>, u: U, f: T -> U)
    requires |xs| > 0
    ensures (exists k :: 0 <= k < |xs| && f(xs[k]) == u)
            <==> f(xs[0]) == u || exists k :: 0 <= k < |xs| - 1 && f(xs[1..][k]) == u
  {
    if exists k :: 0 <= k < |xs| && f(xs[k]) == u {
      var k :| 0 <= k < |xs| && f(xs[k]) == u;
      if k > 0 {
        assert f(xs[1..][k - 1]) == u;
      }
    }
    if exists k :: 0 <= k < |xs| - 1 && f(xs[1..][k]) == u {
      var k :| 0 <= k < |xs| - 1 && f(xs[1..][k]) == u;
      assert xs[1..][k] == xs[k + 1];
    }
  }

  /** A player's deal has a positive difference and comes from an open
      transfer. */
  lemma DealOfOpen(base: string, e: Entry, pages: map<string, NegotiationPage>, d: Deal)
    requires DealOf(base, e, pages) == Some(d)
    ensures d.difference > 0 && d.playerId == e.id && e.id in pages && !pages[e.id].ClosedPage?
  {
  }

  /** Test mode finds a prefix of what the full loop finds. */
  lemma {:induction false} TestModePrefix(base: string, entries: seq<Entry>, pages: map<string, NegotiationPage>)
    ensures CollectDeals(base, entries, pages, true) <= CollectDeals(base, entries, pages, false)
    decreases |entries|
  {
    if |entries| > 0 {
      TestModePrefix(base, entries[1..], pages);
    }
  }

  /** `k` is the first player whose values were read. */
  predicate FirstChecked(base: string, entries: seq<Entry>, pages: map<string, NegotiationPage>, k: nat) {
    k < |entries| && VisitPlayer(base, entries[k], pages).Checked?
    && forall j :: 0 <= j < k ==> VisitPlayer(base, entries[j], pages).Skipped?
  }

  /** In test mode the loop stops after the first player whose values were
      read, so it finds at most that player's deal; when every player is
      skipped it finds nothing. */
  lemma {:induction false} TestModeDeals(base: string, entries: seq<Entry>, pages: map<string, NegotiationPage>, k: nat)
    requires FirstChecked(base, entries, pages, k)
    ensures CollectDeals(base, entries, pages, true) == OptionList(DealOf(base, entries[k], pages))
    decreases k
  {
    if k > 0 {
      var rest := entries[1..];
      assert forall j :: 0 <= j < |rest| ==> rest[j] == entries[j + 1];
      TestModeDeals(base, rest, pages, k - 1);
    }
  }

  lemma {:induction false} TestModeNoneChecked(base: string, entries: seq<Entry>, pages: map<string, NegotiationPage>)
    requires forall j :: 0 <= j < |entries| ==> VisitPlayer(base, entries[j], pages).Skipped?
    ensures CollectDeals(base, entries, pages, true) == []
    decreases |entries|
  {
    if |entries| > 0 {
      var rest := entries[1..];
      assert forall j :: 0 <= j < |rest| ==> rest[j] == entries[j + 1];
      TestModeNoneChecked(base, rest, pages);
    }
  }

  /** Test mode finds at most one deal. */
  lemma {:induction false} TestModeAtMostOne(base: string, entries: seq<Entry>, pages: map<string, NegotiationPage>)
    ensures |CollectDeals(base, entries, pages, true)| <= 1
    decreases |entries|
  {
    if |entries| > 0 {
      TestModeAtMostOne(base, entries[1..], pages);
    }
  }

  // ---------------------------------------------------------------------------
  // Sorting and the top twenty

  /** Largest difference first. */
  predicate SortedDesc(ds: seq<Deal>) {
    forall i, j :: 0 <= i < j < |ds| ==> ds[i].difference >= ds[j].difference
  }

  /** Inserting a deal that came before all of `s` in front of the first deal
      whose difference is not larger, which keeps equal differences in their
      original order. */
  function Insert(x: Deal, s: seq<Deal>): (r: seq<Deal>)
    ensures |r| == |s| + 1 && (r[0] == x || (|s| > 0 && r[0] == s[0]))
    decreases |s|
  {
    if |s| == 0 || s[0].difference <= x.difference then [x] + s
    else [s[0]] + Insert(x, s[1..])
  }

  /** Inserting adds exactly the one deal. */
  lemma {:induction false} InsertPermutes(x: Deal, s: seq<Deal>)
    ensures multiset(Insert(x, s)) == multiset(s) + multiset{x}
    decreases |s|
  {
    if !(|s| == 0 || s[0].difference <= x.difference) {
      InsertPermutes(x, s[1..]);
      assert s == [s[0]] + s[1..];
    }
  }

  /** Inserting into a sorted list keeps it sorted. */
  lemma {:induction false} InsertSorted(x: Deal, s: seq<Deal>)
    requires SortedDesc(s)
    ensures SortedDesc(Insert(x, s))
    decreases |s|
  {
    if |s| == 0 || s[0].difference <= x.difference {
      SortedCons(x, s);
    } else {
      var t := Insert(x, s[1..]);
      assert SortedDesc(s[1..]) by {
        forall i, j | 0 <= i < j < |s| - 1 ensures s[1..][i].difference >= s[1..][j].difference {
          assert s[1..][i] == s[i + 1] && s[1..][j] == s[j + 1];
        }
      }
      InsertSorted(x, s[1..]);
      assert s[0].difference >= t[0].difference;
      SortedCons(s[0], t);
    }
  }

  lemma SortedCons(x: Deal, t: seq<Deal>)
    requires SortedDesc(t) && (|t| > 0 ==> x.difference >= t[0].difference)
    ensures SortedDesc([x] + t)
  {
    var r := [x] + t;
    forall i, j | 0 <= i < j < |r| ensures r[i].difference >= r[j].difference {
      if i > 0 {
        assert r[i] == t[i - 1] && r[j] == t[j - 1];
      } else {
        assert r[j] == t[j - 1];
      }
    }
  }

  /** `deals.sort((a, b) => b.difference - a.difference)`. The sort of
      JavaScript is stable, modelled here as an insertion sort. */
  function SortByDifference(ds: seq<Deal>): (r: seq<Deal>)
    ensures SortedDesc(r) && multiset(r) == multiset(ds) && |r| == |ds|
    decreases |ds|
  {
    if |ds| == 0 then []
    else
      var rest := SortByDifference(ds[1..]);
      InsertStep(ds, rest);
      Insert(ds[0], rest)
  }

  /** Inserting the first deal into the sorted rest sorts the whole list. */
  lemma InsertStep(ds: seq<Deal>, rest: seq<Deal>)
    requires |ds| > 0 && SortedDesc(rest) && multiset(rest) == multiset(ds[1..])
    ensures var r := Insert(ds[0], rest);
            SortedDesc(r) && multiset(r) == multiset(ds) && |r| == |ds|
  {
    InsertPermutes(ds[0], rest);
    InsertSorted(ds[0], rest);
    assert ds == [ds[0]] + ds[1..];
    assert |rest| == |ds[1..]| by {
      assert |multiset(rest)| == |rest| && |multiset(ds[1..])| == |ds[1..]|;
    }
  }

  /** The deals with a given difference, in order. */
  function WithDifference(ds: seq<Deal>, v: int): seq<Deal>
    decreases |ds|
  {
    if |ds| == 0 then []
    else (if ds[0].difference == v then [ds[0]] else []) + WithDifference(ds[1..], v)
  }

  lemma InsertWithDifference(x: Deal, s: seq<Deal>, v: int)
    requires SortedDesc(s)
    ensures WithDifference(Insert(x, s), v) == (if x.difference == v then [x] else []) + WithDifference(s, v)
    decreases |s|
  {
    if |s| == 0 || s[0].difference <= x.difference {
      assert ([x] + s)[1..] == s;
    } else {
      var t := Insert(x, s[1..]);
      InsertWithDifference(x, s[1..], v);
      assert ([s[0]] + t)[1..] == t;
      if x.difference == v {
        assert s[0].difference != v;
      }
    }
  }

  /** The sort is stable: the deals with any one difference keep their
      relative order. */
  lemma {:induction false} SortStable(ds: seq<Deal>, v: int)
    ensures WithDifference(SortByDifference(ds), v) == WithDifference(ds, v)
    decreases |ds|
  {
    if |ds| > 0 {
      SortStable(ds[1..], v);
      InsertWithDifference(ds[0], SortByDifference(ds[1..]), v);
    }
  }

  const TopCount: nat := 20

  /** `deals.slice(0, 20)` of the sorted deals. */
  function TopDeals(ds: seq<Deal>): seq<Deal> {
    var s := SortByDifference(ds);
    s[..if |s| < TopCount then |s| else TopCount]
  }

  /** The top deals are twenty of the deals (all of them when there are
      fewer), largest difference first, and no deal left out has a larger
      difference than one kept. */
  lemma TopDealsSpec(ds: seq<Deal>)
    ensures var top := TopDeals(ds);
            && |top| == (if |ds| < TopCount then |ds| else TopCount)
            && SortedDesc(top)
            && multiset(top) <= multiset(ds)
            && forall x, y :: x in top && y in multiset(ds) - multiset(top) ==> x.difference >= y.difference
  {
    var s := SortByDifference(ds);
    var top := TopDeals(ds);
    SplitSorted(s, |top|);
  }

  /** A prefix of a sorted list is sorted, and no element after it is
      larger than one in it. */
  lemma SplitSorted(s: seq<Deal>, k: nat)
    requires SortedDesc(s) && k <= |s|
    ensures SortedDesc(s[..k]) && multiset(s[..k]) <= multiset(s)
    ensures forall x, y :: x in s[..k] && y in multiset(s) - multiset(s[..k]) ==> x.difference >= y.difference
  {
    var top := s[..k];
    MultisetSplit(s, k);
    PrefixSorted(s, k);
    forall x, y | x in top && y in multiset(s) - multiset(top) ensures x.difference >= y.difference {
      assert y in s[k..];
      SplitPair(s, k, x, y);
    }
  }

  lemma PrefixSorted(s: seq<Deal>, k: nat)
    requires SortedDesc(s) && k <= |s|
    ensures SortedDesc(s[..k])
  {
    var top := s[..k];
    forall i, j | 0 <= i < j < |top| ensures top[i].difference >= top[j].difference {
      assert top[i] == s[i] && top[j] == s[j];
    }
  }

  /** A deal before position `k` of a sorted list is no smaller than one at
      or after it. */
  lemma SplitPair(s: seq<Deal>, k: nat, x: Deal, y: Deal)
    requires SortedDesc(s) && k <= |s| && x in s[..k] && y in s[k..]
    ensures x.difference >= y.difference
  {
    var i :| 0 <= i < k && s[..k][i] == x;
    var j :| 0 <= j < |s| - k && s[k..][j] == y;
    assert s[i] == x && s[k + j] == y;
  }

  lemma MultisetSplit(s: seq<Deal>, k: nat)
    requires k <= |s|
    ensures multiset(s[..k]) <= multiset(s) && multiset(s) - multiset(s[..k]) == multiset(s[k..])
  {
    assert s == s[..k] + s[k..];
  }

  /** `DealFinder.run` after the player list: the top deals of the loop. */
  function FindDeals(base: string, players: Players, pages: map<string, NegotiationPage>, testMode: bool): seq<Deal> {
    TopDeals(CollectDeals(base, players, pages, testMode))
  }

  /** Every reported deal is a deal of an open transfer with a positive
      difference, and test mode reports at most one. */
  lemma FindDealsSpec(base: string, players: Players, pages: map<string, NegotiationPage>, testMode: bool, d: Deal)
    ensures d in FindDeals(base, players, pages, testMode) ==>
              d.difference > 0 && exists k :: 0 <= k < |players| && DealOf(base, players[k], pages) == Some(d)
                                              && players[k].id in pages && !pages[players[k].id].ClosedPage?
    ensures testMode ==> |FindDeals(base, players, pages, testMode)| <= 1
  {
    var deals := CollectDeals(base, players, pages, testMode);
    TopDealsSpec(deals);
    if d in FindDeals(base, players, pages, testMode) {
      assert d in multiset(deals);
      if testMode {
        TestModePrefix(base, players, pages);
        assert d in CollectDeals(base, players, pages, false);
      }
      CollectAllDeals(base, players, pages, d);
      var k :| 0 <= k < |players| && DealOf(base, players[k], pages) == Some(d);
      DealOfOpen(base, players[k], pages, d);
    }
    if testMode {
      TestModeAtMostOne(base, players, pages);
    }
  }
}
