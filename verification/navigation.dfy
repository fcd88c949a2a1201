/** Reading the number of result pages from the search page, building the
    search and player URLs, and reading a player ID back out of a link. */
module Navigation {
  import opened Wrappers
  import opened Text

  const BaseUrl: string := "https://www.pmanager.org"

  /** The fixed path and query of the transfer-list search. */
  const SearchQuery: string := "/procurar.asp?action=proc_jog&nome=&pos=0&nacional=-1&lado=-1&idd_op=%3C&idd=Any&temp_op=%3C&temp=Any&expe_op=%3E=&expe=Any&con_op=%3C&con=Any&pro_op=%3E&pro=Any&vel_op=%3E&vel=Any&forma_op=%3E&forma=Any&cab_op=%3E&cab=Any&ord_op=%3C=&ord=Any&cul_op=%3E&cul=Any&pre_op=%3C=&pre=Any&forca_op=%3E&forca=Any&lesionado=Any&prog_op=%3E&prog=Any&tack_op=%3E&tack=Any&internacional=Any&passe_op=%3E&passe=Any&pais=-1&rem_op=%3E&rem=Any&tec_op=%3E&tec=Any&jmaos_op=%3E&jmaos=Any&saidas_op=%3E&saidas=Any&reflexos_op=%3E&reflexos=Any&agilidade_op=%3E&agilidade=Any&B1=Pesquisar&field=&sort=0&pv=1&qual_op=%3E&qual=7&talento=Any"

  // ---------------------------------------------------------------------------
  // The "Number of pages: N" parser

  const PagesLabel: string := "Number of pages:"

  /** The longest prefix of `s` made of `\s` characters of the runtime. */
  function SpaceRun(rt: Runtime, s: string): (r: string)
    ensures |r| <= |s| && r == s[..|r|]
    ensures forall i :: 0 <= i < |r| ==> IsRegexSpace(rt, r[i])
    ensures |r| < |s| ==> !IsRegexSpace(rt, s[|r|])
  {
    if |s| > 0 && IsRegexSpace(rt, s[0]) then [s[0]] + SpaceRun(rt, s[1..]) else ""
  }

  /** Where the page count's digits would start after a label at `i`. */
  function DigitsStart(rt: Runtime, t: string, i: nat): nat
    requires i + |PagesLabel| <= |t|
  {
    i + |PagesLabel| + |SpaceRun(rt, t[i + |PagesLabel|..])|
  }

  /** `/Number of pages:\s*(\d+)/` matches at position `i`: the label, then
      whitespace, then at least one digit. Backtracking over `\s*` cannot
      help, as a shorter run of whitespace is followed by whitespace. */
  predicate PagesMatchAt(rt: Runtime, t: string, i: nat) {
    OccursAt(t, PagesLabel, i)
    && DigitsStart(rt, t, i) < |t| && IsDigit(t[DigitsStart(rt, t, i)])
  }

  /** The captured digit run of a match at `i`. */
  function PagesDigitsAt(rt: Runtime, t: string, i: nat): (d: string)
    requires PagesMatchAt(rt, t, i)
    ensures |d| >= 1 && AllDigits(d)
  {
    DigitPrefix(t[DigitsStart(rt, t, i)..])
  }

  /** The leftmost match at or after `from`. */
  function FirstPagesMatchFrom(rt: Runtime, t: string, from: nat): (r: Option<nat>)
    ensures r.Some? ==> from <= r.value && PagesMatchAt(rt, t, r.value)
                        && forall j :: from <= j < r.value ==> !PagesMatchAt(rt, t, j)
    ensures r.None? ==> forall j :: from <= j ==> !PagesMatchAt(rt, t, j)
    decreases |t| - from
  {
    if from + |PagesLabel| > |t| then None
    else if PagesMatchAt(rt, t, from) then Some(from)
    else FirstPagesMatchFrom(rt, t, from + 1)
  }

  /** The value `(\d+)` captures in the leftmost match, if any. */
  function PagesMatch(rt: Runtime, t: string): (r: Option<nat>)
    ensures r.None? <==> forall j: nat :: !PagesMatchAt(rt, t, j)
    ensures r.Some? ==> exists i: nat :: i <= |t| && PagesMatchAt(rt, t, i)
                                    && (forall j: nat :: j < i ==> !PagesMatchAt(rt, t, j))
                                    && r.value == ParseDecimal(PagesDigitsAt(rt, t, i))
  {
    match FirstPagesMatchFrom(rt, t, 0)
    case None => None
    case Some(i) => Some(ParseDecimal(PagesDigitsAt(rt, t, i)))
  }

  /** `getTotalPages` (and the same code in the stand-alone JavaScript
      script): no pagination cell, an empty one or one without a match gives
      1; otherwise the captured number, which may be 0. */
  function JsTotalPages(cell: Option<string>): (n: nat)
    ensures cell.None? || cell == Some("") ==> n == 1
    ensures cell.Some? && PagesMatch(Js, cell.value).None? ==> n == 1
    ensures cell.Some? && PagesMatch(Js, cell.value).Some? ==> n == PagesMatch(Js, cell.value).value
  {
    match cell
    case None => 1
    case Some(t) =>
      if t == "" then 1
      else
        match PagesMatch(Js, t)
        case None => 1
        case Some(v) => v
  }

  /** The PHP script's test on one `td`: it mentions "Number of pages" and
      the pattern matches. */
  function PhpCellPages(text: string): Option<nat> {
    if Contains(text, "Number of pages") then PagesMatch(Php, text) else None
  }

  /** A text the pattern matches mentions "Number of pages". */
  lemma MatchMentionsPhrase(rt: Runtime, t: string, i: nat)
    requires PagesMatchAt(rt, t, i)
    ensures Contains(t, "Number of pages")
  {
    assert t[i..i + 15] == t[i..i + 16][..15];
    assert OccursAt(t, "Number of pages", i);
  }

  /** The `strpos` pre-test of the PHP script never rejects a text the
      pattern accepts. */
  lemma PhpPreTestRedundant(text: string)
    ensures PhpCellPages(text) == PagesMatch(Php, text)
  {
    var r := FirstPagesMatchFrom(Php, text, 0);
    if r.Some? {
      MatchMentionsPhrase(Php, text, r.value);
    }
  }

  /** The PHP script's scan over every `td`: each matching cell overwrites
      the count, so the last one wins; 1 when none matches. */
  function PhpTotalPages(tds: seq<string>): (n: nat)
    ensures (forall k :: 0 <= k < |tds| ==> PhpCellPages(tds[k]).None?) ==> n == 1
    decreases |tds|
  {
    if |tds| == 0 then 1
    else
      match PhpCellPages(tds[|tds| - 1])
      case Some(v) => v
      case None =>
        assert forall k :: 0 <= k < |tds| - 1 ==> tds[..|tds| - 1][k] == tds[k];
        PhpTotalPages(tds[..|tds| - 1])
  }

  /** The count comes from the last cell that matches. */
  lemma {:induction false} PhpTotalPagesLastWins(tds: seq<string>, k: nat)
    requires k < |tds| && PhpCellPages(tds[k]).Some?
    requires forall j :: k < j < |tds| ==> PhpCellPages(tds[j]).None?
    ensures PhpTotalPages(tds) == PhpCellPages(tds[k]).value
    decreases |tds|, 1
  {
    if k < |tds| - 1 {
      PhpTotalPagesLastWinsStep(tds, k);
    }
  }

  lemma {:induction false} PhpTotalPagesLastWinsStep(tds: seq<string>, k: nat)
    requires k < |tds| - 1 && PhpCellPages(tds[k]).Some?
    requires forall j :: k < j < |tds| ==> PhpCellPages(tds[j]).None?
    ensures PhpTotalPages(tds) == PhpCellPages(tds[k]).value
    decreases |tds|, 0
  {
    var front := tds[..|tds| - 1];
    assert front[k] == tds[k];
    assert forall j :: k < j < |front| ==> front[j] == tds[j];
    PhpTotalPagesLastWins(front, k);
    PhpTotalPagesSkip(tds);
  }

  /** A last cell without a match leaves the count to the cells before it. */
  lemma PhpTotalPagesSkip(tds: seq<string>)
    requires |tds| > 0 && PhpCellPages(tds[|tds| - 1]).None?
    ensures PhpTotalPages(tds) == PhpTotalPages(tds[..|tds| - 1])
  {
  }

  /** Given one and the same cell text, the two regexes read different
      counts: JavaScript's `\s` covers a no-break space after the label,
      PCRE's does not. */
  lemma NoBreakSpaceDiffers()
    ensures JsTotalPages(Some("Number of pages:\U{A0}7")) == 7
    ensures PhpTotalPages(["Number of pages:\U{A0}7"]) == 1
  {
    var t := "Number of pages:\U{A0}7";
    NoBreakSpaceLabel(t);
    NoBreakSpaceJs(t);
    NoBreakSpacePhp(t);
    assert Contains(t, "Number of pages") by {
      assert OccursAt(t, "Number of pages", 0);
    }
  }

  lemma NoBreakSpaceLabel(t: string)
    requires t == "Number of pages:\U{A0}7"
    ensures OccursAt(t, PagesLabel, 0) && t[16..] == "\U{A0}7" && t[17..] == "7"
    ensures forall j: nat :: j != 0 ==> !OccursAt(t, PagesLabel, j)
  {
    assert t[..16] == PagesLabel;
    forall j: nat | j != 0 ensures !OccursAt(t, PagesLabel, j) {
      if 1 <= j <= 2 {
        assert t[j] != 'N';
      }
    }
  }

  lemma NoBreakSpaceJs(t: string)
    requires OccursAt(t, PagesLabel, 0) && t[16..] == "\U{A0}7" && t[17..] == "7"
    requires forall j: nat :: j != 0 ==> !OccursAt(t, PagesLabel, j)
    ensures PagesMatch(Js, t) == Some(7)
  {
    assert SpaceRun(Js, t[16..]) == "\U{A0}";
    assert PagesMatchAt(Js, t, 0);
    assert PagesDigitsAt(Js, t, 0) == "7";
    assert FirstPagesMatchFrom(Js, t, 0) == Some(0);
    assert ParseDecimal("7") == 7 by {
      assert "7"[..0] == "";
    }
  }

  lemma NoBreakSpacePhp(t: string)
    requires OccursAt(t, PagesLabel, 0) && t[16..] == "\U{A0}7"
    requires forall j: nat :: j != 0 ==> !OccursAt(t, PagesLabel, j)
    ensures PagesMatch(Php, t) == None
  {
    assert SpaceRun(Php, t[16..]) == "";
    assert !PagesMatchAt(Php, t, 0);
  }

  /** A count of 0 is not corrected: no page is scraped. */
  lemma ZeroPagesKept()
    ensures JsTotalPages(Some("Number of pages: 0")) == 0
  {
    var t := "Number of pages: 0";
    assert t[..16] == PagesLabel;
    assert OccursAt(t, PagesLabel, 0);
    assert t[16..] == " 0";
    assert SpaceRun(Js, t[16..]) == " ";
    assert t[17..] == "0";
    assert PagesDigitsAt(Js, t, 0) == "0";
  }

  // ---------------------------------------------------------------------------
  // URLs

  /** `navigateToSearchPage(pageNumber = 1)`: the search URL for a page. */
  function SearchUrl(base: string, pageNumber: Option<int>): string {
    SearchPrefix(base) + IntToString(pageNumber.GetOr(1))
  }

  /** Everything of a search URL before its page number. */
  function SearchPrefix(base: string): string {
    base + SearchQuery + "&pid="
  }

  /** The page number read back from the tail of a search URL. */
  function SearchUrlPage(base: string, url: string): Option<nat> {
    NumberAfter(SearchPrefix(base), url)
  }

  /** The number written after `prefix` when `url` is `prefix` followed by
      digits only. */
  function NumberAfter(prefix: string, url: string): Option<nat> {
    if |prefix| < |url| && url[..|prefix|] == prefix && AllDigits(url[|prefix|..])
    then Some(ParseDecimal(url[|prefix|..]))
    else None
  }

  lemma NumberAfterRoundTrip(prefix: string, n: nat)
    ensures NumberAfter(prefix, prefix + NatToString(n)) == Some(n)
  {
    var url := prefix + NatToString(n);
    assert url[..|prefix|] == prefix && url[|prefix|..] == NatToString(n);
  }

  /** The page number of a search URL is recovered from it, so distinct
      pages get distinct URLs. */
  lemma SearchUrlRoundTrip(base: string, pageNumber: Option<nat>)
    ensures SearchUrlPage(base, SearchUrl(base, pageNumber)) == Some(pageNumber.GetOr(1))
  {
    NumberAfterRoundTrip(SearchPrefix(base), pageNumber.GetOr(1));
  }

  /** `navigateToPlayerPage`: the player page with its info tab. */
  function PlayerUrl(base: string, playerId: string): string {
    base + "/ver_jogador.asp?jog_id=" + playerId + "#info"
  }

  // ---------------------------------------------------------------------------
  // Reading a player ID from a link

  const IdLabel: string := "jog_id="

  /** `/jog_id=(\d+)/` matches at position `i`. */
  predicate IdMatchAt(href: string, i: nat) {
    OccursAt(href, IdLabel, i) && i + 7 < |href| && IsDigit(href[i + 7])
  }

  function FirstIdMatchFrom(href: string, from: nat): (r: Option<nat>)
    ensures r.Some? ==> from <= r.value && IdMatchAt(href, r.value)
                        && forall j :: from <= j < r.value ==> !IdMatchAt(href, j)
    ensures r.None? ==> forall j :: from <= j ==> !IdMatchAt(href, j)
    decreases |href| - from
  {
    if from + 7 >= |href| then None
    else if IdMatchAt(href, from) then Some(from)
    else FirstIdMatchFrom(href, from + 1)
  }

  /** `href.match(/jog_id=(\d+)/)[1]`: the digits after the leftmost
      "jog_id=" that is followed by a digit. */
  function MatchPlayerId(href: string): (r: Option<string>)
    ensures r.None? <==> forall j: nat :: !IdMatchAt(href, j)
    ensures r.Some? ==> |r.value| >= 1 && AllDigits(r.value)
  {
    match FirstIdMatchFrom(href, 0)
    case None => None
    case Some(i) => Some(DigitPrefix(href[i + 7..]))
  }

  /** The ID is read back from any link of the form prefix + "jog_id=" + id +
      rest, provided the prefix holds no "jog_id=" and the rest does not
      continue the digits. */
  lemma {:induction false} MatchPlayerIdRoundTrip(prefix: string, id: string, rest: string)
    requires !Contains(prefix, IdLabel)
    requires |id| >= 1 && AllDigits(id)
    requires rest == [] || !IsDigit(rest[0])
    ensures MatchPlayerId(prefix + IdLabel + id + rest) == Some(id)
  {
    var href := prefix + IdLabel + id + rest;
    var p := |prefix|;
    assert href[p..p + 7] == IdLabel;
    assert href[p + 7] == id[0];
    assert IdMatchAt(href, p);
    assert href[..p] == prefix;
    NoIdMatchBefore(prefix, href);
    assert FirstIdMatchFrom(href, 0) == Some(p);
    var tail := href[p + 7..];
    assert tail == id + rest;
    DigitPrefixOf(id, rest);
  }

  /** No match starts inside a prefix free of "jog_id=" that is followed by
      a "j". */
  lemma NoIdMatchBefore(prefix: string, href: string)
    requires |prefix| < |href| && href[..|prefix|] == prefix && href[|prefix|] == 'j'
    requires !Contains(prefix, IdLabel)
    ensures forall j: nat :: j < |prefix| ==> !IdMatchAt(href, j)
  {
    var p := |prefix|;
    forall j: nat | j < p ensures !IdMatchAt(href, j) {
      if j + 7 <= p {
        assert href[j..j + 7] == prefix[j..j + 7];
        assert !OccursAt(prefix, IdLabel, j);
      }
    }
  }

  /** The digit prefix of digits followed by a non-digit is those digits. */
  lemma {:induction false} DigitPrefixOf(d: string, rest: string)
    requires AllDigits(d)
    requires rest == [] || !IsDigit(rest[0])
    ensures DigitPrefix(d + rest) == d
  {
    if |d| > 0 {
      assert (d + rest)[1..] == d[1..] + rest;
      DigitPrefixOf(d[1..], rest);
      assert d == [d[0]] + d[1..];
    } else {
      assert d + rest == rest;
    }
  }

  /** Two letters any occurrence of "jog_id=" must show. */
  lemma LabelLetters(s: string, j: int)
    ensures OccursAt(s, IdLabel, j) ==> s[j] == 'j' && s[j + 3] == '_'
  {
    if OccursAt(s, IdLabel, j) {
      assert s[j..j + 7][0] == 'j' && s[j..j + 7][3] == '_';
    }
  }

  /** The player page of a numeric ID yields that ID back, for the site's own
      base URL. */
  lemma PlayerUrlRoundTrip(playerId: string)
    requires |playerId| >= 1 && AllDigits(playerId)
    ensures MatchPlayerId(PlayerUrl(BaseUrl, playerId)) == Some(playerId)
  {
    var prefix := BaseUrl + "/ver_jogador.asp?";
    assert !Contains(prefix, IdLabel) by {
      forall j | 0 <= j <= |prefix| ensures !OccursAt(prefix, IdLabel, j) {
        LabelLetters(prefix, j);
      }
    }
    assert PlayerUrl(BaseUrl, playerId) == prefix + IdLabel + playerId + "#info";
    MatchPlayerIdRoundTrip(prefix, playerId, "#info");
  }
}
