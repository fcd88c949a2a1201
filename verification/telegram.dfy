/** The Telegram report of the deal finder: the message listing the top
    deals, its split into chunks under Telegram's length limit, and the
    decision to send. Lengths are JavaScript lengths, in UTF-16 units. */
module Telegram {
  import opened Text
  import opened Deals

  // ---------------------------------------------------------------------------
  // splitMessage

  /** The text of some lines, each followed by a line break. */
  function LinesText(lines: seq<string>): string
    decreases |lines|
  {
    if |lines| == 0 then "" else lines[0] + "\n" + LinesText(lines[1..])
  }

  /** The loop of `splitMessage` over the remaining lines, from the chunks
      pushed so far and the current chunk: a line that would make the current
      chunk longer than the limit pushes the current chunk (even an empty one)
      and starts a new one with the line. */
  function SplitLoop(lines: seq<string>, maxLength: int, chunks: seq<string>, current: string): (seq<string>, string)
    decreases |lines|
  {
    if |lines| == 0 then (chunks, current)
    else
      var piece := lines[0] + "\n";
      if Units(current + piece) > maxLength then SplitLoop(lines[1..], maxLength, chunks + [current], piece)
      else SplitLoop(lines[1..], maxLength, chunks, current + piece)
  }

  /** `splitMessage(message, maxLength)`: the last chunk is pushed when it is
      non-empty. */
  function SplitMessage(message: string, maxLength: int): seq<string> {
    var (chunks, current) := SplitLoop(Split(message, '\n'), maxLength, [], "");
    if current != "" then chunks + [current] else chunks
  }

  /** The loop keeps the text: the chunks and the current chunk spell out the
      text they started from followed by the remaining lines. */
  lemma {:induction false} SplitLoopText(lines: seq<string>, maxLength: int, chunks: seq<string>, current: string)
    ensures var (c, r) := SplitLoop(lines, maxLength, chunks, current);
            Concat(c) + r == Concat(chunks) + current + LinesText(lines)
    decreases |lines|
  {
    if |lines| > 0 {
      var piece := lines[0] + "\n";
      var rest := lines[1..];
      assert LinesText(lines) == piece + LinesText(rest);
      if Units(current + piece) > maxLength {
        SplitLoopText(rest, maxLength, chunks + [current], piece);
        assert (chunks + [current])[..|chunks|] == chunks;
        assert Concat(chunks + [current]) == Concat(chunks) + current;
      } else {
        SplitLoopText(rest, maxLength, chunks, current + piece);
      }
    }
  }

  lemma {:induction false} LinesTextJoin(lines: seq<string>)
    requires |lines| >= 1
    ensures LinesText(lines) == Join(lines, "\n") + "\n"
    decreases |lines|
  {
    if |lines| > 1 {
      LinesTextJoin(lines[1..]);
    }
  }

  /** The chunks put together are the message with a line break added. */
  lemma SplitMessageText(message: string, maxLength: int)
    ensures Concat(SplitMessage(message, maxLength)) == message + "\n"
  {
    var lines := Split(message, '\n');
    var (c, r) := SplitLoop(lines, maxLength, [], "");
    SplitLoopText(lines, maxLength, [], "");
    assert Concat(c) + r == LinesText(lines);
    LinesTextJoin(lines);
    JoinSplit(message, '\n');
    if r != "" {
      assert (c + [r])[..|c|] == c;
    }
  }

  /** A chunk is within the limit, or it is a single line that alone
      exceeds it. */
  predicate ChunkFits(c: string, maxLength: int) {
    Units(c) <= maxLength || (|c| > 0 && c[|c| - 1] == '\n' && '\n' !in c[..|c| - 1])
  }

  lemma {:induction false} SplitLoopFits(lines: seq<string>, maxLength: int, chunks: seq<string>, current: string)
    requires forall k :: 0 <= k < |lines| ==> '\n' !in lines[k]
    requires forall k :: 0 <= k < |chunks| ==> ChunkFits(chunks[k], maxLength)
    requires ChunkFits(current, maxLength)
    ensures var (c, r) := SplitLoop(lines, maxLength, chunks, current);
            (forall k :: 0 <= k < |c| ==> ChunkFits(c[k], maxLength)) && ChunkFits(r, maxLength)
    decreases |lines|
  {
    if |lines| > 0 {
      var piece := lines[0] + "\n";
      var rest := lines[1..];
      assert forall k :: 0 <= k < |rest| ==> rest[k] == lines[k + 1];
      if Units(current + piece) > maxLength {
        assert piece[..|piece| - 1] == lines[0];
        SplitLoopFits(rest, maxLength, chunks + [current], piece);
      } else {
        SplitLoopFits(rest, maxLength, chunks, current + piece);
      }
    }
  }

  /** Every chunk is within the limit unless it is one line longer than the
      limit by itself. */
  lemma SplitMessageFits(message: string, maxLength: int)
    requires maxLength >= 0
    ensures forall c :: c in SplitMessage(message, maxLength) ==> ChunkFits(c, maxLength)
  {
    var lines := Split(message, '\n');
    SplitLoopFits(lines, maxLength, [], "");
  }

  predicate EndsWithBreak(c: string) {
    c == "" || c[|c| - 1] == '\n'
  }

  /** Every chunk ends with a line break, except an empty first one. */
  lemma {:induction false} SplitLoopBreaks(lines: seq<string>, maxLength: int, chunks: seq<string>, current: string)
    requires forall k :: 0 <= k < |chunks| ==> EndsWithBreak(chunks[k])
    requires EndsWithBreak(current)
    ensures var (c, r) := SplitLoop(lines, maxLength, chunks, current);
            (forall k :: 0 <= k < |c| ==> EndsWithBreak(c[k])) && EndsWithBreak(r)
    decreases |lines|
  {
    if |lines| > 0 {
      var piece := lines[0] + "\n";
      if Units(current + piece) > maxLength {
        SplitLoopBreaks(lines[1..], maxLength, chunks + [current], piece);
      } else {
        SplitLoopBreaks(lines[1..], maxLength, chunks, current + piece);
      }
    }
  }

  lemma SplitMessageBreaks(message: string, maxLength: int)
    ensures forall c :: c in SplitMessage(message, maxLength) ==> EndsWithBreak(c)
  {
    SplitLoopBreaks(Split(message, '\n'), maxLength, [], "");
  }

  /** The loop only ever adds chunks after those already pushed. */
  lemma {:induction false} SplitLoopExtends(lines: seq<string>, maxLength: int, chunks: seq<string>, current: string)
    ensures chunks <= SplitLoop(lines, maxLength, chunks, current).0
    decreases |lines|
  {
    if |lines| > 0 {
      var piece := lines[0] + "\n";
      if Units(current + piece) > maxLength {
        SplitLoopExtends(lines[1..], maxLength, chunks + [current], piece);
      } else {
        SplitLoopExtends(lines[1..], maxLength, chunks, current + piece);
      }
    }
  }

  /** Once the current chunk is non-empty, every chunk pushed from then on
      is non-empty. */
  lemma {:induction false} SplitLoopNonEmpty(lines: seq<string>, maxLength: int, chunks: seq<string>, current: string,
                                             from: nat)
    requires forall k :: from <= k < |chunks| ==> chunks[k] != ""
    requires current != ""
    ensures var (c, r) := SplitLoop(lines, maxLength, chunks, current);
            (forall k :: from <= k < |c| ==> c[k] != "") && r != ""
    decreases |lines|
  {
    if |lines| > 0 {
      var piece := lines[0] + "\n";
      if Units(current + piece) > maxLength {
        SplitLoopNonEmpty(lines[1..], maxLength, chunks + [current], piece, from);
      } else {
        SplitLoopNonEmpty(lines[1..], maxLength, chunks, current + piece, from);
      }
    }
  }

  /** The first chunk is empty exactly when the first line alone (with its
      line break) is longer than the limit; no other chunk is ever empty. */
  lemma SplitMessageEmptyChunks(message: string, maxLength: int)
    ensures var chunks := SplitMessage(message, maxLength);
            var first := Split(message, '\n')[0];
            && |chunks| >= 1
            && (chunks[0] == "" <==> Units(first + "\n") > maxLength)
            && forall k :: 1 <= k < |chunks| ==> chunks[k] != ""
  {
    var lines := Split(message, '\n');
    var piece := lines[0] + "\n";
    var rest := lines[1..];
    assert "" + piece == piece;
    if Units(piece) > maxLength {
      assert [] + [""] == [""];
      assert SplitLoop(lines, maxLength, [], "") == SplitLoop(rest, maxLength, [""], piece);
      SplitLoopNonEmpty(rest, maxLength, [""], piece, 1);
      SplitLoopExtends(rest, maxLength, [""], piece);
    } else {
      assert SplitLoop(lines, maxLength, [], "") == SplitLoop(rest, maxLength, [], piece);
      SplitLoopNonEmpty(rest, maxLength, [], piece, 0);
    }
  }

  // ---------------------------------------------------------------------------
  // sendTopDeals

  /** The medals for the first three places, the place number after that. */
  function RankLabel(index: nat): string {
    if index == 0 then "\U{1F947}"
    else if index == 1 then "\U{1F948}"
    else if index == 2 then "\U{1F949}"
    else NatToString(index + 1) + "."
  }

  /** Different places get different labels. */
  lemma RankLabelInjective(i: nat, j: nat)
    requires RankLabel(i) == RankLabel(j)
    ensures i == j
  {
    if i >= 3 && j >= 3 {
      var a := NatToString(i + 1);
      var b := NatToString(j + 1);
      assert a == (a + ".")[..|a|];
      assert b == (b + ".")[..|b|];
      assert |a| == |b|;
      NatToStringInjective(i + 1, j + 1);
    }
  }

  const TitleLine: string := "\U{1F3AF} <b>Top 20 Player Deals</b>"
  const Header: string := TitleLine + "\n\n" + "\U{1F4B0} Best value transfers (Estimated - Asking Price)\n\n"

  /** The lines of one deal. */
  function DealBlock(rank: string, deal: Deal): string {
    rank + " <b>" + deal.name + "</b>\n"
    + "   \U{1F4B5} Difference: <b>" + deal.differenceFormatted + "</b>\n"
    + "   \U{1F4CA} Estimated: " + deal.estimatedFormatted + "\n"
    + "   \U{1F4B8} Asking: " + deal.askingFormatted + "\n"
    + "   \U{1F517} <a href=\"" + deal.url + "\">View Player</a>\n\n"
  }

  /** The blocks of `deals`, the first ranked at `index`. */
  function Blocks(deals: seq<Deal>, index: nat): string
    decreases |deals|
  {
    if |deals| == 0 then "" else DealBlock(RankLabel(index), deals[0]) + Blocks(deals[1..], index + 1)
  }

  /** The message; `updated` stands for `new Date().toLocaleString()`. */
  function TopDealsMessage(deals: seq<Deal>, updated: string): string {
    Header + Blocks(deals, 0) + "\n\U{23F0} Updated: " + updated
  }

  /** The block of the deal at every place, with its rank label, is in the
      blocks. */
  lemma {:induction false} BlocksHold(deals: seq<Deal>, index: nat, i: nat)
    requires i < |deals|
    ensures Contains(Blocks(deals, index), DealBlock(RankLabel(index + i), deals[i]))
    decreases i, 1
  {
    if i == 0 {
      BlocksCons(deals, index);
      ContainsPrefix(DealBlock(RankLabel(index), deals[0]), Blocks(deals[1..], index + 1));
    } else {
      BlocksHoldStep(deals, index, i);
    }
  }

  lemma {:induction false} BlocksHoldStep(deals: seq<Deal>, index: nat, i: nat)
    requires 0 < i < |deals|
    ensures Contains(Blocks(deals, index), DealBlock(RankLabel(index + i), deals[i]))
    decreases i, 0
  {
    BlocksHold(deals[1..], index + 1, i - 1);
    assert deals[1..][i - 1] == deals[i];
    BlocksCons(deals, index);
    ContainsSuffix(DealBlock(RankLabel(index), deals[0]), Blocks(deals[1..], index + 1),
                   DealBlock(RankLabel(index + i), deals[i]));
  }

  lemma BlocksCons(deals: seq<Deal>, index: nat)
    requires |deals| > 0
    ensures Blocks(deals, index) == DealBlock(RankLabel(index), deals[0]) + Blocks(deals[1..], index + 1)
  {
  }

  /** The message lists every deal with its place. */
  lemma MessageListsEveryDeal(deals: seq<Deal>, updated: string, i: nat)
    requires i < |deals|
    ensures Contains(TopDealsMessage(deals, updated), DealBlock(RankLabel(i), deals[i]))
  {
    BlocksHold(deals, 0, i);
    ContainsInMiddle(Header, Blocks(deals, 0), "\n\U{23F0} Updated: ", updated, DealBlock(RankLabel(i), deals[i]));
  }

  /** A text found in the middle part is found in the whole. */
  lemma ContainsInMiddle(header: string, middle: string, footer: string, updated: string, p: string)
    requires Contains(middle, p)
    ensures Contains(header + middle + footer + updated, p)
  {
    ContainsInfix(header, middle, footer + updated, p);
    assert header + middle + (footer + updated) == header + middle + footer + updated;
  }

  /** The first line of the message is the title. */
  lemma MessageFirstLine(deals: seq<Deal>, updated: string)
    ensures Split(TopDealsMessage(deals, updated), '\n')[0] == TitleLine
  {
    assert '\n' !in TitleLine by {
      assert forall k :: 0 <= k < |TitleLine| ==> TitleLine[k] != '\n';
    }
    FirstLineOf(TitleLine, "\U{1F4B0} Best value transfers (Estimated - Asking Price)\n\n", Blocks(deals, 0),
                "\n\U{23F0} Updated: ", updated);
  }

  /** A text that starts with a line break-free title and a blank line has
      the title as its first line. */
  lemma FirstLineOf(title: string, sub: string, blocks: string, footer: string, updated: string)
    requires '\n' !in title
    ensures Split(title + "\n\n" + sub + blocks + footer + updated, '\n')[0] == title
  {
    var rest := "\n" + sub + blocks + footer + updated;
    assert title + "\n\n" + sub + blocks + footer + updated == title + ['\n'] + rest;
    SplitAtSep(title, rest, '\n');
  }

  const MaxMessageUnits: nat := 4000
  const NoDeals: string := "\U{274C} No deals found"

  /** The messages `sendTopDeals` sends, in order: the no-deals notice, the
      whole message, or its chunks when it is longer than 4000 units. */
  function SendPlan(deals: seq<Deal>, updated: string): seq<string> {
    if |deals| == 0 then [NoDeals]
    else
      var message := TopDealsMessage(deals, updated);
      if Units(message) > MaxMessageUnits then SplitMessage(message, MaxMessageUnits) else [message]
  }

  /** With deals, the messages sent put together are the report (with a line
      break added when it was split), none of them is empty, and each is
      within 4000 units unless it is a single line that alone is longer. */
  lemma SendPlanSpec(deals: seq<Deal>, updated: string)
    requires |deals| > 0
    ensures var message := TopDealsMessage(deals, updated);
            var plan := SendPlan(deals, updated);
            && |plan| >= 1
            && (Units(message) <= MaxMessageUnits ==> plan == [message])
            && (Units(message) > MaxMessageUnits ==> Concat(plan) == message + "\n")
            && (forall k :: 0 <= k < |plan| ==> plan[k] != "")
            && (forall k :: 0 <= k < |plan| ==> ChunkFits(plan[k], MaxMessageUnits))
  {
    var message := TopDealsMessage(deals, updated);
    if Units(message) > MaxMessageUnits {
      SplitMessageText(message, MaxMessageUnits);
      SplitMessageFits(message, MaxMessageUnits);
      SplitMessageEmptyChunks(message, MaxMessageUnits);
      MessageFirstLine(deals, updated);
      UnitsAtLeastLength(TitleLine + "\n");
    } else {
      assert message != "" by {
        assert |message| >= |Header|;
      }
      assert ChunkFits(message, MaxMessageUnits);
    }
  }

  /** What the deal finder sends: the report of the top deals, when Telegram
      is configured and there is at least one deal. */
  function DealFinderMessages(telegramEnabled: bool, top: seq<Deal>, updated: string): seq<string> {
    if telegramEnabled && |top| > 0 then SendPlan(top, updated) else []
  }

  /** The deal finder never sends the no-deals notice: with no deals it
      sends nothing. */
  lemma DealFinderNeverSendsNoDeals(telegramEnabled: bool, top: seq<Deal>, updated: string)
    ensures NoDeals !in DealFinderMessages(telegramEnabled, top, updated)
  {
    var plan := DealFinderMessages(telegramEnabled, top, updated);
    if telegramEnabled && |top| > 0 {
      var message := TopDealsMessage(top, updated);
      SendPlanSpec(top, updated);
      if Units(message) > MaxMessageUnits {
        SplitMessageBreaks(message, MaxMessageUnits);
      }
    }
  }
}
