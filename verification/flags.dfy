/** How the two flags read from the environment steer the runs: `TEST_MODE`
    cuts the modular scraper and the deal finder down to a sample, and the
    Telegram settings decide whether the deal finder sends anything. */
module Flags {
  import opened Wrappers
  import opened Text
  import Config
  import PlayerMap
  import RowShaping
  import Enrichment
  import Deals
  import Telegram

  /** Only the exact text "true" turns test mode on: then the modular
      scraper reads one result page and visits at most the first player, and
      the deal finder stops at the first player it checks. Any other value,
      "TRUE" and "1" included, gives the full run. The stand-alone scripts
      ignore the flag. */
  lemma TestModeEffects(env: Option<string>, totalPages: nat, ids: seq<string>, base: string,
                        players: PlayerMap.Players, pages: map<string, Deals.NegotiationPage>)
    ensures var on := Config.TestMode(env);
            && (env == Some("true") ==>
                  && RowShaping.PagesToScrape(RowShaping.ModularJs, on, totalPages) == 1
                  && Enrichment.IdsToProcess(RowShaping.ModularJs, on, ids) == (if |ids| == 0 then [] else [ids[0]])
                  && |Deals.CollectDeals(base, players, pages, on)| <= 1
                  && Deals.CollectDeals(base, players, pages, on) <= Deals.CollectDeals(base, players, pages, false))
            && (env != Some("true") ==>
                  && RowShaping.PagesToScrape(RowShaping.ModularJs, on, totalPages) == totalPages
                  && Enrichment.IdsToProcess(RowShaping.ModularJs, on, ids) == ids
                  && Deals.FindDeals(base, players, pages, on) == Deals.FindDeals(base, players, pages, false))
            && RowShaping.PagesToScrape(RowShaping.ScriptJs, on, totalPages) == totalPages
            && RowShaping.PagesToScrape(RowShaping.ScriptPhp, on, totalPages) == 1
            && Enrichment.IdsToProcess(RowShaping.ScriptJs, on, ids) == ids
            && Enrichment.IdsToProcess(RowShaping.ScriptPhp, on, ids) == ids
  {
    if env == Some("true") {
      Deals.TestModeAtMostOne(base, players, pages);
      Deals.TestModePrefix(base, players, pages);
      if |ids| > 0 {
        assert ids[..1] == [ids[0]];
      }
    }
  }

  /** The deal finder sends nothing unless both the bot token and the chat ID
      are set and non-empty; when they are and there is a deal, it sends the
      report, in at least one message. */
  lemma TelegramNeedsBoth(botToken: Option<string>, chatId: Option<string>, top: seq<Deals.Deal>, updated: string)
    ensures var sent := Telegram.DealFinderMessages(Config.TelegramEnabled(botToken, chatId), top, updated);
            && (botToken.None? || botToken == Some("") || chatId.None? || chatId == Some("") ==> sent == [])
            && (botToken.Some? && botToken != Some("") && chatId.Some? && chatId != Some("") && |top| > 0 ==>
                  sent == Telegram.SendPlan(top, updated) && |sent| >= 1)
  {
    if Config.TelegramEnabled(botToken, chatId) && |top| > 0 {
      Telegram.SendPlanSpec(top, updated);
    }
  }
}
