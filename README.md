# Voice-XP ledger

A model of the experience ledger of a Discord bot written in Python
(`main.py`). Members sitting in a voice channel earn one XP per minute in
each guild (server). Every 60 XP is one level, and reaching a new level
produces a level-up announcement. Each guild has a top-three leaderboard.
At 00:00 UTC on the first day of each month the bot announces the top three
and clears every guild's XP and levels. Administrators pick the channels
for announcements, and any member can query their own progress.

The files:

- `tables.dfy` (module `Tables`) models one guild's XP dictionary as an
  insertion-ordered sequence of `(member, xp)` entries. A missing member
  reads as 0. `t[m] += d` updates an entry where it stands, or appends a new
  one, as a Python `defaultdict(int)` does.
- `leaderboard.dfy` (module `Leaderboard`) models `get_top_members`.
  - `SortDesc` is a stable sort by decreasing XP, standing in for
    `sorted(..., key=xp, reverse=True)`.
  - `TopMembers` cuts the sorted table to its first three entries.
- `experience.dfy` (module `Experience`) holds the bot's four dictionaries
  in the class `Ledger`. It has these operations:
  - the tick of `voice_xp_loop`: nested loops over guilds and members;
  - the monthly reset;
  - the two channel setters;
  - the `levelazer` progress query.

  Each loop is specified by a pure fold: `Credit` is one pass of the inner
  loop body, `CreditAll` folds it over the visits, and `Roll` flattens a
  presence snapshot into visits.
- `wrappers.dfy` defines an `Option` type.

The ledger's invariant is `Sound`:

- every stored level is the member's XP divided by 60, with missing values
  read as 0;
- each table holds each member once;
- no guild has levels without an XP table.

The invariant holds because XP rises by one at a time, so the level can
rise by at most one per visit.

Two behaviours of the code worth stating:

- The leaderboard is non-increasing, not strictly decreasing: entries of
  equal XP stay in insertion order (`Leaderboard.SortStable`).
- The reset announces over `bot.guilds` but clears over the keys of
  `xp_data`. `Ledger.ResetMonthly` takes the guild list as a parameter and
  clears over the XP keys.

Some lemmas are proof steps only and have no row below:

- `Leaderboard.InsertAtMost`, `Leaderboard.WithXpBelow`, `Leaderboard.WithXpConcat`, `Leaderboard.WithXpCons` and `Leaderboard.DescendingTail` serve `SortStable`, `TopStable` and `InsertDescending`.
- `Experience.CreditsNone`, `Experience.OccurrencesAt` and `Experience.ReportsRisesStep` serve `CreditAllEvents`, `CreditsUnique` and `TickLevelUps`.
- `Experience.NonEmptyHasKey` serves `ClearRecords`.
- `Experience.Route`, the truthiness test on a channel id, is used by `Deliveries` (main.py:57-59) and `ResetMonthly` (main.py:155-156).

## Model

| member | source | states |
|---|---|---|
| Tables.XpOf | main.py:97 | `dict.get(m, 0)`: the XP of the first entry for m, or 0 when m has none; its properties are `XpOfAbsent` and `AddXpCredits` |
| Tables.AddXp | main.py:48 | `xp_data[g][m] += d` on a `defaultdict(int)`: updates m's entry in place or appends `(m, d)`; its properties are `AddXpCredits`, `AddXpOrder` and `AddXpDistinct` |
| Tables.XpOfAbsent | main.py:97 | a member with no entry in the table reads as 0 XP (`dict.get(m, 0)` / `defaultdict(int)`) |
| Tables.AddXpCredits | main.py:48 | `t[m] += d` raises m's XP by exactly d and leaves every other member's XP unchanged |
| Tables.AddXpOrder | main.py:48 | crediting a member already present keeps the key order; crediting a new member appends it last (dict insertion order) |
| Tables.AddXpDistinct | main.py:48 | crediting keeps each member in the table at most once |
| Leaderboard.InsertDescending | main.py:112 | inserting into a non-increasing sequence keeps it non-increasing |
| Leaderboard.SortDesc | main.py:112 | the sorted table is non-increasing by XP, has the same length and is a permutation of the table |
| Leaderboard.InsertStable | main.py:112 | an inserted entry goes after every entry of equal XP, and no other entry changes its relative order |
| Leaderboard.SortStable | main.py:112 | the sort is stable: for every XP value, the entries with that value appear in table order |
| Leaderboard.TopKept | main.py:113 | every entry of the cut sorted table is an entry of the guild's table |
| Leaderboard.TopDropped | main.py:112-113 | an entry left out means the list was cut at three, and the entry has at most the XP of the last one listed |
| Leaderboard.TopStable | main.py:112-113 | for each XP value, the listed entries with that value are a prefix of the table's entries with it |
| Leaderboard.TopMembers | main.py:110-113 | `get_top_members`: all entries when there are at most three, otherwise exactly three. The list is non-increasing, every entry is in the table, no omitted entry has more XP than the last listed, and ties keep insertion order |
| Leaderboard.TopMembersExample | main.py:110-113 | entries with 120, 45 and 200 XP are listed as 200, 120, 45 |
| Experience.Deliveries | main.py:53-59 | each level-up, in order, is sent to its guild's level channel, and is dropped when that channel is missing or 0; never more messages than level-ups |
| Experience.DeliveriesExact | main.py:53-59 | a message is sent exactly for a level-up whose guild has a truthy level channel, and it goes to that channel |
| Experience.DeliveriesUnrouted | main.py:57-59 | a guild with no level channel, or channel 0, receives no level-up message |
| Experience.DeliveriesAllRouted | main.py:53-59 | when every guild involved has a level channel, every level-up is sent, in order, to its guild's channel |
| Experience.Earns | main.py:47 | only a member in a voice channel who is not a bot earns XP; used by `CreditXp` and `TickCredits` |
| Experience.Credit | main.py:47-53 | one pass of the inner loop body: credit 1 XP, read the old level (storing 0 if absent), store the new level if higher and record a level-up; its properties are `CreditXp`, `CreditSound` and `CreditLevels` |
| Experience.CreditAll | main.py:45-53 | the loop body applied to the visits in order; its properties are `CreditAllXp`, `CreditAllSound` and `CreditAllEvents` |
| Experience.Roll | main.py:45-46 | the nested loops' visit order: each guild in turn, its members in order; `RollSpec` and `RollDistinct` state what it contains |
| Experience.LevelStep | main.py:48-51 | adding one XP raises `xp // 60` by at most one, and raises it exactly when the new XP is a multiple of 60 |
| Experience.CreditXp | main.py:47-48 | one visit raises the visited member's XP by 1 when the member is in voice and not a bot, and nobody else's |
| Experience.CreditSound | main.py:47-52 | one visit keeps the ledger invariant (levels equal XP // 60, tables duplicate-free) |
| Experience.CreditLevels | main.py:49-53 | one visit emits a level-up exactly when the visited member's level rises; it rises by at most one, the event carries the new level, and nobody else's level moves |
| Experience.CreditAllXp | main.py:45-48 | after a sequence of visits, each member's XP is the old XP plus 1 per crediting visit |
| Experience.CreditAllSound | main.py:45-52 | a sequence of visits keeps the ledger invariant |
| Experience.CreditAllEvents | main.py:45-53 | when no member is visited twice, the level-ups are exactly one per member whose level rose, each carrying the new level, which is the old one plus one |
| Experience.RollSpec | main.py:45-46 | the visits of a tick are exactly the (guild, member) listings of the snapshot |
| Experience.RollDistinct | main.py:45-46 | a snapshot listing each guild and each member once visits each pair once |
| Experience.CreditsUnique | main.py:45-48 | without repeated visits, a member is credited once if some visit credits it, otherwise never |
| Experience.TickCredits | main.py:45-48 | one tick adds exactly 1 XP to each member who is in voice and not a bot, and leaves everyone else's XP unchanged |
| Experience.TickNeverLowers | main.py:45-48 | a tick never lowers anybody's XP |
| Experience.TickRises | main.py:49-52 | in one tick a member's level rises exactly when the member earns and the new XP is a multiple of 60 |
| Experience.TickLevelUps | main.py:50-53 | one tick emits exactly one level-up per member whose level rose and none for anybody else; each carries the new level, the old one plus one |
| Experience.TickExample | main.py:45-53 | a member on 59 XP who sits in voice for one tick reaches 60 XP and level 1, announced once |
| Experience.IsMonthBoundary | main.py:152 | the reset condition: day 1, hour 0, minute 0; `BoundaryIsFirstMinute` characterises it and `ResetMonthly` acts on it |
| Experience.BoundaryIsFirstMinute | main.py:152 | the reset condition day = 1, hour = 0, minute = 0 holds exactly on the first minute of the month |
| Experience.AbsentReadsZero | main.py:97-98 | a guild or member with no record reads as 0 XP and level 0 |
| Experience.Ledger.constructor | main.py:22-26 | all four dictionaries start empty, and the invariant holds |
| Experience.Ledger.Tick | main.py:44-59 | the nested voice loop leaves XP, levels and level-ups equal to the fold `CreditAll` over the snapshot's visits. The messages sent are `Deliveries` of those level-ups over the level channels. It keeps the invariant and does not change the channel settings |
| Experience.Ledger.AccrueGuild | main.py:46-53 | the inner loop over one guild's members continues the fold over that guild's visits and leaves the channel settings alone |
| Experience.Ledger.Accrue | main.py:47-53 | one pass of the loop body changes the XP, levels and level-ups exactly as `Credit` does |
| Experience.Ledger.SetLevelChannel | main.py:79 | `setuplvl` overwrites only this guild's level channel; everything else is unchanged |
| Experience.Ledger.SetMonthlyChannel | main.py:89 | `setupmonth` overwrites only this guild's monthly channel; everything else is unchanged |
| Experience.Ledger.Progress | main.py:97-102 | `levelazer` gives the recorded XP and level (0 when absent) and the target `60 * (level + 1)`, which is the next multiple of 60 above the XP |
| Experience.Ledger.ResetMonthly | main.py:152-173 | off the boundary nothing happens. On it, each listed guild gets one report with its pre-reset top three and its routed monthly channel, then every guild's XP and levels are empty and the channel settings are unchanged |
| Experience.Ledger.ClearRecords | main.py:171-173 | the clearing loop leaves every known guild with an empty XP table and level map, so every member reads 0 XP and level 0; the channel settings are unchanged |

## Left out

- The Discord API is not modelled. This covers `bot.guilds`, `member.voice`, `get_channel`, `get_member`, embeds, `channel.send` and interaction responses. A presence snapshot is an input. Level-ups and monthly reports are returned values.
- Sending a message needs a configured channel that `get_channel` can find. The configured-channel test is modelled: `Deliveries` covers level-ups (main.py:57-59), and `Route` in `ResetMonthly` covers monthly reports (main.py:155-156). The `get_channel` lookup (main.py:60-62, 157-158) is not modelled, because whether the channel still exists is a framework question.
- A report's top three still holds members who have left the guild; the embeds skip them through `get_member` (main.py:164-169), which is a framework lookup.
- The `leadearboarz` and `generalleaderboardz` commands only format `get_top_members` into embeds, and the formatting is not modelled.
- async/await, the `tasks.loop` timers, `on_ready` and the Flask keep-alive thread (main.py:32-39, 177-189) are scheduling and concurrency, not ledger logic.
- `datetime.utcnow()` (main.py:151) is replaced by day, hour and minute parameters.
- Permission checks (main.py:76, 86) are enforced by the framework before the core runs.
- Token loading from `.env` (main.py:192-193) is configuration.
- Reads through a `defaultdict` can create an empty inner dictionary (main.py:97-98, 111). Such a dictionary behaves exactly like an absent one, so absent keys read as empty and these insertions are not modelled. The insertion of level 0 on line 49 is modelled.
- Experience.TickCredits: requires a snapshot that lists each guild once and each member once per guild, as the framework does. With a repeated listing the model credits once per listing, like the loop, but the lemma does not describe that case.
- Experience.TickRises: requires the same duplicate-free snapshot as TickCredits.
- Experience.TickLevelUps: requires the same duplicate-free snapshot as TickCredits.
- Experience.Ledger.ClearRecords: `.clear()` empties one dictionary in place. The model instead assigns one new empty value per guild. Another reference to the inner dictionaries would see a difference, but the bot holds none.
- Integers are unbounded, as Python's are.
