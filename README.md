# Libil league: admin handlers and site rules in Dafny

A model of the league site's domain logic. The site keeps one JSON document
holding the standings, the matches, the pending registrations and the news.

- `admin.js` lets the organiser change that document. It approves and rejects
  registrations, adds, renames and deletes teams, schedules matches and draws
  rounds. It also runs a match through start, score, minute, finish and
  reopen, and overrides single counters of the table.
- `main.js` is the public site. It orders the table, sorts matches into
  upcoming, live and finished lists, labels results, shows the latest news,
  checks the registration form and looks up a team at login.

Modules:

- `Util` (`util.dfy`): `find` as the index of the first hit (`IndexOf`) and
  `filter` (`Filter`) with the order and count facts about it.
- `Records` (`records.dfy`): the records of the document (`Team`, `Match`,
  `Registration`, `News`) and the zeroed team and fresh fixture that the
  handlers push.
- `Ledger` (`ledger.dfy`): what finishing a match adds to the two teams'
  counters (`ApplyResult`), what reopening takes back with clamping at 0
  (`RevertResult`), the counter editor (`SetStat`) and the checks on a new team
  name (`CheckTeamEntry`).
- `Transitions` (`transitions.dfy`): each admin handler as a function from the
  document before to the document after, with the lemmas about it.
- `Admin` (`admin.dfy`): the class `AdminPanel`, holding `standings`,
  `matches` and `pending` as fields the handler methods update step by step.
  This is the global `adminData`. Each handler method's postcondition says
  that the document it leaves is the one the matching `Transitions` function
  gives. The helpers for the table say what they leave in `standings` in terms
  of `Ledger`: `UpdateTeamStatsAfterMatch` and `RevertTeamStats` give
  `ApplyResult` and `RevertResult`, and `CountGame`, `CountOutcome`,
  `UncountGame` and `UncountOutcome` give their halves (`Game`, `Decide`,
  `Ungame`, `Undecide`) for both entries.
- `Site` (`site.dfy`): the table comparator and a stable sort, the three match
  lists, `getMatchResult`, `news.slice(0, 6)`, `registerTeam` and `loginTeam`.

How the source's inputs appear in the model:

- Team and match records are values inside sequences. A handler that changes
  a looked-up object in place replaces the element at the index `find`
  returned. When the home and the away name find the same entry, the two
  updates are applied one after the other to that entry, as the source does.
- Some inputs are parameters:
  - `Date.now()` ids and the ISO date strings;
  - the order produced by the random shuffle;
  - the answers to `confirm` and `prompt`;
  - the current time, and the timestamp `new Date(s)` gives a date string
    (`None` where JavaScript gets `NaN`).
- `parseInt(x) || d` takes the parsed value as an `Option<int>`: `None` is
  `NaN`. Because of `||`, a parsed 0 also yields the default.

Three details of the code that the model keeps:

- The duplicate-name check in `addTeamManually` and `registerTeam` is an exact,
  case-sensitive comparison (admin.js:214, main.js:194). It does not ignore case.
- `updateTeamStat` never recomputes `played`. It recomputes `points` only after
  an edit of `wins` or `draws` (admin.js:524-535).
- Points per win (3) and per draw (1) are literals in admin.js. No setting
  changes them.

## Model

| member | source | states |
|---|---|---|
| Ledger.TeamIndex | admin.js:394-395 | the lookup returns the first entry whose name equals the given one exactly, and none when no entry has it |
| Ledger.ApplyResult | admin.js:393-424 | crediting a result keeps the table's length and every entry's name and owner |
| Ledger.CreditInTwoPhases | admin.js:400-423 | counting games and goals for both sides first and outcomes second is the same as crediting the home side completely and then the away side, also when both names find the same entry |
| Ledger.ApplyResultCounts | admin.js:400-423 | with two different entries found: each has played + 1 and its own goals for and against; exactly one branch fires (home win: wins + 1 and points + 3 for home, losses + 1 for away; away win mirrored; draw: draws + 1 and points + 1 for both); every other entry is unchanged |
| Ledger.ApplyResultMissingTeam | admin.js:394-397 | when either name is missing from the standings, no entry changes |
| Ledger.ApplyResultTotalPoints | admin.js:410-423 | with both teams found, the table's total points grow by exactly 3 for a decisive result and 2 for a draw |
| Ledger.ApplyResultKeepsConsistent | admin.js:400-423 | entries with played = wins + draws + losses and points = 3·wins + draws keep both equations after a result is credited |
| Ledger.RevertResult | admin.js:429-458 | the rollback keeps the table's length and every entry's name and owner |
| Ledger.RevertResultCounts | admin.js:434-457 | with two different entries found: each has played − 1 clamped at 0 and its own goals for and against subtracted without clamping; the branch chosen by the scores takes back wins − 1 and points − 3 from the winner and losses − 1 from the loser, or draws − 1 and points − 1 from both, each clamped at 0; every other counter and entry is unchanged |
| Ledger.DebitInTwoPhases | admin.js:434-457 | the rollback in admin.js order (games and goals for both sides, then outcomes) equals debiting home then away |
| Ledger.RevertResultNonNegative | admin.js:435-456 | after the clamped rollback, played, wins, draws, losses and points are still non-negative |
| Ledger.DebitUndoesCredit | admin.js:434-457 | one side's clamped rollback cancels its credit when its counters were non-negative |
| Ledger.SameEntryRoundTrip | admin.js:434-457 | an entry credited twice and debited twice, because both names found it, comes back unchanged when its counters were non-negative |
| Ledger.TwoSidedRoundTrip | admin.js:434-457 | when both entries' counters (played, wins, draws, losses, points) are non-negative, crediting the two entries and debiting them in the same order gives the table back, whether or not they are the same entry |
| Ledger.RevertUndoesApply | admin.js:393-457 | reverting the result just credited gives the original table whenever the teams playing had non-negative counters |
| Ledger.SetStatEffect | admin.js:524-535 | the edited counter reads back as written; points become 3·wins + draws after an edit of wins or draws, the value written after an edit of points, and stay otherwise; every other counter, played included, and the name and owner are kept |
| Ledger.CheckTeamEntry | admin.js:209-217 | accepted iff both fields are non-empty and no entry has exactly that name; an empty field is reported first, a duplicate only when both fields are given |
| Transitions.RegistrationIndex | admin.js:174 | the index found is the first registration with that id, and none is found iff no registration has it |
| Transitions.ApproveRegistrationEffect | admin.js:173-191 | an unknown id changes nothing; otherwise one team with all counters 0 and the registration's team and owner is appended after the existing ones, every registration with that id leaves the queue and the others stay |
| Transitions.ApproveRegistrationRepeatsName | admin.js:173-191 | approval does not check the table: a registration whose team name is already listed is approved, and two entries then carry that name |
| Transitions.RejectRegistrationEffect | admin.js:198-202 | the queue loses exactly the registrations with that id and keeps every other one as often as before; table and matches unchanged |
| Transitions.AddTeamManuallyEffect | admin.js:205-229 | a refused entry changes nothing; an accepted one appends one zeroed team, which is then the only entry with that name and the one the lookup finds |
| Transitions.EditTeamRefused | admin.js:239-244 | a cancelled prompt, an empty answer, the unchanged name and an unknown team leave the document as it was |
| Transitions.EditTeamCascade | admin.js:239-249 | the first entry with the old name gets the new name and nothing else; each match side equal to the old name is rewritten independently, nothing else in any match changes, and no match names the old team afterwards |
| Transitions.RenameInMatches | admin.js:245-248 | after renaming a team to a different name no match names the old team, and every match it did not play in is kept as it was |
| Transitions.EditTeamRoundTrip | admin.js:239-249 | renaming back restores the document when the new name was used by no team and no match |
| Transitions.DeleteTeamCascade | admin.js:254-260 | a confirmed delete removes every entry with the name and exactly the matches where it plays on either side; every other team and match stays as often as before; the queue is unchanged |
| Transitions.DeleteTeamKeepsOrder | admin.js:258 | the surviving matches keep their relative order: deleting from a concatenation concatenates the deletions, and a list the team does not play in is kept as it is |
| Transitions.UpdateTeamStatEffect | admin.js:524-536 | an unknown name changes nothing; otherwise only the first entry with the name changes, its edited counter becomes the parsed value (0 for a non-number) and played changes only when it is the counter edited |
| Transitions.CheckMatchEntry | admin.js:281-289 | accepted iff home, away and date are all given and home differs from away; a self-match is reported only when all three are given |
| Transitions.AddMatchEffect | admin.js:275-302 | a refused form changes nothing; an accepted one appends exactly the fixture with the given id, sides, date and time, scheduled at 0:0 with no minute, after the existing ones; its sides differ; table and queue are unchanged |
| Transitions.Pairings | admin.js:319-334 | n shuffled names give exactly n / 2 (rounded down) matches |
| Transitions.PairingsUseEachTeamOnce | admin.js:319-334 | with distinct names no match pits a team against itself, no team plays twice in a round, and with an odd count the last name is left out |
| Transitions.PairingsWithRepeatedName | admin.js:319-334 | the pairing does not check the names: two equal names at positions 2k and 2k+1 make the k-th match a self-match |
| Transitions.GenerateRoundEffect | admin.js:308-342 | with fewer than two teams or no confirmation nothing changes; otherwise exactly n / 2 scheduled 0:0 matches between the shuffled names are appended after the existing ones, and table and queue are unchanged |
| Transitions.MatchIndex | admin.js:345 | the index found holds a match with that id, and none is found iff no match has it |
| Transitions.UnknownMatchIdChangesNothing | admin.js:344-486 | start, score, minute, finish, reopen and delete all leave the document unchanged for an id no match has |
| Transitions.StartMatchEffect | admin.js:344-355 | the first match with the id becomes live at 0:0 in minute 1, keeping its id, teams, date and time; every other match, the table and the queue are unchanged |
| Transitions.UpdateScoreEffect | admin.js:357-369 | only the home score moves when the side is 'home', only the away score otherwise, by the increment; every other field and match is unchanged |
| Transitions.UpdateMinuteEffect | admin.js:371-377 | the minute becomes the parsed number when that is a non-zero number and 1 otherwise, so never 0; nothing else changes |
| Transitions.FinishMatchPoints | admin.js:379-391 | the match ends finished whatever its status was, and the table gains exactly 3 points for a decisive result and 2 for a draw when both teams are found, none otherwise |
| Transitions.FinishMatchEffect | admin.js:379-386 | the first match with the id becomes finished and keeps every other field; the table becomes `ApplyResult` of the old table for that match; every other match and the queue are unchanged |
| Transitions.FinishTwiceCountsTwice | admin.js:379-391 | finishing is not guarded by the status, so finishing the same match twice adds two games to each of two different teams |
| Transitions.FinishThenReopenRestoresTable | admin.js:379-465 | finishing then reopening gives the table back when the counters of the teams playing were non-negative, and leaves the match scheduled at 0:0 without a minute |
| Transitions.ReopenMatchEffect | admin.js:426-463 | the result of the first match with the id, as it stood, is taken back with `RevertResult`; that match is then scheduled at 0:0 without a minute and keeps its id, sides, date and time; every other match and the queue are unchanged |
| Transitions.DeleteMatchEffect | admin.js:481-486 | a confirmed delete removes every match with the id and keeps every other one as often as before; the table keeps any result already counted; an unconfirmed one changes nothing |
| Admin.AdminPanel.constructor | admin.js:18-22 | the working copy is the document as loaded |
| Admin.AdminPanel.ApproveRegistration | admin.js:173-191 | the new state is `Transitions.ApproveRegistration` of the old |
| Admin.AdminPanel.RejectRegistration | admin.js:198-199 | the new state is `Transitions.RejectRegistration` of the old |
| Admin.AdminPanel.AddTeamManually | admin.js:205-229 | the alert reported is `CheckTeamEntry` of the old table, and the new state is `Transitions.AddTeamManually` of the old |
| Admin.AdminPanel.EditTeam | admin.js:239-249 | the rename followed by the loop over the matches leaves `Transitions.EditTeam` of the old state; the loop keeps renamed the matches before the cursor and untouched those after it |
| Admin.AdminPanel.DeleteTeam | admin.js:254-258 | the new state is `Transitions.DeleteTeam` of the old |
| Admin.AdminPanel.AddMatch | admin.js:275-302 | the alert reported is `CheckMatchEntry`, and the new state is `Transitions.AddMatch` of the old |
| Admin.AdminPanel.GenerateRound | admin.js:308-342 | the round offered is empty with fewer than two teams and `Pairings` of the shuffled names otherwise; the new state is `Transitions.GenerateRound` of the old |
| Admin.PairUp | admin.js:319-334 | the loop stepping by two builds exactly `Pairings` of the shuffled names |
| Admin.AdminPanel.StartMatch | admin.js:344-351 | the four field writes leave `Transitions.StartMatch` of the old state |
| Admin.AdminPanel.UpdateScore | admin.js:357-365 | the new state is `Transitions.UpdateScore` of the old |
| Admin.AdminPanel.UpdateMinute | admin.js:371-377 | the new state is `Transitions.UpdateMinute` of the old |
| Admin.AdminPanel.FinishMatch | admin.js:379-386 | the new state is `Transitions.FinishMatch` of the old |
| Admin.AdminPanel.UpdateTeamStatsAfterMatch | admin.js:393-424 | the table becomes `ApplyResult` of the old table for the match; matches and queue unchanged |
| Admin.AdminPanel.CountGame | admin.js:400-407 | the six writes leave both entries with one more game and their goals |
| Admin.AdminPanel.CountOutcome | admin.js:410-423 | the outcome branch's writes leave both entries with the outcome half of the credit |
| Admin.AdminPanel.ReopenMatch | admin.js:426-463 | the rollback and the four writes to the match leave `Transitions.ReopenMatch` of the old state |
| Admin.AdminPanel.RevertTeamStats | admin.js:429-458 | the table becomes `RevertResult` of the old table for the match |
| Admin.AdminPanel.UncountGame | admin.js:436-441 | the six writes leave both entries with one game fewer, clamped at 0, and their goals taken back |
| Admin.AdminPanel.UncountOutcome | admin.js:444-457 | the clamped writes of the outcome branch leave both entries with the outcome half of the rollback |
| Admin.AdminPanel.DeleteMatch | admin.js:481-484 | the new state is `Transitions.DeleteMatch` of the old |
| Admin.AdminPanel.UpdateTeamStat | admin.js:524-536 | the new state is `Transitions.UpdateTeamStat` of the old |
| Site.CompareMeaning | main.js:75 | the comparator puts a team first iff it has more points, or as many points and a larger goal difference; it is 0 iff both are level, and antisymmetric |
| Site.Insert | main.js:75 | inserting adds exactly the one team to the multiset of entries |
| Site.InsertRanked | main.js:75 | inserting into a list ordered by the comparator keeps it ordered |
| Site.SortStandings | main.js:75 | the table is ordered by the comparator (points down, then goal difference down) and is a permutation of the stored standings |
| Site.InsertKeepsTieOrder | main.js:75 | among teams level on points and goal difference, an inserted team goes before those already there |
| Site.SortKeepsTieOrder | main.js:75 | the sort is stable: teams level on points and goal difference keep their stored order |
| Site.MatchListsMembership | main.js:101-139 | a match is live-listed iff live, upcoming iff scheduled and dated after now, finished-listed iff finished or dated before now; never both upcoming and finished; a past scheduled match shows as finished; a past live match shows twice; a scheduled match dated exactly now or unreadable shows nowhere |
| Site.LiveMatchesInOrder | main.js:120 | the live list keeps document order: the live list of a concatenation is the concatenation of the live lists |
| Site.MatchResult | main.js:178-182 | 'Победа хозяев' iff home scored more, 'Победа гостей' iff away scored more, 'Ничья' iff level |
| Site.MatchResultAgreesWithLedger | main.js:178-182 | the side the label names as winner is the one whose wins the finish credits, and the draw label is given exactly when both teams are credited a draw |
| Site.LatestNews | main.js:160 | the strip is a prefix of the news of length min(6, n) |
| Site.RegisterTeam | main.js:185-205 | submitted iff both fields are given and no entry has exactly that name, and then the registration carries the id, both names, the date and status 'pending'; the refusal reason is the same as `addTeamManually`'s |
| Site.RegisterThenApprove | main.js:185-205 | a submitted registration whose id is new to the queue, once approved, becomes the single entry with that name, zeroed and appended last, and leaves the queue as it was before |
| Site.ApproveQueuedLast | admin.js:173-191 | approving the registration queued last under a fresh id appends its zeroed team and restores the queue to what it was before |
| Site.Lower | main.js:432-435 | lowering keeps the length, leaves no capital of A–Z, А–Я or Ё, and keeps every character that is not such a capital |
| Site.LowerCharLatin | main.js:432-435 | each Latin capital A–Z becomes its own small letter a–z |
| Site.LowerCharRussian | main.js:432-435 | each Russian capital А–Я and Ё becomes its own small letter а–я and ё |
| Site.CapitalsInAlphabets | main.js:432-435 | every character `Lower` changes is one of those two tables of capitals |
| Site.LowerIdempotent | main.js:432-435 | lowering twice is lowering once |
| Site.LoginTeam | main.js:417-445 | missing fields are reported iff a field is empty; login succeeds iff some entry matches both names ignoring case, and then returns such an entry |
| Site.LoginIgnoresCase | main.js:432-435 | logging in with the lowered names gives the same outcome as with the names typed |

## Left out

- Rendering, `alert`, notifications, tabs, the install prompt and `localStorage` are not modelled. They are user-interface effects.
- `saveAllData`, `loadData`, every `fetch`, the auto-save and refresh timers, `server.js`, `sw.js` and `sw-manager.js` are not modelled. They are network and cache I/O.
- The admin password check is not modelled. It compares against a constant.
- `Date.now()`, `new Date()`, `Math.random` and `toISOString` are not modelled. The values they produce are parameters.
- `Transitions.GenerateRound`: every generated match gets id `baseId + i` from one clock reading. The source reads the clock once per match, so its ids may differ by more.
- `Admin.AdminPanel.GenerateRound` requires the shuffled names to be a permutation of the table's names. The source obtains one from `sort` with a random comparator, which is not guaranteed to be a uniform shuffle.
- Site.SortStandings: `updateStandingsTable` sorts `appData.standings` in place with the built-in sort. The model gives the sorted table as a value, by insertion sort. It does not model the built-in algorithm or the in-place update.
- The rows that `updateStandingsTable` and `updateMatches` build are not modelled.
- `Transitions.UpdateScore`: scores are always numbers here. The source's `|| 0` for a missing score is not modelled.
- `Transitions.UpdateTeamStat`: the counter is one of the seven named fields. The source writes `team[stat]` for any string the page passes.
- Site.Lower: it lowers ASCII and the Russian alphabet (with Ё) only, not all of Unicode.
- Transitions.PairingsUseEachTeamOnce: the no-self-match and one-match-per-team guarantees need distinct names. Nothing in the source keeps table names distinct: approval and renaming do not check (see `ApproveRegistrationRepeatsName`, `PairingsWithRepeatedName`).
- `trim()` is not modelled. Names and owners are taken as already trimmed.
- `editMatch`, `addNews` and `deleteNews` are not modelled. They are not part of this model's core.
- Match ids are compared with `==` in the source, between the string the page passes and the stored number. The model uses integers throughout.
- Ledger.RevertUndoesApply: the round trip is stated only for teams whose clamped counters were non-negative. Below that, the clamp at 0 loses information, as the source does.
