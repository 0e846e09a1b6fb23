/** admin.js: the handlers that mutate the admin panel's working copy of the
    league document in place. Each method does what its handler does, step by
    step, and its postcondition says that the document it leaves is the one the
    matching function of module Transitions describes. Saving, rendering and
    alerts are not modelled. */
module Admin {
  import opened Util
  import opened Records
  import opened Ledger
  import T = Transitions

  /** The global `adminData`: the lists the handlers push to, filter and update. */
  class AdminPanel {
    var standings: seq<Team>
    var matches: seq<Match>
    var pending: seq<Registration>

    /** The document as a value. */
    function State(): T.League
      reads this
    {
      T.League(standings, matches, pending)
    }

    /** `loadAdminData()`: the working copy is the document as fetched. */
    constructor (doc: T.League)
      ensures State() == doc
    {
      standings := doc.standings;
      matches := doc.matches;
      pending := doc.pending;
    }

    /** `approveRegistration(id)` */
    method ApproveRegistration(id: int)
      modifies this
      ensures State() == T.ApproveRegistration(old(State()), id)
    {
      var found := T.RegistrationIndex(pending, id);
      if found.None? {
        return;
      }
      var reg := pending[found.value];
      standings := standings + [NewTeam(reg.team, reg.owner)];
      pending := T.WithoutRegistration(pending, id);
    }

    /** `rejectRegistration(id)` */
    method RejectRegistration(id: int)
      modifies this
      ensures State() == T.RejectRegistration(old(State()), id)
    {
      pending := T.WithoutRegistration(pending, id);
    }

    /** `addTeamManually()` with the trimmed form fields; `err` is the alert shown, if any. */
    method AddTeamManually(name: string, owner: string) returns (err: Option<EntryError>)
      modifies this
      ensures err == CheckTeamEntry(old(standings), name, owner)
      ensures State() == T.AddTeamManually(old(State()), name, owner)
    {
      if name == "" || owner == "" {
        return Some(MissingField);
      }
      if TeamIndex(standings, name).Some? {
        return Some(DuplicateName);
      }
      standings := standings + [NewTeam(name, owner)];
      err := None;
    }

    /** `editTeam(teamName)` with `newName` the answer to `prompt`: renames the
        team, then walks the match list rewriting each side that carries the old name. */
    method EditTeam(teamName: string, newName: Option<string>)
      modifies this
      ensures State() == T.EditTeam(old(State()), teamName, newName)
    {
      if newName.None? || newName.value == "" || newName.value == teamName {
        return;
      }
      var to := newName.value;
      var found := TeamIndex(standings, teamName);
      if found.None? {
        return;  // `team.team = newName` throws on undefined before anything changes
      }
      var k := found.value;
      standings := standings[k := standings[k].(name := to)];
      var i := 0;
      while i < |matches|
        invariant 0 <= i <= |matches| == |old(matches)|
        invariant forall j :: 0 <= j < i ==> matches[j] == T.RenameSides(old(matches)[j], teamName, to)
        invariant forall j :: i <= j < |matches| ==> matches[j] == old(matches)[j]
        invariant standings == old(standings)[k := old(standings)[k].(name := to)] && pending == old(pending)
      {
        var m := matches[i];
        if m.homeTeam == teamName {
          m := m.(homeTeam := to);
        }
        if m.awayTeam == teamName {
          m := m.(awayTeam := to);
        }
        matches := matches[i := m];
        i := i + 1;
      }
    }

    /** `deleteTeam(teamName)` with `confirmed` the answer to `confirm`. */
    method DeleteTeam(teamName: string, confirmed: bool)
      modifies this
      ensures State() == T.DeleteTeam(old(State()), teamName, confirmed)
    {
      if !confirmed {
        return;
      }
      standings := T.WithoutTeam(standings, teamName);
      matches := T.WithoutMatchesOf(matches, teamName);
    }

    /** `addMatch()` with the form fields and `id` the clock reading; `err` is the alert shown, if any. */
    method AddMatch(id: int, home: string, away: string, date: string, time: string) returns (err: Option<T.MatchError>)
      modifies this
      ensures err == T.CheckMatchEntry(home, away, date)
      ensures State() == T.AddMatch(old(State()), id, home, away, date, time)
    {
      if home == "" || away == "" || date == "" {
        return Some(T.MissingMatchField);
      }
      if home == away {
        return Some(T.SelfMatch);
      }
      matches := matches + [NewMatch(id, home, away, date, Some(time))];
      err := None;
    }

    /** `generateRound()`: `shuffled` is the random order of the team names,
        `baseId` the clock reading, `date` the day a week ahead and `confirmed`
        the answer to `confirm`. Returns the round offered for confirmation
        (none with fewer than two teams). */
    method GenerateRound(shuffled: seq<string>, baseId: int, date: string, confirmed: bool) returns (round: seq<Match>)
      requires multiset(shuffled) == multiset(T.Names(standings))
      modifies this
      ensures round == if |old(standings)| < 2 then [] else T.Pairings(shuffled, baseId, date)
      ensures State() == T.GenerateRound(old(State()), shuffled, baseId, date, confirmed)
    {
      if |standings| < 2 {
        return [];
      }
      round := PairUp(shuffled, baseId, date);
      if confirmed {
        matches := matches + round;
      }
    }

    /** `startMatch(id)` */
    method StartMatch(id: int)
      modifies this
      ensures State() == T.StartMatch(old(State()), id)
    {
      var found := T.MatchIndex(matches, id);
      if found.None? {
        return;
      }
      var k := found.value;
      matches := matches[k := matches[k].(status := Live)];
      matches := matches[k := matches[k].(minute := Some(1))];
      matches := matches[k := matches[k].(homeScore := 0)];
      matches := matches[k := matches[k].(awayScore := 0)];
    }

    /** `updateScore(id, side, increment)` */
    method UpdateScore(id: int, side: string, increment: int)
      modifies this
      ensures State() == T.UpdateScore(old(State()), id, side, increment)
    {
      var found := T.MatchIndex(matches, id);
      if found.None? {
        return;
      }
      var k := found.value;
      if side == "home" {
        matches := matches[k := matches[k].(homeScore := matches[k].homeScore + increment)];
      } else {
        matches := matches[k := matches[k].(awayScore := matches[k].awayScore + increment)];
      }
    }

    /** `updateMinute(id, minute)` with `parsed` the result of `parseInt(minute)`. */
    method UpdateMinute(id: int, parsed: Option<int>)
      modifies this
      ensures State() == T.UpdateMinute(old(State()), id, parsed)
    {
      var found := T.MatchIndex(matches, id);
      if found.Some? {
        var minute := if parsed.Some? && parsed.value != 0 then parsed.value else 1;
        matches := matches[found.value := matches[found.value].(minute := Some(minute))];
      }
    }

    /** `finishMatch(id)` */
    method FinishMatch(id: int)
      modifies this
      ensures State() == T.FinishMatch(old(State()), id)
    {
      var found := T.MatchIndex(matches, id);
      if found.None? {
        return;
      }
      var k := found.value;
      matches := matches[k := matches[k].(status := Finished)];
      UpdateTeamStatsAfterMatch(matches[k]);
    }

    /** `updateTeamStatsAfterMatch(match)`: on the first entries the two names
        find, admin.js first counts the game and the goals for both sides, then
        applies the outcome branch to both. */
    method UpdateTeamStatsAfterMatch(m: Match)
      modifies this
      ensures standings == ApplyResult(old(standings), m)
      ensures matches == old(matches) && pending == old(pending)
    {
      var home := TeamIndex(standings, m.homeTeam);
      var away := TeamIndex(standings, m.awayTeam);
      if home.None? || away.None? {
        return;
      }
      var h, a := home.value, away.value;
      CountGame(h, a, m.homeScore, m.awayScore);
      CountOutcome(h, a, m.homeScore, m.awayScore);
      CreditInTwoPhases(old(standings), h, a, m.homeScore, m.awayScore);
    }

    /** admin.js:400-407: one more game for both entries, and their goals. */
    method CountGame(h: nat, a: nat, homeScore: int, awayScore: int)
      requires h < |standings| && a < |standings|
      modifies this
      ensures var games := old(standings)[h := Game(old(standings)[h], homeScore, awayScore)];
              standings == games[a := Game(games[a], awayScore, homeScore)]
      ensures matches == old(matches) && pending == old(pending)
    {
      standings := standings[h := standings[h].(played := standings[h].played + 1)];
      standings := standings[a := standings[a].(played := standings[a].played + 1)];
      standings := standings[h := standings[h].(goalsFor := standings[h].goalsFor + homeScore)];
      standings := standings[h := standings[h].(goalsAgainst := standings[h].goalsAgainst + awayScore)];
      standings := standings[a := standings[a].(goalsFor := standings[a].goalsFor + awayScore)];
      standings := standings[a := standings[a].(goalsAgainst := standings[a].goalsAgainst + homeScore)];
      if h == a {
        assert standings[h] == Game(Game(old(standings)[h], homeScore, awayScore), awayScore, homeScore);
      }
    }

    /** admin.js:410-423: exactly one of the three outcome branches. */
    method CountOutcome(h: nat, a: nat, homeScore: int, awayScore: int)
      requires h < |standings| && a < |standings|
      modifies this
      ensures var decided := old(standings)[h := Decide(old(standings)[h], homeScore, awayScore)];
              standings == decided[a := Decide(decided[a], awayScore, homeScore)]
      ensures matches == old(matches) && pending == old(pending)
    {
      if homeScore > awayScore {
        standings := standings[h := standings[h].(wins := standings[h].wins + 1)];
        standings := standings[h := standings[h].(points := standings[h].points + PointsWin)];
        standings := standings[a := standings[a].(losses := standings[a].losses + 1)];
      } else if homeScore < awayScore {
        standings := standings[a := standings[a].(wins := standings[a].wins + 1)];
        standings := standings[a := standings[a].(points := standings[a].points + PointsWin)];
        standings := standings[h := standings[h].(losses := standings[h].losses + 1)];
      } else {
        standings := standings[h := standings[h].(draws := standings[h].draws + 1)];
        standings := standings[a := standings[a].(draws := standings[a].draws + 1)];
        standings := standings[h := standings[h].(points := standings[h].points + PointsDraw)];
        standings := standings[a := standings[a].(points := standings[a].points + PointsDraw)];
      }
    }

    /** `reopenMatch(id)`: the clamped rollback in admin.js order, then the reset of the match. */
    method ReopenMatch(id: int)
      modifies this
      ensures State() == T.ReopenMatch(old(State()), id)
    {
      var found := T.MatchIndex(matches, id);
      if found.None? {
        return;
      }
      var k := found.value;
      RevertTeamStats(matches[k]);
      matches := matches[k := matches[k].(status := Scheduled)];
      matches := matches[k := matches[k].(homeScore := 0)];
      matches := matches[k := matches[k].(awayScore := 0)];
      matches := matches[k := matches[k].(minute := None)];
    }

    /** The rollback part of `reopenMatch` (admin.js:428-458): both lookups, then
        the clamped decrements in admin.js order; nothing when a team is missing. */
    method RevertTeamStats(m: Match)
      modifies this
      ensures standings == RevertResult(old(standings), m)
      ensures matches == old(matches) && pending == old(pending)
    {
      var home := TeamIndex(standings, m.homeTeam);
      var away := TeamIndex(standings, m.awayTeam);
      if home.None? || away.None? {
        return;
      }
      var h, a := home.value, away.value;
      UncountGame(h, a, m.homeScore, m.awayScore);
      UncountOutcome(h, a, m.homeScore, m.awayScore);
      DebitInTwoPhases(old(standings), h, a, m.homeScore, m.awayScore);
    }

    /** admin.js:436-441: one game fewer for both entries, never below 0, and
        their goals taken back. */
    method UncountGame(h: nat, a: nat, homeScore: int, awayScore: int)
      requires h < |standings| && a < |standings|
      modifies this
      ensures var games := old(standings)[h := Ungame(old(standings)[h], homeScore, awayScore)];
              standings == games[a := Ungame(games[a], awayScore, homeScore)]
      ensures matches == old(matches) && pending == old(pending)
    {
      standings := standings[h := standings[h].(played := Max0(standings[h].played - 1))];
      standings := standings[a := standings[a].(played := Max0(standings[a].played - 1))];
      standings := standings[h := standings[h].(goalsFor := standings[h].goalsFor - homeScore)];
      standings := standings[h := standings[h].(goalsAgainst := standings[h].goalsAgainst - awayScore)];
      standings := standings[a := standings[a].(goalsFor := standings[a].goalsFor - awayScore)];
      standings := standings[a := standings[a].(goalsAgainst := standings[a].goalsAgainst - homeScore)];
      if h == a {
        assert standings[h] == Ungame(Ungame(old(standings)[h], homeScore, awayScore), awayScore, homeScore);
      }
    }

    /** admin.js:444-457: the outcome branch taken back, each counter clamped at 0. */
    method UncountOutcome(h: nat, a: nat, homeScore: int, awayScore: int)
      requires h < |standings| && a < |standings|
      modifies this
      ensures var decided := old(standings)[h := Undecide(old(standings)[h], homeScore, awayScore)];
              standings == decided[a := Undecide(decided[a], awayScore, homeScore)]
      ensures matches == old(matches) && pending == old(pending)
    {
      if homeScore > awayScore {
        standings := standings[h := standings[h].(wins := Max0(standings[h].wins - 1))];
        standings := standings[h := standings[h].(points := Max0(standings[h].points - PointsWin))];
        standings := standings[a := standings[a].(losses := Max0(standings[a].losses - 1))];
      } else if homeScore < awayScore {
        standings := standings[a := standings[a].(wins := Max0(standings[a].wins - 1))];
        standings := standings[a := standings[a].(points := Max0(standings[a].points - PointsWin))];
        standings := standings[h := standings[h].(losses := Max0(standings[h].losses - 1))];
      } else {
        standings := standings[h := standings[h].(draws := Max0(standings[h].draws - 1))];
        standings := standings[a := standings[a].(draws := Max0(standings[a].draws - 1))];
        standings := standings[h := standings[h].(points := Max0(standings[h].points - PointsDraw))];
        standings := standings[a := standings[a].(points := Max0(standings[a].points - PointsDraw))];
      }
    }

    /** `deleteMatch(id)` with `confirmed` the answer to `confirm`. */
    method DeleteMatch(id: int, confirmed: bool)
      modifies this
      ensures State() == T.DeleteMatch(old(State()), id, confirmed)
    {
      if confirmed {
        matches := T.WithoutMatch(matches, id);
      }
    }

    /** `updateTeamStat(teamName, stat, value)` with `parsed` the result of `parseInt(value)`. */
    method UpdateTeamStat(teamName: string, stat: Stat, parsed: Option<int>)
      modifies this
      ensures State() == T.UpdateTeamStat(old(State()), teamName, stat, parsed)
    {
      var found := TeamIndex(standings, teamName);
      if found.None? {
        return;
      }
      var k := found.value;
      var v := if parsed.Some? then parsed.value else 0;
      var t := standings[k];
      match stat {
        case Played => t := t.(played := v);
        case Wins => t := t.(wins := v);
        case Draws => t := t.(draws := v);
        case Losses => t := t.(losses := v);
        case Points => t := t.(points := v);
        case GoalsFor => t := t.(goalsFor := v);
        case GoalsAgainst => t := t.(goalsAgainst := v);
      }
      if stat == Wins {
        t := t.(points := t.wins * 3 + t.draws * 1);
      } else if stat == Draws {
        t := t.(points := t.wins * 3 + t.draws * 1);
      }
      standings := standings[k := t];
    }
  }

  /** The pairing loop of `generateRound`: positions i and i + 1 of the shuffled
      names for i = 0, 2, 4, ..., skipping a last name without a partner. */
  method PairUp(shuffled: seq<string>, baseId: int, date: string) returns (round: seq<Match>)
    ensures round == T.Pairings(shuffled, baseId, date)
  {
    round := [];
    var i := 0;
    while i < |shuffled|
      invariant 0 <= i <= |shuffled| + 1 && i % 2 == 0
      invariant |round| == (if i <= |shuffled| then i else |shuffled|) / 2
      invariant forall k :: 0 <= k < |round| ==>
        round[k] == NewMatch(baseId + 2 * k, shuffled[2 * k], shuffled[2 * k + 1], date, None)
    {
      if i + 1 < |shuffled| {
        round := round + [NewMatch(baseId + i, shuffled[i], shuffled[i + 1], date, None)];
      }
      i := i + 2;
    }
  }
}
