/** The standings ledger: how a match result is credited to the two teams'
    counters (admin.js `updateTeamStatsAfterMatch`), how `reopenMatch` takes it
    back with floor clamping, how the standings editor overrides one counter
    (`updateTeamStat`), and the checks a new team name must pass. */
module Ledger {
  import opened Util
  import opened Records

  /** Points for a win and for a draw; admin.js writes these literally, they are not read from settings. */
  const PointsWin := 3
  const PointsDraw := 1

  /** `Math.max(0, x)` */
  function Max0(x: int): int { if x > 0 then x else 0 }

  /** `played` is the number of results and `points` is what they are worth. */
  predicate Consistent(t: Team) {
    t.played == t.wins + t.draws + t.losses && t.points == PointsWin * t.wins + PointsDraw * t.draws
  }

  /** The five counters that `reopenMatch` clamps at zero are non-negative. */
  predicate CountersNonNegative(t: Team) {
    t.played >= 0 && t.wins >= 0 && t.draws >= 0 && t.losses >= 0 && t.points >= 0
  }

  /** `standings.find(t => t.team === name)`, as the index of the team found. */
  function TeamIndex(st: seq<Team>, name: string): (r: Option<nat>)
    ensures r.Some? ==> r.value < |st| && st[r.value].name == name
    ensures r.Some? ==> forall j :: 0 <= j < r.value ==> st[j].name != name
    ensures r.None? <==> forall j :: 0 <= j < |st| ==> st[j].name != name
  {
    IndexOf(st, (t: Team) => t.name == name)
  }

  /** The lookup only looks at names, so rewriting counters does not move it. */
  lemma TeamIndexSameNames(st: seq<Team>, st': seq<Team>, name: string)
    requires |st| == |st'|
    requires forall j :: 0 <= j < |st| ==> st'[j].name == st[j].name
    ensures TeamIndex(st', name) == TeamIndex(st, name)
  {
    var r, r' := TeamIndex(st, name), TeamIndex(st', name);
    if r.Some? && r'.Some? {
      assert !(r.value < r'.value) && !(r'.value < r.value);
    }
  }

  /** One side's share of `updateTeamStatsAfterMatch`: a game played, the goals,
      and exactly one of win (+3 points), loss, or draw (+1 point). */
  function Credit(t: Team, own: int, opp: int): Team {
    Decide(Game(t, own, opp), own, opp)
  }

  /** The first half of a side's credit: a game played and the goals. */
  function Game(t: Team, own: int, opp: int): Team {
    t.(played := t.played + 1, goalsFor := t.goalsFor + own, goalsAgainst := t.goalsAgainst + opp)
  }

  /** The second half of a side's credit: the outcome branch. */
  function Decide(t: Team, own: int, opp: int): Team {
    if own > opp then t.(wins := t.wins + 1, points := t.points + PointsWin)
    else if own < opp then t.(losses := t.losses + 1)
    else t.(draws := t.draws + 1, points := t.points + PointsDraw)
  }

  /** admin.js first counts the game and the goals for both sides and only then
      applies the outcome to both; the two halves touch different counters, so
      this is the same as crediting the home side completely, then the away side,
      also when both are the same entry. */
  lemma CreditInTwoPhases(st: seq<Team>, h: nat, a: nat, home: int, away: int)
    requires h < |st| && a < |st|
    ensures var games := st[h := Game(st[h], home, away)];
            var games := games[a := Game(games[a], away, home)];
            var decided := games[h := Decide(games[h], home, away)];
            var decided := decided[a := Decide(decided[a], away, home)];
            var credited := st[h := Credit(st[h], home, away)];
            decided == credited[a := Credit(credited[a], away, home)]
  {
  }

  /** One side's share of the reversal in `reopenMatch`: counters are decremented
      but never below 0, goals are subtracted without clamping. */
  function Debit(t: Team, own: int, opp: int): Team {
    Undecide(Ungame(t, own, opp), own, opp)
  }

  /** The first half of a side's rollback: the game (clamped) and the goals (not clamped). */
  function Ungame(t: Team, own: int, opp: int): Team {
    t.(played := Max0(t.played - 1), goalsFor := t.goalsFor - own, goalsAgainst := t.goalsAgainst - opp)
  }

  /** The second half of a side's rollback: the outcome branch, clamped. */
  function Undecide(t: Team, own: int, opp: int): Team {
    if own > opp then t.(wins := Max0(t.wins - 1), points := Max0(t.points - PointsWin))
    else if own < opp then t.(losses := Max0(t.losses - 1))
    else t.(draws := Max0(t.draws - 1), points := Max0(t.points - PointsDraw))
  }

  /** As for the credit, the two halves of the rollback touch different counters,
      so admin.js's order (games and goals for both sides, then outcomes) is the
      same as debiting the home side completely, then the away side. */
  lemma DebitInTwoPhases(st: seq<Team>, h: nat, a: nat, home: int, away: int)
    requires h < |st| && a < |st|
    ensures var games := st[h := Ungame(st[h], home, away)];
            var games := games[a := Ungame(games[a], away, home)];
            var decided := games[h := Undecide(games[h], home, away)];
            var decided := decided[a := Undecide(decided[a], away, home)];
            var debited := st[h := Debit(st[h], home, away)];
            decided == debited[a := Debit(debited[a], away, home)]
  {
  }

  /** `updateTeamStatsAfterMatch(match)`: nothing happens unless both names are
      found; otherwise the home team is credited, then the away team is credited
      in the updated list (the same entry twice when both names find it). */
  function ApplyResult(st: seq<Team>, m: Match): (r: seq<Team>)
    ensures |r| == |st|
    ensures forall j :: 0 <= j < |st| ==> r[j].name == st[j].name && r[j].owner == st[j].owner
  {
    match (TeamIndex(st, m.homeTeam), TeamIndex(st, m.awayTeam))
    case (Some(h), Some(a)) =>
      var st' := st[h := Credit(st[h], m.homeScore, m.awayScore)];
      st'[a := Credit(st'[a], m.awayScore, m.homeScore)]
    case _ => st
  }

  /** The statistics rollback of `reopenMatch`, with the same lookups and the same
      order as `ApplyResult`. */
  function RevertResult(st: seq<Team>, m: Match): (r: seq<Team>)
    ensures |r| == |st|
    ensures forall j :: 0 <= j < |st| ==> r[j].name == st[j].name && r[j].owner == st[j].owner
  {
    match (TeamIndex(st, m.homeTeam), TeamIndex(st, m.awayTeam))
    case (Some(h), Some(a)) =>
      var st' := st[h := Debit(st[h], m.homeScore, m.awayScore)];
      st'[a := Debit(st'[a], m.awayScore, m.homeScore)]
    case _ => st
  }

  /** Sum of `points` over the table. */
  function TotalPoints(st: seq<Team>): int {
    if st == [] then 0 else st[0].points + TotalPoints(st[1..])
  }

  lemma {:induction false} TotalPointsUpdate(st: seq<Team>, i: nat, t: Team)
    requires i < |st|
    ensures TotalPoints(st[i := t]) == TotalPoints(st) - st[i].points + t.points
  {
    if i > 0 {
      assert st[i := t][1..] == st[1..][i - 1 := t];
      TotalPointsUpdate(st[1..], i - 1, t);
    }
  }

  /** A result with both teams present is counted exactly once for each side:
      one more game each, goals for and against as scored, and the outcome
      branch chosen by comparing the scores; no other entry changes. */
  lemma ApplyResultCounts(st: seq<Team>, m: Match, h: nat, a: nat)
    requires TeamIndex(st, m.homeTeam) == Some(h) && TeamIndex(st, m.awayTeam) == Some(a) && h != a
    ensures var r := ApplyResult(st, m);
      && r[h].played == st[h].played + 1 && r[a].played == st[a].played + 1
      && r[h].goalsFor == st[h].goalsFor + m.homeScore && r[h].goalsAgainst == st[h].goalsAgainst + m.awayScore
      && r[a].goalsFor == st[a].goalsFor + m.awayScore && r[a].goalsAgainst == st[a].goalsAgainst + m.homeScore
      && (forall j :: 0 <= j < |st| && j != h && j != a ==> r[j] == st[j])
    ensures var r := ApplyResult(st, m);
      m.homeScore > m.awayScore ==>
        && r[h].wins == st[h].wins + 1 && r[h].points == st[h].points + 3 && r[a].losses == st[a].losses + 1
        && r[h].draws == st[h].draws && r[h].losses == st[h].losses
        && r[a].wins == st[a].wins && r[a].draws == st[a].draws && r[a].points == st[a].points
    ensures var r := ApplyResult(st, m);
      m.homeScore < m.awayScore ==>
        && r[a].wins == st[a].wins + 1 && r[a].points == st[a].points + 3 && r[h].losses == st[h].losses + 1
        && r[a].draws == st[a].draws && r[a].losses == st[a].losses
        && r[h].wins == st[h].wins && r[h].draws == st[h].draws && r[h].points == st[h].points
    ensures var r := ApplyResult(st, m);
      m.homeScore == m.awayScore ==>
        && r[h].draws == st[h].draws + 1 && r[h].points == st[h].points + 1
        && r[a].draws == st[a].draws + 1 && r[a].points == st[a].points + 1
        && r[h].wins == st[h].wins && r[h].losses == st[h].losses
        && r[a].wins == st[a].wins && r[a].losses == st[a].losses
  {
  }

  /** Taking a result back with both teams present undoes one game for each
      side: every counter goes down by what the result added, but never below 0,
      while the goals are subtracted as scored, even into negative numbers; no
      other entry changes. */
  lemma RevertResultCounts(st: seq<Team>, m: Match, h: nat, a: nat)
    requires TeamIndex(st, m.homeTeam) == Some(h) && TeamIndex(st, m.awayTeam) == Some(a) && h != a
    ensures var r := RevertResult(st, m);
      && r[h].played == Max0(st[h].played - 1) && r[a].played == Max0(st[a].played - 1)
      && r[h].goalsFor == st[h].goalsFor - m.homeScore && r[h].goalsAgainst == st[h].goalsAgainst - m.awayScore
      && r[a].goalsFor == st[a].goalsFor - m.awayScore && r[a].goalsAgainst == st[a].goalsAgainst - m.homeScore
      && (forall j :: 0 <= j < |st| && j != h && j != a ==> r[j] == st[j])
    ensures var r := RevertResult(st, m);
      m.homeScore > m.awayScore ==>
        && r[h].wins == Max0(st[h].wins - 1) && r[h].points == Max0(st[h].points - 3)
        && r[a].losses == Max0(st[a].losses - 1)
        && r[h].draws == st[h].draws && r[h].losses == st[h].losses
        && r[a].wins == st[a].wins && r[a].draws == st[a].draws && r[a].points == st[a].points
    ensures var r := RevertResult(st, m);
      m.homeScore < m.awayScore ==>
        && r[a].wins == Max0(st[a].wins - 1) && r[a].points == Max0(st[a].points - 3)
        && r[h].losses == Max0(st[h].losses - 1)
        && r[a].draws == st[a].draws && r[a].losses == st[a].losses
        && r[h].wins == st[h].wins && r[h].draws == st[h].draws && r[h].points == st[h].points
    ensures var r := RevertResult(st, m);
      m.homeScore == m.awayScore ==>
        && r[h].draws == Max0(st[h].draws - 1) && r[h].points == Max0(st[h].points - 1)
        && r[a].draws == Max0(st[a].draws - 1) && r[a].points == Max0(st[a].points - 1)
        && r[h].wins == st[h].wins && r[h].losses == st[h].losses
        && r[a].wins == st[a].wins && r[a].losses == st[a].losses
  {
  }

  /** If either name is missing from the standings, no entry changes. */
  lemma ApplyResultMissingTeam(st: seq<Team>, m: Match)
    requires TeamIndex(st, m.homeTeam).None? || TeamIndex(st, m.awayTeam).None?
    ensures ApplyResult(st, m) == st
  {
  }

  /** The table's total points grow by exactly 3 for a decisive result and by 2
      for a draw, whenever both teams are found (also when both names find the
      same entry). */
  lemma ApplyResultTotalPoints(st: seq<Team>, m: Match)
    requires TeamIndex(st, m.homeTeam).Some? && TeamIndex(st, m.awayTeam).Some?
    ensures TotalPoints(ApplyResult(st, m))
         == TotalPoints(st) + if m.homeScore == m.awayScore then 2 * PointsDraw else PointsWin
  {
    var h, a := TeamIndex(st, m.homeTeam).value, TeamIndex(st, m.awayTeam).value;
    var st' := st[h := Credit(st[h], m.homeScore, m.awayScore)];
    TotalPointsUpdate(st, h, Credit(st[h], m.homeScore, m.awayScore));
    TotalPointsUpdate(st', a, Credit(st'[a], m.awayScore, m.homeScore));
  }

  /** Crediting a result keeps every entry consistent that was consistent before. */
  lemma ApplyResultKeepsConsistent(st: seq<Team>, m: Match)
    requires forall j :: 0 <= j < |st| ==> Consistent(st[j])
    ensures var r := ApplyResult(st, m); forall j :: 0 <= j < |r| ==> Consistent(r[j])
  {
    match (TeamIndex(st, m.homeTeam), TeamIndex(st, m.awayTeam))
    case (Some(h), Some(a)) =>
      var st' := st[h := Credit(st[h], m.homeScore, m.awayScore)];
      UpdateKeepsConsistent(st, h, m.homeScore, m.awayScore);
      UpdateKeepsConsistent(st', a, m.awayScore, m.homeScore);
    case _ =>
  }

  /** Crediting one entry of a consistent table leaves it consistent. */
  lemma UpdateKeepsConsistent(st: seq<Team>, i: nat, own: int, opp: int)
    requires i < |st| && forall j :: 0 <= j < |st| ==> Consistent(st[j])
    ensures var r := st[i := Credit(st[i], own, opp)]; forall j :: 0 <= j < |r| ==> Consistent(r[j])
  {
    assert Consistent(Credit(st[i], own, opp));
  }

  /** The rollback never leaves a clamped counter negative. */
  lemma RevertResultNonNegative(st: seq<Team>, m: Match)
    requires forall j :: 0 <= j < |st| ==> CountersNonNegative(st[j])
    ensures var r := RevertResult(st, m); forall j :: 0 <= j < |r| ==> CountersNonNegative(r[j])
  {
    match (TeamIndex(st, m.homeTeam), TeamIndex(st, m.awayTeam))
    case (Some(h), Some(a)) =>
      var st' := st[h := Debit(st[h], m.homeScore, m.awayScore)];
      UpdateKeepsNonNegative(st, h, m.homeScore, m.awayScore);
      UpdateKeepsNonNegative(st', a, m.awayScore, m.homeScore);
    case _ =>
  }

  /** Debiting one entry of a table without negative counters keeps it so. */
  lemma UpdateKeepsNonNegative(st: seq<Team>, i: nat, own: int, opp: int)
    requires i < |st| && forall j :: 0 <= j < |st| ==> CountersNonNegative(st[j])
    ensures var r := st[i := Debit(st[i], own, opp)]; forall j :: 0 <= j < |r| ==> CountersNonNegative(r[j])
  {
    assert CountersNonNegative(Debit(st[i], own, opp));
  }

  /** One side's rollback cancels its credit when its counters were not negative. */
  lemma DebitUndoesCredit(t: Team, own: int, opp: int)
    requires CountersNonNegative(t)
    ensures Debit(Credit(t, own, opp), own, opp) == t
  {
  }

  /** When both names find the same entry, it is credited twice and debited twice;
      the clamps still cancel when its counters were not negative. */
  lemma SameEntryRoundTrip(t: Team, home: int, away: int)
    requires CountersNonNegative(t)
    ensures Debit(Debit(Credit(Credit(t, home, away), away, home), home, away), away, home) == t
  {
  }

  /** Rolling back the same result restores the table exactly, provided the
      counters of the teams that played were not negative (otherwise the
      clamp at 0 loses information). */
  lemma RevertUndoesApply(st: seq<Team>, m: Match)
    requires forall j :: 0 <= j < |st| && m.Involves(st[j].name) ==> CountersNonNegative(st[j])
    ensures RevertResult(ApplyResult(st, m), m) == st
  {
    var r := ApplyResult(st, m);
    TeamIndexSameNames(st, r, m.homeTeam);
    TeamIndexSameNames(st, r, m.awayTeam);
    match (TeamIndex(st, m.homeTeam), TeamIndex(st, m.awayTeam))
    case (Some(h), Some(a)) =>
      assert m.Involves(st[h].name) && m.Involves(st[a].name);
      TwoSidedRoundTrip(st, h, a, m.homeScore, m.awayScore);
    case _ =>
  }

  /** Crediting entries `h` and `a` and then debiting them in the same order
      gives the table back, whether or not `h` and `a` are the same entry. */
  lemma TwoSidedRoundTrip(st: seq<Team>, h: nat, a: nat, home: int, away: int)
    requires h < |st| && a < |st|
    requires CountersNonNegative(st[h]) && CountersNonNegative(st[a])
    ensures var credited := st[h := Credit(st[h], home, away)];
            var credited := credited[a := Credit(credited[a], away, home)];
            var debited := credited[h := Debit(credited[h], home, away)];
            debited[a := Debit(debited[a], away, home)] == st
  {
    if h == a {
      SameEntryRoundTrip(st[h], home, away);
    } else {
      DebitUndoesCredit(st[h], home, away);
      DebitUndoesCredit(st[a], away, home);
    }
  }

  /** A counter of a team record, by the name the standings editor uses. */
  function Field(t: Team, stat: Stat): int {
    match stat
    case Played => t.played
    case Wins => t.wins
    case Draws => t.draws
    case Losses => t.losses
    case Points => t.points
    case GoalsFor => t.goalsFor
    case GoalsAgainst => t.goalsAgainst
  }

  /** `team[stat] = v`, then the points recomputation that `updateTeamStat`
      performs after an edit of `wins` or `draws` (and after no other edit). */
  function SetStat(t: Team, stat: Stat, v: int): Team {
    var t := match stat
      case Played => t.(played := v)
      case Wins => t.(wins := v)
      case Draws => t.(draws := v)
      case Losses => t.(losses := v)
      case Points => t.(points := v)
      case GoalsFor => t.(goalsFor := v)
      case GoalsAgainst => t.(goalsAgainst := v);
    if stat == Wins || stat == Draws then t.(points := PointsWin * t.wins + PointsDraw * t.draws) else t
  }

  /** The edited counter reads back as written; points follow wins and draws only
      when one of those was edited; `played` and every other counter keep their values. */
  lemma SetStatEffect(t: Team, stat: Stat, v: int)
    ensures var r := SetStat(t, stat, v);
      && Field(r, stat) == v
      && r.name == t.name && r.owner == t.owner
      && (forall s :: s != stat && s != Points ==> Field(r, s) == Field(t, s))
      && r.points == (if stat == Wins || stat == Draws then 3 * r.wins + r.draws
                      else if stat == Points then v else t.points)
  {
    var r := SetStat(t, stat, v);
    forall s | s != stat && s != Points
      ensures Field(r, s) == Field(t, s)
    {
      match s
      case Played =>
      case Wins =>
      case Draws =>
      case Losses =>
      case Points =>
      case GoalsFor =>
      case GoalsAgainst =>
    }
  }

  /** Why a new team name is refused. */
  datatype EntryError = MissingField | DuplicateName

  /** The checks that both `addTeamManually` and the public `registerTeam` make
      before anything is stored: both fields non-empty, and no standings entry
      with exactly (case-sensitively) the same name. */
  function CheckTeamEntry(st: seq<Team>, name: string, owner: string): (r: Option<EntryError>)
    ensures r == None <==> name != "" && owner != "" && forall j :: 0 <= j < |st| ==> st[j].name != name
    ensures r == Some(MissingField) <==> name == "" || owner == ""
    ensures r == Some(DuplicateName) <==> name != "" && owner != "" && exists j :: 0 <= j < |st| && st[j].name == name
  {
    if name == "" || owner == "" then Some(MissingField)
    else if TeamIndex(st, name).Some? then Some(DuplicateName)
    else None
  }
}
