/** The admin panel's handlers (admin.js) as functions from the league document
    before the handler to the document after it. The `AdminPanel` class in
    module Admin performs the same changes step by step and is proved to end in
    exactly these documents. Clock readings, the shuffle, `prompt` and
    `confirm` answers, and parsed form values are parameters. */
module Transitions {
  import opened Util
  import opened Records
  import opened Ledger

  /** The parts of `adminData` that the handlers change. */
  datatype League = League(standings: seq<Team>, matches: seq<Match>, pending: seq<Registration>)

  /** `matches.find(m => m.id == matchId)`, as an index. */
  function MatchIndex(ms: seq<Match>, id: int): (r: Option<nat>)
    ensures r.Some? ==> r.value < |ms| && ms[r.value].id == id
    ensures r.Some? ==> forall j :: 0 <= j < r.value ==> ms[j].id != id
    ensures r.None? <==> forall j :: 0 <= j < |ms| ==> ms[j].id != id
  {
    IndexOf(ms, (m: Match) => m.id == id)
  }

  /** `pendingRegistrations.find(r => r.id === id)`, as an index. */
  function RegistrationIndex(rs: seq<Registration>, id: int): (r: Option<nat>)
    ensures r.Some? ==> r.value < |rs| && rs[r.value].id == id
    ensures r.Some? ==> forall j :: 0 <= j < r.value ==> rs[j].id != id
    ensures r.None? <==> forall j :: 0 <= j < |rs| ==> rs[j].id != id
  {
    IndexOf(rs, (g: Registration) => g.id == id)
  }

  /** `pendingRegistrations.filter(r => r.id !== id)` */
  function WithoutRegistration(rs: seq<Registration>, id: int): seq<Registration> {
    Filter(rs, (g: Registration) => g.id != id)
  }

  /** `standings.filter(t => t.team !== name)` */
  function WithoutTeam(st: seq<Team>, name: string): seq<Team> {
    Filter(st, (t: Team) => t.name != name)
  }

  /** `matches.filter(m => m.homeTeam !== name && m.awayTeam !== name)` */
  function WithoutMatchesOf(ms: seq<Match>, name: string): seq<Match> {
    Filter(ms, (m: Match) => !m.Involves(name))
  }

  /** `matches.filter(m => m.id != matchId)` */
  function WithoutMatch(ms: seq<Match>, id: int): seq<Match> {
    Filter(ms, (m: Match) => m.id != id)
  }

  // ----- registrations -----

  /** `approveRegistration(id)` */
  function ApproveRegistration(d: League, id: int): League {
    match RegistrationIndex(d.pending, id)
    case None => d
    case Some(k) =>
      d.(standings := d.standings + [NewTeam(d.pending[k].team, d.pending[k].owner)],
         pending := WithoutRegistration(d.pending, id))
  }

  /** `rejectRegistration(id)` */
  function RejectRegistration(d: League, id: int): League {
    d.(pending := WithoutRegistration(d.pending, id))
  }

  /** A found registration becomes one zeroed team carrying its team and owner
      names, appended after the existing ones, and every registration with that
      id leaves the queue while all others stay; an unknown id changes nothing. */
  lemma ApproveRegistrationEffect(d: League, id: int)
    ensures var d' := ApproveRegistration(d, id);
      match RegistrationIndex(d.pending, id)
      case None => d' == d
      case Some(k) =>
        && d'.standings[..|d.standings|] == d.standings
        && |d'.standings| == |d.standings| + 1
        && d'.standings[|d.standings|] == Team(d.pending[k].team, d.pending[k].owner, 0, 0, 0, 0, 0, 0, 0)
        && (forall g :: g in d'.pending <==> g in d.pending && g.id != id)
        && |d'.pending| < |d.pending|
        && d'.matches == d.matches
  {
    match RegistrationIndex(d.pending, id)
    case None =>
      assert WithoutRegistration(d.pending, id) == d.pending by {
        FilterKeepsAll(d.pending, (g: Registration) => g.id != id);
      }
    case Some(k) =>
      var rs := d.pending;
      FilterMembers(rs, (g: Registration) => g.id != id);
      assert rs == rs[..k] + [rs[k]] + rs[k + 1..];
      FilterAppend(rs[..k] + [rs[k]], rs[k + 1..], (g: Registration) => g.id != id);
      FilterAppend(rs[..k], [rs[k]], (g: Registration) => g.id != id);
  }

  /** Approving never looks at the table: a registration whose team name is
      already listed is approved all the same, and the name then heads two
      entries. */
  lemma ApproveRegistrationRepeatsName(d: League, id: int, j: nat)
    requires RegistrationIndex(d.pending, id).Some?
    requires j < |d.standings| && d.standings[j].name == d.pending[RegistrationIndex(d.pending, id).value].team
    ensures var d' := ApproveRegistration(d, id);
      |d'.standings| == |d.standings| + 1 && j < |d.standings|
      && d'.standings[j].name == d'.standings[|d.standings|].name
  {
  }

  /** Rejecting removes exactly the registrations with that id and keeps the rest,
      each as often as before and in the same order. */
  lemma RejectRegistrationEffect(d: League, id: int, g: Registration)
    ensures var d' := RejectRegistration(d, id);
      && d'.standings == d.standings && d'.matches == d.matches
      && multiset(d'.pending)[g] == (if g.id == id then 0 else multiset(d.pending)[g])
  {
    FilterCount(d.pending, (g: Registration) => g.id != id, g);
  }

  // ----- teams -----

  /** `addTeamManually()` with the trimmed field values. */
  function AddTeamManually(d: League, name: string, owner: string): League {
    if CheckTeamEntry(d.standings, name, owner).Some? then d
    else d.(standings := d.standings + [NewTeam(name, owner)])
  }

  /** A refused entry changes nothing; an accepted one appends one team with all
      counters 0, which is then the only entry with that name. */
  lemma AddTeamManuallyEffect(d: League, name: string, owner: string)
    ensures var d' := AddTeamManually(d, name, owner);
      if CheckTeamEntry(d.standings, name, owner).Some? then d' == d
      else
        && d'.standings == d.standings + [Team(name, owner, 0, 0, 0, 0, 0, 0, 0)]
        && TeamIndex(d'.standings, name) == Some(|d.standings|)
        && (forall j :: 0 <= j < |d'.standings| && d'.standings[j].name == name ==> j == |d.standings|)
        && d'.matches == d.matches && d'.pending == d.pending
  {
    if CheckTeamEntry(d.standings, name, owner).None? {
      var st' := d.standings + [NewTeam(name, owner)];
      assert st'[|d.standings|].name == name;
      assert forall j :: 0 <= j < |d.standings| ==> st'[j].name != name;
    }
  }

  /** One match with every side named `from` renamed to `to`; the two sides are
      checked independently. */
  function RenameSides(m: Match, from: string, to: string): Match {
    m.(homeTeam := if m.homeTeam == from then to else m.homeTeam,
       awayTeam := if m.awayTeam == from then to else m.awayTeam)
  }

  /** The cascade of `editTeam` over the match list: no match names the old team
      afterwards, and a match it did not play in is kept as it was. */
  function RenameInMatches(ms: seq<Match>, from: string, to: string): (r: seq<Match>)
    ensures |r| == |ms|
    ensures from != to ==> forall i :: 0 <= i < |r| ==> !r[i].Involves(from)
    ensures forall i :: 0 <= i < |ms| && !ms[i].Involves(from) ==> r[i] == ms[i]
  {
    seq(|ms|, i requires 0 <= i < |ms| => RenameSides(ms[i], from, to))
  }

  /** `editTeam(teamName)` where `newName` is what `prompt` returned (None when
      cancelled). An empty or unchanged name does nothing. If no entry has the
      old name, the handler throws before changing anything. */
  function EditTeam(d: League, teamName: string, newName: Option<string>): League {
    if newName.None? || newName.value == "" || newName.value == teamName then d
    else match TeamIndex(d.standings, teamName)
      case None => d
      case Some(k) =>
        d.(standings := d.standings[k := d.standings[k].(name := newName.value)],
           matches := RenameInMatches(d.matches, teamName, newName.value))
  }

  /** A cancelled prompt, an empty answer, the unchanged name and an unknown
      team all leave the document as it was. */
  lemma EditTeamRefused(d: League, teamName: string, newName: Option<string>)
    requires newName.None? || newName.value == "" || newName.value == teamName
          || TeamIndex(d.standings, teamName).None?
    ensures EditTeam(d, teamName, newName) == d
  {
  }

  /** The rename reaches the first entry with the old name and every side of
      every match that carried it; nothing else in any match changes, and no match
      mentions the old name afterwards. */
  lemma EditTeamCascade(d: League, teamName: string, newName: string)
    requires newName != "" && newName != teamName && TeamIndex(d.standings, teamName).Some?
    ensures var d' := EditTeam(d, teamName, Some(newName)); var k := TeamIndex(d.standings, teamName).value;
      && |d'.standings| == |d.standings| && d'.standings[k].name == newName
      && d'.standings[k] == d.standings[k].(name := newName)
      && (forall j :: 0 <= j < |d.standings| && j != k ==> d'.standings[j] == d.standings[j])
      && |d'.matches| == |d.matches|
      && (forall i :: 0 <= i < |d.matches| ==>
            && d'.matches[i].homeTeam == (if d.matches[i].homeTeam == teamName then newName else d.matches[i].homeTeam)
            && d'.matches[i].awayTeam == (if d.matches[i].awayTeam == teamName then newName else d.matches[i].awayTeam)
            && d'.matches[i].(homeTeam := "", awayTeam := "") == d.matches[i].(homeTeam := "", awayTeam := "")
            && !d'.matches[i].Involves(teamName))
      && (forall i :: 0 <= i < |d.matches| && !d.matches[i].Involves(teamName) ==> d'.matches[i] == d.matches[i])
      && d'.pending == d.pending
  {
  }

  /** Renaming back undoes a rename, provided the new name was not in use by any
      team or any match beforehand. */
  lemma EditTeamRoundTrip(d: League, teamName: string, newName: string)
    requires newName != "" && teamName != "" && newName != teamName
    requires TeamIndex(d.standings, teamName).Some?
    requires forall j :: 0 <= j < |d.standings| ==> d.standings[j].name != newName
    requires forall i :: 0 <= i < |d.matches| ==> !d.matches[i].Involves(newName)
    ensures EditTeam(EditTeam(d, teamName, Some(newName)), newName, Some(teamName)) == d
  {
    var k := TeamIndex(d.standings, teamName).value;
    var d1 := EditTeam(d, teamName, Some(newName));
    assert TeamIndex(d1.standings, newName) == Some(k) by {
      var r := TeamIndex(d1.standings, newName);
      assert d1.standings[k].name == newName;
      assert forall j :: 0 <= j < k ==> d1.standings[j].name != newName;
    }
    var d2 := EditTeam(d1, newName, Some(teamName));
    assert d2.standings == d.standings;
    assert d2.matches == d.matches by {
      assert forall i :: 0 <= i < |d.matches| ==> d2.matches[i] == d.matches[i];
    }
  }

  /** `deleteTeam(teamName)` where `confirmed` is the answer to `confirm`. */
  function DeleteTeam(d: League, teamName: string, confirmed: bool): League {
    if !confirmed then d
    else d.(standings := WithoutTeam(d.standings, teamName), matches := WithoutMatchesOf(d.matches, teamName))
  }

  /** A confirmed delete removes every entry with the name and exactly the matches
      where it plays on either side; every other team and match stays as often as
      before. */
  lemma DeleteTeamCascade(d: League, teamName: string, t: Team, m: Match)
    ensures var d' := DeleteTeam(d, teamName, true);
      && (forall j :: 0 <= j < |d'.standings| ==> d'.standings[j].name != teamName)
      && (forall i :: 0 <= i < |d'.matches| ==> !d'.matches[i].Involves(teamName))
      && multiset(d'.standings)[t] == (if t.name == teamName then 0 else multiset(d.standings)[t])
      && multiset(d'.matches)[m] == (if m.Involves(teamName) then 0 else multiset(d.matches)[m])
      && d'.pending == d.pending
  {
    var d' := DeleteTeam(d, teamName, true);
    FilterMembers(d.standings, (t: Team) => t.name != teamName);
    FilterMembers(d.matches, (m: Match) => !m.Involves(teamName));
    FilterCount(d.standings, (t: Team) => t.name != teamName, t);
    FilterCount(d.matches, (m: Match) => !m.Involves(teamName), m);
    forall j | 0 <= j < |d'.standings| ensures d'.standings[j].name != teamName {
      assert d'.standings[j] in d'.standings;
    }
    forall i | 0 <= i < |d'.matches| ensures !d'.matches[i].Involves(teamName) {
      assert d'.matches[i] in d'.matches;
    }
  }

  /** The matches that survive a delete keep their relative order: deleting from
      a concatenation is the concatenation of the deletions, and a list in which
      the team does not play is left as it is. */
  lemma DeleteTeamKeepsOrder(a: seq<Match>, b: seq<Match>, teamName: string)
    ensures WithoutMatchesOf(a + b, teamName) == WithoutMatchesOf(a, teamName) + WithoutMatchesOf(b, teamName)
    ensures (forall i :: 0 <= i < |a| ==> !a[i].Involves(teamName)) ==> WithoutMatchesOf(a, teamName) == a
  {
    FilterAppend(a, b, (m: Match) => !m.Involves(teamName));
    if forall i :: 0 <= i < |a| ==> !a[i].Involves(teamName) {
      FilterKeepsAll(a, (m: Match) => !m.Involves(teamName));
    }
  }

  /** `updateTeamStat(teamName, stat, value)` with `parsed` the result of
      `parseInt(value)` (None for NaN), so that `|| 0` yields 0 for it. */
  function UpdateTeamStat(d: League, teamName: string, stat: Stat, parsed: Option<int>): League {
    match TeamIndex(d.standings, teamName)
    case None => d
    case Some(k) => d.(standings := d.standings[k := SetStat(d.standings[k], stat, parsed.GetOr(0))])
  }

  /** Only the first entry with the name changes: its edited counter reads back
      as the parsed value, 0 when the input is not a number; the match list and
      the queue are untouched, and an unknown name changes nothing. */
  lemma UpdateTeamStatEffect(d: League, teamName: string, stat: Stat, parsed: Option<int>)
    ensures var d' := UpdateTeamStat(d, teamName, stat, parsed);
      match TeamIndex(d.standings, teamName)
      case None => d' == d
      case Some(k) =>
        && |d'.standings| == |d.standings|
        && Field(d'.standings[k], stat) == (if parsed.Some? then parsed.value else 0)
        && d'.standings[k].name == teamName && d'.standings[k].played == (if stat == Played then Field(d'.standings[k], stat) else d.standings[k].played)
        && (forall j :: 0 <= j < |d.standings| && j != k ==> d'.standings[j] == d.standings[j])
        && d'.matches == d.matches && d'.pending == d.pending
  {
    match TeamIndex(d.standings, teamName)
    case None =>
    case Some(k) =>
      SetStatEffect(d.standings[k], stat, parsed.GetOr(0));
  }

  // ----- matches -----

  /** Why `addMatch` refuses its form. */
  datatype MatchError = MissingMatchField | SelfMatch

  /** The two checks of `addMatch`: all three required fields given, and not a
      team against itself (exact string equality). */
  function CheckMatchEntry(home: string, away: string, date: string): (r: Option<MatchError>)
    ensures r == None <==> home != "" && away != "" && date != "" && home != away
    ensures r == Some(SelfMatch) <==> home != "" && away != "" && date != "" && home == away
  {
    if home == "" || away == "" || date == "" then Some(MissingMatchField)
    else if home == away then Some(SelfMatch)
    else None
  }

  /** `addMatch()` with `id` the clock reading `Date.now()`. */
  function AddMatch(d: League, id: int, home: string, away: string, date: string, time: string): League {
    if CheckMatchEntry(home, away, date).Some? then d
    else d.(matches := d.matches + [NewMatch(id, home, away, date, Some(time))])
  }

  /** An accepted match is appended, scheduled at 0:0 with distinct sides. */
  lemma AddMatchEffect(d: League, id: int, home: string, away: string, date: string, time: string)
    ensures var d' := AddMatch(d, id, home, away, date, time);
      if CheckMatchEntry(home, away, date).Some? then d' == d
      else
        && d'.matches == d.matches + [NewMatch(id, home, away, date, Some(time))]
        && d'.standings == d.standings && d'.pending == d.pending
        && |d'.matches| == |d.matches| + 1 && d'.matches[..|d.matches|] == d.matches
        && var m := d'.matches[|d.matches|];
           m.homeTeam != m.awayTeam && m.status == Scheduled && m.homeScore == 0 == m.awayScore
           && m.id == id && m.minute.None?
  {
  }

  /** The team names of the standings, in table order. */
  function Names(st: seq<Team>): seq<string> {
    seq(|st|, j requires 0 <= j < |st| => st[j].name)
  }

  /** The round `generateRound` builds from the shuffled names: the k-th match
      pairs positions 2k and 2k+1, has id `baseId + 2k` and no time. */
  function Pairings(shuffled: seq<string>, baseId: int, date: string): (r: seq<Match>)
    ensures |r| == |shuffled| / 2
  {
    seq(|shuffled| / 2, k requires 0 <= k < |shuffled| / 2 =>
      NewMatch(baseId + 2 * k, shuffled[2 * k], shuffled[2 * k + 1], date, None))
  }

  /** Every name takes part in at most one match of a round built from distinct
      names, never against itself; with an odd count the last name is left out. */
  lemma PairingsUseEachTeamOnce(shuffled: seq<string>, baseId: int, date: string)
    requires forall i, j :: 0 <= i < j < |shuffled| ==> shuffled[i] != shuffled[j]
    ensures var r := Pairings(shuffled, baseId, date);
      && (forall k :: 0 <= k < |r| ==> r[k].homeTeam != r[k].awayTeam && r[k].status == Scheduled)
      && (forall k, l, name :: 0 <= k < l < |r| && r[k].Involves(name) ==> !r[l].Involves(name))
      && (|shuffled| % 2 == 1 ==> forall k :: 0 <= k < |r| ==> !r[k].Involves(shuffled[|shuffled| - 1]))
  {
    var r := Pairings(shuffled, baseId, date);
    forall k, l, name | 0 <= k < l < |r| && r[k].Involves(name) ensures !r[l].Involves(name) {
      assert 2 * k + 1 < 2 * l;
    }
  }

  /** Without distinct names the pairing can put a team against itself: two
      equal names at positions 2k and 2k+1 make the k-th match a self-match. */
  lemma PairingsWithRepeatedName(shuffled: seq<string>, baseId: int, date: string, k: nat)
    requires 2 * k + 1 < |shuffled| && shuffled[2 * k] == shuffled[2 * k + 1]
    ensures var r := Pairings(shuffled, baseId, date);
      k < |r| && r[k].homeTeam == r[k].awayTeam
  {
  }

  /** `generateRound()` with `shuffled` the order that the random sort produced
      and `confirmed` the answer to `confirm`. */
  function GenerateRound(d: League, shuffled: seq<string>, baseId: int, date: string, confirmed: bool): League
    requires multiset(shuffled) == multiset(Names(d.standings))
  {
    if |d.standings| < 2 || !confirmed then d
    else d.(matches := d.matches + Pairings(shuffled, baseId, date))
  }

  /** With at least two teams and confirmation, n teams add exactly n / 2 new
      scheduled 0:0 matches after the existing ones; otherwise nothing changes. */
  lemma GenerateRoundEffect(d: League, shuffled: seq<string>, baseId: int, date: string, confirmed: bool)
    requires multiset(shuffled) == multiset(Names(d.standings))
    ensures var d' := GenerateRound(d, shuffled, baseId, date, confirmed);
      if |d.standings| < 2 || !confirmed then d' == d
      else
        && |d'.matches| == |d.matches| + |d.standings| / 2
        && d'.matches[..|d.matches|] == d.matches
        && (forall i :: |d.matches| <= i < |d'.matches| ==>
              d'.matches[i].status == Scheduled && d'.matches[i].homeScore == 0 == d'.matches[i].awayScore
              && d'.matches[i].homeTeam in shuffled && d'.matches[i].awayTeam in shuffled)
        && d'.standings == d.standings && d'.pending == d.pending
  {
    assert |shuffled| == |Names(d.standings)| by {
      assert |multiset(shuffled)| == |multiset(Names(d.standings))|;
    }
  }

  /** `startMatch(id)` */
  function StartMatch(d: League, id: int): League {
    match MatchIndex(d.matches, id)
    case None => d
    case Some(k) =>
      d.(matches := d.matches[k := d.matches[k].(status := Live, minute := Some(1), homeScore := 0, awayScore := 0)])
  }

  /** `updateScore(id, side, increment)`: any side other than 'home' scores for the away team. */
  function UpdateScore(d: League, id: int, side: string, increment: int): League {
    match MatchIndex(d.matches, id)
    case None => d
    case Some(k) =>
      var m := d.matches[k];
      d.(matches := d.matches[k := if side == "home" then m.(homeScore := m.homeScore + increment)
                                   else m.(awayScore := m.awayScore + increment)])
  }

  /** `parseInt(minute) || 1`: NaN and 0 both become 1. */
  function MinuteOrOne(parsed: Option<int>): int {
    if parsed.Some? && parsed.value != 0 then parsed.value else 1
  }

  /** `updateMinute(id, minute)` with `parsed` the result of `parseInt(minute)`. */
  function UpdateMinute(d: League, id: int, parsed: Option<int>): League {
    match MatchIndex(d.matches, id)
    case None => d
    case Some(k) => d.(matches := d.matches[k := d.matches[k].(minute := Some(MinuteOrOne(parsed)))])
  }

  /** `finishMatch(id)`: whatever the status was, the match becomes finished and
      its result is credited to the table. */
  function FinishMatch(d: League, id: int): League {
    match MatchIndex(d.matches, id)
    case None => d
    case Some(k) =>
      var m := d.matches[k].(status := Finished);
      d.(matches := d.matches[k := m], standings := ApplyResult(d.standings, m))
  }

  /** `reopenMatch(id)`: whatever the status was, the result is taken back from
      the table, then the match is scheduled again at 0:0 without a minute. */
  function ReopenMatch(d: League, id: int): League {
    match MatchIndex(d.matches, id)
    case None => d
    case Some(k) =>
      var m := d.matches[k];
      d.(standings := RevertResult(d.standings, m),
         matches := d.matches[k := m.(status := Scheduled, homeScore := 0, awayScore := 0, minute := None)])
  }

  /** `deleteMatch(id)` where `confirmed` is the answer to `confirm`. */
  function DeleteMatch(d: League, id: int, confirmed: bool): League {
    if !confirmed then d else d.(matches := WithoutMatch(d.matches, id))
  }

  /** The first match with the id gets a minute that is never 0: the parsed
      number when it is a non-zero number, 1 otherwise; nothing else changes. */
  lemma UpdateMinuteEffect(d: League, id: int, parsed: Option<int>)
    requires MatchIndex(d.matches, id).Some?
    ensures var d' := UpdateMinute(d, id, parsed); var k := MatchIndex(d.matches, id).value;
      && |d'.matches| == |d.matches|
      && d'.matches[k].minute.Some? && d'.matches[k].minute.value != 0
      && (parsed.Some? && parsed.value != 0 ==> d'.matches[k].minute == parsed)
      && (parsed.None? || parsed.value == 0 ==> d'.matches[k].minute == Some(1))
      && d'.matches[k].(minute := None) == d.matches[k].(minute := None)
      && (forall i :: 0 <= i < |d.matches| && i != k ==> d'.matches[i] == d.matches[i])
      && d'.standings == d.standings && d'.pending == d.pending
  {
  }

  /** A confirmed delete removes every match with the id, keeps every other match
      as often as before, and leaves the table as it was (a finished result stays
      counted); an unconfirmed one changes nothing. */
  lemma DeleteMatchEffect(d: League, id: int, confirmed: bool, m: Match)
    ensures var d' := DeleteMatch(d, id, confirmed);
      && (!confirmed ==> d' == d)
      && (confirmed ==>
            && (forall i :: 0 <= i < |d'.matches| ==> d'.matches[i].id != id)
            && multiset(d'.matches)[m] == (if m.id == id then 0 else multiset(d.matches)[m]))
      && d'.standings == d.standings && d'.pending == d.pending
  {
    if confirmed {
      var d' := DeleteMatch(d, id, confirmed);
      FilterMembers(d.matches, (m: Match) => m.id != id);
      FilterCount(d.matches, (m: Match) => m.id != id, m);
      forall i | 0 <= i < |d'.matches| ensures d'.matches[i].id != id {
        assert d'.matches[i] in d'.matches;
      }
    }
  }

  /** Finishing the first match with the id marks it finished and keeps its sides,
      scores, date and minute; the result is credited to the table, and the other
      matches and the queue are untouched. */
  lemma FinishMatchEffect(d: League, id: int)
    requires MatchIndex(d.matches, id).Some?
    ensures var d' := FinishMatch(d, id); var k := MatchIndex(d.matches, id).value;
      && |d'.matches| == |d.matches|
      && d'.matches[k].status == Finished
      && d'.matches[k].(status := Scheduled) == d.matches[k].(status := Scheduled)
      && (forall i :: 0 <= i < |d.matches| && i != k ==> d'.matches[i] == d.matches[i])
      && d'.standings == ApplyResult(d.standings, d'.matches[k])
      && d'.pending == d.pending
  {
  }

  /** Reopening the first match with the id takes its result, as it stood, back
      from the table, then leaves it scheduled at 0:0 without a minute, keeping its
      id, sides, date and time; the other matches and the queue are untouched. */
  lemma ReopenMatchEffect(d: League, id: int)
    requires MatchIndex(d.matches, id).Some?
    ensures var d' := ReopenMatch(d, id); var k := MatchIndex(d.matches, id).value;
      && |d'.matches| == |d.matches|
      && d'.matches[k].status == Scheduled && d'.matches[k].homeScore == 0 == d'.matches[k].awayScore
      && d'.matches[k].minute.None?
      && d'.matches[k].id == id && d'.matches[k].homeTeam == d.matches[k].homeTeam
      && d'.matches[k].awayTeam == d.matches[k].awayTeam && d'.matches[k].date == d.matches[k].date
      && d'.matches[k].time == d.matches[k].time
      && (forall i :: 0 <= i < |d.matches| && i != k ==> d'.matches[i] == d.matches[i])
      && d'.standings == RevertResult(d.standings, d.matches[k])
      && d'.pending == d.pending
  {
  }

  /** None of the match handlers does anything for an id that no match has. */
  lemma UnknownMatchIdChangesNothing(d: League, id: int, side: string, increment: int, parsed: Option<int>)
    requires forall i :: 0 <= i < |d.matches| ==> d.matches[i].id != id
    ensures StartMatch(d, id) == d && UpdateScore(d, id, side, increment) == d
    ensures UpdateMinute(d, id, parsed) == d && FinishMatch(d, id) == d && ReopenMatch(d, id) == d
    ensures DeleteMatch(d, id, true) == d
  {
    FilterKeepsAll(d.matches, (m: Match) => m.id != id);
  }

  /** Starting puts the first match with the id live at 0:0 in minute 1 and
      touches nothing else. */
  lemma StartMatchEffect(d: League, id: int)
    requires MatchIndex(d.matches, id).Some?
    ensures var d' := StartMatch(d, id); var k := MatchIndex(d.matches, id).value;
      && |d'.matches| == |d.matches|
      && d'.matches[k].status == Live && d'.matches[k].minute == Some(1)
      && d'.matches[k].homeScore == 0 && d'.matches[k].awayScore == 0
      && d'.matches[k].id == id && d'.matches[k].homeTeam == d.matches[k].homeTeam
      && d'.matches[k].awayTeam == d.matches[k].awayTeam && d'.matches[k].date == d.matches[k].date
      && d'.matches[k].time == d.matches[k].time
      && (forall i :: 0 <= i < |d.matches| && i != k ==> d'.matches[i] == d.matches[i])
      && d'.standings == d.standings && d'.pending == d.pending
  {
  }

  /** A goal changes only the named side's score of the first match with the id. */
  lemma UpdateScoreEffect(d: League, id: int, side: string, increment: int)
    requires MatchIndex(d.matches, id).Some?
    ensures var d' := UpdateScore(d, id, side, increment); var k := MatchIndex(d.matches, id).value;
      && |d'.matches| == |d.matches|
      && d'.matches[k].homeScore == d.matches[k].homeScore + (if side == "home" then increment else 0)
      && d'.matches[k].awayScore == d.matches[k].awayScore + (if side == "home" then 0 else increment)
      && d'.matches[k].(homeScore := 0, awayScore := 0) == d.matches[k].(homeScore := 0, awayScore := 0)
      && (forall i :: 0 <= i < |d.matches| && i != k ==> d'.matches[i] == d.matches[i])
      && d'.standings == d.standings && d'.pending == d.pending
  {
  }

  /** Finishing and then reopening the same match gives the table back exactly,
      when the teams' clamped counters were not negative; the match itself is
      left scheduled at 0:0 without a minute. */
  lemma FinishThenReopenRestoresTable(d: League, id: int)
    requires MatchIndex(d.matches, id).Some?
    requires var m := d.matches[MatchIndex(d.matches, id).value];
      forall j :: 0 <= j < |d.standings| && m.Involves(d.standings[j].name) ==> CountersNonNegative(d.standings[j])
    ensures var d' := ReopenMatch(FinishMatch(d, id), id); var k := MatchIndex(d.matches, id).value;
      && d'.standings == d.standings
      && d'.matches == d.matches[k := d.matches[k].(status := Scheduled, homeScore := 0, awayScore := 0, minute := None)]
      && d'.pending == d.pending
  {
    var k := MatchIndex(d.matches, id).value;
    var d1 := FinishMatch(d, id);
    assert MatchIndex(d1.matches, id) == Some(k) by {
      assert d1.matches == d.matches[k := d.matches[k].(status := Finished)];
      assert d1.matches[k].id == id;
      assert forall j :: 0 <= j < k ==> d1.matches[j].id != id;
    }
    var m := d.matches[k].(status := Finished);
    assert d1.matches[k] == m && d1.standings == ApplyResult(d.standings, m);
    assert forall j :: 0 <= j < |d.standings| && m.Involves(d.standings[j].name) ==> CountersNonNegative(d.standings[j]);
    RevertUndoesApply(d.standings, m);
    assert d1.matches[k := m.(status := Scheduled, homeScore := 0, awayScore := 0, minute := None)]
        == d.matches[k := d.matches[k].(status := Scheduled, homeScore := 0, awayScore := 0, minute := None)];
  }

  /** Finishing never checks the status, so finishing twice counts the result
      twice: two games more for each of two different teams found. */
  lemma FinishTwiceCountsTwice(d: League, id: int, h: nat, a: nat)
    requires MatchIndex(d.matches, id).Some?
    requires var m := d.matches[MatchIndex(d.matches, id).value];
      TeamIndex(d.standings, m.homeTeam) == Some(h) && TeamIndex(d.standings, m.awayTeam) == Some(a) && h != a
    ensures var d' := FinishMatch(FinishMatch(d, id), id);
      d'.standings[h].played == d.standings[h].played + 2 && d'.standings[a].played == d.standings[a].played + 2
  {
    var k := MatchIndex(d.matches, id).value;
    var m := d.matches[k].(status := Finished);
    var d1 := FinishMatch(d, id);
    assert MatchIndex(d1.matches, id) == Some(k) by {
      assert d1.matches == d.matches[k := d.matches[k].(status := Finished)];
      assert d1.matches[k].id == id;
      assert forall j :: 0 <= j < k ==> d1.matches[j].id != id;
    }
    assert d1.matches[k] == m && m.(status := Finished) == m;
    ApplyResultCounts(d.standings, m, h, a);
    TeamIndexSameNames(d.standings, d1.standings, m.homeTeam);
    TeamIndexSameNames(d.standings, d1.standings, m.awayTeam);
    ApplyResultCounts(d1.standings, m, h, a);
  }

  /** Finishing adds exactly 3 points to the table for a decisive result and 2
      for a draw when both teams are found, and none when either is missing; in
      every case the match ends up finished. */
  lemma FinishMatchPoints(d: League, id: int)
    requires MatchIndex(d.matches, id).Some?
    ensures var d' := FinishMatch(d, id); var k := MatchIndex(d.matches, id).value; var m := d.matches[k];
      && d'.matches[k].status == Finished
      && TotalPoints(d'.standings) == TotalPoints(d.standings) +
           (if TeamIndex(d.standings, m.homeTeam).None? || TeamIndex(d.standings, m.awayTeam).None? then 0
            else if m.homeScore == m.awayScore then 2 else 3)
  {
    var k := MatchIndex(d.matches, id).value;
    var m := d.matches[k].(status := Finished);
    if TeamIndex(d.standings, m.homeTeam).Some? && TeamIndex(d.standings, m.awayTeam).Some? {
      ApplyResultTotalPoints(d.standings, m);
    }
  }
}
