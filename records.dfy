/** The records of the league document: teams in the standings, matches,
    pending registrations and news items. JavaScript numbers that the league
    code only adds, subtracts and compares are unbounded integers here. */
module Records {
  import opened Util

  /** A match's `status` string: 'scheduled', 'live' or 'finished'. */
  datatype Status = Scheduled | Live | Finished

  /** A standings entry. `name` is the record's `team` key. */
  datatype Team = Team(
    name: string,
    owner: string,
    played: int,
    wins: int,
    draws: int,
    losses: int,
    goalsFor: int,
    goalsAgainst: int,
    points: int)
  {
    function GoalDiff(): int { goalsFor - goalsAgainst }
  }

  /** A fixture. `date` is the stored date string; `time` is absent on generated
      rounds; `minute` is present only after a match has been started. */
  datatype Match = Match(
    id: int,
    homeTeam: string,
    awayTeam: string,
    date: string,
    time: Option<string>,
    status: Status,
    homeScore: int,
    awayScore: int,
    minute: Option<int>)
  {
    /** The team named `name` plays in this match, on either side. */
    predicate Involves(name: string) { homeTeam == name || awayTeam == name }
  }

  /** An entry of `pendingRegistrations`. */
  datatype Registration = Registration(id: int, team: string, owner: string, date: string, status: string)

  /** An entry of `news`. */
  datatype News = News(id: int, title: string, content: string, image: Option<string>, date: string)

  /** The seven numeric fields the standings editor can override. */
  datatype Stat = Played | Wins | Draws | Losses | Points | GoalsFor | GoalsAgainst

  /** A team as both `approveRegistration` and `addTeamManually` push it: all seven counters 0. */
  function NewTeam(name: string, owner: string): Team {
    Team(name, owner, 0, 0, 0, 0, 0, 0, 0)
  }

  /** A fixture as `addMatch` and `generateRound` push it: scheduled, 0:0, no minute. */
  function NewMatch(id: int, home: string, away: string, date: string, time: Option<string>): Match {
    Match(id, home, away, date, time, Scheduled, 0, 0, None)
  }
}
