/** main.js, the public site: the order of the standings table, the three match
    lists, the result label of a finished match, the news strip, the checks of
    the registration form and the login lookup. Fetching, rendering and
    notifications are not modelled; the clock and date parsing are parameters. */
module Site {
  import opened Util
  import opened Records
  import opened Ledger
  import Transitions

  // ----- standings table -----

  /** The comparator passed to `standings.sort`: negative when `a` goes first. */
  function Compare(a: Team, b: Team): int {
    var byPoints := b.points - a.points;
    if byPoints != 0 then byPoints else b.GoalDiff() - a.GoalDiff()
  }

  /** The comparator's sign: `a` goes first exactly when it has more points, or as
      many points and a greater goal difference; a tie is equal points and equal
      goal difference; swapping the arguments flips the sign. */
  lemma CompareMeaning(a: Team, b: Team)
    ensures Compare(a, b) < 0 <==> a.points > b.points || (a.points == b.points && a.GoalDiff() > b.GoalDiff())
    ensures Compare(a, b) == 0 <==> a.points == b.points && a.GoalDiff() == b.GoalDiff()
    ensures Compare(a, b) == -Compare(b, a)
  {
  }

  /** Every team is listed above every team after it in the comparator's order. */
  predicate Ranked(s: seq<Team>) {
    forall i, j :: 0 <= i < j < |s| ==> Compare(s[i], s[j]) <= 0
  }

  /** Places `t` in front of the first entry it does not rank below, that is,
      before all entries with its points and goal difference. */
  function Insert(t: Team, s: seq<Team>): (r: seq<Team>)
    ensures multiset(r) == multiset(s) + multiset{t}
  {
    if s == [] then [t]
    else if Compare(t, s[0]) <= 0 then [t] + s
    else
      assert s == [s[0]] + s[1..];
      [s[0]] + Insert(t, s[1..])
  }

  lemma {:induction false} InsertRanked(t: Team, s: seq<Team>)
    requires Ranked(s)
    ensures Ranked(Insert(t, s))
  {
    if s == [] {
    } else if Compare(t, s[0]) <= 0 {
      RankedCons(t, s);
    } else {
      var rest := Insert(t, s[1..]);
      InsertRanked(t, s[1..]);
      forall k | 0 <= k < |rest|
        ensures Compare(s[0], rest[k]) <= 0
      {
        assert rest[k] in multiset(rest);
        if rest[k] != t {
          assert rest[k] in multiset(s[1..]);
          var j :| 1 <= j < |s| && s[j] == rest[k];
        }
      }
      RankedCons(s[0], rest);
    }
  }

  /** An entry ranked no lower than every entry of a ranked list can head it. */
  lemma RankedCons(x: Team, r: seq<Team>)
    requires Ranked(r)
    requires forall k :: 0 <= k < |r| ==> Compare(x, r[k]) <= 0
    ensures Ranked([x] + r)
  {
    var xr := [x] + r;
    forall i, j | 0 <= i < j < |xr|
      ensures Compare(xr[i], xr[j]) <= 0
    {
      assert xr[j] == r[j - 1];
      if i > 0 {
        assert xr[i] == r[i - 1];
      }
    }
  }

  /** The table as `updateStandingsTable` lists it. `Array.prototype.sort` is a
      stable sort, so the result is the input ordered by the comparator with
      tied teams in their stored order; this insertion sort gives that result. */
  function SortStandings(s: seq<Team>): (r: seq<Team>)
    ensures Ranked(r)
    ensures multiset(r) == multiset(s)
    ensures |r| == |s|
  {
    if s == [] then []
    else
      assert s == [s[0]] + s[1..];
      InsertRanked(s[0], SortStandings(s[1..]));
      Insert(s[0], SortStandings(s[1..]))
  }

  /** Selects the teams level on points and on goal difference with the given values. */
  function TiedAt(points: int, goalDiff: int): Team -> bool {
    (t: Team) => t.points == points && t.GoalDiff() == goalDiff
  }

  lemma {:induction false} InsertKeepsTieOrder(t: Team, s: seq<Team>, points: int, goalDiff: int)
    ensures Filter(Insert(t, s), TiedAt(points, goalDiff))
         == (if TiedAt(points, goalDiff)(t) then [t] else []) + Filter(s, TiedAt(points, goalDiff))
  {
    var tied := TiedAt(points, goalDiff);
    FilterOne(t, tied);
    if s == [] {
      assert Insert(t, s) == [t];
      assert Filter(s, tied) == [];
    } else if Compare(t, s[0]) <= 0 {
      assert Insert(t, s) == [t] + s;
      FilterAppend([t], s, tied);
      assert Filter(Insert(t, s), tied) == Filter([t], tied) + Filter(s, tied);
    } else {
      InsertKeepsTieOrder(t, s[1..], points, goalDiff);
      assert Insert(t, s) == [s[0]] + Insert(t, s[1..]);
      assert s == [s[0]] + s[1..];
      // `t` ranks strictly below `s[0]`, so the two are never both tied at one level
      assert !(tied(t) && tied(s[0]));
      FilterPastHead(s[0], Insert(t, s[1..]), t, s[1..], tied);
    }
  }

  /** The sort is stable: teams level on points and goal difference appear in
      the table in the order they have in the stored standings. */
  lemma {:induction false} SortKeepsTieOrder(s: seq<Team>, points: int, goalDiff: int)
    ensures Filter(SortStandings(s), TiedAt(points, goalDiff)) == Filter(s, TiedAt(points, goalDiff))
  {
    if s != [] {
      var tied := TiedAt(points, goalDiff);
      var sorted := SortStandings(s[1..]);
      assert SortStandings(s) == Insert(s[0], sorted);
      SortKeepsTieOrder(s[1..], points, goalDiff);
      InsertKeepsTieOrder(s[0], sorted, points, goalDiff);
      FilterOne(s[0], tied);
      assert s == [s[0]] + s[1..];
      FilterSameAfterHead(s[0], s[1..], SortStandings(s), sorted, tied);
    }
  }

  // ----- match lists -----

  /** `new Date(m.date)` compared with the clock: `stamp` gives the timestamp of a
      date string, None where JavaScript would get NaN (every comparison false). */
  predicate DatedAfter(m: Match, now: int, stamp: string -> Option<int>) {
    stamp(m.date).Some? && stamp(m.date).value > now
  }

  predicate DatedBefore(m: Match, now: int, stamp: string -> Option<int>) {
    stamp(m.date).Some? && stamp(m.date).value < now
  }

  /** The "upcoming" list: scheduled and dated after now. */
  function UpcomingMatches(ms: seq<Match>, now: int, stamp: string -> Option<int>): seq<Match> {
    Filter(ms, (m: Match) => DatedAfter(m, now, stamp) && m.status == Scheduled)
  }

  /** The "live" list. */
  function LiveMatches(ms: seq<Match>): seq<Match> {
    Filter(ms, (m: Match) => m.status == Live)
  }

  /** The "finished" list: finished, or dated before now whatever the status. */
  function FinishedMatches(ms: seq<Match>, now: int, stamp: string -> Option<int>): seq<Match> {
    Filter(ms, (m: Match) => m.status == Finished || DatedBefore(m, now, stamp))
  }

  /** Which lists a stored match shows up in. A scheduled match whose date has
      passed is shown as finished; a live match whose date has passed is shown
      twice; a scheduled match dated exactly now or with an unreadable date is
      shown nowhere; and no match is both upcoming and finished. */
  lemma MatchListsMembership(ms: seq<Match>, now: int, stamp: string -> Option<int>, m: Match)
    requires m in ms
    ensures m in LiveMatches(ms) <==> m.status == Live
    ensures m in UpcomingMatches(ms, now, stamp) <==> m.status == Scheduled && DatedAfter(m, now, stamp)
    ensures m in FinishedMatches(ms, now, stamp) <==> m.status == Finished || DatedBefore(m, now, stamp)
    ensures !(m in UpcomingMatches(ms, now, stamp) && m in FinishedMatches(ms, now, stamp))
    ensures m.status == Scheduled && DatedBefore(m, now, stamp) ==> m in FinishedMatches(ms, now, stamp)
    ensures m.status == Live && DatedBefore(m, now, stamp) ==>
              m in LiveMatches(ms) && m in FinishedMatches(ms, now, stamp)
    ensures m.status == Scheduled && !DatedAfter(m, now, stamp) && !DatedBefore(m, now, stamp) ==>
              m !in UpcomingMatches(ms, now, stamp) && m !in LiveMatches(ms) && m !in FinishedMatches(ms, now, stamp)
  {
    FilterMembers(ms, (m: Match) => m.status == Live);
    FilterMembers(ms, (m: Match) => DatedAfter(m, now, stamp) && m.status == Scheduled);
    FilterMembers(ms, (m: Match) => m.status == Finished || DatedBefore(m, now, stamp));
  }

  /** The live list keeps document order: it is exactly the live matches of each
      part of the list, one part after the other. */
  lemma LiveMatchesInOrder(a: seq<Match>, b: seq<Match>)
    ensures LiveMatches(a + b) == LiveMatches(a) + LiveMatches(b)
    ensures LiveMatches([]) == []
    ensures forall m :: LiveMatches([m]) == if m.status == Live then [m] else []
  {
    FilterAppend(a, b, (m: Match) => m.status == Live);
  }

  // ----- result label -----

  /** `getMatchResult(match)` */
  function MatchResult(m: Match): (r: string)
    ensures r == "Победа хозяев" <==> m.homeScore > m.awayScore
    ensures r == "Победа гостей" <==> m.homeScore < m.awayScore
    ensures r == "Ничья" <==> m.homeScore == m.awayScore
  {
    if m.homeScore > m.awayScore then "Победа хозяев"
    else if m.homeScore < m.awayScore then "Победа гостей"
    else "Ничья"
  }

  /** The label agrees with the ledger: the side it names as winner is the one
      whose wins finishing the match raises, and a draw label means both draw. */
  lemma MatchResultAgreesWithLedger(m: Match, home: Team, away: Team)
    ensures MatchResult(m) == "Победа хозяев" <==> Credit(home, m.homeScore, m.awayScore).wins == home.wins + 1
    ensures MatchResult(m) == "Победа гостей" <==> Credit(away, m.awayScore, m.homeScore).wins == away.wins + 1
    ensures MatchResult(m) == "Ничья" <==>
              Credit(home, m.homeScore, m.awayScore).draws == home.draws + 1
              && Credit(away, m.awayScore, m.homeScore).draws == away.draws + 1
  {
  }

  // ----- news -----

  /** `news.slice(0, 6)`: the first six items, or all of them when there are fewer. */
  function LatestNews(news: seq<News>): (r: seq<News>)
    ensures |r| <= 6 && |r| <= |news| && r == news[..|r|]
    ensures |news| >= 6 ==> |r| == 6
    ensures |news| < 6 ==> r == news
  {
    if |news| <= 6 then news else news[..6]
  }

  // ----- registration -----

  /** What submitting the registration form produces. */
  datatype Submission = Refused(error: EntryError) | Submitted(registration: Registration)

  /** `registerTeam()` with the trimmed fields, `id` and `date` the clock
      readings: refused for an empty field or a name already in the standings
      (exact match), otherwise a pending registration carrying both names. */
  function RegisterTeam(st: seq<Team>, team: string, owner: string, id: int, date: string): (r: Submission)
    ensures r.Submitted? <==> team != "" && owner != "" && forall j :: 0 <= j < |st| ==> st[j].name != team
    ensures r.Submitted? ==> r.registration == Registration(id, team, owner, date, "pending")
    ensures r == Refused(MissingField) <==> team == "" || owner == ""
    ensures r == Refused(DuplicateName) <==> team != "" && owner != "" && exists j :: 0 <= j < |st| && st[j].name == team
  {
    match CheckTeamEntry(st, team, owner)
    case Some(e) => Refused(e)
    case None => Submitted(Registration(id, team, owner, date, "pending"))
  }

  /** A submitted registration that reaches the queue with an id of its own and
      is then approved ends as exactly one standings entry with that name, all
      counters 0, and leaves the queue. */
  lemma RegisterThenApprove(d: Transitions.League, team: string, owner: string, id: int, date: string)
    requires RegisterTeam(d.standings, team, owner, id, date).Submitted?
    requires forall j :: 0 <= j < |d.pending| ==> d.pending[j].id != id
    ensures var reg := RegisterTeam(d.standings, team, owner, id, date).registration;
      var d' := Transitions.ApproveRegistration(d.(pending := d.pending + [reg]), id);
      && (forall j :: 0 <= j < |d'.standings| && d'.standings[j].name == team ==>
            j == |d.standings| && d'.standings[j] == NewTeam(team, owner))
      && |d'.standings| == |d.standings| + 1 && d'.standings[|d.standings|].name == team
      && d'.pending == d.pending
  {
    var reg := RegisterTeam(d.standings, team, owner, id, date).registration;
    ApproveQueuedLast(d, reg);
  }

  /** Approving the registration queued last, under an id no other one has,
      appends its team and empties the queue of it. */
  lemma ApproveQueuedLast(d: Transitions.League, reg: Registration)
    requires forall j :: 0 <= j < |d.pending| ==> d.pending[j].id != reg.id
    ensures Transitions.ApproveRegistration(d.(pending := d.pending + [reg]), reg.id)
         == d.(standings := d.standings + [NewTeam(reg.team, reg.owner)])
  {
    var q := d.pending + [reg];
    var k := |d.pending|;
    assert Transitions.RegistrationIndex(q, reg.id) == Some(k) by {
      var r := Transitions.RegistrationIndex(q, reg.id);
      assert q[k].id == reg.id;
    }
    var keep := (g: Registration) => g.id != reg.id;
    FilterAppend(d.pending, [reg], keep);
    FilterKeepsAll(d.pending, keep);
    FilterOne(reg, keep);
    assert d.pending + [] == d.pending;
    assert Transitions.WithoutRegistration(q, reg.id) == d.pending;
  }

  // ----- login -----

  /** A capital letter of the Latin or Russian alphabet. */
  predicate IsCapital(c: char) {
    'A' <= c <= 'Z' || 'А' <= c <= 'Я' || c == 'Ё'
  }

  /** `toLowerCase` on one character, for the Latin and Russian alphabets. */
  function LowerChar(c: char): (r: char)
    ensures !IsCapital(r)
    ensures !IsCapital(c) ==> r == c
  {
    if 'A' <= c <= 'Z' then (c as int + 32) as char
    else if 'А' <= c <= 'Я' then (c as int + 32) as char
    else if c == 'Ё' then 'ё'
    else c
  }

  /** The capitals of the two alphabets and their small letters, position by position. */
  const LatinCapitals := "ABCDEFGHIJKLMNOPQRSTUVWXYZ"
  const LatinSmall := "abcdefghijklmnopqrstuvwxyz"
  const RussianCapitals := "АБВГДЕЁЖЗИЙКЛМНОПРСТУФХЦЧШЩЪЫЬЭЮЯ"
  const RussianSmall := "абвгдеёжзийклмнопрстуфхцчшщъыьэюя"

  /** Each Latin capital becomes its own small letter. */
  lemma LowerCharLatin()
    ensures |LatinCapitals| == |LatinSmall| == 26
    ensures forall i :: 0 <= i < 26 ==> LowerChar(LatinCapitals[i]) == LatinSmall[i]
  {
  }

  /** Each Russian capital, Ё included, becomes its own small letter. */
  lemma LowerCharRussian()
    ensures |RussianCapitals| == |RussianSmall| == 33
    ensures forall i :: 0 <= i < 33 ==> LowerChar(RussianCapitals[i]) == RussianSmall[i]
  {
    forall i | 0 <= i < 33
      ensures LowerChar(RussianCapitals[i]) == RussianSmall[i]
    {
      if i != 6 {
        assert 'А' <= RussianCapitals[i] <= 'Я';
      }
    }
  }

  /** The two tables hold every capital there is. */
  lemma CapitalsInAlphabets(c: char)
    requires IsCapital(c)
    ensures c in LatinCapitals || c in RussianCapitals
  {
    if 'A' <= c <= 'Z' {
      assert LatinCapitals[c as int - 'A' as int] == c;
    } else if c == 'Ё' {
      assert RussianCapitals[6] == c;
    } else if c <= 'Е' {
      assert RussianCapitals[c as int - 'А' as int] == c;
    } else {
      assert RussianCapitals[c as int - 'А' as int + 1] == c;
    }
  }

  /** `toLowerCase`: same length, no capital left, every other character kept. */
  function Lower(s: string): (r: string)
    ensures |r| == |s|
    ensures forall i :: 0 <= i < |r| ==> !IsCapital(r[i])
    ensures forall i :: 0 <= i < |s| && !IsCapital(s[i]) ==> r[i] == s[i]
  {
    seq(|s|, i requires 0 <= i < |s| => LowerChar(s[i]))
  }

  /** Lowering twice is lowering once. */
  lemma LowerIdempotent(s: string)
    ensures Lower(Lower(s)) == Lower(s)
  {
    var l := Lower(s);
    assert forall i :: 0 <= i < |l| ==> Lower(l)[i] == l[i];
  }

  /** The test in `loginTeam`'s `find`: both names equal ignoring case. */
  predicate LoginMatches(t: Team, team: string, owner: string) {
    Lower(t.name) == Lower(team) && Lower(t.owner) == Lower(owner)
  }

  datatype Login = MissingLoginField | NotFound | LoggedIn(entry: Team)

  /** `loginTeam()` against the fetched standings, with the trimmed fields. */
  function LoginTeam(st: seq<Team>, team: string, owner: string): (r: Login)
    ensures r == MissingLoginField <==> team == "" || owner == ""
    ensures r.LoggedIn? <==> team != "" && owner != "" && exists j :: 0 <= j < |st| && LoginMatches(st[j], team, owner)
    ensures r.LoggedIn? ==> r.entry in st && LoginMatches(r.entry, team, owner)
  {
    if team == "" || owner == "" then MissingLoginField
    else match IndexOf(st, (t: Team) => LoginMatches(t, team, owner))
      case None => NotFound
      case Some(k) => LoggedIn(st[k])
  }

  /** Logging in does not depend on case: the lowered names find the same entry. */
  lemma LoginIgnoresCase(st: seq<Team>, team: string, owner: string)
    ensures LoginTeam(st, Lower(team), Lower(owner)) == LoginTeam(st, team, owner)
  {
    LowerIdempotent(team);
    LowerIdempotent(owner);
    assert forall t :: LoginMatches(t, Lower(team), Lower(owner)) == LoginMatches(t, team, owner);
    var a := IndexOf(st, (t: Team) => LoginMatches(t, Lower(team), Lower(owner)));
    var b := IndexOf(st, (t: Team) => LoginMatches(t, team, owner));
  }
}
