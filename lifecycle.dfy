/**
 * The application as a sequence of requests against one database, and the
 * facts that hold across all of them: nothing is ever undone, the tally
 * always holds nine selections per voter who has voted, and nobody votes twice.
 */
module Lifecycle {
  import opened Wrappers
  import opened Text
  import opened Dates
  import opened TallyStore
  import opened Records
  import opened Auth
  import opened Ballots
  import opened Admin

  /** The requests that reach the core; the GET pages and the login only read. */
  datatype Request =
    | SignIn(idText: string, dobText: string)
    | CastBallot(voterId: int, selected: seq<string>)
    | AdminRequest(upload: Option<Upload>, candidateText: string)
    | ViewResults

  function Step(db: Db, req: Request): Db {
    match req
    case SignIn(_, _) => db
    case CastBallot(voterId, selected) => Ballot(db, voterId, selected).db
    case AdminRequest(upload, text) => AdminPost(db, upload, text).db
    case ViewResults => db
  }

  function Run(db: Db, reqs: seq<Request>): Db
    decreases |reqs|
  {
    if reqs == [] then db else Run(Step(db, reqs[0]), reqs[1..])
  }

  /**
   * `b` extends `a`: no voter disappears or changes name or date of birth, no
   * flag goes back to false, and no count goes down.
   */
  ghost predicate Grows(a: Db, b: Db) {
    && a.voters.Keys <= b.voters.Keys
    && (forall id :: id in a.voters ==>
          && b.voters[id].name == a.voters[id].name
          && b.voters[id].dob == a.voters[id].dob
          && (a.voters[id].hasVoted ==> b.voters[id].hasVoted)
          && (a.voters[id].isCandidate ==> b.voters[id].isCandidate))
    && (forall c :: Votes(a.tally, c) <= Votes(b.tally, c))
    && Total(a.tally) <= Total(b.tally)
  }

  /** Every stored date of birth is a real day (each one came through the date parser). */
  ghost predicate DatesValid(voters: Registry) {
    forall id :: id in voters ==> ValidDate(voters[id].dob)
  }

  /** What every reachable database satisfies. */
  ghost predicate Invariant(db: Db) {
    Conserved(db) && DatesValid(db.voters)
  }

  lemma GrowsTransitive(a: Db, b: Db, c: Db)
    requires Grows(a, b) && Grows(b, c)
    ensures Grows(a, c)
  {
    forall k ensures Votes(a.tally, k) <= Votes(c.tally, k) {
      assert Votes(a.tally, k) <= Votes(b.tally, k);
    }
  }

  /** A ballot, accepted or refused, only extends the database. */
  lemma BallotGrows(db: Db, voterId: int, selected: seq<string>)
    ensures Grows(db, Ballot(db, voterId, selected).db)
  {
    BallotTotal(db, voterId, selected);
    if Ballot(db, voterId, selected).outcome == Accepted {
      BallotMarksVoter(db, voterId, selected);
      forall c ensures Votes(db.tally, c) <= Votes(Ballot(db, voterId, selected).db.tally, c) {
        BallotCounts(db, voterId, selected, c);
      }
    }
  }

  /** Designating candidates keeps every voter and only raises `is_candidate` flags. */
  lemma DesignationGrows(db: Db, voters: Registry, text: string)
    requires voters.Keys >= db.voters.Keys
    requires forall id :: id in db.voters ==> voters[id] == db.voters[id]
    ensures Grows(db, Db(SetCandidates(voters, text).voters, db.tally))
  {
    var after := SetCandidates(voters, text).voters;
    assert forall id :: id in voters ==> id in after;
  }

  /** An admin request, whatever its outcome, only extends the database. */
  lemma AdminGrows(db: Db, upload: Option<Upload>, text: string)
    ensures Grows(db, AdminPost(db, upload, text).db)
  {
    if IsSpreadsheet(upload) {
      var rows := upload.value.rows;
      match ImportRoster(db.voters, rows)
      case ImportFailed(_) =>
      case Imported(voters) =>
        ImportContents(db.voters, rows);
        DesignationGrows(db, voters, text);
    } else {
      DesignationGrows(db, db.voters, text);
    }
  }

  lemma StepGrows(db: Db, req: Request)
    ensures Grows(db, Step(db, req))
  {
    match req
    case SignIn(_, _) =>
    case ViewResults =>
    case CastBallot(voterId, selected) => BallotGrows(db, voterId, selected);
    case AdminRequest(upload, text) => AdminGrows(db, upload, text);
  }

  /** A successful import stores only dates that came through the date parser. */
  lemma ImportDatesValid(voters: Registry, rows: seq<RosterRow>)
    requires DatesValid(voters) && ImportRoster(voters, rows).Imported?
    ensures DatesValid(ImportRoster(voters, rows).voters)
  {
    var r := ImportRoster(voters, rows).voters;
    ImportContents(voters, rows);
    forall id | id in r ensures ValidDate(r[id].dob) {
      if id !in voters {
        var i :| 0 <= i < |rows| && rows[i].id == id;
      }
    }
  }

  lemma AdminKeepsInvariant(db: Db, upload: Option<Upload>, text: string)
    requires Invariant(db)
    ensures Invariant(AdminPost(db, upload, text).db)
  {
    AdminConserves(db, upload, text);
    var voters := db.voters;
    if IsSpreadsheet(upload) && ImportRoster(db.voters, upload.value.rows).Imported? {
      ImportDatesValid(db.voters, upload.value.rows);
      voters := ImportRoster(db.voters, upload.value.rows).voters;
    }
    var after := SetCandidates(voters, text).voters;
    assert forall id :: id in after ==> id in voters && after[id].dob == voters[id].dob;
  }

  lemma StepKeepsInvariant(db: Db, req: Request)
    requires Invariant(db)
    ensures Invariant(Step(db, req))
  {
    match req
    case SignIn(_, _) =>
    case ViewResults =>
    case CastBallot(voterId, selected) =>
      BallotConserves(db, voterId, selected);
    case AdminRequest(upload, text) =>
      AdminKeepsInvariant(db, upload, text);
  }

  /** Any run of requests only ever extends the database. */
  lemma {:induction false} RunGrows(db: Db, reqs: seq<Request>)
    ensures Grows(db, Run(db, reqs))
    decreases |reqs|
  {
    if reqs != [] {
      var next := Step(db, reqs[0]);
      StepGrows(db, reqs[0]);
      RunGrows(next, reqs[1..]);
      GrowsTransitive(db, next, Run(next, reqs[1..]));
    }
  }

  /** Any run of requests from a consistent database ends in a consistent database. */
  lemma {:induction false} RunKeepsInvariant(db: Db, reqs: seq<Request>)
    requires Invariant(db)
    ensures Invariant(Run(db, reqs))
    decreases |reqs|
  {
    if reqs != [] {
      StepKeepsInvariant(db, reqs[0]);
      RunKeepsInvariant(Step(db, reqs[0]), reqs[1..]);
    }
  }

  /** Starting from the empty database, the tally always holds nine selections per voter who voted. */
  lemma ReachableConserved(reqs: seq<Request>)
    ensures Conserved(Run(EmptyDb(), reqs))
  {
    EmptyConserved();
    assert DatesValid(EmptyDb().voters);
    RunKeepsInvariant(EmptyDb(), reqs);
  }

  /**
   * Once a voter's ballot is accepted, whatever requests follow, that voter
   * can neither log in nor have another ballot accepted.
   */
  lemma VoteOnce(db: Db, voterId: int, selected: seq<string>, reqs: seq<Request>,
                 again: seq<string>, idText: string, dobText: string)
    requires Ballot(db, voterId, selected).outcome == Accepted
    ensures var later := Run(Ballot(db, voterId, selected).db, reqs);
            && Ballot(later, voterId, again).outcome == AlreadyVoted
            && Login(later.voters, idText, dobText) != LoggedIn(voterId)
  {
    var after := Ballot(db, voterId, selected).db;
    BallotMarksVoter(db, voterId, selected);
    RunGrows(after, reqs);
    var later := Run(after, reqs);
    assert later.voters[voterId].hasVoted;
    LoginRefusesVoted(later.voters, voterId, idText, dobText);
  }

  /**
   * In every reachable database, a voter who has not voted logs in with
   * their id and date of birth written the way Python writes them.
   */
  lemma ReachableLogin(reqs: seq<Request>, id: int)
    requires var db := Run(EmptyDb(), reqs); id in db.voters && !db.voters[id].hasVoted
    ensures var db := Run(EmptyDb(), reqs);
            && ValidDate(db.voters[id].dob)
            && Login(db.voters, FormatInt(id), FormatDate(db.voters[id].dob)) == LoggedIn(id)
  {
    EmptyConserved();
    assert DatesValid(EmptyDb().voters);
    RunKeepsInvariant(EmptyDb(), reqs);
    LoginAccepts(Run(EmptyDb(), reqs).voters, id);
  }

  /**
   * The tally does not check that a selection names a candidate, and the
   * results page joins on candidates: a voter who selects a non-candidate
   * nine times is counted by the conservation law but shows no vote on the
   * page.
   */
  lemma NonCandidateVotesHidden()
    ensures var db := Db(map[1 := NewVoter("Ada", Date(2000, 1, 1))], map[]);
            var r := Ballot(db, 1, seq(BallotSize, _ => "2"));
            && r.outcome == Accepted
            && Conserved(r.db)
            && BallotSize * |Voted(r.db.voters)| == 9
            && ReportedTotal(Results(r.db)) == 0
  {
    var db := Db(map[1 := NewVoter("Ada", Date(2000, 1, 1))], map[]);
    var selected := seq(BallotSize, _ => "2");
    assert ParseInt("2") == Some(2);
    ParseSelectionsMeaning(selected);
    assert Voted(db.voters) == {};
    assert Total(db.tally) == 0 by {
      assert !exists k :: k in db.tally.Keys;
    }
    assert Conserved(db);
    BallotConserves(db, 1, selected);
    BallotMarksVoter(db, 1, selected);
    var after := Ballot(db, 1, selected).db;
    assert Voted(after.voters) == {1};
    assert Candidates(after.voters) == {};
    ReportedIsSum(after);
    var shown := Results(after).Keys;
    assert shown == {};
    assert !exists k :: k in shown;
  }
}
