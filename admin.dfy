/**
 * The administrator's page: importing a roster of voters, designating
 * candidates from a comma-separated list of ids, and the live results.
 */
module Admin {
  import opened Wrappers
  import opened Text
  import opened Dates
  import opened TallyStore
  import opened Records

  // ---------------------------------------------------------------- roster import

  /** One spreadsheet row: the `ID`, `Name` and the text of the `DOB` cell. */
  datatype RosterRow = RosterRow(id: int, name: string, dob: string)

  datatype ImportError =
    | BadDate(row: nat)   // `strptime` raised on this row, the first such one
    | DuplicateId         // the commit hit the primary key: an id repeats or is already registered

  datatype ImportResult = Imported(voters: Registry) | ImportFailed(error: ImportError)

  predicate DatesParse(rows: seq<RosterRow>) {
    forall i :: 0 <= i < |rows| ==> ParseDate(rows[i].dob).Some?
  }

  /** The first row whose date of birth does not parse, where the import loop raises. */
  function FirstBadDate(rows: seq<RosterRow>): (r: Option<nat>)
    ensures r.None? <==> DatesParse(rows)
    ensures r.Some? ==> r.value < |rows| && ParseDate(rows[r.value].dob).None? && DatesParse(rows[..r.value])
  {
    if rows == [] then None
    else
      var front := rows[..|rows| - 1];
      assert forall i :: 0 <= i < |front| ==> front[i] == rows[i];
      match FirstBadDate(front)
      case Some(i) =>
        assert rows[..i] == front[..i];
        Some(i)
      case None => if ParseDate(rows[|rows| - 1].dob).None? then Some(|rows| - 1) else None
  }

  /** No row reuses an id, neither one already registered nor one of an earlier row. */
  predicate FreshIds(voters: Registry, rows: seq<RosterRow>) {
    && (forall i :: 0 <= i < |rows| ==> rows[i].id !in voters)
    && (forall i, j :: 0 <= i < j < |rows| ==> rows[i].id != rows[j].id)
  }

  /** The registry with one new voter per row, inserted in row order. */
  function Added(voters: Registry, rows: seq<RosterRow>): Registry
    requires DatesParse(rows)
  {
    if rows == [] then voters
    else
      var last := rows[|rows| - 1];
      Added(voters, rows[..|rows| - 1])[last.id := NewVoter(last.name, ParseDate(last.dob).value)]
  }

  /**
   * The whole upload as one unit: a row with an unreadable date aborts the
   * loop, a reused id aborts the commit, and either way nothing is inserted.
   */
  function ImportRoster(voters: Registry, rows: seq<RosterRow>): (r: ImportResult)
    ensures r.Imported? <==> DatesParse(rows) && FreshIds(voters, rows)
    ensures r.ImportFailed? && r.error == DuplicateId <==> DatesParse(rows) && !FreshIds(voters, rows)
    ensures !DatesParse(rows) ==> r.ImportFailed? && r.error.BadDate?
    ensures r.ImportFailed? && r.error.BadDate? ==>
              r.error.row < |rows| && ParseDate(rows[r.error.row].dob).None? && DatesParse(rows[..r.error.row])
  {
    match FirstBadDate(rows)
    case Some(i) => ImportFailed(BadDate(i))
    case None => if FreshIds(voters, rows) then Imported(Added(voters, rows)) else ImportFailed(DuplicateId)
  }

  /** The ids the rows carry. */
  function RowIds(rows: seq<RosterRow>): set<int> {
    set i | 0 <= i < |rows| :: rows[i].id
  }

  lemma RowIdsSnoc(rows: seq<RosterRow>)
    requires rows != []
    ensures RowIds(rows) == RowIds(rows[..|rows| - 1]) + {rows[|rows| - 1].id}
  {
    var front := rows[..|rows| - 1];
    forall id | id in RowIds(rows) ensures id in RowIds(front) + {rows[|rows| - 1].id} {
      var i :| 0 <= i < |rows| && rows[i].id == id;
      if i < |front| {
        assert front[i] == rows[i];
      }
    }
    forall id | id in RowIds(front) ensures id in RowIds(rows) {
      var i :| 0 <= i < |front| && front[i].id == id;
      assert rows[i] == front[i];
    }
  }

  lemma {:induction false} AddedKeys(voters: Registry, rows: seq<RosterRow>)
    requires DatesParse(rows)
    ensures Added(voters, rows).Keys == voters.Keys + RowIds(rows)
  {
    if rows != [] {
      var front := rows[..|rows| - 1];
      assert forall i :: 0 <= i < |front| ==> front[i] == rows[i];
      AddedKeys(voters, front);
      RowIdsSnoc(rows);
    }
  }

  lemma {:induction false} AddedKeepsOthers(voters: Registry, rows: seq<RosterRow>, id: int)
    requires DatesParse(rows) && id in voters && id !in RowIds(rows)
    ensures id in Added(voters, rows) && Added(voters, rows)[id] == voters[id]
  {
    if rows != [] {
      var front := rows[..|rows| - 1];
      assert forall i :: 0 <= i < |front| ==> front[i] == rows[i];
      RowIdsSnoc(rows);
      AddedKeepsOthers(voters, front, id);
    }
  }

  lemma {:induction false} AddedRow(voters: Registry, rows: seq<RosterRow>, i: nat)
    requires DatesParse(rows) && i < |rows|
    requires forall j :: i < j < |rows| ==> rows[j].id != rows[i].id
    ensures rows[i].id in Added(voters, rows)
    ensures Added(voters, rows)[rows[i].id] == NewVoter(rows[i].name, ParseDate(rows[i].dob).value)
  {
    if i < |rows| - 1 {
      var front := rows[..|rows| - 1];
      assert forall j :: 0 <= j < |front| ==> front[j] == rows[j];
      AddedRow(voters, front, i);
    }
  }

  lemma AddedContents(voters: Registry, rows: seq<RosterRow>)
    requires DatesParse(rows) && FreshIds(voters, rows)
    ensures var r := Added(voters, rows);
            && r.Keys == voters.Keys + RowIds(rows)
            && (forall id :: id in voters ==> r[id] == voters[id])
            && (forall i :: 0 <= i < |rows| ==> r[rows[i].id] == NewVoter(rows[i].name, ParseDate(rows[i].dob).value))
  {
    AddedKeys(voters, rows);
    forall id | id in voters ensures Added(voters, rows)[id] == voters[id] {
      AddedKeepsOthers(voters, rows, id);
    }
    forall i | 0 <= i < |rows|
      ensures Added(voters, rows)[rows[i].id] == NewVoter(rows[i].name, ParseDate(rows[i].dob).value)
    {
      AddedRow(voters, rows, i);
    }
  }

  /**
   * A successful import keeps every registered voter as it was and adds, for
   * each row, a voter with that row's id, name and date of birth who has not
   * voted and is not a candidate.
   */
  lemma ImportContents(voters: Registry, rows: seq<RosterRow>)
    requires ImportRoster(voters, rows).Imported?
    ensures var r := ImportRoster(voters, rows).voters;
            && r.Keys == voters.Keys + RowIds(rows)
            && (forall id :: id in voters ==> r[id] == voters[id])
            && (forall i :: 0 <= i < |rows| ==>
                  && r[rows[i].id].name == rows[i].name
                  && Some(r[rows[i].id].dob) == ParseDate(rows[i].dob)
                  && !r[rows[i].id].hasVoted && !r[rows[i].id].isCandidate)
  {
    AddedContents(voters, rows);
  }

  /** An import never marks anyone as having voted or as a candidate. */
  lemma ImportKeepsFlags(voters: Registry, rows: seq<RosterRow>)
    requires ImportRoster(voters, rows).Imported?
    ensures Voted(ImportRoster(voters, rows).voters) == Voted(voters)
    ensures Candidates(ImportRoster(voters, rows).voters) == Candidates(voters)
  {
    var r := ImportRoster(voters, rows).voters;
    AddedContents(voters, rows);
    forall id | id in r
      ensures (id in voters ==> r[id] == voters[id])
      ensures (id !in voters ==> !r[id].hasVoted && !r[id].isCandidate)
    {
      if id !in voters {
        var i :| 0 <= i < |rows| && rows[i].id == id;
      }
    }
    forall id ensures id in Voted(r) <==> id in Voted(voters) {
    }
    forall id ensures id in Candidates(r) <==> id in Candidates(voters) {
    }
  }

  // ---------------------------------------------------------------- candidate designation

  /** A piece the comprehension accepts: blank, or an integer once stripped. */
  predicate Parses(piece: string) {
    Strip(piece) == [] || ParseInt(Strip(piece)).Some?
  }

  /** A non-blank piece that denotes `id`. */
  predicate Denotes(piece: string, id: int) {
    Strip(piece) != [] && ParseInt(Strip(piece)) == Some(id)
  }

  /** The list comprehension over the pieces: blank pieces are dropped, the rest go through `int()`. */
  function ParsePieces(pieces: seq<string>): Option<seq<int>> {
    if pieces == [] then Some([])
    else
      var rest := ParsePieces(pieces[1..]);
      var t := Strip(pieces[0]);
      if t == [] then rest
      else
        match ParseInt(t)
        case None => None
        case Some(id) => if rest.None? then None else Some([id] + rest.value)
  }

  /** The comprehension succeeds exactly when every piece is blank or an integer. */
  lemma {:induction false} ParsePiecesSucceeds(pieces: seq<string>)
    ensures ParsePieces(pieces).Some? <==> forall k :: 0 <= k < |pieces| ==> Parses(pieces[k])
  {
    if pieces != [] {
      var tail := pieces[1..];
      ParsePiecesSucceeds(tail);
      assert forall k :: 1 <= k < |pieces| ==> pieces[k] == tail[k - 1];
      if ParsePieces(pieces).None? && Parses(pieces[0]) {
        var k :| 0 <= k < |tail| && !Parses(tail[k]);
        assert !Parses(pieces[k + 1]);
      }
    }
  }

  /** A successful comprehension yields exactly the ids the non-blank pieces denote. */
  lemma {:induction false} ParsePiecesMembers(pieces: seq<string>, id: int)
    requires ParsePieces(pieces).Some?
    ensures id in ParsePieces(pieces).value <==> exists k :: 0 <= k < |pieces| && Denotes(pieces[k], id)
  {
    if pieces != [] {
      var tail := pieces[1..];
      assert ParsePieces(tail).Some?;
      ParsePiecesMembers(tail, id);
      var found := ParsePieces(pieces).value;
      var rest := ParsePieces(tail).value;
      assert found == (if Strip(pieces[0]) == [] then rest else [ParseInt(Strip(pieces[0])).value] + rest);
      if id in found && !Denotes(pieces[0], id) {
        var k :| 0 <= k < |tail| && Denotes(tail[k], id);
        assert Denotes(pieces[k + 1], id);
      }
      if exists k :: 0 <= k < |pieces| && Denotes(pieces[k], id) {
        var k :| 0 <= k < |pieces| && Denotes(pieces[k], id);
        if k > 0 {
          assert Denotes(tail[k - 1], id);
        }
      }
    }
  }

  /** The ids of the comma-separated list, or `None` when one piece is not an integer. */
  function ParseIdList(text: string): Option<seq<int>> {
    ParsePieces(Split(text, ','))
  }

  /** The list written as an administrator would type it: the ids joined by commas. */
  function JoinIds(ids: seq<int>): string {
    if ids == [] then "" else Join(Rendered(ids), ',')
  }

  function Rendered(ids: seq<int>): (r: seq<string>)
    ensures |r| == |ids| && forall k :: 0 <= k < |ids| ==> r[k] == FormatInt(ids[k])
  {
    if ids == [] then [] else [FormatInt(ids[0])] + Rendered(ids[1..])
  }

  lemma {:induction false} ParseRendered(ids: seq<int>)
    ensures ParsePieces(Rendered(ids)) == Some(ids)
  {
    if ids != [] {
      var s := FormatInt(ids[0]);
      StripUnpadded(s);
      ParseFormatInt(ids[0]);
      ParseRendered(ids[1..]);
      assert Rendered(ids)[1..] == Rendered(ids[1..]);
      assert ids == [ids[0]] + ids[1..];
    }
  }

  /** Parsing the comma-joined rendering of a list of ids gives back that list. */
  lemma ParseIdListRoundTrip(ids: seq<int>)
    ensures ParseIdList(JoinIds(ids)) == Some(ids)
  {
    if ids != [] {
      var ps := Rendered(ids);
      forall k | 0 <= k < |ps| ensures ',' !in ps[k] {
        assert ps[k] == FormatInt(ids[k]);
      }
      SplitJoin(ps, ',');
      ParseRendered(ids);
    } else {
      assert Split("", ',') == [""];
    }
  }

  /**
   * The bulk `UPDATE voter SET is_candidate = true WHERE id IN ids`: the
   * registered ids in the list become candidates, every other row and every
   * other column stays as it was, and unknown ids are ignored.
   */
  function Designate(voters: Registry, ids: seq<int>): (r: Registry)
    ensures r.Keys == voters.Keys
    ensures Candidates(r) == Candidates(voters) + (set id | id in ids && id in voters)
    ensures Voted(r) == Voted(voters)
    ensures forall id :: id in voters ==> r[id] == voters[id].(isCandidate := voters[id].isCandidate || id in ids)
  {
    var r := map id | id in voters :: if id in ids then voters[id].(isCandidate := true) else voters[id];
    assert Candidates(r) == Candidates(voters) + (set id | id in ids && id in voters);
    assert Voted(r) == Voted(voters);
    r
  }

  /** Designating the same ids a second time changes nothing. */
  lemma DesignateIdempotent(voters: Registry, ids: seq<int>)
    ensures Designate(Designate(voters, ids), ids) == Designate(voters, ids)
  {
    var once := Designate(voters, ids);
    var twice := Designate(once, ids);
    forall id | id in once ensures twice[id] == once[id] {
    }
  }

  datatype CandidateOutcome =
    | NoCandidateList       // the field was empty or absent
    | CandidatesSet
    | CandidateListRejected // `int()` raised on a piece: the request fails before this commit
    | CandidatesSkipped     // the request had already failed in the roster import

  datatype Designation = Designation(outcome: CandidateOutcome, voters: Registry)

  /** The candidate half of the form: nothing for an empty field, otherwise parse and flag. */
  function SetCandidates(voters: Registry, text: string): (r: Designation)
    ensures r.outcome != CandidatesSet ==> r.voters == voters
    ensures r.outcome == CandidatesSet <==> text != [] && ParseIdList(text).Some?
    ensures r.outcome == CandidatesSet ==> r.voters == Designate(voters, ParseIdList(text).value)
  {
    if text == [] then Designation(NoCandidateList, voters)
    else
      match ParseIdList(text)
      case None => Designation(CandidateListRejected, voters)
      case Some(ids) => Designation(CandidatesSet, Designate(voters, ids))
  }

  /** Submitting the same candidate list twice leaves the registry as submitting it once. */
  lemma SetCandidatesIdempotent(voters: Registry, text: string)
    ensures var once := SetCandidates(voters, text).voters;
            SetCandidates(once, text).voters == once
  {
    if text != [] && ParseIdList(text).Some? {
      DesignateIdempotent(voters, ParseIdList(text).value);
    }
  }

  // ---------------------------------------------------------------- the admin request

  /** The uploaded file as the request carries it. */
  datatype Upload = Upload(filename: string, rows: seq<RosterRow>)

  datatype UploadOutcome = NoUpload | RosterImported | RosterRejected(error: ImportError)

  datatype AdminOutcome = AdminOutcome(upload: UploadOutcome, candidates: CandidateOutcome)

  datatype AdminStep = AdminStep(outcome: AdminOutcome, db: Db)

  /** Only a file whose name ends in `.xlsx` is read. */
  predicate IsSpreadsheet(upload: Option<Upload>) {
    upload.Some? && EndsWith(upload.value.filename, ".xlsx")
  }

  /**
   * The POST of the admin page: the roster import is committed first, then
   * the candidate list is handled. A failed import ends the request before
   * the candidate list is looked at; a rejected candidate list after a
   * successful import leaves the import in place.
   */
  function AdminPost(db: Db, upload: Option<Upload>, candidateText: string): (r: AdminStep)
    ensures r.db.tally == db.tally
    ensures !IsSpreadsheet(upload) <==> r.outcome.upload == NoUpload
    ensures r.outcome.upload.RosterRejected? <==> r.outcome.candidates == CandidatesSkipped
    ensures r.outcome.upload.RosterRejected? ==> r.db == db
    ensures IsSpreadsheet(upload) ==>
              match ImportRoster(db.voters, upload.value.rows)
              case ImportFailed(e) => r.outcome.upload == RosterRejected(e)
              case Imported(voters) =>
                && r.outcome.upload == RosterImported
                && Designation(r.outcome.candidates, r.db.voters) == SetCandidates(voters, candidateText)
    ensures !IsSpreadsheet(upload) ==>
              Designation(r.outcome.candidates, r.db.voters) == SetCandidates(db.voters, candidateText)
  {
    if IsSpreadsheet(upload) then
      match ImportRoster(db.voters, upload.value.rows)
      case ImportFailed(e) => AdminStep(AdminOutcome(RosterRejected(e), CandidatesSkipped), db)
      case Imported(voters) =>
        var d := SetCandidates(voters, candidateText);
        AdminStep(AdminOutcome(RosterImported, d.outcome), Db(d.voters, db.tally))
    else
      var d := SetCandidates(db.voters, candidateText);
      AdminStep(AdminOutcome(NoUpload, d.outcome), Db(d.voters, db.tally))
  }

  /**
   * The roster is committed before the candidate field is read, so a
   * candidate list that fails to parse after a good upload leaves the new
   * voters in place.
   */
  lemma ImportSurvivesRejectedList(db: Db, upload: Option<Upload>, candidateText: string)
    requires IsSpreadsheet(upload) && ImportRoster(db.voters, upload.value.rows).Imported?
    requires candidateText != [] && ParseIdList(candidateText).None?
    ensures var r := AdminPost(db, upload, candidateText);
            && r.outcome == AdminOutcome(RosterImported, CandidateListRejected)
            && r.db.voters == ImportRoster(db.voters, upload.value.rows).voters
            && r.db.voters.Keys == db.voters.Keys + RowIds(upload.value.rows)
  {
    ImportContents(db.voters, upload.value.rows);
  }

  /** No admin request touches the tally or anyone's `has_voted` flag. */
  lemma AdminKeepsVotes(db: Db, upload: Option<Upload>, candidateText: string)
    ensures var after := AdminPost(db, upload, candidateText).db;
            after.tally == db.tally && Voted(after.voters) == Voted(db.voters)
  {
    if IsSpreadsheet(upload) && ImportRoster(db.voters, upload.value.rows).Imported? {
      ImportKeepsFlags(db.voters, upload.value.rows);
    }
  }

  lemma AdminConserves(db: Db, upload: Option<Upload>, candidateText: string)
    requires Conserved(db)
    ensures Conserved(AdminPost(db, upload, candidateText).db)
  {
    AdminKeepsVotes(db, upload, candidateText);
  }

  // ---------------------------------------------------------------- live results

  /** One row of the results query: a candidate's name and count. */
  datatype ResultRow = ResultRow(name: string, votes: nat)

  /**
   * The inner join of candidates with their tally rows, keyed by candidate
   * id: a candidate without a tally row does not appear. The query returns
   * these rows in no particular order.
   */
  function Results(db: Db): (r: map<int, ResultRow>)
    ensures r.Keys == Candidates(db.voters) * db.tally.Keys
    ensures forall c :: c in r ==> r[c] == ResultRow(db.voters[c].name, db.tally[c])
  {
    map c | c in db.voters && db.voters[c].isCandidate && c in db.tally :: ResultRow(db.voters[c].name, db.tally[c])
  }

  /** The sum of the counts the results page shows. */
  ghost function ReportedTotal(rows: map<int, ResultRow>): nat {
    Total(map c | c in rows :: rows[c].votes)
  }

  lemma ReportedIsSum(db: Db)
    ensures ReportedTotal(Results(db)) == SumOver(db.tally, Results(db).Keys)
  {
    var rows := Results(db);
    var counts := map c | c in rows :: rows[c].votes;
    assert counts.Keys == rows.Keys;
    assert forall c :: c in rows.Keys ==> counts[c] == db.tally[c];
    SumOverAgree(counts, db.tally, rows.Keys);
  }

  /** The page never shows more votes than the tally holds. */
  lemma ResultsBounded(db: Db)
    ensures ReportedTotal(Results(db)) <= Total(db.tally)
  {
    ReportedIsSum(db);
    SumOverSubset(db.tally, Results(db).Keys, db.tally.Keys);
  }

  /**
   * When every tally row belongs to a registered candidate, the page shows
   * every vote: nine for each voter who has voted.
   */
  lemma ResultsComplete(db: Db)
    requires Conserved(db)
    requires db.tally.Keys <= Candidates(db.voters)
    ensures ReportedTotal(Results(db)) == Total(db.tally) == BallotSize * |Voted(db.voters)|
  {
    ReportedIsSum(db);
    assert Results(db).Keys == db.tally.Keys;
  }
}
