/**
 * The database as the request handlers change it: one object holding the two
 * tables. The work of each request is done step by step on a pending copy of
 * a table, the way the ORM session accumulates changes (the ballot loop, the
 * import loop, the candidate update), and the object's fields are assigned
 * once, at the commit. Each step is proved to compute exactly what the pure
 * model says.
 */
module Store {
  import opened Wrappers
  import opened Text
  import opened Dates
  import opened TallyStore
  import opened Records
  import opened Ballots
  import opened Admin
  import opened Lifecycle

  /**
   * The ballot loop: every selection goes through `int()` and is counted in
   * the pending tally, by one on an existing row or as a new row holding 1.
   * `None` is the `int()` failure that aborts the request.
   */
  method CountSelections(tally: Tally, selected: seq<string>) returns (pending: Option<Tally>)
    ensures pending.None? <==> ParseSelections(selected).None?
    ensures pending.Some? ==> pending.value == Apply(tally, ParseSelections(selected).value)
  {
    var counted := tally;
    ghost var ids: seq<int> := [];
    var i := 0;
    while i < |selected|
      invariant 0 <= i <= |selected|
      invariant ParseSelections(selected[..i]) == Some(ids)
      invariant counted == Apply(tally, ids)
    {
      var parsed := ParseInt(selected[i]);
      if parsed.None? {
        SelectionsFail(selected, i);
        return None;
      }
      var candidate := parsed.value;
      IncRow(counted, candidate);
      if candidate in counted {
        counted := counted[candidate := counted[candidate] + 1];
      } else {
        counted := counted[candidate := 1];
      }
      SelectionsSnoc(selected, i, ids, candidate);
      ApplySnoc(tally, ids, candidate);
      ids := ids + [candidate];
      i := i + 1;
    }
    assert selected[..i] == selected;
    return Some(counted);
  }

  /**
   * The import loop and its commit: each row's date is parsed and a new voter
   * is staged; the first unreadable date aborts, and then a reused id makes
   * the commit fail.
   */
  method StageRoster(voters: Registry, rows: seq<RosterRow>) returns (result: ImportResult)
    ensures result == ImportRoster(voters, rows)
  {
    var pending := voters;
    var i := 0;
    while i < |rows|
      invariant 0 <= i <= |rows|
      invariant DatesParse(rows[..i])
      invariant pending == Added(voters, rows[..i])
    {
      var row := rows[i];
      var dob := ParseDate(row.dob);
      if dob.None? {
        FirstBadDateAt(rows, i);
        return ImportFailed(BadDate(i));
      }
      AddedSnoc(voters, rows, i);
      pending := pending[row.id := NewVoter(row.name, dob.value)];
      i := i + 1;
    }
    assert rows[..i] == rows;
    if !FreshIds(voters, rows) {
      return ImportFailed(DuplicateId);
    }
    return Imported(pending);
  }

  /** The bulk candidate update, one listed id at a time; unknown ids are skipped. */
  method FlagCandidates(voters: Registry, ids: seq<int>) returns (updated: Registry)
    ensures updated == Designate(voters, ids)
  {
    updated := voters;
    var i := 0;
    while i < |ids|
      invariant 0 <= i <= |ids|
      invariant updated == Designate(voters, ids[..i])
    {
      var id := ids[i];
      if id in updated {
        updated := updated[id := updated[id].(isCandidate := true)];
      }
      DesignateStep(voters, ids[..i], id);
      assert ids[..i + 1] == ids[..i] + [id];
      i := i + 1;
    }
    assert ids[..i] == ids;
  }

  class ElectionStore {
    var voters: Registry
    var tally: Tally

    function State(): Db
      reads this
    {
      Db(voters, tally)
    }

    /** The tally holds nine selections per voter who has voted, and every stored date is a real day. */
    ghost predicate Valid()
      reads this
    {
      Invariant(State())
    }

    /** The tables `db.create_all()` creates on a fresh database file. */
    constructor ()
      ensures State() == EmptyDb() && Valid()
    {
      voters := map[];
      tally := map[];
      EmptyConserved();
      assert DatesValid(EmptyDb().voters);
    }

    /**
     * The POST of the voting page: the checks, the ballot loop on a pending
     * tally, then one commit of the marked voter and the tally.
     */
    method SubmitBallot(voterId: int, selected: seq<string>) returns (outcome: BallotOutcome)
      modifies this
      ensures BallotStep(outcome, State()) == Ballot(old(State()), voterId, selected)
      ensures old(Valid()) ==> Valid()
    {
      ghost var before := State();
      if voterId < 0 || voterId !in voters {
        return VoterNotFound;
      }
      var voter := voters[voterId];
      if voter.hasVoted {
        return AlreadyVoted;
      }
      if |selected| != BallotSize {
        return WrongSelectionCount;
      }
      var pending := CountSelections(tally, selected);
      if pending.None? {
        return InvalidSelection;
      }
      voters := voters[voterId := voter.(hasVoted := true)];
      tally := pending.value;
      outcome := Accepted;
      if Invariant(before) {
        StepKeepsInvariant(before, CastBallot(voterId, selected));
      }
    }

    /** The spreadsheet upload: staged, then committed only if nothing failed. `None` is success. */
    method UploadRoster(rows: seq<RosterRow>) returns (error: Option<ImportError>)
      modifies this
      ensures ImportRoster(old(voters), rows) == if error.None? then Imported(voters) else ImportFailed(error.value)
      ensures error.Some? ==> voters == old(voters)
      ensures tally == old(tally)
      ensures old(Valid()) ==> Valid()
    {
      var result := StageRoster(voters, rows);
      if result.ImportFailed? {
        return Some(result.error);
      }
      if Valid() {
        ImportKeepsFlags(voters, rows);
        ImportDatesValid(voters, rows);
      }
      voters := result.voters;
      return None;
    }

    /** The candidate field: parse the list, flag the listed voters, commit. */
    method MarkCandidates(text: string) returns (outcome: CandidateOutcome)
      modifies this
      ensures Designation(outcome, voters) == SetCandidates(old(voters), text)
      ensures tally == old(tally)
      ensures old(Valid()) ==> Valid()
    {
      if text == [] {
        return NoCandidateList;
      }
      var parsed := ParseIdList(text);
      if parsed.None? {
        return CandidateListRejected;
      }
      var updated := FlagCandidates(voters, parsed.value);
      assert SetCandidates(voters, text) == Designation(CandidatesSet, updated);
      assert Voted(updated) == Voted(voters);
      assert forall id :: id in updated ==> id in voters && updated[id].dob == voters[id].dob;
      voters := updated;
      outcome := CandidatesSet;
    }

    /** The POST of the admin page: upload first, then the candidate list. */
    method HandleAdmin(upload: Option<Upload>, candidateText: string) returns (outcome: AdminOutcome)
      modifies this
      ensures AdminStep(outcome, State()) == AdminPost(old(State()), upload, candidateText)
      ensures old(Valid()) ==> Valid()
    {
      ghost var before := State();
      var uploaded := NoUpload;
      if IsSpreadsheet(upload) {
        var error := UploadRoster(upload.value.rows);
        if error.Some? {
          return AdminOutcome(RosterRejected(error.value), CandidatesSkipped);
        }
        uploaded := RosterImported;
      }
      var candidates := MarkCandidates(candidateText);
      outcome := AdminOutcome(uploaded, candidates);
      if Invariant(before) {
        AdminKeepsInvariant(before, upload, candidateText);
      }
    }
  }

  lemma AddedSnoc(voters: Registry, rows: seq<RosterRow>, i: nat)
    requires i < |rows| && DatesParse(rows[..i]) && ParseDate(rows[i].dob).Some?
    ensures DatesParse(rows[..i + 1])
    ensures Added(voters, rows[..i + 1]) ==
            Added(voters, rows[..i])[rows[i].id := NewVoter(rows[i].name, ParseDate(rows[i].dob).value)]
  {
    var grown := rows[..i + 1];
    assert grown[..|grown| - 1] == rows[..i];
    assert grown[|grown| - 1] == rows[i];
    assert forall k :: 0 <= k < i ==> grown[k] == rows[..i][k];
  }

  lemma SelectionsSnoc(selected: seq<string>, i: nat, ids: seq<int>, c: int)
    requires i < |selected| && ParseSelections(selected[..i]) == Some(ids) && ParseInt(selected[i]) == Some(c)
    ensures ParseSelections(selected[..i + 1]) == Some(ids + [c])
  {
    var grown := selected[..i + 1];
    assert grown[..|grown| - 1] == selected[..i];
    assert grown[|grown| - 1] == selected[i];
  }

  lemma SelectionsFail(selected: seq<string>, i: nat)
    requires i < |selected| && ParseInt(selected[i]).None?
    ensures ParseSelections(selected).None?
  {
    ParseSelectionsMeaning(selected);
  }

  /** `Inc` is the row update of the loop body. */
  lemma IncRow(t: Tally, c: int)
    ensures Inc(t, c) == if c in t then t[c := t[c] + 1] else t[c := 1]
  {
  }

  lemma ApplySnoc(t: Tally, ids: seq<int>, c: int)
    ensures Apply(t, ids + [c]) == Inc(Apply(t, ids), c)
  {
    assert (ids + [c])[..|ids|] == ids;
  }

  /** Flagging one more id extends the designation by that id. */
  lemma DesignateStep(voters: Registry, ids: seq<int>, id: int)
    ensures var before := Designate(voters, ids);
            Designate(voters, ids + [id])
              == if id in before then before[id := before[id].(isCandidate := true)] else before
  {
    var before := Designate(voters, ids);
    var after := Designate(voters, ids + [id]);
    var expected := if id in before then before[id := before[id].(isCandidate := true)] else before;
    forall k | k in voters ensures after[k] == expected[k] {
    }
    assert after.Keys == expected.Keys;
  }

  /** The import loop stops at the first row whose date does not parse. */
  lemma FirstBadDateAt(rows: seq<RosterRow>, i: nat)
    requires i < |rows| && DatesParse(rows[..i]) && ParseDate(rows[i].dob).None?
    ensures FirstBadDate(rows) == Some(i)
  {
    var r := FirstBadDate(rows);
    var j := r.value;
    assert DatesParse(rows[..j]) && ParseDate(rows[j].dob).None?;
    assert forall k :: 0 <= k < i ==> ParseDate(rows[k].dob).Some? by {
      forall k | 0 <= k < i ensures ParseDate(rows[k].dob).Some? {
        assert rows[..i][k] == rows[k];
      }
    }
    assert forall k :: 0 <= k < j ==> ParseDate(rows[k].dob).Some? by {
      forall k | 0 <= k < j ensures ParseDate(rows[k].dob).Some? {
        assert rows[..j][k] == rows[k];
      }
    }
  }
}
