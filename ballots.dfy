/**
 * Casting a ballot: the POST branch of the voting page, which checks the
 * voter and the number of selections, counts every selection in the tally
 * and marks the voter as having voted, all in one commit.
 */
module Ballots {
  import opened Wrappers
  import opened Text
  import opened TallyStore
  import opened Records

  datatype BallotOutcome =
    | VoterNotFound         // the 404 of the route or of the voter lookup
    | AlreadyVoted          // redirect back to the login form
    | WrongSelectionCount   // the form is shown again
    | InvalidSelection      // `int()` raised on a selection: the request fails before its commit
    | Accepted

  datatype BallotStep = BallotStep(outcome: BallotOutcome, db: Db)

  /** `int(c)` of every selection, or `None` when one of them is not an integer. */
  function ParseSelections(selected: seq<string>): (r: Option<seq<int>>)
    ensures r.Some? ==> |r.value| == |selected|
  {
    if selected == [] then Some([])
    else
      var init := ParseSelections(selected[..|selected| - 1]);
      var last := ParseInt(selected[|selected| - 1]);
      if init.Some? && last.Some? then Some(init.value + [last.value]) else None
  }

  /** When the selections parse, the parsed list holds the value of each selection in its place. */
  lemma {:induction false} SelectionsValues(selected: seq<string>)
    requires ParseSelections(selected).Some?
    ensures forall k :: 0 <= k < |selected| ==> ParseInt(selected[k]) == Some(ParseSelections(selected).value[k])
  {
    if selected != [] {
      var n := |selected| - 1;
      var front := selected[..n];
      var prior := ParseSelections(front).value;
      var last := ParseInt(selected[n]).value;
      SelectionsValues(front);
      var ids := ParseSelections(selected).value;
      assert ids == prior + [last];
      forall k | 0 <= k < |selected|
        ensures ParseInt(selected[k]) == Some(ids[k])
      {
        if k < n {
          assert front[k] == selected[k] && ids[k] == prior[k];
        } else {
          assert ids[k] == last;
        }
      }
    }
  }

  /** When the selections do not parse, one of them is not an integer. */
  lemma {:induction false} SelectionsInvalid(selected: seq<string>)
    requires ParseSelections(selected).None?
    ensures exists k :: 0 <= k < |selected| && ParseInt(selected[k]).None?
  {
    var n := |selected| - 1;
    var front := selected[..n];
    if ParseSelections(front).None? {
      SelectionsInvalid(front);
      var j :| 0 <= j < |front| && ParseInt(front[j]).None?;
      assert front[j] == selected[j];
    } else {
      assert ParseInt(selected[n]).None?;
    }
  }

  /**
   * The selections parse exactly when every one of them is an integer, and
   * then the parsed list holds the value of each selection in its place.
   */
  lemma ParseSelectionsMeaning(selected: seq<string>)
    ensures ParseSelections(selected).Some? <==> forall k :: 0 <= k < |selected| ==> ParseInt(selected[k]).Some?
    ensures ParseSelections(selected).Some? ==>
              forall k :: 0 <= k < |selected| ==> ParseInt(selected[k]) == Some(ParseSelections(selected).value[k])
  {
    if ParseSelections(selected).Some? {
      SelectionsValues(selected);
    } else {
      SelectionsInvalid(selected);
    }
  }

  /** The registry with one voter's `has_voted` flag set. */
  function MarkVoted(voters: Registry, id: int): Registry
    requires id in voters
  {
    voters[id := voters[id].(hasVoted := true)]
  }

  /**
   * The whole request as one transition of the database. The route only
   * matches an unsigned integer, so a negative id is a 404 like an unknown
   * one. Every refusal leaves the database as it was; only a ballot of
   * exactly nine integer selections by a registered voter who has not voted
   * is committed.
   */
  function Ballot(db: Db, voterId: int, selected: seq<string>): (r: BallotStep)
    ensures r.outcome != Accepted ==> r.db == db
    ensures r.outcome == VoterNotFound <==> voterId < 0 || voterId !in db.voters
    ensures r.outcome == AlreadyVoted <==> voterId >= 0 && voterId in db.voters && db.voters[voterId].hasVoted
    ensures r.outcome == WrongSelectionCount <==>
              voterId >= 0 && voterId in db.voters && !db.voters[voterId].hasVoted && |selected| != BallotSize
    ensures r.outcome == InvalidSelection <==>
              && voterId >= 0 && voterId in db.voters && !db.voters[voterId].hasVoted
              && |selected| == BallotSize && ParseSelections(selected).None?
    ensures r.outcome == Accepted <==>
              && voterId >= 0 && voterId in db.voters && !db.voters[voterId].hasVoted
              && |selected| == BallotSize
              && ParseSelections(selected).Some?
    ensures |selected| != BallotSize ==> r.db == db
  {
    if voterId < 0 || voterId !in db.voters then BallotStep(VoterNotFound, db)
    else if db.voters[voterId].hasVoted then BallotStep(AlreadyVoted, db)
    else if |selected| != BallotSize then BallotStep(WrongSelectionCount, db)
    else
      match ParseSelections(selected)
      case None => BallotStep(InvalidSelection, db)
      case Some(ids) => BallotStep(Accepted, Db(MarkVoted(db.voters, voterId), Apply(db.tally, ids)))
  }

  /**
   * An accepted ballot raises each candidate's count by the number of times
   * it was selected (a candidate without a row gets one), and adds a row for
   * exactly the newly selected candidates.
   */
  lemma BallotCounts(db: Db, voterId: int, selected: seq<string>, c: int)
    requires Ballot(db, voterId, selected).outcome == Accepted
    ensures var ids := ParseSelections(selected).value;
            var after := Ballot(db, voterId, selected).db.tally;
            && Votes(after, c) == Votes(db.tally, c) + multiset(ids)[c]
            && after.Keys == db.tally.Keys + set k | k in ids
  {
    var ids := ParseSelections(selected).value;
    ApplyVotes(db.tally, ids, c);
    ApplyKeys(db.tally, ids);
  }

  /** An accepted ballot adds exactly nine to the sum of all counts; any other leaves it alone. */
  lemma BallotTotal(db: Db, voterId: int, selected: seq<string>)
    ensures var r := Ballot(db, voterId, selected);
            Total(r.db.tally) == Total(db.tally) + (if r.outcome == Accepted then BallotSize else 0)
  {
    if Ballot(db, voterId, selected).outcome == Accepted {
      TotalApply(db.tally, ParseSelections(selected).value);
    }
  }

  /**
   * An accepted ballot marks its voter, who had not voted, and only that
   * voter; no other column of the registry changes.
   */
  lemma BallotMarksVoter(db: Db, voterId: int, selected: seq<string>)
    requires Ballot(db, voterId, selected).outcome == Accepted
    ensures var after := Ballot(db, voterId, selected).db.voters;
            && voterId !in Voted(db.voters)
            && Voted(after) == Voted(db.voters) + {voterId}
            && Candidates(after) == Candidates(db.voters)
            && after.Keys == db.voters.Keys
            && after[voterId] == db.voters[voterId].(hasVoted := true)
            && forall id :: id in db.voters && id != voterId ==> after[id] == db.voters[id]
  {
    MarkVotedFlags(db.voters, voterId);
  }

  lemma MarkVotedFlags(voters: Registry, voterId: int)
    requires voterId in voters && !voters[voterId].hasVoted
    ensures Voted(MarkVoted(voters, voterId)) == Voted(voters) + {voterId}
    ensures Candidates(MarkVoted(voters, voterId)) == Candidates(voters)
  {
    var after := MarkVoted(voters, voterId);
    forall id ensures id in Voted(after) <==> id in Voted(voters) + {voterId} {
      if id == voterId {
        assert after[id].hasVoted;
      }
    }
    forall id ensures id in Candidates(after) <==> id in Candidates(voters) {
    }
  }

  /** Every ballot, accepted or not, keeps the tally at nine selections per voter who has voted. */
  lemma BallotConserves(db: Db, voterId: int, selected: seq<string>)
    requires Conserved(db)
    ensures Conserved(Ballot(db, voterId, selected).db)
  {
    BallotTotal(db, voterId, selected);
    if Ballot(db, voterId, selected).outcome == Accepted {
      BallotMarksVoter(db, voterId, selected);
    }
  }
}
