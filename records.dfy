/**
 * The two tables of the election database: the voter registry (`Voter`,
 * keyed by voter id) and the tally (`Vote`, keyed by candidate id).
 */
module Records {
  import opened Dates
  import opened TallyStore

  /** One row of the registry; its id is the key it is stored under. */
  datatype Voter = Voter(name: string, dob: Date, hasVoted: bool, isCandidate: bool)

  type Registry = map<int, Voter>

  /** The whole persisted state. */
  datatype Db = Db(voters: Registry, tally: Tally)

  /** Every ballot must hold exactly this many selections. */
  const BallotSize: nat := 9

  /** A freshly inserted voter: both flags take their column defaults, false. */
  function NewVoter(name: string, dob: Date): (v: Voter)
    ensures !v.hasVoted && !v.isCandidate
  {
    Voter(name, dob, false, false)
  }

  /** The ids of the voters who have cast a ballot. */
  function Voted(r: Registry): set<int> {
    set id | id in r && r[id].hasVoted
  }

  /** The ids of the voters designated as candidates. */
  function Candidates(r: Registry): set<int> {
    set id | id in r && r[id].isCandidate
  }

  /**
   * The conservation law of the database: the tally holds exactly nine
   * selections for every voter marked as having voted.
   */
  ghost predicate Conserved(db: Db) {
    Total(db.tally) == BallotSize * |Voted(db.voters)|
  }

  /** The database `db.create_all()` produces on first start. */
  function EmptyDb(): (db: Db)
    ensures db.voters == map[] && db.tally == map[]
  {
    Db(map[], map[])
  }

  lemma EmptyConserved()
    ensures Conserved(EmptyDb())
  {
    assert Voted(map[]) == {};
    assert !exists k :: k in EmptyDb().tally.Keys;
  }
}
