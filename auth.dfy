/**
 * The login form: a voter id and a date of birth, accepted only for a voter
 * who has not voted yet.
 */
module Auth {
  import opened Wrappers
  import opened Text
  import opened Dates
  import opened Records

  /**
   * `LoggedIn` is the redirect to that voter's ballot; the two failures are
   * the two flash messages of the form.
   */
  datatype LoginOutcome = LoggedIn(voterId: int) | InvalidCredentials | InvalidDateFormat

  /**
   * The date of birth is parsed first; only then is the registry searched for
   * the voter with that id and that date of birth who has not voted. The id
   * text is compared as an integer, so text that is not one matches nobody.
   */
  function Login(voters: Registry, idText: string, dobText: string): (r: LoginOutcome)
    ensures r == InvalidDateFormat <==> ParseDate(dobText).None?
    ensures r.LoggedIn? <==>
              && ParseDate(dobText).Some? && ParseInt(idText).Some?
              && ParseInt(idText).value in voters
              && voters[ParseInt(idText).value].dob == ParseDate(dobText).value
              && !voters[ParseInt(idText).value].hasVoted
    ensures r.LoggedIn? ==>
              && ParseInt(idText) == Some(r.voterId)
              && r.voterId in voters
              && !voters[r.voterId].hasVoted
              && ParseDate(dobText) == Some(voters[r.voterId].dob)
  {
    match ParseDate(dobText)
    case None => InvalidDateFormat
    case Some(dob) =>
      match ParseInt(idText)
      case Some(id) =>
        if id in voters && voters[id].dob == dob && !voters[id].hasVoted then LoggedIn(id)
        else InvalidCredentials
      case None => InvalidCredentials
  }

  /** A voter who has not voted gets in with their id and date of birth as written by Python. */
  lemma LoginAccepts(voters: Registry, id: int)
    requires id in voters && !voters[id].hasVoted && ValidDate(voters[id].dob)
    ensures Login(voters, FormatInt(id), FormatDate(voters[id].dob)) == LoggedIn(id)
  {
    ParseFormatInt(id);
    FormatThenParse(voters[id].dob);
  }

  /**
   * A successful login names a registered voter who has not voted, whose id
   * the id text denotes and whose date of birth the date text spells exactly.
   */
  lemma LoginSound(voters: Registry, idText: string, dobText: string, id: int)
    requires Login(voters, idText, dobText) == LoggedIn(id)
    ensures id in voters && !voters[id].hasVoted
    ensures ParseInt(idText) == Some(id)
    ensures ValidDate(voters[id].dob) && dobText == FormatDate(voters[id].dob)
  {
    ParseThenFormat(dobText, voters[id].dob);
  }

  /** A voter who has voted can never log in again, whatever is typed. */
  lemma LoginRefusesVoted(voters: Registry, id: int, idText: string, dobText: string)
    requires id in voters && voters[id].hasVoted
    ensures Login(voters, idText, dobText) != LoggedIn(id)
    ensures ParseDate(dobText).Some? && ParseInt(idText) == Some(id) ==>
              Login(voters, idText, dobText) == InvalidCredentials
  {
    var r := Login(voters, idText, dobText);
    if r.LoggedIn? {
      assert ParseInt(idText) == Some(r.voterId);
    }
  }
}
