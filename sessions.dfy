/**
 * Flask's signed-cookie `session`, a dictionary from key to value. The
 * handlers only ever clear it and then write either the three student keys
 * or the two mentor keys, so it always holds at most one principal.
 */
module Sessions {
  import opened Wrappers

  /** The five keys the handlers write: "user_id", "username", "mentor_id_for_user", "mentor_id", "mentor_name". */
  datatype Key = UserId | Username | MentorIdForUser | MentorId | MentorName

  datatype Value = IntValue(i: int) | TextValue(s: string) | NullValue

  type Session = map<Key, Value>

  /** `login_required()`: a student has logged in. */
  predicate LoginRequired(session: Session) {
    UserId in session
  }

  /** `mentor_login_required()`: a mentor has logged in. */
  predicate MentorLoginRequired(session: Session) {
    MentorId in session
  }

  datatype Principal =
    | Nobody
    | Student(userId: int, username: string, mentorIdForUser: Option<int>)
    | MentorPrincipal(mentorId: int, mentorName: string)

  /** Exactly the three student keys (the five keys are all there are), each with the type the handlers store. */
  predicate IsStudentSession(session: Session) {
    && UserId in session && Username in session && MentorIdForUser in session
    && MentorId !in session && MentorName !in session
    && session[UserId].IntValue?
    && session[Username].TextValue?
    && (session[MentorIdForUser].IntValue? || session[MentorIdForUser].NullValue?)
  }

  /** Exactly the two mentor keys. */
  predicate IsMentorSession(session: Session) {
    && MentorId in session && MentorName in session
    && UserId !in session && Username !in session && MentorIdForUser !in session
    && session[MentorId].IntValue?
    && session[MentorName].TextValue?
  }

  /** The shapes the handlers leave the session in: empty, one student, or one mentor. */
  predicate WellFormed(session: Session) {
    session == map[] || IsStudentSession(session) || IsMentorSession(session)
  }

  function PrincipalOf(session: Session): (p: Principal)
    requires WellFormed(session)
    ensures p.Nobody? <==> session == map[]
  {
    if IsStudentSession(session) then
      Student(session[UserId].i, session[Username].s,
        if session[MentorIdForUser].IntValue? then Some(session[MentorIdForUser].i) else None)
    else if IsMentorSession(session) then
      MentorPrincipal(session[MentorId].i, session[MentorName].s)
    else Nobody
  }

  /** In a well-formed session the two gates are exclusive, and each admits exactly its own principal. */
  lemma GatesExclusive(session: Session)
    requires WellFormed(session)
    ensures !(LoginRequired(session) && MentorLoginRequired(session))
    ensures LoginRequired(session) <==> PrincipalOf(session).Student?
    ensures MentorLoginRequired(session) <==> PrincipalOf(session).MentorPrincipal?
  {
  }

  /**
   * `session.clear()` followed by the three assignments of `student_login`;
   * whatever the session held before is gone.
   */
  function StudentSession(userId: int, username: string, mentorId: Option<int>): (s: Session)
    ensures WellFormed(s) && PrincipalOf(s) == Student(userId, username, mentorId)
    ensures LoginRequired(s) && !MentorLoginRequired(s)
  {
    var cleared: Session := map[];
    var s := cleared[UserId := IntValue(userId)];
    var s := s[Username := TextValue(username)];
    s[MentorIdForUser := match mentorId case None => NullValue case Some(m) => IntValue(m)]
  }

  /** `session.clear()` followed by the two assignments of `mentor_login`. */
  function MentorSession(mentorId: int, mentorName: string): (s: Session)
    ensures WellFormed(s) && PrincipalOf(s) == MentorPrincipal(mentorId, mentorName)
    ensures MentorLoginRequired(s) && !LoginRequired(s)
  {
    var cleared: Session := map[];
    var s := cleared[MentorId := IntValue(mentorId)];
    s[MentorName := TextValue(mentorName)]
  }
}
