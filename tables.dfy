/**
 * The three SQLite tables (`mentors`, `users`, `subjects`) as sequences of
 * records in rowid order, and the SQL each handler runs over them as functions.
 */
module Tables {
  import opened Wrappers
  import opened Text

  /**
   * werkzeug's salted password hash, kept abstract: a credential that
   * `CheckPassword` accepts for exactly the password it was made from.
   */
  datatype Credential = Credential(secret: string)

  function HashPassword(password: string): Credential {
    Credential(password)
  }

  predicate CheckPassword(hash: Credential, password: string) {
    hash.secret == password
  }

  datatype Mentor = Mentor(id: int, name: string, code: string, passwordHash: Credential)

  datatype User = User(id: int, username: string, passwordHash: Credential, mentorId: Option<int>)

  datatype Subject = Subject(
    id: int, userId: int, name: string, examDate: string, totalUnits: int,
    difficulty: string, unitsCompleted: int, createdAt: string)

  // Table invariants: INTEGER PRIMARY KEY AUTOINCREMENT hands out increasing ids
  // starting at 1, and the UNIQUE columns hold no value twice.

  /** The ids `id` gives the rows of `t` are positive, increasing and below the counter `next`. */
  predicate IdsBelow<T>(t: seq<T>, id: T -> int, next: int) {
    && (forall i :: 0 <= i < |t| ==> 0 < id(t[i]) < next)
    && (forall i, j :: 0 <= i < j < |t| ==> id(t[i]) < id(t[j]))
  }

  predicate MentorIdsBelow(t: seq<Mentor>, next: int) {
    IdsBelow(t, (m: Mentor) => m.id, next)
  }

  predicate UserIdsBelow(t: seq<User>, next: int) {
    IdsBelow(t, (u: User) => u.id, next)
  }

  predicate SubjectIdsAscending(t: seq<Subject>) {
    forall i, j :: 0 <= i < j < |t| ==> t[i].id < t[j].id
  }

  predicate SubjectIdsBelow(t: seq<Subject>, next: int) {
    && (forall i :: 0 <= i < |t| ==> 0 < t[i].id < next)
    && SubjectIdsAscending(t)
  }

  predicate SubjectIdsDescending(t: seq<Subject>) {
    forall i, j :: 0 <= i < j < |t| ==> t[i].id > t[j].id
  }

  predicate MentorCodesUnique(t: seq<Mentor>) {
    forall i, j :: 0 <= i < j < |t| ==> t[i].code != t[j].code
  }

  predicate UsernamesUnique(t: seq<User>) {
    forall i, j :: 0 <= i < j < |t| ==> t[i].username != t[j].username
  }

  /**
   * The values an SQLite INTEGER holds, signed 64-bit. Binding a Python int
   * outside this range as a statement parameter raises `OverflowError`.
   */
  predicate FitsInteger(n: int) {
    -0x8000_0000_0000_0000 <= n <= 0x7FFF_FFFF_FFFF_FFFF
  }

  /** The CHECK that no column states but every write keeps: `0 <= units_completed <= total_units`. */
  predicate ProgressBounded(t: seq<Subject>) {
    forall i :: 0 <= i < |t| ==> 0 < t[i].totalUnits && 0 <= t[i].unitsCompleted <= t[i].totalUnits
  }

  /** Every user's `mentor_id` names a mentor row (the FOREIGN KEY of the users table). */
  predicate MentorLinksResolve(users: seq<User>, mentors: seq<Mentor>) {
    forall i :: 0 <= i < |users| && users[i].mentorId.Some? ==>
      exists j :: 0 <= j < |mentors| && mentors[j].id == users[i].mentorId.value
  }

  /** Facts about each row carry over to a table whose rows all come from it. */
  lemma RowsFrom(r: seq<Subject>, t: seq<Subject>, next: int)
    requires forall s :: s in r ==> s in t
    ensures ProgressBounded(t) ==> ProgressBounded(r)
    ensures (forall i :: 0 <= i < |t| ==> 0 < t[i].id < next) ==> forall i :: 0 <= i < |r| ==> 0 < r[i].id < next
  {
    forall i | 0 <= i < |r| ensures exists j :: 0 <= j < |t| && t[j] == r[i] {
      assert r[i] in t;
    }
  }

  /** An INSERT into users with the next id, a name no row has and a mentor that exists keeps the users invariants. */
  lemma AppendUser(users: seq<User>, mentors: seq<Mentor>, next: int, u: User)
    requires UserIdsBelow(users, next) && UsernamesUnique(users) && MentorLinksResolve(users, mentors)
    requires 0 < next && u.id == next
    requires forall i :: 0 <= i < |users| ==> users[i].username != u.username
    requires u.mentorId.Some? ==> exists j :: 0 <= j < |mentors| && mentors[j].id == u.mentorId.value
    ensures UserIdsBelow(users + [u], next + 1)
    ensures UsernamesUnique(users + [u])
    ensures MentorLinksResolve(users + [u], mentors)
  {
    var r := users + [u];
    assert forall i :: 0 <= i < |users| ==> r[i] == users[i];
    assert r[|users|] == u;
  }

  /** An INSERT into subjects with the next id and a row within its bounds keeps the subjects invariants. */
  lemma AppendSubject(t: seq<Subject>, next: int, s: Subject)
    requires SubjectIdsBelow(t, next) && ProgressBounded(t)
    requires 0 < next && s.id == next
    requires 0 < s.totalUnits && 0 <= s.unitsCompleted <= s.totalUnits
    ensures SubjectIdsBelow(t + [s], next + 1)
    ensures ProgressBounded(t + [s])
  {
    var r := t + [s];
    assert forall i :: 0 <= i < |t| ==> r[i] == t[i];
    assert r[|t|] == s;
  }

  /** `fetchone()` of a `SELECT ... WHERE` over a table in rowid order: the position of the first matching row. */
  function FindFirst<T>(t: seq<T>, p: T -> bool): (r: Option<nat>)
    ensures r.Some? ==> r.value < |t| && p(t[r.value])
    ensures r.Some? ==> forall i :: 0 <= i < r.value ==> !p(t[i])
    ensures r.None? <==> forall i :: 0 <= i < |t| ==> !p(t[i])
  {
    if t == [] then None
    else if p(t[0]) then Some(0)
    else match FindFirst(t[1..], p)
      case None => None
      case Some(i) => Some(i + 1)
  }

  /** `SELECT * FROM mentors WHERE mentor_code=?`, fetchone: the first matching row. */
  function FindMentorByCode(t: seq<Mentor>, code: string): (r: Option<nat>)
    ensures r.Some? ==> r.value < |t| && t[r.value].code == code
    ensures r.Some? ==> forall i :: 0 <= i < r.value ==> t[i].code != code
    ensures r.None? <==> forall i :: 0 <= i < |t| ==> t[i].code != code
  {
    FindFirst(t, (m: Mentor) => m.code == code)
  }

  const DefaultMentorCode := "MENTOR123"

  /** The row `init_db` seeds: "Default Mentor", code MENTOR123, password "mentorpass". */
  function DefaultMentor(id: int): Mentor {
    Mentor(id, "Default Mentor", DefaultMentorCode, HashPassword("mentorpass"))
  }

  /** The seed step of `init_db`: insert the default mentor only if no row has its code. */
  function SeedDefaultMentor(t: seq<Mentor>, nextId: int): (r: seq<Mentor>)
    ensures FindMentorByCode(r, DefaultMentorCode).Some?
    ensures t <= r && |r| <= |t| + 1
    ensures |r| == |t| + 1 <==> FindMentorByCode(t, DefaultMentorCode).None?
  {
    if FindMentorByCode(t, DefaultMentorCode).Some? then t
    else
      assert (t + [DefaultMentor(nextId)])[|t|].code == DefaultMentorCode;
      t + [DefaultMentor(nextId)]
  }

  /** Running the seed step again, at any later counter value, changes nothing. */
  lemma SeedIdempotent(t: seq<Mentor>, nextId: int, laterId: int)
    ensures SeedDefaultMentor(SeedDefaultMentor(t, nextId), laterId) == SeedDefaultMentor(t, nextId)
  {
  }

  /** `SELECT * FROM users WHERE username=?`, fetchone: the first matching row. */
  function FindUserByName(t: seq<User>, username: string): (r: Option<nat>)
    ensures r.Some? ==> r.value < |t| && t[r.value].username == username
    ensures r.Some? ==> forall i :: 0 <= i < r.value ==> t[i].username != username
    ensures r.None? <==> forall i :: 0 <= i < |t| ==> t[i].username != username
  {
    FindFirst(t, (u: User) => u.username == username)
  }

  predicate Owned(s: Subject, id: int, userId: int) {
    s.id == id && s.userId == userId
  }

  /** `SELECT * FROM subjects WHERE id=? AND user_id=?`, fetchone: the first matching row. */
  function FindOwnedSubject(t: seq<Subject>, id: int, userId: int): (r: Option<nat>)
    ensures r.Some? ==> r.value < |t| && Owned(t[r.value], id, userId)
    ensures r.Some? ==> forall i :: 0 <= i < r.value ==> !Owned(t[i], id, userId)
    ensures r.None? <==> forall i :: 0 <= i < |t| ==> !Owned(t[i], id, userId)
  {
    FindFirst(t, (s: Subject) => Owned(s, id, userId))
  }

  /**
   * `DELETE FROM subjects WHERE id=? AND user_id=?`: the rows that match go,
   * every other row stays.
   */
  function DeleteOwned(t: seq<Subject>, id: int, userId: int): (r: seq<Subject>)
    ensures |r| <= |t|
  {
    if t == [] then []
    else (if Owned(t[0], id, userId) then [] else [t[0]]) + DeleteOwned(t[1..], id, userId)
  }

  /** Exactly the rows matching both the id and the owner are gone; every other user's rows stay. */
  lemma {:induction false} DeleteOwnedRows(t: seq<Subject>, id: int, userId: int)
    ensures forall s :: s in DeleteOwned(t, id, userId) <==> s in t && !Owned(s, id, userId)
  {
    if t != [] {
      DeleteOwnedRows(t[1..], id, userId);
      assert t == [t[0]] + t[1..];
    }
  }

  /** A delete that matches no row leaves the table exactly as it was. */
  lemma {:induction false} DeleteOwnedNoMatch(t: seq<Subject>, id: int, userId: int)
    requires forall i :: 0 <= i < |t| ==> !Owned(t[i], id, userId)
    ensures DeleteOwned(t, id, userId) == t
  {
    if t != [] {
      assert !Owned(t[0], id, userId);
      forall i | 0 <= i < |t[1..]| ensures !Owned(t[1..][i], id, userId) {
        assert t[1..][i] == t[i + 1];
      }
      DeleteOwnedNoMatch(t[1..], id, userId);
      assert t == [t[0]] + t[1..];
    }
  }

  lemma AscendingHead(t: seq<Subject>)
    requires SubjectIdsAscending(t) && t != []
    ensures SubjectIdsAscending(t[1..])
    ensures forall s :: s in t[1..] ==> t[0].id < s.id
  {
    forall s | s in t[1..] ensures t[0].id < s.id {
      var j :| 0 <= j < |t[1..]| && t[1..][j] == s;
      assert t[j + 1] == s;
    }
  }

  /** Deleting rows keeps the remaining ids in increasing order. */
  lemma {:induction false} DeleteOwnedAscending(t: seq<Subject>, id: int, userId: int)
    requires SubjectIdsAscending(t)
    ensures SubjectIdsAscending(DeleteOwned(t, id, userId))
  {
    if t != [] {
      AscendingHead(t);
      DeleteOwnedAscending(t[1..], id, userId);
      DeleteOwnedRows(t[1..], id, userId);
      var rest := DeleteOwned(t[1..], id, userId);
      if !Owned(t[0], id, userId) {
        var r := [t[0]] + rest;
        forall i, j | 0 <= i < j < |r| ensures r[i].id < r[j].id {
          assert r[j] == rest[j - 1] && r[j] in rest;
          if i > 0 {
            assert r[i] == rest[i - 1];
          }
        }
      }
    }
  }

  /** Since ids are unique, a delete removes at most one row. */
  lemma {:induction false} DeleteOwnedAtMostOne(t: seq<Subject>, id: int, userId: int)
    requires SubjectIdsAscending(t)
    ensures |DeleteOwned(t, id, userId)| >= |t| - 1
  {
    if t != [] {
      AscendingHead(t);
      if Owned(t[0], id, userId) {
        forall i | 0 <= i < |t[1..]| ensures !Owned(t[1..][i], id, userId) {
          assert t[1..][i] == t[i + 1];
        }
        DeleteOwnedNoMatch(t[1..], id, userId);
      } else {
        DeleteOwnedAtMostOne(t[1..], id, userId);
      }
    }
  }

  /** Deleting the same subject a second time changes nothing. */
  lemma {:induction false} DeleteOwnedIdempotent(t: seq<Subject>, id: int, userId: int)
    ensures DeleteOwned(DeleteOwned(t, id, userId), id, userId) == DeleteOwned(t, id, userId)
  {
    var r := DeleteOwned(t, id, userId);
    DeleteOwnedRows(t, id, userId);
    forall i | 0 <= i < |r| ensures !Owned(r[i], id, userId) {
      assert r[i] in r;
    }
    DeleteOwnedNoMatch(r, id, userId);
  }

  /** `UPDATE subjects SET units_completed=? WHERE id=?`: every row with that id gets the new count. */
  function SetUnitsWhereId(t: seq<Subject>, id: int, units: int): (r: seq<Subject>)
    ensures |r| == |t|
    ensures forall k :: 0 <= k < |t| ==> r[k] == if t[k].id == id then t[k].(unitsCompleted := units) else t[k]
  {
    if t == [] then []
    else [if t[0].id == id then t[0].(unitsCompleted := units) else t[0]] + SetUnitsWhereId(t[1..], id, units)
  }

  /** Because ids are unique, the update touches the one row found by the ownership check and nothing else. */
  lemma SetUnitsOneRow(t: seq<Subject>, i: nat, units: int)
    requires SubjectIdsAscending(t) && i < |t|
    ensures SetUnitsWhereId(t, t[i].id, units) == t[i := t[i].(unitsCompleted := units)]
  {
    var r := SetUnitsWhereId(t, t[i].id, units);
    forall k | 0 <= k < |t| ensures r[k] == t[i := t[i].(unitsCompleted := units)][k] {
      if k < i {
        assert t[k].id < t[i].id;
      } else if k > i {
        assert t[i].id < t[k].id;
      }
    }
  }
  /** Changing one row's units to a value within its bounds keeps the subjects invariants. */
  lemma SetUnitsKeeps(t: seq<Subject>, next: int, i: nat, units: int)
    requires SubjectIdsBelow(t, next) && ProgressBounded(t) && i < |t|
    requires 0 <= units <= t[i].totalUnits
    ensures SubjectIdsBelow(t[i := t[i].(unitsCompleted := units)], next)
    ensures ProgressBounded(t[i := t[i].(unitsCompleted := units)])
  {
    var r := t[i := t[i].(unitsCompleted := units)];
    assert forall k :: 0 <= k < |t| ==> r[k].id == t[k].id && r[k].totalUnits == t[k].totalUnits;
  }


  /**
   * The clamping of `api_update_subject`: a negative request counts as 0,
   * and one above the subject's stored `total_units` counts as that total.
   */
  function ClampUnits(requested: int, totalUnits: int): (r: int)
    ensures 0 <= totalUnits ==> 0 <= r <= totalUnits
    ensures 0 <= requested <= totalUnits ==> r == requested
    ensures requested < 0 <= totalUnits ==> r == 0
    ensures requested > totalUnits ==> r == totalUnits
  {
    var nonNegative := if requested < 0 then 0 else requested;
    if nonNegative > totalUnits then totalUnits else nonNegative
  }

  /**
   * `SELECT * FROM subjects WHERE user_id=? ORDER BY id DESC`: exactly the
   * user's subjects; the table is scanned from its last row.
   */
  function SubjectsNewestFirst(t: seq<Subject>, userId: int): (r: seq<Subject>)
    ensures |r| <= |t|
  {
    if t == [] then []
    else (if t[|t| - 1].userId == userId then [t[|t| - 1]] else []) + SubjectsNewestFirst(t[..|t| - 1], userId)
  }

  /** The listing holds exactly the user's rows: none of another user's, none missing. */
  lemma {:induction false} SubjectsNewestFirstRows(t: seq<Subject>, userId: int)
    ensures forall s :: s in SubjectsNewestFirst(t, userId) <==> s in t && s.userId == userId
  {
    if t != [] {
      SubjectsNewestFirstRows(t[..|t| - 1], userId);
      assert t == t[..|t| - 1] + [t[|t| - 1]];
    }
  }

  lemma AscendingLast(t: seq<Subject>)
    requires SubjectIdsAscending(t) && t != []
    ensures SubjectIdsAscending(t[..|t| - 1])
    ensures forall s :: s in t[..|t| - 1] ==> s.id < t[|t| - 1].id
  {
    forall s | s in t[..|t| - 1] ensures s.id < t[|t| - 1].id {
      var j :| 0 <= j < |t| - 1 && t[..|t| - 1][j] == s;
      assert t[j] == s;
    }
  }

  /** Since rowids increase down the table, the listing is newest first: ids strictly decrease. */
  lemma {:induction false} SubjectsNewestFirstDescending(t: seq<Subject>, userId: int)
    requires SubjectIdsAscending(t)
    ensures SubjectIdsDescending(SubjectsNewestFirst(t, userId))
  {
    if t != [] {
      var last, front := t[|t| - 1], t[..|t| - 1];
      AscendingLast(t);
      SubjectsNewestFirstDescending(front, userId);
      SubjectsNewestFirstRows(front, userId);
      var rest := SubjectsNewestFirst(front, userId);
      if last.userId == userId {
        var r := [last] + rest;
        forall i, j | 0 <= i < j < |r| ensures r[i].id > r[j].id {
          assert r[j] == rest[j - 1] && r[j] in rest;
          if i > 0 {
            assert r[i] == rest[i - 1];
          }
        }
      }
    }
  }

  /** `... FROM users WHERE mentor_id=?`: the users the mentor was linked to at registration. */
  function UsersOfMentor(t: seq<User>, mentorId: int): (r: seq<User>)
    ensures |r| <= |t|
  {
    if t == [] then []
    else (if t[0].mentorId == Some(mentorId) then [t[0]] else []) + UsersOfMentor(t[1..], mentorId)
  }

  lemma {:induction false} UsersOfMentorRows(t: seq<User>, mentorId: int)
    ensures forall u :: u in UsersOfMentor(t, mentorId) <==> u in t && u.mentorId == Some(mentorId)
  {
    if t != [] {
      UsersOfMentorRows(t[1..], mentorId);
      assert t == [t[0]] + t[1..];
    }
  }

  predicate SortedByUsername(t: seq<User>) {
    forall i, j :: 0 <= i < j < |t| ==> TextLe(t[i].username, t[j].username)
  }

  function InsertByUsername(u: User, t: seq<User>): (r: seq<User>)
    ensures multiset(r) == multiset(t) + multiset{u}
  {
    if t == [] then [u]
    else if TextLe(u.username, t[0].username) then [u] + t
    else
      assert t == [t[0]] + t[1..];
      [t[0]] + InsertByUsername(u, t[1..])
  }

  /** A name at or before `u`'s and every name in `t` is at or before every name after insertion. */
  lemma InsertByUsernameLowerBound(u: User, t: seq<User>, w: string)
    requires TextLe(w, u.username)
    requires forall k :: 0 <= k < |t| ==> TextLe(w, t[k].username)
    ensures forall k :: 0 <= k < |InsertByUsername(u, t)| ==> TextLe(w, InsertByUsername(u, t)[k].username)
  {
    var r := InsertByUsername(u, t);
    forall k | 0 <= k < |r| ensures TextLe(w, r[k].username) {
      var v := r[k];
      assert v in multiset(r);
      if v != u {
        assert v in multiset(t);
        var m :| 0 <= m < |t| && t[m] == v;
      }
    }
  }

  lemma {:induction false} InsertByUsernameSorted(u: User, t: seq<User>)
    requires SortedByUsername(t)
    ensures SortedByUsername(InsertByUsername(u, t))
  {
    if t == [] {
    } else if TextLe(u.username, t[0].username) {
      var r := [u] + t;
      forall i, j | 0 <= i < j < |r| ensures TextLe(r[i].username, r[j].username) {
        if i == 0 && j > 1 {
          TextLeTransitive(u.username, t[0].username, t[j - 1].username);
        }
      }
    } else {
      TextLeTotal(u.username, t[0].username);
      var tail := t[1..];
      assert SortedByUsername(tail);
      InsertByUsernameSorted(u, tail);
      assert forall k :: 0 <= k < |tail| ==> TextLe(t[0].username, tail[k].username) by {
        assert forall k :: 0 <= k < |tail| ==> tail[k] == t[k + 1];
      }
      InsertByUsernameLowerBound(u, tail, t[0].username);
      var rest := InsertByUsername(u, tail);
      var r := [t[0]] + rest;
      assert InsertByUsername(u, t) == r;
      forall i, j | 0 <= i < j < |r| ensures TextLe(r[i].username, r[j].username) {
        if i == 0 {
          assert r[j] == rest[j - 1];
        } else {
          assert r[i] == rest[i - 1] && r[j] == rest[j - 1];
        }
      }
    }
  }

  /** `ORDER BY username`: the same rows, rearranged. */
  function SortByUsername(t: seq<User>): (r: seq<User>)
    ensures multiset(r) == multiset(t)
  {
    if t == [] then []
    else
      assert t == [t[0]] + t[1..];
      InsertByUsername(t[0], SortByUsername(t[1..]))
  }

  /** The rearrangement puts the rows in SQLite's BINARY text order of their usernames. */
  lemma {:induction false} SortByUsernameSorted(t: seq<User>)
    ensures SortedByUsername(SortByUsername(t))
  {
    if t != [] {
      SortByUsernameSorted(t[1..]);
      InsertByUsernameSorted(t[0], SortByUsername(t[1..]));
    }
  }

  /** `SELECT id, username FROM users WHERE mentor_id=? ORDER BY username`. */
  function StudentsOfMentor(t: seq<User>, mentorId: int): seq<User> {
    SortByUsername(UsersOfMentor(t, mentorId))
  }

  /** The query yields exactly the users linked to the mentor, in username order. */
  lemma StudentsOfMentorExactly(t: seq<User>, mentorId: int)
    ensures SortedByUsername(StudentsOfMentor(t, mentorId))
    ensures forall u :: u in StudentsOfMentor(t, mentorId) <==> u in t && u.mentorId == Some(mentorId)
  {
    var r := StudentsOfMentor(t, mentorId);
    SortByUsernameSorted(UsersOfMentor(t, mentorId));
    UsersOfMentorRows(t, mentorId);
    assert forall u :: u in r <==> u in multiset(r);
  }
}
