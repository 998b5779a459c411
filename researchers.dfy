/**
 * `updateResearcher`: reconcile one source researcher row with the target
 * database. The target holds a `user` table keyed by `user_id` and an
 * append-only `user_education` table. The user is looked up by email; with
 * no match nothing is written, with a match the user's title is set to the
 * row's job title and one education row is appended per non-empty degree.
 */
module Researchers {
  import opened Php

  type UserId = nat

  /**
   * A row of the target `user` table: the two columns the script touches and,
   * in `otherColumns`, every other column by name (name, photo, profile, ...).
   */
  datatype UserRow = UserRow(email: Option<string>, title: Option<string>,
                             otherColumns: map<string, Option<string>>)

  /** A row of `user_education`. */
  datatype EducationEntry = EducationEntry(education: string, userId: UserId)

  /** One row of the source researcher query, by its column aliases. */
  datatype ResearcherRow = ResearcherRow(
    firstname: Option<string>, lastname: Option<string>, email: Option<string>,
    jobTitle: Option<string>,
    degree1: Option<string>, degree2: Option<string>,
    degree3: Option<string>, degree4: Option<string>,
    photo: Option<string>)

  /** `$row['degree_'.$i]` for `$i` in 1..4. */
  function Degree(row: ResearcherRow, i: int): Option<string>
    requires 1 <= i <= 4
  {
    if i == 1 then row.degree1 else if i == 2 then row.degree2
    else if i == 3 then row.degree3 else row.degree4
  }

  function Degrees(row: ResearcherRow): seq<Option<string>>
  {
    [row.degree1, row.degree2, row.degree3, row.degree4]
  }

  /**
   * `WHERE email = ?`: a NULL email on either side matches nothing, as SQL
   * NULL compares equal to nothing.
   */
  predicate EmailMatches(u: UserRow, email: Option<string>)
  {
    email.Some? && u.email == email
  }

  /** `id` is the user the single `fetch` returns: a match, and the least matching id. */
  predicate IsFirstMatch(users: map<UserId, UserRow>, email: Option<string>, id: UserId)
  {
    && id in users
    && EmailMatches(users[id], email)
    && forall k :: k in users && EmailMatches(users[k], email) ==> id <= k
  }

  /** Every non-empty finite set of ids has a least element. */
  lemma {:induction false} Least(s: set<UserId>) returns (m: UserId)
    requires s != {}
    ensures m in s && forall k :: k in s ==> m <= k
    decreases |s|
  {
    var x :| x in s;
    var rest := s - {x};
    if rest == {} {
      assert s == {x};
      m := x;
    } else {
      var m' := Least(rest);
      m := if x < m' then x else m';
      assert forall k :: k in s ==> k == x || k in rest;
    }
  }

  lemma FirstMatchExists(users: map<UserId, UserRow>, email: Option<string>)
    requires exists k :: k in users && EmailMatches(users[k], email)
    ensures exists id :: IsFirstMatch(users, email, id)
  {
    var w :| w in users && EmailMatches(users[w], email);
    var s := set k | k in users && EmailMatches(users[k], email);
    assert w in s;
    var m := Least(s);
    assert forall k :: k in users && EmailMatches(users[k], email) ==> k in s;
    assert IsFirstMatch(users, email, m);
  }

  /** The user `SELECT * FROM user WHERE email = ?` followed by one `fetch` yields, if any. */
  function FindUser(users: map<UserId, UserRow>, email: Option<string>): (r: Option<UserId>)
    ensures r.None? <==> forall k :: k in users ==> !EmailMatches(users[k], email)
    ensures r.Some? ==> IsFirstMatch(users, email, r.value)
  {
    if exists k :: k in users && EmailMatches(users[k], email) then
      FirstMatchExists(users, email);
      var id :| IsFirstMatch(users, email, id);
      Some(id)
    else
      None
  }

  /** The education rows appended for the degree values `ds` of user `uid`, in order. */
  function EducationFor(ds: seq<Option<string>>, uid: UserId): seq<EducationEntry>
    decreases |ds|
  {
    if ds == [] then []
    else
      var last := ds[|ds| - 1];
      EducationFor(ds[..|ds| - 1], uid)
        + (if Empty(last) then [] else [EducationEntry(last.value, uid)])
  }

  /** The `user` table after `updateResearcher(row)`. */
  function UpdatedUsers(users: map<UserId, UserRow>, row: ResearcherRow): map<UserId, UserRow>
  {
    match FindUser(users, row.email)
    case None => users
    case Some(id) => users[id := users[id].(title := row.jobTitle)]
  }

  /** The rows `updateResearcher(row)` appends to `user_education`. */
  function NewEducation(users: map<UserId, UserRow>, row: ResearcherRow): seq<EducationEntry>
  {
    match FindUser(users, row.email)
    case None => []
    case Some(id) => EducationFor(Degrees(row), id)
  }

  /** The target database as seen by the script. */
  class TargetDatabase {
    var users: map<UserId, UserRow>
    var education: seq<EducationEntry>

    constructor (users0: map<UserId, UserRow>, education0: seq<EducationEntry>)
      ensures users == users0 && education == education0
    {
      users := users0;
      education := education0;
    }

    /**
     * `updateResearcher($row, $db)`. Returns the matched user (the script
     * itself returns nothing), so that callers can see which row was touched.
     */
    method UpdateResearcher(row: ResearcherRow) returns (matched: Option<UserId>)
      modifies this
      ensures matched == FindUser(old(users), row.email)
      ensures users == UpdatedUsers(old(users), row)
      ensures education == old(education) + NewEducation(old(users), row)
      ensures matched.None? ==> users == old(users) && education == old(education)
      ensures matched.Some? ==> users[matched.value].title == row.jobTitle
    {
      matched := FindUser(users, row.email);
      if matched.Some? {
        var id := matched.value;
        users := users[id := users[id].(title := row.jobTitle)];
        ghost var before := education;
        for i := 1 to 5
          invariant users == UpdatedUsers(old(users), row)
          invariant education == before + EducationFor(Degrees(row)[..i - 1], id)
        {
          assert Degrees(row)[..i][..i - 1] == Degrees(row)[..i - 1];
          assert Degrees(row)[i - 1] == Degree(row, i);
          var degree := Degree(row, i);
          if !Empty(degree) {
            education := education + [EducationEntry(degree.value, id)];
          }
        }
        assert Degrees(row)[..4] == Degrees(row);
      }
    }
  }

  // ---------------------------------------------------------------------------
  // Properties of one reconciliation step

  /** No user with the row's email: neither table changes. */
  lemma NoMatchNoWrites(users: map<UserId, UserRow>, row: ResearcherRow)
    requires forall k :: k in users ==> !EmailMatches(users[k], row.email)
    ensures UpdatedUsers(users, row) == users
    ensures NewEducation(users, row) == []
  {
  }

  /**
   * With a match, only the matched user's title changes, and it becomes the
   * job title exactly, NULL and "" included; no user is added or removed and
   * every other column of every row is kept.
   */
  lemma MatchSetsOnlyTitle(users: map<UserId, UserRow>, row: ResearcherRow, id: UserId)
    requires IsFirstMatch(users, row.email, id)
    ensures var r := UpdatedUsers(users, row);
      && r.Keys == users.Keys
      && r[id].title == row.jobTitle
      && r[id].email == users[id].email
      && r[id].otherColumns == users[id].otherColumns
      && forall k :: k in users && k != id ==> r[k] == users[k]
  {
  }

  /** The lookup only depends on the ids and the emails of the users. */
  lemma FindUserByEmailsOnly(u: map<UserId, UserRow>, v: map<UserId, UserRow>, email: Option<string>)
    requires u.Keys == v.Keys
    requires forall k :: k in u ==> u[k].email == v[k].email
    ensures FindUser(u, email) == FindUser(v, email)
  {
  }

  /** Updating the title keeps the lookup: a second run finds the same user. */
  lemma FindUserStable(users: map<UserId, UserRow>, row: ResearcherRow, email: Option<string>)
    ensures FindUser(UpdatedUsers(users, row), email) == FindUser(users, email)
  {
    var f := FindUser(users, row.email);
    if f.Some? {
      MatchSetsOnlyTitle(users, row, f.value);
      FindUserByEmailsOnly(UpdatedUsers(users, row), users, email);
    }
  }

  /** Running `updateResearcher` twice on a row leaves the `user` table as one run does. */
  lemma UsersIdempotent(users: map<UserId, UserRow>, row: ResearcherRow)
    ensures UpdatedUsers(UpdatedUsers(users, row), row) == UpdatedUsers(users, row)
  {
    FindUserStable(users, row, row.email);
  }

  /**
   * ... but `user_education` is not idempotent: the second run appends the
   * same rows again.
   */
  lemma EducationRepeats(users: map<UserId, UserRow>, row: ResearcherRow, education: seq<EducationEntry>)
    ensures var once := education + NewEducation(users, row);
      && once + NewEducation(UpdatedUsers(users, row), row)
         == education + NewEducation(users, row) + NewEducation(users, row)
      && (NewEducation(users, row) != [] ==>
           |once + NewEducation(UpdatedUsers(users, row), row)| > |once|)
  {
    FindUserStable(users, row, row.email);
  }

  // ---------------------------------------------------------------------------
  // Properties of the degree loop

  /** The rows for a concatenation are the rows of each part, in order. */
  lemma {:induction false} EducationForAppend(a: seq<Option<string>>, b: seq<Option<string>>, uid: UserId)
    ensures EducationFor(a + b, uid) == EducationFor(a, uid) + EducationFor(b, uid)
    decreases |b|
  {
    if b == [] {
      assert a + b == a;
    } else {
      var n := |b| - 1;
      assert (a + b)[..|a + b| - 1] == a + b[..n];
      assert (a + b)[|a + b| - 1] == b[n];
      EducationForAppend(a, b[..n], uid);
    }
  }

  /** One degree value gives one row when non-empty and none otherwise. */
  lemma EducationForOne(d: Option<string>, uid: UserId)
    ensures EducationFor([d], uid) == if Empty(d) then [] else [EducationEntry(d.value, uid)]
  {
  }

  /**
   * The rows appended for a row's degrees, spelt out: one per non-empty
   * `degree_1` .. `degree_4`, in that order, each carrying the user's id.
   */
  lemma EducationInOrder(row: ResearcherRow, uid: UserId)
    ensures EducationFor(Degrees(row), uid)
         == (if Empty(row.degree1) then [] else [EducationEntry(row.degree1.value, uid)])
          + (if Empty(row.degree2) then [] else [EducationEntry(row.degree2.value, uid)])
          + (if Empty(row.degree3) then [] else [EducationEntry(row.degree3.value, uid)])
          + (if Empty(row.degree4) then [] else [EducationEntry(row.degree4.value, uid)])
  {
    var d1, d2, d3, d4 := row.degree1, row.degree2, row.degree3, row.degree4;
    assert Degrees(row) == [d1] + [d2] + [d3] + [d4];
    EducationForAppend([d1] + [d2] + [d3], [d4], uid);
    EducationForAppend([d1] + [d2], [d3], uid);
    EducationForAppend([d1], [d2], uid);
    EducationForOne(d1, uid);
    EducationForOne(d2, uid);
    EducationForOne(d3, uid);
    EducationForOne(d4, uid);
  }

  /**
   * An education row is appended exactly for the non-empty degree values: a
   * row carries the user's id and a degree that is not NULL, "" or "0", and
   * every such degree gives a row.
   */
  lemma {:induction false} EducationForMembers(ds: seq<Option<string>>, uid: UserId, e: EducationEntry)
    ensures e in EducationFor(ds, uid)
        <==> e.userId == uid && Some(e.education) in ds && !EmptyString(e.education)
    decreases |ds|
  {
    if ds != [] {
      var n := |ds| - 1;
      EducationForMembers(ds[..n], uid, e);
      assert ds == ds[..n] + [ds[n]];
      assert Some(e.education) in ds <==> Some(e.education) in ds[..n] || ds[n] == Some(e.education);
    }
  }

  /** How many of the values are not PHP-empty. */
  function CountNonEmpty(ds: seq<Option<string>>): nat
    decreases |ds|
  {
    if ds == [] then 0 else CountNonEmpty(ds[1..]) + (if Empty(ds[0]) then 0 else 1)
  }

  /** The number of rows appended is the number of non-empty degree values. */
  lemma {:induction false} EducationForLength(ds: seq<Option<string>>, uid: UserId)
    ensures |EducationFor(ds, uid)| == CountNonEmpty(ds)
    decreases |ds|
  {
    if ds != [] {
      assert ds == [ds[0]] + ds[1..];
      EducationForAppend([ds[0]], ds[1..], uid);
      EducationForOne(ds[0], uid);
      EducationForLength(ds[1..], uid);
    }
  }

  /**
   * A concrete case: user 5 has email "a@x.com" and no title; the row has
   * job title "PI", degree_1 "PhD", degree_2 "", degree_3 "0", degree_4 NULL
   * and photo "". The title becomes "PI", the other columns are kept, and
   * exactly one education row ("PhD", 5) is appended.
   */
  lemma ExampleOneMatch(other: map<string, Option<string>>)
    ensures var users := map[5 := UserRow(Some("a@x.com"), None, other)];
      var row := ResearcherRow(None, None, Some("a@x.com"), Some("PI"),
                               Some("PhD"), Some(""), Some("0"), None, Some(""));
      && UpdatedUsers(users, row) == map[5 := UserRow(Some("a@x.com"), Some("PI"), other)]
      && NewEducation(users, row) == [EducationEntry("PhD", 5)]
  {
    var users := map[5 := UserRow(Some("a@x.com"), None, other)];
    var row := ResearcherRow(None, None, Some("a@x.com"), Some("PI"),
                             Some("PhD"), Some(""), Some("0"), None, Some(""));
    assert IsFirstMatch(users, row.email, 5);
    assert FindUser(users, row.email) == Some(5);
    EducationInOrder(row, 5);
  }
}
