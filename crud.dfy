/** The table rules of backend/app/crud.py, stated as functions from a
    snapshot of the five tables to the snapshot after the operation and
    the value the operation returns. The class `Tables.Database` performs
    the same operations in place. */
module Crud {
  import opened Wrappers
  import opened Text
  import opened Models

  /** The rows of the User, Word, ReviewLog, DeletionRequest and Favorite
      tables, each in table order. */
  datatype Db = Db(
    users: seq<User>, words: seq<Word>, logs: seq<ReviewLog>,
    deletions: seq<DeletionRequest>, favorites: seq<Favorite>)

  function UserIds(users: seq<User>): seq<int> {
    seq(|users|, i requires 0 <= i < |users| => users[i].id)
  }

  function WordIds(words: seq<Word>): seq<int> {
    seq(|words|, i requires 0 <= i < |words| => words[i].id)
  }

  function LogIds(logs: seq<ReviewLog>): seq<int> {
    seq(|logs|, i requires 0 <= i < |logs| => logs[i].id)
  }

  function DeletionIds(reqs: seq<DeletionRequest>): seq<int> {
    seq(|reqs|, i requires 0 <= i < |reqs| => reqs[i].id)
  }

  function FavoriteIds(favs: seq<Favorite>): seq<int> {
    seq(|favs|, i requires 0 <= i < |favs| => favs[i].id)
  }

  // The WHERE clauses of the queries in crud.py.

  function LogFor(userId: int, wordId: int): ReviewLog -> bool {
    (l: ReviewLog) => l.userId == userId && l.wordId == wordId
  }

  function FavoriteFor(userId: int, wordId: int): Favorite -> bool {
    (f: Favorite) => f.userId == userId && f.wordId == wordId
  }

  function DeletionFor(userId: int): DeletionRequest -> bool {
    (r: DeletionRequest) => r.userId == userId
  }

  function UserNamed(username: string): User -> bool {
    (u: User) => u.username == username
  }

  function UserWithId(id: int): User -> bool {
    (u: User) => u.id == id
  }

  /** At most one review log per (user, word): the outer join of
      get_due_words then yields each word at most once. */
  predicate OneLogPerPair(logs: seq<ReviewLog>) {
    forall i, j :: 0 <= i < j < |logs| ==> logs[i].userId != logs[j].userId || logs[i].wordId != logs[j].wordId
  }

  /** What the tables keep true: primary keys and usernames are unique,
      there is at most one review log per (user, word) and its interval is
      at least one day, at most one favorite per (user, word) and at most
      one deletion request per user. */
  predicate ValidDb(db: Db) {
    && (forall i, j :: 0 <= i < j < |db.users| ==> db.users[i].id != db.users[j].id)
    && (forall i, j :: 0 <= i < j < |db.users| ==> db.users[i].username != db.users[j].username)
    && (forall i, j :: 0 <= i < j < |db.words| ==> db.words[i].id != db.words[j].id)
    && OneLogPerPair(db.logs)
    && (forall i :: 0 <= i < |db.logs| ==> db.logs[i].lastInterval >= 1)
    && (forall i, j :: 0 <= i < j < |db.favorites| ==>
          db.favorites[i].userId != db.favorites[j].userId || db.favorites[i].wordId != db.favorites[j].wordId)
    && (forall i, j :: 0 <= i < j < |db.deletions| ==> db.deletions[i].userId != db.deletions[j].userId)
  }

  // ---------------------------------------------------------------
  // create_user, ensure_default_admin, reset_password
  // ---------------------------------------------------------------

  /** create_user: the unique index on `username` makes the insert fail
      (None, nothing stored) when the name is taken. */
  function CreateUser(db: Db, username: string, password: string, role: string): (Db, Option<User>) {
    if FirstIndex(db.users, UserNamed(username)).Some? then (db, None)
    else
      var user := User(NextRowId(UserIds(db.users)), username, Bcrypt(password), role);
      (db.(users := db.users + [user]), Some(user))
  }

  lemma CreateUserContract(db: Db, username: string, password: string, role: string)
    requires ValidDb(db)
    ensures var (db', r) := CreateUser(db, username, password, role);
      && ValidDb(db')
      && (r.None? <==> exists i :: 0 <= i < |db.users| && db.users[i].username == username)
      && (r.None? ==> db' == db)
      && (r.Some? ==> db' == db.(users := db.users + [r.value])
                      && r.value.username == username && r.value.role == role
                      && r.value.hashedPassword == Bcrypt(password)
                      && forall i :: 0 <= i < |db.users| ==> db.users[i].id != r.value.id)
  {
    var (db', r) := CreateUser(db, username, password, role);
    if r.Some? {
      var ids := UserIds(db.users);
      assert forall i :: 0 <= i < |db.users| ==> db.users[i].id == ids[i];
    }
  }

  /** ensure_default_admin: adds "Admin" with password 88888888 and role
      "admin" unless a user of that name exists; returns the new user, or
      None when nothing was created. */
  function EnsureDefaultAdmin(db: Db): (Db, Option<User>) {
    if FirstIndex(db.users, UserNamed("Admin")).Some? then (db, None)
    else
      var admin := User(NextRowId(UserIds(db.users)), "Admin", Bcrypt("88888888"), "admin");
      (db.(users := db.users + [admin]), Some(admin))
  }

  /** When a user named "Admin" exists, ensure_default_admin changes
      nothing and returns None (the check looks at the name alone, so that
      user's role may be anything); otherwise it appends exactly one user,
      "Admin" with password 88888888, role "admin" and a fresh id. Either
      way a second run changes nothing. */
  lemma EnsureDefaultAdminIdempotent(db: Db)
    ensures var (db1, r1) := EnsureDefaultAdmin(db);
      && EnsureDefaultAdmin(db1) == (db1, None)
      && (exists i :: 0 <= i < |db1.users| && db1.users[i].username == "Admin")
      && ((exists i :: 0 <= i < |db.users| && db.users[i].username == "Admin") ==> db1 == db && r1.None?)
      && ((forall i :: 0 <= i < |db.users| ==> db.users[i].username != "Admin") ==>
            && r1.Some? && db1 == db.(users := db.users + [r1.value])
            && r1.value.username == "Admin" && r1.value.role == "admin"
            && r1.value.hashedPassword == Bcrypt("88888888")
            && forall i :: 0 <= i < |db.users| ==> db.users[i].id != r1.value.id)
  {
    var (db1, r1) := EnsureDefaultAdmin(db);
    if r1.Some? {
      assert db1.users[|db.users|] == r1.value;
      assert UserNamed("Admin")(db1.users[|db.users|]);
      var ids := UserIds(db.users);
      assert forall i :: 0 <= i < |db.users| ==> db.users[i].id == ids[i];
    }
  }

  /** reset_password: None when no user has the id; otherwise that user's
      hash is replaced and nothing else changes. */
  function ResetPassword(db: Db, userId: int, newPassword: string): (Db, Option<User>) {
    match FirstIndex(db.users, UserWithId(userId))
    case None => (db, None)
    case Some(k) =>
      var user := db.users[k].(hashedPassword := Bcrypt(newPassword));
      (db.(users := db.users[k := user]), Some(user))
  }

  lemma ResetPasswordContract(db: Db, userId: int, newPassword: string)
    requires ValidDb(db)
    ensures var (db', r) := ResetPassword(db, userId, newPassword);
      && ValidDb(db')
      && (r.None? <==> forall i :: 0 <= i < |db.users| ==> db.users[i].id != userId)
      && (r.None? ==> db' == db)
      && (r.Some? ==> exists k :: 0 <= k < |db.users| && db.users[k].id == userId
                        && r.value == db.users[k].(hashedPassword := Bcrypt(newPassword))
                        && db' == db.(users := db.users[k := r.value]))
  {
  }

  // ---------------------------------------------------------------
  // record_review: the interval rule and the upsert
  // ---------------------------------------------------------------

  /** The new `last_interval`: twice the previous one (1 when there is no
      log yet) for a quality of at least 3, otherwise back to 1. */
  function NextInterval(previous: Option<int>, quality: int): (r: int)
    ensures (previous.None? || previous.value >= 1) ==> r >= 1
    ensures quality >= 3 && previous.Some? && previous.value >= 1 ==> r > previous.value
  {
    var interval := if previous.Some? then previous.value else 1;
    if quality >= 3 then interval * 2 else 1
  }

  function Pow2(n: nat): nat {
    if n == 0 then 1 else 2 * Pow2(n - 1)
  }

  /** How many of the last reviews in `qualities` scored at least 3. */
  function TrailingSuccesses(qualities: seq<int>): nat
    decreases |qualities|
  {
    if qualities == [] || qualities[|qualities| - 1] < 3 then 0
    else 1 + TrailingSuccesses(qualities[..|qualities| - 1])
  }

  /** The `last_interval` of a (user, word) log after reviews with these
      qualities, in order, starting from no log. */
  function IntervalAfter(qualities: seq<int>): Option<int>
    decreases |qualities|
  {
    if qualities == [] then None
    else Some(NextInterval(IntervalAfter(qualities[..|qualities| - 1]), qualities[|qualities| - 1]))
  }

  /** After any non-empty review history the interval is 2^k days, k being
      the number of successful reviews since the last failed one. */
  lemma {:induction false} IntervalIsPowerOfTrailingSuccesses(qualities: seq<int>)
    requires qualities != []
    ensures IntervalAfter(qualities) == Some(Pow2(TrailingSuccesses(qualities)))
    decreases |qualities|
  {
    var init := qualities[..|qualities| - 1];
    if init != [] {
      IntervalIsPowerOfTrailingSuccesses(init);
    }
  }

  /** record_review: None when `date.today() + timedelta(days=interval)`
      raises OverflowError (the next review would fall after `date.max`),
      before any row is touched; otherwise the log, updated or new. */
  function RecordReview(db: Db, userId: int, wordId: int, quality: int, today: int, now: int): (Db, Option<ReviewLog>) {
    var found := FirstIndex(db.logs, LogFor(userId, wordId));
    var interval := NextInterval(if found.Some? then Some(db.logs[found.value].lastInterval) else None, quality);
    if today + interval > MaxDay then (db, None)
    else match found
    case Some(k) =>
      var log := db.logs[k].(quality := quality, lastInterval := interval,
                             nextReview := today + interval, reviewedAt := now);
      (db.(logs := db.logs[k := log]), Some(log))
    case None =>
      var log := ReviewLog(NextRowId(LogIds(db.logs)), userId, wordId, quality, interval, today + interval, now);
      (db.(logs := db.logs + [log]), Some(log))
  }

  /** record_review fails, changing nothing, exactly when the new interval
      would put the next review after `date.max`. Otherwise it is an
      upsert: afterwards the returned log is the one and only log of
      (user, word); an existing log keeps its row and id, otherwise a new
      row is appended; every other row is untouched, the interval follows
      NextInterval, and the word is next due strictly after today. */
  lemma RecordReviewUpserts(db: Db, userId: int, wordId: int, quality: int, today: int, now: int)
    requires ValidDb(db)
    ensures var (db', r) := RecordReview(db, userId, wordId, quality, today, now);
      var found := FirstIndex(db.logs, LogFor(userId, wordId));
      var interval := NextInterval(if found.Some? then Some(db.logs[found.value].lastInterval) else None, quality);
      && ValidDb(db')
      && (r.None? <==> today + interval > MaxDay)
      && (r.None? ==> db' == db)
      && (r.Some? ==>
            var log := r.value;
            && db'.users == db.users && db'.words == db.words
            && db'.deletions == db.deletions && db'.favorites == db.favorites
            && log.userId == userId && log.wordId == wordId && log.quality == quality && log.reviewedAt == now
            && log.lastInterval == interval
            && log.lastInterval >= 1 && log.nextReview == today + log.lastInterval && log.nextReview > today
            && (found.Some? ==> db'.logs == db.logs[found.value := log] && log.id == db.logs[found.value].id)
            && (found.None? ==> db'.logs == db.logs + [log])
            && (exists k :: 0 <= k < |db'.logs| && db'.logs[k] == log
                  && forall j :: 0 <= j < |db'.logs| && j != k ==> !LogFor(userId, wordId)(db'.logs[j])))
  {
    var (db', r) := RecordReview(db, userId, wordId, quality, today, now);
    var found := FirstIndex(db.logs, LogFor(userId, wordId));
    if r.None? {
    } else if found.Some? {
      var log := r.value;
      var k := found.value;
      assert db'.logs[k] == log;
      forall j | 0 <= j < |db'.logs| && j != k
        ensures !LogFor(userId, wordId)(db'.logs[j])
      {
        if j < k { assert db'.logs[j] == db.logs[j]; }
        else {
          assert db.logs[k].userId != db.logs[j].userId || db.logs[k].wordId != db.logs[j].wordId;
        }
      }
    } else {
      assert db'.logs[|db.logs|] == r.value;
    }
  }

  /** Python's `date.max` ends every long enough streak: a word whose
      interval has doubled 21 times (2^21 days, by
      IntervalIsPowerOfTrailingSuccesses after 21 successes in a row) can
      no longer be answered correctly on any day from 1 January 2026 on;
      record_review raises instead. */
  lemma LongStreakOverflows(db: Db, userId: int, wordId: int, quality: int, today: int, now: int)
    requires ValidDb(db)
    requires exists i :: 0 <= i < |db.logs| && LogFor(userId, wordId)(db.logs[i]) && db.logs[i].lastInterval == Pow2(21)
    requires quality >= 3 && today >= 739617
    ensures RecordReview(db, userId, wordId, quality, today, now) == (db, None)
  {
    var i :| 0 <= i < |db.logs| && LogFor(userId, wordId)(db.logs[i]) && db.logs[i].lastInterval == Pow2(21);
    Pow2Of21();
  }

  lemma {:induction false} Pow2Add(a: nat, b: nat)
    ensures Pow2(a + b) == Pow2(a) * Pow2(b)
    decreases a
  {
    if a > 0 {
      Pow2Add(a - 1, b);
    }
  }

  lemma Pow2Of21()
    ensures Pow2(21) == 2097152
  {
    assert Pow2(1) == 2;
    Pow2Add(1, 1);
    Pow2Add(2, 2);
    assert Pow2(5) == 32;
    Pow2Add(5, 5);
    Pow2Add(10, 10);
    assert Pow2(21) == 2 * Pow2(20);
  }

  // ---------------------------------------------------------------
  // add_favorite, remove_favorite, create_deletion_request
  // ---------------------------------------------------------------

  /** add_favorite returns the existing (user, word) row if there is one,
      otherwise appends a new row stamped `now`. */
  function AddFavorite(db: Db, userId: int, wordId: int, now: int): (Db, Favorite) {
    match FirstIndex(db.favorites, FavoriteFor(userId, wordId))
    case Some(k) => (db, db.favorites[k])
    case None =>
      var fav := Favorite(NextRowId(FavoriteIds(db.favorites)), userId, wordId, now);
      (db.(favorites := db.favorites + [fav]), fav)
  }

  /** When the pair already has a row, add_favorite returns that row and
      changes nothing; otherwise it appends exactly one row for the pair,
      stamped `now` with a fresh id. A second add_favorite of the same
      pair changes nothing and returns the row the first one returned, and
      the tables stay valid. */
  lemma AddFavoriteIdempotent(db: Db, userId: int, wordId: int, now1: int, now2: int)
    requires ValidDb(db)
    ensures var (db1, f1) := AddFavorite(db, userId, wordId, now1);
      && ValidDb(db1)
      && f1.userId == userId && f1.wordId == wordId
      && ((exists i :: 0 <= i < |db.favorites| && FavoriteFor(userId, wordId)(db.favorites[i])) ==>
            db1 == db && f1 in db.favorites)
      && ((forall i :: 0 <= i < |db.favorites| ==> !FavoriteFor(userId, wordId)(db.favorites[i])) ==>
            && db1 == db.(favorites := db.favorites + [f1]) && f1.addedAt == now1
            && forall i :: 0 <= i < |db.favorites| ==> db.favorites[i].id != f1.id)
      && AddFavorite(db1, userId, wordId, now2) == (db1, f1)
  {
    var (db1, f1) := AddFavorite(db, userId, wordId, now1);
    if FirstIndex(db.favorites, FavoriteFor(userId, wordId)).None? {
      FirstIndexAppend(db.favorites, f1, FavoriteFor(userId, wordId));
      var ids := FavoriteIds(db.favorites);
      assert forall i :: 0 <= i < |db.favorites| ==> db.favorites[i].id == ids[i];
    }
  }

  /** remove_favorite: False and no change when the pair has no row;
      otherwise that row is deleted and True returned. */
  function RemoveFavorite(db: Db, userId: int, wordId: int): (Db, bool) {
    match FirstIndex(db.favorites, FavoriteFor(userId, wordId))
    case None => (db, false)
    case Some(k) => (db.(favorites := db.favorites[..k] + db.favorites[k + 1..]), true)
  }

  /** Dropping the one row of a pair from a favorites table whose pairs
      are unique leaves no row of the pair, keeps every other row, and
      keeps the pairs unique. */
  lemma RemoveAtKeepsOthers(s: seq<Favorite>, k: nat, userId: int, wordId: int)
    requires k < |s| && FavoriteFor(userId, wordId)(s[k])
    requires forall i, j :: 0 <= i < j < |s| ==> s[i].userId != s[j].userId || s[i].wordId != s[j].wordId
    ensures var t := s[..k] + s[k + 1..];
      && (forall i :: 0 <= i < |t| ==> !FavoriteFor(userId, wordId)(t[i]))
      && (forall f :: f in s && !FavoriteFor(userId, wordId)(f) ==> f in t)
      && (forall i, j :: 0 <= i < j < |t| ==> t[i].userId != t[j].userId || t[i].wordId != t[j].wordId)
  {
    var t := s[..k] + s[k + 1..];
    forall i | 0 <= i < |t|
      ensures t[i] == if i < k then s[i] else s[i + 1]
    {
    }
    RemoveAtUnique(s, k);
    forall i | 0 <= i < |t|
      ensures !FavoriteFor(userId, wordId)(t[i])
    {
      if i >= k {
        assert s[k].userId != s[i + 1].userId || s[k].wordId != s[i + 1].wordId;
      }
    }
    forall f | f in s && !FavoriteFor(userId, wordId)(f)
      ensures f in t
    {
      var i :| 0 <= i < |s| && s[i] == f;
      if i < k { assert t[i] == f; }
      else { assert i != k; assert t[i - 1] == f; }
    }
  }

  /** Dropping any one row keeps the favorites' pairs unique. */
  lemma RemoveAtUnique(s: seq<Favorite>, k: nat)
    requires k < |s|
    requires forall i, j :: 0 <= i < j < |s| ==> s[i].userId != s[j].userId || s[i].wordId != s[j].wordId
    ensures var t := s[..k] + s[k + 1..];
      forall i, j :: 0 <= i < j < |t| ==> t[i].userId != t[j].userId || t[i].wordId != t[j].wordId
  {
    var t := s[..k] + s[k + 1..];
    forall i, j | 0 <= i < j < |t|
      ensures t[i].userId != t[j].userId || t[i].wordId != t[j].wordId
    {
      var i0 := if i < k then i else i + 1;
      var j0 := if j < k then j else j + 1;
      assert t[i] == s[i0] && t[j] == s[j0] && i0 < j0;
    }
  }

  lemma RemoveFavoriteContract(db: Db, userId: int, wordId: int)
    requires ValidDb(db)
    ensures var (db', ok) := RemoveFavorite(db, userId, wordId);
      && ValidDb(db')
      && (ok <==> exists i :: 0 <= i < |db.favorites| && FavoriteFor(userId, wordId)(db.favorites[i]))
      && (!ok ==> db' == db)
      && (ok ==> |db'.favorites| == |db.favorites| - 1)
      && (forall i :: 0 <= i < |db'.favorites| ==> !FavoriteFor(userId, wordId)(db'.favorites[i]))
      && (forall f :: f in db.favorites && !FavoriteFor(userId, wordId)(f) ==> f in db'.favorites)
      && db'.users == db.users && db'.words == db.words && db'.logs == db.logs && db'.deletions == db.deletions
  {
    var found := FirstIndex(db.favorites, FavoriteFor(userId, wordId));
    if found.Some? {
      RemoveAtKeepsOthers(db.favorites, found.value, userId, wordId);
    }
  }

  /** Removing a favorite that add_favorite has just created restores the
      favorites table exactly. */
  lemma RemoveUndoesAdd(db: Db, userId: int, wordId: int, now: int)
    requires ValidDb(db)
    requires forall i :: 0 <= i < |db.favorites| ==> !FavoriteFor(userId, wordId)(db.favorites[i])
    ensures RemoveFavorite(AddFavorite(db, userId, wordId, now).0, userId, wordId) == (db, true)
  {
    var (db1, f1) := AddFavorite(db, userId, wordId, now);
    assert db1.favorites == db.favorites + [f1];
    FirstIndexAppend(db.favorites, f1, FavoriteFor(userId, wordId));
    assert db1.favorites[..|db.favorites|] + db1.favorites[|db.favorites| + 1..] == db.favorites;
  }

  /** create_deletion_request: the user's existing request, or a new one
      stamped `now`. */
  function CreateDeletionRequest(db: Db, userId: int, now: int): (Db, DeletionRequest) {
    match FirstIndex(db.deletions, DeletionFor(userId))
    case Some(k) => (db, db.deletions[k])
    case None =>
      var req := DeletionRequest(NextRowId(DeletionIds(db.deletions)), userId, now);
      (db.(deletions := db.deletions + [req]), req)
  }

  /** When the user already has a request, create_deletion_request
      returns it and changes nothing; otherwise it appends exactly one
      request stamped `now` with a fresh id. A second call returns the
      same request and changes nothing, and the tables stay valid. */
  lemma CreateDeletionRequestIdempotent(db: Db, userId: int, now1: int, now2: int)
    requires ValidDb(db)
    ensures var (db1, r1) := CreateDeletionRequest(db, userId, now1);
      && ValidDb(db1)
      && r1.userId == userId
      && ((exists i :: 0 <= i < |db.deletions| && db.deletions[i].userId == userId) ==>
            db1 == db && r1 in db.deletions)
      && ((forall i :: 0 <= i < |db.deletions| ==> db.deletions[i].userId != userId) ==>
            && db1 == db.(deletions := db.deletions + [r1]) && r1.requestedAt == now1
            && forall i :: 0 <= i < |db.deletions| ==> db.deletions[i].id != r1.id)
      && CreateDeletionRequest(db1, userId, now2) == (db1, r1)
  {
    var (db1, r1) := CreateDeletionRequest(db, userId, now1);
    if FirstIndex(db.deletions, DeletionFor(userId)).None? {
      FirstIndexAppend(db.deletions, r1, DeletionFor(userId));
      var ids := DeletionIds(db.deletions);
      assert forall i :: 0 <= i < |db.deletions| ==> db.deletions[i].id == ids[i];
    }
  }

  // ---------------------------------------------------------------
  // delete_user
  // ---------------------------------------------------------------

  function NotOfUserLog(userId: int): ReviewLog -> bool {
    (l: ReviewLog) => l.userId != userId
  }

  function NotOfUserDeletion(userId: int): DeletionRequest -> bool {
    (r: DeletionRequest) => r.userId != userId
  }

  function NotOfUserFavorite(userId: int): Favorite -> bool {
    (f: Favorite) => f.userId != userId
  }

  function OtherUser(userId: int): User -> bool {
    (u: User) => u.id != userId
  }

  /** delete_user exactly as crud.py:193-215 writes it: the user's review
      logs and deletion requests go with the user row, its Favorite rows
      stay behind. */
  function DeleteUserAsWritten(db: Db, userId: int): (Db, bool) {
    if FirstIndex(db.users, UserWithId(userId)).None? then (db, false)
    else
      (db.(users := Filter(db.users, OtherUser(userId)),
           logs := Filter(db.logs, NotOfUserLog(userId)),
           deletions := Filter(db.deletions, NotOfUserDeletion(userId))), true)
  }

  /** delete_user as its docstring intends ("fully remove a user and all
      related data"): the Favorite rows of the user are removed as well.
      The rest of the model uses this definition. */
  function DeleteUser(db: Db, userId: int): (Db, bool) {
    var (db', ok) := DeleteUserAsWritten(db, userId);
    if ok then (db'.(favorites := Filter(db.favorites, NotOfUserFavorite(userId))), true) else (db', false)
  }

  /** An unknown id gives False and no change; otherwise True, and no row
      of any table refers to the user any more while every row of another
      user is kept. */
  lemma DeleteUserCascades(db: Db, userId: int)
    requires ValidDb(db)
    ensures var (db', ok) := DeleteUser(db, userId);
      && ValidDb(db')
      && (ok <==> exists i :: 0 <= i < |db.users| && db.users[i].id == userId)
      && (!ok ==> db' == db)
      && db'.words == db.words
      && (ok ==> |db'.users| == |db.users| - 1)
      && (ok ==> forall u :: u in db'.users <==> u in db.users && u.id != userId)
      && (ok ==> forall l :: l in db'.logs <==> l in db.logs && l.userId != userId)
      && (ok ==> forall r :: r in db'.deletions <==> r in db.deletions && r.userId != userId)
      && (ok ==> forall f :: f in db'.favorites <==> f in db.favorites && f.userId != userId)
  {
    var (db', ok) := DeleteUser(db, userId);
    if ok {
      var k := FirstIndex(db.users, UserWithId(userId)).value;
      forall u ensures u in db'.users <==> u in db.users && u.id != userId {
        FilterMember(db.users, OtherUser(userId), u);
      }
      forall l ensures l in db'.logs <==> l in db.logs && l.userId != userId {
        FilterMember(db.logs, NotOfUserLog(userId), l);
      }
      forall r ensures r in db'.deletions <==> r in db.deletions && r.userId != userId {
        FilterMember(db.deletions, NotOfUserDeletion(userId), r);
      }
      forall f ensures f in db'.favorites <==> f in db.favorites && f.userId != userId {
        FilterMember(db.favorites, NotOfUserFavorite(userId), f);
      }
      FilterRemovesOne(db.users, userId, k);
      DeleteUserKeepsValid(db, userId);
    }
  }

  /** Removing the rows of one user keeps every table's keys unique. */
  lemma DeleteUserKeepsValid(db: Db, userId: int)
    requires ValidDb(db)
    ensures ValidDb(DeleteUser(db, userId).0)
  {
    if DeleteUser(db, userId).1 {
      FilterPairwise(db.users, OtherUser(userId), (a: User, b: User) => a.id != b.id);
      FilterPairwise(db.users, OtherUser(userId), (a: User, b: User) => a.username != b.username);
      FilterPairwise(db.logs, NotOfUserLog(userId),
        (a: ReviewLog, b: ReviewLog) => a.userId != b.userId || a.wordId != b.wordId);
      FilterPairwise(db.deletions, NotOfUserDeletion(userId),
        (a: DeletionRequest, b: DeletionRequest) => a.userId != b.userId);
      FilterPairwise(db.favorites, NotOfUserFavorite(userId),
        (a: Favorite, b: Favorite) => a.userId != b.userId || a.wordId != b.wordId);
      FilterAllIn(db.logs, NotOfUserLog(userId));
    }
  }

  lemma FilterAllIn<T>(s: seq<T>, p: T -> bool)
    ensures forall i :: 0 <= i < |Filter(s, p)| ==> Filter(s, p)[i] in s
  {
    forall i | 0 <= i < |Filter(s, p)| ensures Filter(s, p)[i] in s {
      FilterMember(s, p, Filter(s, p)[i]);
    }
  }

  /** With unique ids, dropping the user whose id is `userId` removes exactly one row. */
  lemma FilterRemovesOne(users: seq<User>, userId: int, k: nat)
    requires k < |users| && users[k].id == userId
    requires forall i, j :: 0 <= i < j < |users| ==> users[i].id != users[j].id
    ensures |Filter(users, OtherUser(userId))| == |users| - 1
  {
    var p := OtherUser(userId);
    var before, after := users[..k], users[k + 1..];
    assert users == before + [users[k]] + after;
    FilterConcat(before + [users[k]], after, p);
    FilterConcat(before, [users[k]], p);
    assert Filter([users[k]], p) == [] by {
      assert [users[k]][..0] == [];
    }
    FilterKeepsAll(before, p);
    forall i | 0 <= i < |after| ensures p(after[i]) {
      assert after[i] == users[k + 1 + i];
    }
    FilterKeepsAll(after, p);
  }

  // ---------------------------------------------------------------
  // get_due_words
  // ---------------------------------------------------------------

  /** The outer join's condition for one word: the user has no log for it,
      or the log's next review day is today or earlier. */
  function IsDue(logs: seq<ReviewLog>, userId: int, today: int): Word -> bool {
    (w: Word) =>
      match FirstIndex(logs, LogFor(userId, w.id))
      case None => true
      case Some(k) => logs[k].nextReview <= today
  }

  function DueWords(words: seq<Word>, logs: seq<ReviewLog>, userId: int, today: int): seq<Word> {
    Filter(words, IsDue(logs, userId, today))
  }

  /** A word is due exactly when it is in the table and the user has no log
      for it or that log's next review is not after today; a due word
      appears as often as it does in the table. */
  lemma DueWordsExactly(words: seq<Word>, logs: seq<ReviewLog>, userId: int, today: int, w: Word)
    requires OneLogPerPair(logs)
    ensures w in DueWords(words, logs, userId, today) <==>
      w in words
      && ((forall k :: 0 <= k < |logs| ==> !LogFor(userId, w.id)(logs[k]))
          || exists k :: 0 <= k < |logs| && LogFor(userId, w.id)(logs[k]) && logs[k].nextReview <= today
                         && forall j :: 0 <= j < k ==> !LogFor(userId, w.id)(logs[j]))
    ensures multiset(DueWords(words, logs, userId, today))[w] ==
      if IsDue(logs, userId, today)(w) then multiset(words)[w] else 0
  {
    FilterMember(words, IsDue(logs, userId, today), w);
    FilterCount(words, IsDue(logs, userId, today), w);
  }

  /** get_due_words: the due words in table order, cut to the first
      `limit` when a limit is given. */
  method GetDueWords(words: seq<Word>, logs: seq<ReviewLog>, userId: int, today: int, limit: Option<int>)
    returns (r: seq<Word>)
    requires OneLogPerPair(logs)
    ensures limit.None? ==> r == DueWords(words, logs, userId, today)
    ensures limit.Some? ==> r == SliceTo(DueWords(words, logs, userId, today), limit.value)
  {
    var due := IsDue(logs, userId, today);
    r := [];
    var i := 0;
    while i < |words|
      invariant 0 <= i <= |words|
      invariant r == Filter(words[..i], due)
    {
      assert words[..i + 1][..i] == words[..i];
      if due(words[i]) {
        r := r + [words[i]];
      }
      i := i + 1;
    }
    assert words[..i] == words;
    if limit.Some? {
      r := SliceTo(r, limit.value);
    }
  }

  // ---------------------------------------------------------------
  // search_words
  // ---------------------------------------------------------------

  /** `lower(word) LIKE 'q%'`. */
  function StartsWithQuery(q: string): Word -> bool {
    (w: Word) => q <= Lower(w.word)
  }

  /** The second query of search_words as written: `q` inside the lowered
      spelling or inside the lowered JSON text of the translations, and not
      a prefix match. */
  function OtherMatchAsWritten(q: string): Word -> bool {
    (w: Word) =>
      (Contains(Lower(w.word), q) || Contains(Lower(TranslationsJson(w.translations)), q))
      && !(q <= Lower(w.word))
  }

  function SearchWordsAsWritten(words: seq<Word>, query: string): seq<Word> {
    var q := Lower(query);
    Filter(words, StartsWithQuery(q)) + Filter(words, OtherMatchAsWritten(q))
  }

  /** `q` inside the lowered text of one of the word's translations. */
  predicate TranslationMatches(w: Word, q: string) {
    exists i :: 0 <= i < |w.translations| && Contains(Lower(w.translations[i].translation), q)
  }

  /** The second query as intended: `q` inside the spelling or inside a
      translation, and not a prefix match. */
  function OtherMatch(q: string): Word -> bool {
    (w: Word) => (Contains(Lower(w.word), q) || TranslationMatches(w, q)) && !(q <= Lower(w.word))
  }

  /** search_words with the translation test applied to the translations
      themselves; the rest of the model uses this one. */
  function SearchWords(words: seq<Word>, query: string): seq<Word> {
    var q := Lower(query);
    Filter(words, StartsWithQuery(q)) + Filter(words, OtherMatch(q))
  }

  predicate SearchMatch(w: Word, q: string) {
    q <= Lower(w.word) || Contains(Lower(w.word), q) || TranslationMatches(w, q)
  }

  /** A word is found exactly when its lowered spelling or one of its
      lowered translations contains the lowered query; each found word
      appears once per table row (the two groups do not overlap); and every
      prefix match comes before every other match. */
  lemma SearchWordsContract(words: seq<Word>, query: string)
    ensures var r := SearchWords(words, query);
      var q := Lower(query);
      && (forall w :: w in r <==> w in words && SearchMatch(w, q))
      && (forall w :: multiset(r)[w] == if SearchMatch(w, q) then multiset(words)[w] else 0)
      && (forall i, j :: 0 <= i < j < |r| && StartsWithQuery(q)(r[j]) ==> StartsWithQuery(q)(r[i]))
  {
    var q := Lower(query);
    var a, b := Filter(words, StartsWithQuery(q)), Filter(words, OtherMatch(q));
    var r := a + b;
    forall w ensures multiset(r)[w] == if SearchMatch(w, q) then multiset(words)[w] else 0 {
      FilterCount(words, StartsWithQuery(q), w);
      FilterCount(words, OtherMatch(q), w);
    }
    forall w ensures w in r <==> w in words && SearchMatch(w, q) {
      assert w in r <==> multiset(r)[w] > 0;
      assert w in words <==> multiset(words)[w] > 0;
    }
    FilterAll(words, StartsWithQuery(q));
    FilterAll(words, OtherMatch(q));
    forall i, j | 0 <= i < j < |r| && StartsWithQuery(q)(r[j]) ensures StartsWithQuery(q)(r[i]) {
      assert j < |a|;
      assert r[i] == a[i];
    }
  }

  /** The search test of backend/tests/test_api.py: a word is found by
      the text of any of its translations (such as "absorb" by 吸收). */
  lemma SearchFindsByTranslation(words: seq<Word>, w: Word, i: nat)
    requires w in words && i < |w.translations|
    ensures w in SearchWords(words, w.translations[i].translation)
    ensures PlainJsonText(w.translations[i].translation) ==>
      w in SearchWordsAsWritten(words, w.translations[i].translation)
  {
    var q := Lower(w.translations[i].translation);
    assert Contains(q, q);
    assert TranslationMatches(w, q);
    SearchWordsContract(words, w.translations[i].translation);
    FilterMember(words, StartsWithQuery(q), w);
    FilterMember(words, OtherMatchAsWritten(q), w);
    if !(q <= Lower(w.word)) && PlainJsonText(w.translations[i].translation) {
      TranslationInJson(w.translations, i);
      ContainsLower(TranslationsJson(w.translations), w.translations[i].translation);
    }
  }

  lemma {:induction false} ContainsTooLong(s: string, q: string)
    requires |q| > |s|
    ensures !Contains(s, q)
    decreases |s|
  {
    if s != [] {
      ContainsTooLong(s[1..], q);
    }
  }

  /** As written, the query "translation" finds every word that has at
      least one translation, because that text is a key of the stored
      JSON. */
  lemma SearchAsWrittenMatchesKeyName(words: seq<Word>, w: Word)
    requires w in words && w.translations != []
    ensures w in SearchWordsAsWritten(words, "translation")
  {
    var q := Lower("translation");
    assert q == "translation";
    TranslationsJsonHasKey(w.translations);
    FilterMember(words, StartsWithQuery(q), w);
    FilterMember(words, OtherMatchAsWritten(q), w);
  }

  /** The word "absorb" (translated 吸收) is returned for the query
      "translation" as written, and not by the corrected search. */
  lemma SearchKeyNameCounterexample()
    ensures var absorb := Word(1, "absorb", [Translation(Some("v."), "吸收")], Some([]));
      absorb in SearchWordsAsWritten([absorb], "translation")
      && absorb !in SearchWords([absorb], "translation")
  {
    var absorb := Word(1, "absorb", [Translation(Some("v."), "吸收")], Some([]));
    SearchAsWrittenMatchesKeyName([absorb], absorb);
    var q := Lower("translation");
    assert q == "translation";
    ContainsTooLong(Lower(absorb.word), q);
    ContainsTooLong(Lower(absorb.translations[0].translation), q);
    assert !TranslationMatches(absorb, q);
    SearchWordsContract([absorb], "translation");
  }

  // ---------------------------------------------------------------
  // list_favorites
  // ---------------------------------------------------------------

  /** One row of the favorites query: the word and `Favorite.added_at`. */
  datatype FavoriteRow = FavoriteRow(word: Word, addedAt: int)

  function WordWithId(id: int): Word -> bool {
    (w: Word) => w.id == id
  }

  /** The join rows that one Favorite row contributes. */
  function RowsOf(words: seq<Word>, f: Favorite): seq<FavoriteRow> {
    var ws := Filter(words, WordWithId(f.wordId));
    seq(|ws|, i requires 0 <= i < |ws| => FavoriteRow(ws[i], f.addedAt))
  }

  /** `Word JOIN Favorite ON Favorite.word_id = Word.id WHERE
      Favorite.user_id = userId`, in favorites-table order. */
  function JoinFavorites(favs: seq<Favorite>, words: seq<Word>, userId: int): seq<FavoriteRow>
    decreases |favs|
  {
    if favs == [] then []
    else
      var f := favs[|favs| - 1];
      JoinFavorites(favs[..|favs| - 1], words, userId) + (if f.userId == userId then RowsOf(words, f) else [])
  }

  lemma {:induction false} JoinFavoritesMember(favs: seq<Favorite>, words: seq<Word>, userId: int, row: FavoriteRow)
    ensures row in JoinFavorites(favs, words, userId) <==>
      row.word in words && exists f :: f in favs && f.userId == userId && f.wordId == row.word.id && f.addedAt == row.addedAt
    decreases |favs|
  {
    if favs != [] {
      var init, f := favs[..|favs| - 1], favs[|favs| - 1];
      JoinFavoritesMember(init, words, userId, row);
      assert favs == init + [f];
      FilterMember(words, WordWithId(f.wordId), row.word);
      var ws := Filter(words, WordWithId(f.wordId));
      if row in RowsOf(words, f) {
        var i :| 0 <= i < |ws| && RowsOf(words, f)[i] == row;
        assert ws[i] == row.word;
      }
      if row.word in ws && f.addedAt == row.addedAt {
        var i :| 0 <= i < |ws| && ws[i] == row.word;
        assert RowsOf(words, f)[i] == row;
      }
    }
  }

  predicate SortedByAddedDesc(rows: seq<FavoriteRow>) {
    forall i, j :: 0 <= i < j < |rows| ==> rows[i].addedAt >= rows[j].addedAt
  }

  function InsertByAdded(r: FavoriteRow, sorted: seq<FavoriteRow>): (t: seq<FavoriteRow>)
    requires SortedByAddedDesc(sorted)
    ensures SortedByAddedDesc(t)
    ensures multiset(t) == multiset(sorted) + multiset{r}
    decreases |sorted|
  {
    if sorted == [] then [r]
    else if r.addedAt >= sorted[0].addedAt then
      ConsSorted(r, sorted);
      [r] + sorted
    else
      var rest := InsertByAdded(r, sorted[1..]);
      assert sorted == [sorted[0]] + sorted[1..];
      InsertedNotNewer(r, sorted, rest);
      ConsSorted(sorted[0], rest);
      assert multiset([sorted[0]] + rest) == multiset{sorted[0]} + multiset(rest);
      [sorted[0]] + rest
  }

  /** A row no older than the head of a newest-first list can go in front. */
  lemma ConsSorted(h: FavoriteRow, rows: seq<FavoriteRow>)
    requires SortedByAddedDesc(rows)
    requires rows != [] ==> h.addedAt >= rows[0].addedAt
    ensures SortedByAddedDesc([h] + rows)
  {
    var t := [h] + rows;
    forall i, j | 0 <= i < j < |t| ensures t[i].addedAt >= t[j].addedAt {
      if i == 0 {
        assert t[j] == rows[j - 1];
        assert rows[0].addedAt >= rows[j - 1].addedAt || j == 1;
      } else {
        assert t[i] == rows[i - 1] && t[j] == rows[j - 1];
      }
    }
  }

  /** Every row of `rest`, a permutation of the tail of `sorted` plus an
      older row `r`, is no newer than the head of `sorted`. */
  lemma InsertedNotNewer(r: FavoriteRow, sorted: seq<FavoriteRow>, rest: seq<FavoriteRow>)
    requires sorted != [] && SortedByAddedDesc(sorted) && r.addedAt < sorted[0].addedAt
    requires multiset(rest) == multiset(sorted[1..]) + multiset{r}
    ensures forall x :: x in rest ==> x.addedAt <= sorted[0].addedAt
  {
    forall x | x in rest ensures x.addedAt <= sorted[0].addedAt {
      assert x in multiset(rest);
      if x != r {
        assert x in multiset(sorted[1..]);
        var k :| 0 <= k < |sorted[1..]| && sorted[1..][k] == x;
        assert sorted[k + 1] == x;
      }
    }
  }

  /** `ORDER BY Favorite.added_at DESC`; rows with equal stamps keep their
      order. */
  function SortByAddedDesc(rows: seq<FavoriteRow>): (r: seq<FavoriteRow>)
    ensures SortedByAddedDesc(r)
    ensures multiset(r) == multiset(rows)
    decreases |rows|
  {
    if rows == [] then []
    else
      assert rows == [rows[0]] + rows[1..];
      InsertByAdded(rows[0], SortByAddedDesc(rows[1..]))
  }

  /** The optional `q` filter as intended: in the spelling or in a
      translation. */
  function RowMatches(q: string): FavoriteRow -> bool {
    (r: FavoriteRow) => Contains(Lower(r.word.word), q) || TranslationMatches(r.word, q)
  }

  /** The filter as crud.py:261-262 writes it, on the translations' JSON
      text. */
  function RowMatchesAsWritten(q: string): FavoriteRow -> bool {
    (r: FavoriteRow) => Contains(Lower(r.word.word), q) || Contains(Lower(TranslationsJson(r.word.translations)), q)
  }

  function ListFavoritesAsWritten(db: Db, userId: int, q: Option<string>): seq<FavoriteRow> {
    var rows := JoinFavorites(db.favorites, db.words, userId);
    SortByAddedDesc(if q.Some? && q.value != "" then Filter(rows, RowMatchesAsWritten(Lower(q.value))) else rows)
  }

  /** list_favorites with the corrected text test (see SearchWords). */
  function ListFavorites(db: Db, userId: int, q: Option<string>): seq<FavoriteRow> {
    var rows := JoinFavorites(db.favorites, db.words, userId);
    SortByAddedDesc(if q.Some? && q.value != "" then Filter(rows, RowMatches(Lower(q.value))) else rows)
  }

  /** With word ids unique, one Favorite row joins at most one word. */
  lemma {:induction false} RowsOfAtMostOne(words: seq<Word>, f: Favorite)
    requires forall i, j :: 0 <= i < j < |words| ==> words[i].id != words[j].id
    ensures |RowsOf(words, f)| <= 1
    decreases |words|
  {
    if words != [] {
      var init, last := words[..|words| - 1], words[|words| - 1];
      RowsOfAtMostOne(init, f);
      if last.id == f.wordId {
        forall w | w in init ensures w.id != f.wordId {
          var m :| 0 <= m < |init| && init[m] == w;
          assert words[m] == w;
        }
        FilterNone(init, WordWithId(f.wordId));
      }
    }
  }

  /** With word ids unique and one Favorite row per (user, word), no row
      of the join occurs twice. */
  lemma {:induction false} JoinFavoritesOnce(favs: seq<Favorite>, words: seq<Word>, userId: int)
    requires forall i, j :: 0 <= i < j < |words| ==> words[i].id != words[j].id
    requires forall i, j :: 0 <= i < j < |favs| ==> favs[i].userId != favs[j].userId || favs[i].wordId != favs[j].wordId
    ensures forall x :: multiset(JoinFavorites(favs, words, userId))[x] <= 1
    decreases |favs|
  {
    if favs != [] {
      var init, f := favs[..|favs| - 1], favs[|favs| - 1];
      JoinFavoritesOnce(init, words, userId);
      if f.userId == userId {
        var prior := JoinFavorites(init, words, userId);
        var rows := RowsOf(words, f);
        RowsOfAtMostOne(words, f);
        assert rows == [] || rows == [rows[0]];
        forall x ensures multiset(prior + rows)[x] <= 1 {
          if x in rows {
            var k :| 0 <= k < |rows| && rows[k] == x;
            FilterMember(words, WordWithId(f.wordId), x.word);
            assert x.word.id == f.wordId;
            forall g | g in init && g.userId == userId ensures g.wordId != f.wordId {
              var m :| 0 <= m < |init| && init[m] == g;
              assert favs[m] == g;
            }
            JoinFavoritesMember(init, words, userId, x);
            assert x !in prior;
          }
        }
      }
    }
  }

  /** The rows are newest first, no row is listed twice, and a row is
      listed exactly when the user has a Favorite row for a word of the
      table with that stamp and, when a non-empty `q` is given, the word
      matches it. */
  lemma ListFavoritesContract(db: Db, userId: int, q: Option<string>)
    requires ValidDb(db)
    ensures var r := ListFavorites(db, userId, q);
      && SortedByAddedDesc(r)
      && (forall i, j :: 0 <= i < j < |r| ==> r[i] != r[j])
      && forall row :: row in r <==>
           row.word in db.words
           && (exists f :: f in db.favorites && f.userId == userId && f.wordId == row.word.id && f.addedAt == row.addedAt)
           && (q.Some? && q.value != "" ==> RowMatches(Lower(q.value))(row))
  {
    var rows := JoinFavorites(db.favorites, db.words, userId);
    var filtered := if q.Some? && q.value != "" then Filter(rows, RowMatches(Lower(q.value))) else rows;
    var r := ListFavorites(db, userId, q);
    JoinFavoritesOnce(db.favorites, db.words, userId);
    forall x ensures multiset(r)[x] <= 1 {
      if q.Some? && q.value != "" {
        FilterCount(rows, RowMatches(Lower(q.value)), x);
      }
    }
    CountedOnceDistinct(r);
    forall row
      ensures row in r <==>
           row.word in db.words
           && (exists f :: f in db.favorites && f.userId == userId && f.wordId == row.word.id && f.addedAt == row.addedAt)
           && (q.Some? && q.value != "" ==> RowMatches(Lower(q.value))(row))
    {
      assert row in r <==> row in multiset(r);
      assert row in filtered <==> row in multiset(filtered);
      JoinFavoritesMember(db.favorites, db.words, userId, row);
      if q.Some? && q.value != "" {
        FilterMember(rows, RowMatches(Lower(q.value)), row);
      }
    }
  }

  // ---------------------------------------------------------------
  // delete_user leaves Favorite rows behind
  // ---------------------------------------------------------------

  /** A user of the corrected delete_user has no favorites left. */
  lemma DeleteUserLeavesNoFavorites(db: Db, userId: int, q: Option<string>)
    requires ValidDb(db)
    requires exists i :: 0 <= i < |db.users| && db.users[i].id == userId
    ensures ListFavorites(DeleteUser(db, userId).0, userId, q) == []
  {
    var db' := DeleteUser(db, userId).0;
    DeleteUserCascades(db, userId);
    var (_, ok) := DeleteUser(db, userId);
    assert ok;
    forall f | f in db'.favorites ensures f.userId != userId {
    }
    JoinFavoritesNone(db'.favorites, db'.words, userId);
    if q.Some? && q.value != "" {
      assert Filter([], RowMatches(Lower(q.value))) == [];
    }
  }

  lemma {:induction false} JoinFavoritesNone(favs: seq<Favorite>, words: seq<Word>, userId: int)
    requires forall f :: f in favs ==> f.userId != userId
    ensures JoinFavorites(favs, words, userId) == []
    decreases |favs|
  {
    if favs != [] {
      assert favs[|favs| - 1] in favs;
      JoinFavoritesNone(favs[..|favs| - 1], words, userId);
    }
  }

  /** As written, user 2's favorite survives the deletion of user 2; SQLite
      then hands id 2 to the next account created, which finds that
      favorite in its list. The corrected delete_user leaves the new
      account with no favorites. */
  lemma OrphanedFavoriteReappears()
    ensures
      var absorb := Word(7, "absorb", [Translation(Some("v."), "吸收")], Some([]));
      var db0 := Db([User(1, "Admin", Bcrypt("88888888"), "admin"), User(2, "deluser", Bcrypt("secret"), "user")],
                    [absorb], [], [DeletionRequest(1, 2, 0)], [Favorite(1, 2, 7, 0)]);
      && DeleteUserAsWritten(db0, 2).1
      && CreateUser(DeleteUserAsWritten(db0, 2).0, "eve", "pass", "user").1 == Some(User(2, "eve", Bcrypt("pass"), "user"))
      && ListFavorites(CreateUser(DeleteUserAsWritten(db0, 2).0, "eve", "pass", "user").0, 2, None) == [FavoriteRow(absorb, 0)]
      && CreateUser(DeleteUser(db0, 2).0, "eve", "pass", "user").1 == Some(User(2, "eve", Bcrypt("pass"), "user"))
      && ListFavorites(CreateUser(DeleteUser(db0, 2).0, "eve", "pass", "user").0, 2, None) == []
  {
    var absorb := Word(7, "absorb", [Translation(Some("v."), "吸收")], Some([]));
    var admin := User(1, "Admin", Bcrypt("88888888"), "admin");
    var fav := Favorite(1, 2, 7, 0);
    var db0 := Db([admin, User(2, "deluser", Bcrypt("secret"), "user")],
                  [absorb], [], [DeletionRequest(1, 2, 0)], [fav]);
    assert UserWithId(2)(db0.users[1]);
    assert Filter(db0.users, OtherUser(2)) == [admin] by {
      var p := OtherUser(2);
      assert [admin][..0] == [];
      assert Filter([admin], p) == Filter([], p) + [admin];
      assert db0.users[..1] == [admin];
      assert Filter(db0.users, p) == Filter([admin], p) + [];
    }
    var db1 := DeleteUserAsWritten(db0, 2).0;
    assert db1 == Db([admin], [absorb], [], [], [fav]);
    var db2 := DeleteUser(db0, 2).0;
    assert db2 == Db([admin], [absorb], [], [], []) by {
      assert Filter([fav], NotOfUserFavorite(2)) == [];
    }
    EveGetsIdTwo(admin, [absorb], [fav]);
    EveGetsIdTwo(admin, [absorb], []);
    OrphanJoin(absorb, fav);
  }

  /** With only the admin (id 1) left, the next account gets id 2. */
  lemma EveGetsIdTwo(admin: User, words: seq<Word>, favs: seq<Favorite>)
    requires admin == User(1, "Admin", Bcrypt("88888888"), "admin")
    ensures var db := Db([admin], words, [], [], favs);
      CreateUser(db, "eve", "pass", "user") == (db.(users := [admin, User(2, "eve", Bcrypt("pass"), "user")]), Some(User(2, "eve", Bcrypt("pass"), "user")))
  {
    var eve := User(2, "eve", Bcrypt("pass"), "user");
    assert UserIds([admin]) == [1];
    assert [1][1..] == [];
    assert NextRowId([1]) == 2;
    assert [admin][1..] == [];
    assert !UserNamed("eve")(admin);
    assert FirstIndex([admin], UserNamed("eve")).None?;
    assert [admin] + [eve] == [admin, eve];
  }

  /** The one favorite of user 2 joins with its word. */
  lemma OrphanJoin(absorb: Word, fav: Favorite)
    requires absorb.id == 7 && fav == Favorite(1, 2, 7, 0)
    ensures JoinFavorites([fav], [absorb], 2) == [FavoriteRow(absorb, 0)]
  {
    assert Filter([absorb], WordWithId(7)) == [absorb] by {
      assert [absorb][..0] == [];
    }
    assert RowsOf([absorb], fav) == [FavoriteRow(absorb, 0)];
    assert [fav][..0] == [];
  }

  // ---------------------------------------------------------------
  // sync_wordbooks
  // ---------------------------------------------------------------

  /** One element of a word-book file: `word` is None when the key is
      missing; missing "translations" and "phrases" read as empty lists. */
  datatype RawEntry = RawEntry(word: Option<string>, translations: seq<Translation>, phrases: seq<Phrase>)

  /** A directory entry: its name and, when it opens and parses as a JSON
      list, the entries it holds. */
  datatype BookFile = BookFile(name: string, content: Option<seq<RawEntry>>)

  /** `fn.startswith("wordBook_") and fn.endswith(".json")`. */
  predicate IsWordBookFileName(name: string) {
    "wordBook_" <= name && EndsWith(name, ".json")
  }

  /** `w.get("word", "").lower()` */
  function EntryKey(e: RawEntry): string {
    if e.word.Some? then Lower(e.word.value) else ""
  }

  /** The keys of the `existing` dictionary built from the Word table. */
  function WordKeys(words: seq<Word>): set<string> {
    set i | 0 <= i < |words| :: Lower(words[i].word)
  }

  function NewWord(words: seq<Word>, e: RawEntry): Word
    requires e.word.Some?
  {
    Word(NextRowId(WordIds(words)), e.word.value, e.translations, Some(e.phrases))
  }

  /** The inner loop over one file's entries: skip an empty or known key,
      otherwise add the word and remember its key. */
  function SyncEntries(words: seq<Word>, keys: set<string>, entries: seq<RawEntry>): (seq<Word>, set<string>)
    decreases |entries|
  {
    if entries == [] then (words, keys)
    else
      var e := entries[0];
      var key := EntryKey(e);
      if key == "" || key in keys then SyncEntries(words, keys, entries[1..])
      else SyncEntries(words + [NewWord(words, e)], keys + {key}, entries[1..])
  }

  /** The outer loop over the directory listing: other names and files that
      fail to open or parse are skipped. */
  function SyncFiles(words: seq<Word>, keys: set<string>, files: seq<BookFile>): (seq<Word>, set<string>)
    decreases |files|
  {
    if files == [] then (words, keys)
    else
      var f := files[0];
      if !IsWordBookFileName(f.name) || f.content.None? then SyncFiles(words, keys, files[1..])
      else
        var (words', keys') := SyncEntries(words, keys, f.content.value);
        SyncFiles(words', keys', files[1..])
  }

  /** sync_wordbooks: nothing happens unless the directory is given and
      exists; `files` is its listing in `os.listdir` order. */
  function SyncWordbooks(db: Db, directoryExists: bool, files: seq<BookFile>): Db {
    if !directoryExists then db
    else db.(words := SyncFiles(db.words, WordKeys(db.words), files).0)
  }

  /** The Word row made from a word-book entry: its spelling as written,
      its translations, and its phrases (an empty list when missing). */
  predicate MadeFrom(w: Word, e: RawEntry) {
    e.word.Some? && w.word == e.word.value && w.translations == e.translations && w.phrases == Some(e.phrases)
  }

  /** Some entry that `source` admits makes the row `w`. */
  ghost predicate MadeFromSome(w: Word, source: RawEntry -> bool) {
    exists e :: source(e) && MadeFrom(w, e)
  }

  /** An entry of a file that the outer loop reads: a `wordBook_*.json`
      name whose content opens and parses. */
  ghost predicate InUsableBook(files: seq<BookFile>, e: RawEntry) {
    exists n, k :: 0 <= n < |files| && IsWordBookFileName(files[n].name) && files[n].content.Some?
      && 0 <= k < |files[n].content.value| && files[n].content.value[k] == e
  }

  /** The row `w` is made from an entry of a file the outer loop reads. */
  ghost predicate MadeFromBook(w: Word, files: seq<BookFile>) {
    exists e :: InUsableBook(files, e) && MadeFrom(w, e)
  }

  /** What one pass keeps true: the key set is the keys of the word list,
      the old words stay in front, and every added word is made from an
      entry that `source` admits, has a non-empty key that was not there
      before, a key no other added word has, and an id larger than every
      earlier id. */
  ghost predicate SyncStep(words: seq<Word>, keys: set<string>, words': seq<Word>, keys': set<string>, source: RawEntry -> bool) {
    && words <= words'
    && keys' == WordKeys(words')
    && (forall i :: |words| <= i < |words'| ==> MadeFromSome(words'[i], source))
    && (forall i :: |words| <= i < |words'| ==> Lower(words'[i].word) != "" && Lower(words'[i].word) !in keys)
    && (forall i, j :: |words| <= i < j < |words'| ==> Lower(words'[i].word) != Lower(words'[j].word))
    && (forall i, j :: 0 <= i < j < |words'| && |words| <= j ==> words'[i].id < words'[j].id)
  }

  lemma WordKeysAppend(words: seq<Word>, w: Word)
    ensures WordKeys(words + [w]) == WordKeys(words) + {Lower(w.word)}
  {
    var ws := words + [w];
    forall k | k in WordKeys(ws) ensures k in WordKeys(words) + {Lower(w.word)} {
      var i :| 0 <= i < |ws| && Lower(ws[i].word) == k;
      if i < |words| {
        assert ws[i] == words[i];
      }
    }
    forall k | k in WordKeys(words) ensures k in WordKeys(ws) {
      var i :| 0 <= i < |words| && Lower(words[i].word) == k;
      assert ws[i] == words[i];
    }
    assert Lower(ws[|words|].word) in WordKeys(ws);
  }

  lemma SyncStepTrans(w0: seq<Word>, k0: set<string>, w1: seq<Word>, k1: set<string>, w2: seq<Word>, k2: set<string>,
                      source: RawEntry -> bool)
    requires SyncStep(w0, k0, w1, k1, source) && SyncStep(w1, k1, w2, k2, source)
    requires k0 <= k1
    ensures SyncStep(w0, k0, w2, k2, source)
  {
    forall i | |w0| <= i < |w2| ensures MadeFromSome(w2[i], source) {
      if i < |w1| {
        assert w2[i] == w1[i];
      }
    }
    forall i, j | |w0| <= i < j < |w2| ensures Lower(w2[i].word) != Lower(w2[j].word) {
      if i < |w1| && |w1| <= j {
        assert w2[i] == w1[i];
        assert Lower(w1[i].word) in WordKeys(w1);
      }
    }
    forall i | |w0| <= i < |w2| ensures Lower(w2[i].word) != "" && Lower(w2[i].word) !in k0 {
      if i < |w1| {
        assert w2[i] == w1[i];
      }
    }
    forall i, j | 0 <= i < j < |w2| && |w0| <= j ensures w2[i].id < w2[j].id {
      if j < |w1| {
        assert w2[i] == w1[i] && w2[j] == w1[j];
      }
    }
  }

  lemma {:induction false} SyncEntriesStep(words: seq<Word>, keys: set<string>, entries: seq<RawEntry>, source: RawEntry -> bool)
    requires keys == WordKeys(words)
    requires forall k :: 0 <= k < |entries| ==> source(entries[k])
    ensures var (words', keys') := SyncEntries(words, keys, entries);
      SyncStep(words, keys, words', keys', source) && keys <= keys'
    decreases |entries|
  {
    if entries != [] {
      var e := entries[0];
      var key := EntryKey(e);
      assert forall k :: 0 <= k < |entries[1..]| ==> entries[1..][k] == entries[k + 1];
      if key == "" || key in keys {
        SyncEntriesStep(words, keys, entries[1..], source);
      } else {
        var w := NewWord(words, e);
        var ws := words + [w];
        WordKeysAppend(words, w);
        SyncEntriesStep(ws, keys + {key}, entries[1..], source);
        var ids := WordIds(words);
        assert forall i :: 0 <= i < |words| ==> words[i].id == ids[i];
        assert source(e) && MadeFrom(ws[|words|], e);
        assert MadeFromSome(ws[|words|], source);
        assert SyncStep(words, keys, ws, keys + {key}, source);
        var (words', keys') := SyncEntries(ws, keys + {key}, entries[1..]);
        SyncStepTrans(words, keys, ws, keys + {key}, words', keys', source);
      }
    }
  }

  lemma {:induction false} SyncFilesStep(words: seq<Word>, keys: set<string>, files: seq<BookFile>, source: RawEntry -> bool)
    requires keys == WordKeys(words)
    requires forall e :: InUsableBook(files, e) ==> source(e)
    ensures var (words', keys') := SyncFiles(words, keys, files);
      SyncStep(words, keys, words', keys', source) && keys <= keys'
    decreases |files|
  {
    if files != [] {
      var f := files[0];
      InUsableBookTail(files);
      if !IsWordBookFileName(f.name) || f.content.None? {
        SyncFilesStep(words, keys, files[1..], source);
      } else {
        assert forall k :: 0 <= k < |f.content.value| ==> InUsableBook(files, f.content.value[k]);
        SyncEntriesStep(words, keys, f.content.value, source);
        var (w1, k1) := SyncEntries(words, keys, f.content.value);
        SyncFilesStep(w1, k1, files[1..], source);
        var (w2, k2) := SyncFiles(w1, k1, files[1..]);
        SyncStepTrans(words, keys, w1, k1, w2, k2, source);
      }
    }
  }

  lemma InUsableBookTail(files: seq<BookFile>)
    requires files != []
    ensures forall e :: InUsableBook(files[1..], e) ==> InUsableBook(files, e)
  {
    forall e | InUsableBook(files[1..], e) ensures InUsableBook(files, e) {
      var n, k :| 0 <= n < |files[1..]| && IsWordBookFileName(files[1..][n].name) && files[1..][n].content.Some?
        && 0 <= k < |files[1..][n].content.value| && files[1..][n].content.value[k] == e;
      assert files[n + 1] == files[1..][n];
    }
  }

  /** sync_wordbooks only appends words; each is made from an entry of a
      `wordBook_*.json` file that parses (spelling, translations and
      phrases as the entry gives them), has a non-empty spelling whose
      lower case was not in the table before and is not shared with
      another added word; the table's other invariants are kept. */
  lemma SyncWordbooksAdds(db: Db, directoryExists: bool, files: seq<BookFile>)
    requires ValidDb(db)
    ensures var db' := SyncWordbooks(db, directoryExists, files);
      && ValidDb(db')
      && db' == db.(words := db'.words)
      && db.words <= db'.words
      && (!directoryExists ==> db' == db)
      && (forall i :: |db.words| <= i < |db'.words| ==> MadeFromBook(db'.words[i], files))
      && (forall i :: |db.words| <= i < |db'.words| ==>
            Lower(db'.words[i].word) != "" && Lower(db'.words[i].word) !in WordKeys(db.words))
      && (forall i, j :: |db.words| <= i < j < |db'.words| ==> Lower(db'.words[i].word) != Lower(db'.words[j].word))
  {
    if directoryExists {
      var source := e => InUsableBook(files, e);
      SyncFilesStep(db.words, WordKeys(db.words), files, source);
      var db' := SyncWordbooks(db, directoryExists, files);
      forall i | |db.words| <= i < |db'.words| ensures MadeFromBook(db'.words[i], files) {
        assert MadeFromSome(db'.words[i], source);
        var e :| source(e) && MadeFrom(db'.words[i], e);
        assert InUsableBook(files, e);
      }
      forall i, j | 0 <= i < j < |db'.words| ensures db'.words[i].id != db'.words[j].id {
        if j < |db.words| {
          assert db'.words[i] == db.words[i] && db'.words[j] == db.words[j];
        }
      }
    }
  }

  /** The entries whose key a pass over `files` considers. */
  predicate KeyCovered(keys: set<string>, e: RawEntry) {
    EntryKey(e) == "" || EntryKey(e) in keys
  }

  lemma {:induction false} SyncEntriesCovers(words: seq<Word>, keys: set<string>, entries: seq<RawEntry>)
    ensures var keys' := SyncEntries(words, keys, entries).1;
      keys <= keys' && forall i :: 0 <= i < |entries| ==> KeyCovered(keys', entries[i])
    decreases |entries|
  {
    if entries != [] {
      var e := entries[0];
      var key := EntryKey(e);
      var keys1 := if key == "" || key in keys then keys else keys + {key};
      var words1 := if key == "" || key in keys then words else words + [NewWord(words, e)];
      SyncEntriesCovers(words1, keys1, entries[1..]);
      forall i | 1 <= i < |entries| ensures KeyCovered(SyncEntries(words, keys, entries).1, entries[i]) {
        assert entries[i] == entries[1..][i - 1];
      }
    }
  }

  /** Entries whose keys are all covered add nothing. */
  lemma {:induction false} SyncEntriesCovered(words: seq<Word>, keys: set<string>, entries: seq<RawEntry>)
    requires forall i :: 0 <= i < |entries| ==> KeyCovered(keys, entries[i])
    ensures SyncEntries(words, keys, entries) == (words, keys)
    decreases |entries|
  {
    if entries != [] {
      SyncEntriesCovered(words, keys, entries[1..]);
    }
  }

  /** Every usable entry of a usable file has its key in the final key set. */
  predicate FilesCovered(keys: set<string>, files: seq<BookFile>) {
    forall n :: 0 <= n < |files| && IsWordBookFileName(files[n].name) && files[n].content.Some? ==>
      forall i :: 0 <= i < |files[n].content.value| ==> KeyCovered(keys, files[n].content.value[i])
  }

  lemma {:induction false} SyncFilesCovers(words: seq<Word>, keys: set<string>, files: seq<BookFile>)
    ensures var keys' := SyncFiles(words, keys, files).1;
      keys <= keys' && FilesCovered(keys', files)
    decreases |files|
  {
    if files != [] {
      var f := files[0];
      var (w1, k1) := if !IsWordBookFileName(f.name) || f.content.None? then (words, keys)
                      else SyncEntries(words, keys, f.content.value);
      if IsWordBookFileName(f.name) && f.content.Some? {
        SyncEntriesCovers(words, keys, f.content.value);
      }
      SyncFilesCovers(w1, k1, files[1..]);
      var keys' := SyncFiles(words, keys, files).1;
      forall n | 0 <= n < |files| && IsWordBookFileName(files[n].name) && files[n].content.Some?
        ensures forall i :: 0 <= i < |files[n].content.value| ==> KeyCovered(keys', files[n].content.value[i])
      {
        if n > 0 {
          assert files[n] == files[1..][n - 1];
        }
      }
    }
  }

  lemma {:induction false} SyncFilesCovered(words: seq<Word>, keys: set<string>, files: seq<BookFile>)
    requires FilesCovered(keys, files)
    ensures SyncFiles(words, keys, files) == (words, keys)
    decreases |files|
  {
    if files != [] {
      var f := files[0];
      if IsWordBookFileName(f.name) && f.content.Some? {
        SyncEntriesCovered(words, keys, f.content.value);
      }
      forall n | 0 <= n < |files[1..]| && IsWordBookFileName(files[1..][n].name) && files[1..][n].content.Some?
        ensures forall i :: 0 <= i < |files[1..][n].content.value| ==> KeyCovered(keys, files[1..][n].content.value[i])
      {
        assert files[1..][n] == files[n + 1];
      }
      SyncFilesCovered(words, keys, files[1..]);
    }
  }

  /** Running sync_wordbooks again over the same directory adds nothing. */
  lemma SyncWordbooksIdempotent(db: Db, directoryExists: bool, files: seq<BookFile>)
    ensures var db1 := SyncWordbooks(db, directoryExists, files);
      SyncWordbooks(db1, directoryExists, files) == db1
  {
    if directoryExists {
      var (w1, k1) := SyncFiles(db.words, WordKeys(db.words), files);
      SyncFilesStep(db.words, WordKeys(db.words), files, e => InUsableBook(files, e));
      SyncFilesCovers(db.words, WordKeys(db.words), files);
      SyncFilesCovered(w1, k1, files);
    }
  }

  /** As written, list_favorites with q = "translation" keeps every
      favorite whose word has a translation. */
  lemma ListFavoritesAsWrittenMatchesKeyName(db: Db, userId: int, row: FavoriteRow)
    requires row in JoinFavorites(db.favorites, db.words, userId) && row.word.translations != []
    ensures row in ListFavoritesAsWritten(db, userId, Some("translation"))
  {
    var q := Lower("translation");
    assert q == "translation";
    TranslationsJsonHasKey(row.word.translations);
    ListFavoritesAsWrittenKeeps(db, userId, row, "translation");
  }

  /** A joined row that the filter as written accepts is listed. */
  lemma ListFavoritesAsWrittenKeeps(db: Db, userId: int, row: FavoriteRow, query: string)
    requires row in JoinFavorites(db.favorites, db.words, userId)
    requires query != [] && RowMatchesAsWritten(Lower(query))(row)
    ensures row in ListFavoritesAsWritten(db, userId, Some(query))
  {
    var rows := JoinFavorites(db.favorites, db.words, userId);
    FilterMember(rows, RowMatchesAsWritten(Lower(query)), row);
    var filtered := Filter(rows, RowMatchesAsWritten(Lower(query)));
    assert row in multiset(filtered);
    assert row in multiset(SortByAddedDesc(filtered));
  }

}
