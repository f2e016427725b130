/** The endpoint logic of backend/app/main.py on top of the table rules:
    the daily quota, the statistics, the word-book file names, the admin
    guards and the error statuses. A handler takes the current user (the
    one `get_current_user` resolved from the token) and the tables, and
    gives the new tables and the response or the HTTP error. */
module Api {
  import opened Wrappers
  import opened Text
  import opened Models
  import opened Crud

  /** An `HTTPException(status_code, detail)`. */
  datatype HttpError = HttpError(status: int, detail: string)

  // ---------------------------------------------------------------
  // words_today and stats_overview
  // ---------------------------------------------------------------

  function ReviewedTodayBy(userId: int, todayStart: int): ReviewLog -> bool {
    (l: ReviewLog) => l.userId == userId && l.reviewedAt >= todayStart
  }

  function OfUser(userId: int): ReviewLog -> bool {
    (l: ReviewLog) => l.userId == userId
  }

  /** `count()` of the user's logs reviewed at or after the start of today. */
  function ReviewedToday(logs: seq<ReviewLog>, userId: int, todayStart: int): nat {
    |Filter(logs, ReviewedTodayBy(userId, todayStart))|
  }

  /** The quota left: with a truthy limit, `max(limit - reviewed_today, 0)`;
      an absent or zero limit leaves no cap (None). */
  function Remaining(limit: Option<int>, reviewedToday: nat): (r: Option<nat>)
    ensures r.Some? <==> limit.Some? && limit.value != 0
    ensures r.Some? ==> r.value <= if limit.value > 0 then limit.value else 0
    ensures r.Some? ==> (r.value == 0 <==> reviewedToday >= limit.value)
    ensures r.Some? && reviewedToday < limit.value ==> r.value + reviewedToday == limit.value
  {
    if limit.Some? && limit.value != 0 then
      Some(if limit.value - reviewedToday > 0 then limit.value - reviewedToday else 0)
    else None
  }

  /** A Word row as the browser receives it: a NULL `phrases` becomes []. */
  function ToWordOut(w: Word, addedAt: Option<int>): WordOut {
    WordOut(w.id, w.word, w.translations, if w.phrases.Some? then w.phrases.value else [], addedAt)
  }

  function WordOuts(ws: seq<Word>): seq<WordOut> {
    seq(|ws|, i requires 0 <= i < |ws| => ToWordOut(ws[i], None))
  }

  /** What words_today answers: the due words, cut to the remaining quota. */
  function TodayWords(db: Db, userId: int, limit: Option<int>, todayStart: int, today: int): seq<WordOut> {
    var remaining := Remaining(limit, ReviewedToday(db.logs, userId, todayStart));
    var due := DueWords(db.words, db.logs, userId, today);
    WordOuts(if remaining.Some? then SliceTo(due, remaining.value) else due)
  }

  /** words_today never answers more words than the quota leaves and
      otherwise answers every due word, in table order. */
  lemma TodayWordsWithinQuota(db: Db, userId: int, limit: Option<int>, todayStart: int, today: int)
    ensures var r := TodayWords(db, userId, limit, todayStart, today);
      var due := DueWords(db.words, db.logs, userId, today);
      var remaining := Remaining(limit, ReviewedToday(db.logs, userId, todayStart));
      && (remaining.Some? ==> |r| == if |due| <= remaining.value then |due| else remaining.value)
      && (remaining.None? ==> |r| == |due|)
      && forall i :: 0 <= i < |r| ==> r[i] == ToWordOut(due[i], None)
  {
  }

  /** The handler: get_due_words under the quota, then one WordOut per
      word. */
  method WordsToday(db: Db, userId: int, limit: Option<int>, todayStart: int, today: int)
    returns (result: seq<WordOut>)
    requires ValidDb(db)
    ensures result == TodayWords(db, userId, limit, todayStart, today)
  {
    var remaining := Remaining(limit, ReviewedToday(db.logs, userId, todayStart));
    var words := GetDueWords(db.words, db.logs, userId, today,
                             if remaining.Some? then Some(remaining.value as int) else None);
    result := [];
    var i := 0;
    while i < |words|
      invariant 0 <= i <= |words|
      invariant result == WordOuts(words[..i])
    {
      result := result + [ToWordOut(words[i], None)];
      i := i + 1;
    }
    assert words[..i] == words;
  }

  /** The earliest `next_review` among the logs (SQL `min`), None when
      there are none. */
  function MinNextReview(logs: seq<ReviewLog>): (r: Option<int>)
    ensures r.None? <==> logs == []
    ensures r.Some? ==> (exists i :: 0 <= i < |logs| && logs[i].nextReview == r.value)
                        && forall i :: 0 <= i < |logs| ==> r.value <= logs[i].nextReview
    decreases |logs|
  {
    if logs == [] then None
    else
      match MinNextReview(logs[1..])
      case None => Some(logs[0].nextReview)
      case Some(m) => Some(if logs[0].nextReview <= m then logs[0].nextReview else m)
  }

  datatype Stats = Stats(reviewed: nat, due: nat, nextDue: Option<int>)

  /** stats_overview: how many logs the user has, how many words are due
      (capped by the quota when a limit is given) and the earliest next
      review. */
  function StatsOverview(db: Db, userId: int, limit: Option<int>, todayStart: int, today: int): Stats {
    var userLogs := Filter(db.logs, OfUser(userId));
    var due := DueWords(db.words, db.logs, userId, today);
    var remaining := Remaining(limit, ReviewedToday(db.logs, userId, todayStart));
    Stats(|userLogs|, |if remaining.Some? then SliceTo(due, remaining.value) else due|, MinNextReview(userLogs))
  }

  /** The `due` count of stats_overview is the number of words words_today
      would answer, the minimum of the due words and the quota; `next_due`
      is the earliest next review of one of the user's logs. */
  lemma StatsDueAgreesWithToday(db: Db, userId: int, limit: Option<int>, todayStart: int, today: int)
    ensures var s := StatsOverview(db, userId, limit, todayStart, today);
      var due := DueWords(db.words, db.logs, userId, today);
      var remaining := Remaining(limit, ReviewedToday(db.logs, userId, todayStart));
      && s.due == |TodayWords(db, userId, limit, todayStart, today)|
      && (remaining.Some? ==> s.due == if |due| <= remaining.value then |due| else remaining.value)
      && (s.nextDue.None? <==> forall i :: 0 <= i < |db.logs| ==> db.logs[i].userId != userId)
      && (s.nextDue.Some? ==> exists l :: l in db.logs && l.userId == userId && l.nextReview == s.nextDue.value)
      && (s.nextDue.Some? ==> forall l :: l in db.logs && l.userId == userId ==> s.nextDue.value <= l.nextReview)
  {
    var userLogs := Filter(db.logs, OfUser(userId));
    forall l ensures l in userLogs <==> l in db.logs && l.userId == userId {
      FilterMember(db.logs, OfUser(userId), l);
    }
    if userLogs == [] {
      forall i | 0 <= i < |db.logs| ensures db.logs[i].userId != userId {
        assert db.logs[i] !in userLogs;
      }
    } else {
      assert userLogs[0] in userLogs;
      var m := MinNextReview(userLogs).value;
      var k :| 0 <= k < |userLogs| && userLogs[k].nextReview == m;
      assert userLogs[k] in userLogs;
      forall l | l in db.logs && l.userId == userId ensures m <= l.nextReview {
        assert l in userLogs;
      }
    }
  }

  lemma FilterEmpty<T>(s: seq<T>, p: T -> bool)
    requires forall i :: 0 <= i < |s| ==> !p(s[i])
    ensures Filter(s, p) == []
  {
    if Filter(s, p) != [] {
      FilterMember(s, p, Filter(s, p)[0]);
      assert false;
    }
  }

  /** The daily-limit flow of backend/tests/test_api.py: a new user with
      limit 1 gets one word; the review succeeds on any day before
      30 December 9999, and once the word is reviewed today, words_today
      answers [] and stats_overview reports nothing due. */
  lemma DailyLimitRespected(db: Db, userId: int, todayStart: int, today: int, now: int)
    requires forall i :: 0 <= i < |db.logs| ==> db.logs[i].userId != userId
    requires db.words != []
    requires todayStart <= now
    requires today + 2 <= MaxDay
    ensures |TodayWords(db, userId, Some(1), todayStart, today)| == 1
    ensures var (db', r) := RecordReview(db, userId, TodayWords(db, userId, Some(1), todayStart, today)[0].id, 5, today, now);
      && r.Some?
      && TodayWords(db', userId, Some(1), todayStart, today) == []
      && StatsOverview(db', userId, Some(1), todayStart, today).due == 0
  {
    FirstRequestGetsOne(db, userId, todayStart, today);
    var wordId := TodayWords(db, userId, Some(1), todayStart, today)[0].id;
    ReviewCountsToday(db, userId, wordId, 5, today, now, todayStart);
    QuotaUsedUp(RecordReview(db, userId, wordId, 5, today, now).0, userId, todayStart, today);
  }

  /** A review made at or after the start of today counts toward today's
      quota. */
  lemma ReviewCountsToday(db: Db, userId: int, wordId: int, quality: int, today: int, now: int, todayStart: int)
    requires todayStart <= now
    ensures var (db', r) := RecordReview(db, userId, wordId, quality, today, now);
      r.Some? ==> ReviewedToday(db'.logs, userId, todayStart) >= 1
  {
    var (db', r) := RecordReview(db, userId, wordId, quality, today, now);
    if r.Some? {
      var found := FirstIndex(db.logs, LogFor(userId, wordId));
      if found.Some? {
        assert db'.logs[found.value] == r.value;
      } else {
        assert db'.logs[|db.logs|] == r.value;
      }
      FilterMember(db'.logs, ReviewedTodayBy(userId, todayStart), r.value);
    }
  }

  /** A user with no logs and limit 1 is given exactly one word when the
      word table is not empty. */
  lemma FirstRequestGetsOne(db: Db, userId: int, todayStart: int, today: int)
    requires forall i :: 0 <= i < |db.logs| ==> db.logs[i].userId != userId
    requires db.words != []
    ensures |TodayWords(db, userId, Some(1), todayStart, today)| == 1
  {
    FilterEmpty(db.logs, ReviewedTodayBy(userId, todayStart));
    var w := db.words[0];
    assert IsDue(db.logs, userId, today)(w);
    FilterMember(db.words, IsDue(db.logs, userId, today), w);
    assert DueWords(db.words, db.logs, userId, today) != [];
  }

  /** With limit 1 and a review already made today, nothing is answered
      and nothing is reported due. */
  lemma QuotaUsedUp(db: Db, userId: int, todayStart: int, today: int)
    requires ReviewedToday(db.logs, userId, todayStart) >= 1
    ensures TodayWords(db, userId, Some(1), todayStart, today) == []
    ensures StatsOverview(db, userId, Some(1), todayStart, today).due == 0
  {
    StatsDueAgreesWithToday(db, userId, Some(1), todayStart, today);
  }

  // ---------------------------------------------------------------
  // list_wordbooks and get_wordbook
  // ---------------------------------------------------------------

  /** The file that holds the word book `name`. */
  function BookFileName(name: string): string {
    "wordBook_" + name + ".json"
  }

  lemma WordBookNameLength(fn: string)
    requires IsWordBookFileName(fn)
    ensures |fn| >= 14
  {
    var k := |fn| - 5;
    assert fn[k] == '.' by {
      assert fn[k..][0] == fn[k];
    }
    forall i | 0 <= i < 9 ensures fn[i] != '.' {
      assert fn[i] == fn[..9][i] == "wordBook_"[i];
    }
  }

  /** `fn[len("wordBook_"):-5]` for a word-book file name, None for any
      other name. */
  function ParseBookName(fn: string): (r: Option<string>)
    ensures r.Some? <==> IsWordBookFileName(fn)
  {
    if IsWordBookFileName(fn) then
      WordBookNameLength(fn);
      Some(fn[9..|fn| - 5])
    else None
  }

  /** The name list_wordbooks shows names the file get_wordbook opens, and
      every name does: the two mappings are inverse to each other. */
  lemma BookNameRoundTrip(fn: string, name: string)
    ensures ParseBookName(BookFileName(name)) == Some(name)
    ensures ParseBookName(fn) == Some(name) ==> BookFileName(name) == fn
  {
    var f := BookFileName(name);
    assert f[..9] == "wordBook_";
    assert f[|f| - 5..] == ".json";
    assert f[9..|f| - 5] == name;
    if ParseBookName(fn) == Some(name) {
      WordBookNameLength(fn);
      assert fn == fn[..9] + fn[9..|fn| - 5] + fn[|fn| - 5..];
    }
  }

  /** The names list_wordbooks answers for a listing, in listing order. */
  function BookNames(listing: seq<string>): seq<string>
    decreases |listing|
  {
    if listing == [] then []
    else
      var rest := BookNames(listing[..|listing| - 1]);
      match ParseBookName(listing[|listing| - 1])
      case Some(n) => rest + [n]
      case None => rest
  }

  lemma {:induction false} BookNamesMember(listing: seq<string>, name: string)
    ensures name in BookNames(listing) <==> BookFileName(name) in listing
    decreases |listing|
  {
    if listing != [] {
      var init, last := listing[..|listing| - 1], listing[|listing| - 1];
      assert listing == init + [last];
      BookNamesMember(init, name);
      BookNameRoundTrip(last, name);
    }
  }

  /** list_wordbooks: the loop over `os.listdir`; nothing when the
      directory does not exist. A name is listed exactly when its file is
      in the directory. */
  method ListWordbooks(directoryExists: bool, listing: seq<string>) returns (books: seq<string>)
    ensures directoryExists ==> books == BookNames(listing)
    ensures !directoryExists ==> books == []
  {
    books := [];
    if directoryExists {
      var i := 0;
      while i < |listing|
        invariant 0 <= i <= |listing|
        invariant books == BookNames(listing[..i])
      {
        var fn := listing[i];
        assert listing[..i + 1][..i] == listing[..i];
        if "wordBook_" <= fn && EndsWith(fn, ".json") {
          WordBookNameLength(fn);
          books := books + [fn[9..|fn| - 5]];
        }
        i := i + 1;
      }
      assert listing[..i] == listing;
    }
  }

  /** get_wordbook: 404 when no file has the name; a file that does not
      parse makes `json.load` raise, which the server answers with 500. */
  function GetWordbook(files: seq<BookFile>, name: string): (r: Result<seq<RawEntry>, HttpError>)
    ensures r.Err? && r.error.status == 404 <==> forall i :: 0 <= i < |files| ==> files[i].name != BookFileName(name)
    ensures r.Ok? ==> exists i :: 0 <= i < |files| && files[i].name == BookFileName(name) && files[i].content == Some(r.value)
  {
    match FirstIndex(files, (f: BookFile) => f.name == BookFileName(name))
    case None => Err(HttpError(404, "Word book not found"))
    case Some(k) =>
      if files[k].content.Some? then Ok(files[k].content.value)
      else Err(HttpError(500, "Internal Server Error"))
  }

  function FileNames(files: seq<BookFile>): seq<string> {
    seq(|files|, i requires 0 <= i < |files| => files[i].name)
  }

  /** Every name list_wordbooks shows opens without a 404. */
  lemma ListedBooksOpen(files: seq<BookFile>, name: string)
    requires name in BookNames(FileNames(files))
    ensures !(GetWordbook(files, name).Err? && GetWordbook(files, name).error.status == 404)
  {
    BookNamesMember(FileNames(files), name);
    var i :| 0 <= i < |files| && FileNames(files)[i] == BookFileName(name);
    assert files[i].name == BookFileName(name);
  }

  // ---------------------------------------------------------------
  // register, remove_fav, the admin endpoints
  // ---------------------------------------------------------------

  /** register: 400 "Username taken" when create_user fails; otherwise the
      new user's id, which the access token carries as "sub". */
  function Register(db: Db, username: string, password: string): (Db, Result<int, HttpError>) {
    var (db', u) := CreateUser(db, username, password, "user");
    if u.None? then (db', Err(HttpError(400, "Username taken"))) else (db', Ok(u.value.id))
  }

  lemma RegisterContract(db: Db, username: string, password: string)
    requires ValidDb(db)
    ensures var (db', r) := Register(db, username, password);
      && ValidDb(db')
      && (r.Err? <==> exists i :: 0 <= i < |db.users| && db.users[i].username == username)
      && (r.Err? ==> r.error == HttpError(400, "Username taken") && db' == db)
      && (r.Ok? ==> |db'.users| == |db.users| + 1
                    && db'.users[|db.users|] == User(r.value, username, Bcrypt(password), "user"))
  {
    CreateUserContract(db, username, password, "user");
  }

  /** remove_fav: 404 "Not found" exactly when the user has no such
      favorite. */
  function RemoveFav(db: Db, current: User, wordId: int): (Db, Result<string, HttpError>) {
    var (db', ok) := RemoveFavorite(db, current.id, wordId);
    if !ok then (db', Err(HttpError(404, "Not found"))) else (db', Ok("ok"))
  }

  lemma RemoveFavContract(db: Db, current: User, wordId: int)
    requires ValidDb(db)
    ensures var (db', r) := RemoveFav(db, current, wordId);
      && (r.Err? <==> forall i :: 0 <= i < |db.favorites| ==> !FavoriteFor(current.id, wordId)(db.favorites[i]))
      && (r.Err? ==> r.error.status == 404 && db' == db)
      && (r.Ok? ==> |db'.favorites| == |db.favorites| - 1)
  {
    RemoveFavoriteContract(db, current.id, wordId);
  }

  /** The role check every admin endpoint makes first. */
  function AdminGuard(current: User): Option<HttpError> {
    if current.role != "admin" then Some(HttpError(403, "Not authorized")) else None
  }

  function AdminUsers(db: Db, current: User): Result<seq<UserOut>, HttpError> {
    if AdminGuard(current).Some? then Err(AdminGuard(current).value)
    else Ok(seq(|db.users|, i requires 0 <= i < |db.users| => UserOut(db.users[i].id, db.users[i].username, db.users[i].role)))
  }

  /** admin_reset answers "ok" whether or not the user exists: the result
      of reset_password is not looked at. */
  function AdminReset(db: Db, current: User, userId: int, password: string): (Db, Result<string, HttpError>) {
    if AdminGuard(current).Some? then (db, Err(AdminGuard(current).value))
    else (ResetPassword(db, userId, password).0, Ok("ok"))
  }

  /** One row of admin_list_deletions. */
  datatype DeletionOut = DeletionOut(userId: int, username: string, requestedAt: int)

  /** The row for one request: its user's id and name with the request's
      stamp, or nothing when no user has the request's user id. */
  function RowFor(users: seq<User>, r: DeletionRequest): (row: Option<DeletionOut>)
    ensures row.None? <==> forall i :: 0 <= i < |users| ==> users[i].id != r.userId
    ensures row.Some? ==> row.value.userId == r.userId && row.value.requestedAt == r.requestedAt
                          && exists i :: 0 <= i < |users| && users[i].id == r.userId && users[i].username == row.value.username
  {
    match FirstIndex(users, UserWithId(r.userId))
    case None => None
    case Some(k) =>
      Some(DeletionOut(users[k].id, users[k].username, r.requestedAt))
  }

  /** The rows for the requests in order; a request whose user no longer
      exists is skipped. */
  function DeletionRows(users: seq<User>, reqs: seq<DeletionRequest>): seq<DeletionOut>
    decreases |reqs|
  {
    if reqs == [] then []
    else
      var r := reqs[|reqs| - 1];
      DeletionRows(users, reqs[..|reqs| - 1]) + (if RowFor(users, r).Some? then [RowFor(users, r).value] else [])
  }

  lemma {:induction false} DeletionRowsMember(users: seq<User>, reqs: seq<DeletionRequest>, row: DeletionOut)
    ensures row in DeletionRows(users, reqs) <==> exists r :: r in reqs && RowFor(users, r) == Some(row)
    decreases |reqs|
  {
    if reqs != [] {
      var init, r := reqs[..|reqs| - 1], reqs[|reqs| - 1];
      assert reqs == init + [r];
      DeletionRowsMember(users, init, row);
    }
  }

  /** admin_list_deletions: the loop over the requests that looks up each
      request's user. */
  method AdminListDeletions(db: Db, current: User) returns (r: Result<seq<DeletionOut>, HttpError>)
    ensures current.role != "admin" ==> r == Err(HttpError(403, "Not authorized"))
    ensures current.role == "admin" ==> r == Ok(DeletionRows(db.users, db.deletions))
  {
    if current.role != "admin" {
      return Err(HttpError(403, "Not authorized"));
    }
    var result := [];
    var i := 0;
    while i < |db.deletions|
      invariant 0 <= i <= |db.deletions|
      invariant result == DeletionRows(db.users, db.deletions[..i])
    {
      var req := db.deletions[i];
      assert db.deletions[..i + 1][..i] == db.deletions[..i];
      var found := FirstIndex(db.users, UserWithId(req.userId));
      if found.Some? {
        var user := db.users[found.value];
        result := result + [DeletionOut(user.id, user.username, req.requestedAt)];
      }
      assert found.Some? <==> RowFor(db.users, req).Some?;
      i := i + 1;
    }
    assert db.deletions[..i] == db.deletions;
    r := Ok(result);
  }

  /** admin_approve_delete: 403 for a non-admin, 404 "User not found" when
      delete_user finds no such user, otherwise "deleted". */
  function AdminApproveDelete(db: Db, current: User, userId: int): (Db, Result<string, HttpError>) {
    if AdminGuard(current).Some? then (db, Err(AdminGuard(current).value))
    else
      var (db', ok) := DeleteUser(db, userId);
      if !ok then (db', Err(HttpError(404, "User not found"))) else (db', Ok("deleted"))
  }

  /** Every admin endpoint answers 403 to a user whose role is not
      "admin" and then changes nothing; for an admin none of them answers
      403. */
  lemma AdminEndpointsGuarded(db: Db, current: User, userId: int, password: string)
    requires ValidDb(db)
    ensures current.role != "admin" <==> AdminUsers(db, current) == Err(HttpError(403, "Not authorized"))
    ensures current.role != "admin" <==> AdminReset(db, current, userId, password) == (db, Err(HttpError(403, "Not authorized")))
    ensures current.role != "admin" <==> AdminApproveDelete(db, current, userId) == (db, Err(HttpError(403, "Not authorized")))
    ensures current.role == "admin" ==>
      (AdminApproveDelete(db, current, userId).1.Err? <==> forall i :: 0 <= i < |db.users| ==> db.users[i].id != userId)
  {
    DeleteUserCascades(db, userId);
  }

  // ---------------------------------------------------------------
  // generate_article: the checks before the language-model call
  // ---------------------------------------------------------------

  function IdIn(ids: seq<int>): Word -> bool {
    (w: Word) => w.id in ids
  }

  function Spellings(ws: seq<Word>): seq<string> {
    seq(|ws|, i requires 0 <= i < |ws| => ws[i].word)
  }

  /** The word list generate_article would send: the spellings of the
      table's words whose id is requested, in table order. Fewer than one
      or more than 30 words is a 400; a missing API key a 500. */
  function GenerateArticle(words: seq<Word>, wordIds: seq<int>, apiKeyConfigured: bool): (r: Result<seq<string>, HttpError>)
  {
    var found := Spellings(Filter(words, IdIn(wordIds)));
    if found == [] then Err(HttpError(400, "Word list is empty"))
    else if |found| > 30 then Err(HttpError(400, "Too many words (limit 30)"))
    else if !apiKeyConfigured then Err(HttpError(500, "API KEY not configured"))
    else Ok(found)
  }

  /** The service is only asked with between 1 and 30 words: exactly the
      spellings of the table words whose id was requested, in table
      order, so every such word is sent and nothing else. No such word is
      the "Word list is empty" 400, more than 30 the "Too many words" 400;
      between 1 and 30 the request goes ahead exactly when an API key is
      configured, and is otherwise the 500. */
  lemma GenerateArticleBounds(words: seq<Word>, wordIds: seq<int>, apiKeyConfigured: bool)
    ensures var r := GenerateArticle(words, wordIds, apiKeyConfigured);
      var requested := Filter(words, IdIn(wordIds));
      && (r.Ok? ==> 1 <= |r.value| <= 30 && apiKeyConfigured)
      && (r.Ok? ==> r.value == Spellings(requested))
      && (r.Ok? ==> forall s :: s in r.value ==> exists w :: w in words && w.id in wordIds && w.word == s)
      && (r.Ok? ==> forall w :: w in words && w.id in wordIds ==> w.word in r.value)
      && (wordIds == [] ==> r == Err(HttpError(400, "Word list is empty")))
      && ((forall w :: w in words ==> w.id !in wordIds) <==> r == Err(HttpError(400, "Word list is empty")))
      && (|requested| > 30 <==> r == Err(HttpError(400, "Too many words (limit 30)")))
      && (1 <= |requested| <= 30 ==>
            (apiKeyConfigured <==> r.Ok?)
            && (!apiKeyConfigured ==> r == Err(HttpError(500, "API KEY not configured"))))
  {
    var ws := Filter(words, IdIn(wordIds));
    forall w ensures w in ws <==> w in words && w.id in wordIds {
      FilterMember(words, IdIn(wordIds), w);
    }
    forall s | s in Spellings(ws) ensures exists w :: w in words && w.id in wordIds && w.word == s {
      var i :| 0 <= i < |ws| && Spellings(ws)[i] == s;
      assert ws[i] in ws;
    }
    forall w | w in words && w.id in wordIds ensures w.word in Spellings(ws) {
      var i :| 0 <= i < |ws| && ws[i] == w;
      assert Spellings(ws)[i] == w.word;
    }
    if ws != [] {
      assert ws[0] in ws;
    }
  }
}
