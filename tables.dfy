/** The database as the backend sees it through its session: five tables
    whose rows crud.py adds, updates and deletes in place. Every method
    leaves the tables exactly as the matching function of module `Crud`
    describes, so the properties proved there hold for the object. */
module Tables {
  import opened Wrappers
  import opened Text
  import opened Models
  import opened Crud

  class Database {
    var users: seq<User>
    var words: seq<Word>
    var logs: seq<ReviewLog>
    var deletions: seq<DeletionRequest>
    var favorites: seq<Favorite>

    /** The tables as a value. */
    ghost function State(): Db
      reads this
    {
      Db(users, words, logs, deletions, favorites)
    }

    ghost predicate Valid()
      reads this
    {
      ValidDb(State())
    }

    constructor(db: Db)
      ensures State() == db
    {
      users, words, logs, deletions, favorites := db.users, db.words, db.logs, db.deletions, db.favorites;
    }

    method CreateUser(username: string, password: string, role: string) returns (r: Option<User>)
      requires Valid()
      modifies this
      ensures Valid()
      ensures (State(), r) == Crud.CreateUser(old(State()), username, password, role)
    {
      CreateUserContract(State(), username, password, role);
      if FirstIndex(users, UserNamed(username)).Some? {
        return None;
      }
      var user := User(NextRowId(UserIds(users)), username, Bcrypt(password), role);
      users := users + [user];
      r := Some(user);
    }

    method EnsureDefaultAdmin() returns (r: Option<User>)
      requires Valid()
      modifies this
      ensures Valid()
      ensures (State(), r) == Crud.EnsureDefaultAdmin(old(State()))
    {
      CreateUserContract(State(), "Admin", "88888888", "admin");
      if FirstIndex(users, UserNamed("Admin")).Some? {
        return None;
      }
      var admin := User(NextRowId(UserIds(users)), "Admin", Bcrypt("88888888"), "admin");
      users := users + [admin];
      r := Some(admin);
    }

    method ResetPassword(userId: int, newPassword: string) returns (r: Option<User>)
      requires Valid()
      modifies this
      ensures Valid()
      ensures (State(), r) == Crud.ResetPassword(old(State()), userId, newPassword)
    {
      ResetPasswordContract(State(), userId, newPassword);
      var found := FirstIndex(users, UserWithId(userId));
      if found.None? {
        return None;
      }
      var k := found.value;
      var user := users[k].(hashedPassword := Bcrypt(newPassword));
      users := users[k := user];
      r := Some(user);
    }

    /** record_review: the interval is computed step by step as crud.py
        does; None when the next review would fall after `date.max`,
        otherwise the found log is updated or a new one appended. */
    method RecordReview(userId: int, wordId: int, quality: int, today: int, now: int) returns (r: Option<ReviewLog>)
      requires Valid()
      modifies this
      ensures Valid()
      ensures (State(), r) == Crud.RecordReview(old(State()), userId, wordId, quality, today, now)
    {
      RecordReviewUpserts(State(), userId, wordId, quality, today, now);
      var found := FirstIndex(logs, LogFor(userId, wordId));
      var interval := 1;
      if found.Some? {
        interval := logs[found.value].lastInterval;
      }
      if quality >= 3 {
        interval := interval * 2;
      } else {
        interval := 1;
      }
      if today + interval > MaxDay {
        return None;
      }
      var nextReview := today + interval;
      var log;
      if found.Some? {
        var k := found.value;
        log := logs[k].(quality := quality, lastInterval := interval, nextReview := nextReview, reviewedAt := now);
        logs := logs[k := log];
      } else {
        log := ReviewLog(NextRowId(LogIds(logs)), userId, wordId, quality, interval, nextReview, now);
        logs := logs + [log];
      }
      r := Some(log);
    }

    method AddFavorite(userId: int, wordId: int, now: int) returns (fav: Favorite)
      requires Valid()
      modifies this
      ensures Valid()
      ensures (State(), fav) == Crud.AddFavorite(old(State()), userId, wordId, now)
    {
      AddFavoriteIdempotent(State(), userId, wordId, now, now);
      var found := FirstIndex(favorites, FavoriteFor(userId, wordId));
      if found.Some? {
        return favorites[found.value];
      }
      fav := Favorite(NextRowId(FavoriteIds(favorites)), userId, wordId, now);
      favorites := favorites + [fav];
    }

    method RemoveFavorite(userId: int, wordId: int) returns (ok: bool)
      requires Valid()
      modifies this
      ensures Valid()
      ensures (State(), ok) == Crud.RemoveFavorite(old(State()), userId, wordId)
    {
      RemoveFavoriteContract(State(), userId, wordId);
      var found := FirstIndex(favorites, FavoriteFor(userId, wordId));
      if found.None? {
        return false;
      }
      var k := found.value;
      favorites := favorites[..k] + favorites[k + 1..];
      ok := true;
    }

    method CreateDeletionRequest(userId: int, now: int) returns (req: DeletionRequest)
      requires Valid()
      modifies this
      ensures Valid()
      ensures (State(), req) == Crud.CreateDeletionRequest(old(State()), userId, now)
    {
      CreateDeletionRequestIdempotent(State(), userId, now, now);
      var found := FirstIndex(deletions, DeletionFor(userId));
      if found.Some? {
        return deletions[found.value];
      }
      req := DeletionRequest(NextRowId(DeletionIds(deletions)), userId, now);
      deletions := deletions + [req];
    }

    /** delete_user with the Favorite rows removed as well (see
        `Crud.DeleteUser`). */
    method DeleteUser(userId: int) returns (ok: bool)
      requires Valid()
      modifies this
      ensures Valid()
      ensures (State(), ok) == Crud.DeleteUser(old(State()), userId)
    {
      ghost var after := Crud.DeleteUser(State(), userId).0;
      DeleteUserKeepsValid(State(), userId);
      if FirstIndex(users, UserWithId(userId)).None? {
        return false;
      }
      logs := Filter(logs, NotOfUserLog(userId));
      assert logs == after.logs;
      deletions := Filter(deletions, NotOfUserDeletion(userId));
      assert deletions == after.deletions;
      favorites := Filter(favorites, NotOfUserFavorite(userId));
      assert favorites == after.favorites;
      users := Filter(users, OtherUser(userId));
      assert users == after.users;
      assert State() == after;
      ok := true;
    }

    /** sync_wordbooks: the two loops of crud.py:276-297 over the listing
        and over each file's entries, with the `existing` keys as a local
        set. */
    method SyncWordbooks(directoryExists: bool, files: seq<BookFile>)
      requires Valid()
      modifies this
      ensures Valid()
      ensures State() == Crud.SyncWordbooks(old(State()), directoryExists, files)
    {
      SyncWordbooksAdds(State(), directoryExists, files);
      if !directoryExists {
        return;
      }
      var keys := WordKeys(words);
      var i := 0;
      while i < |files|
        invariant 0 <= i <= |files|
        invariant SyncFiles(words, keys, files[i..]) == SyncFiles(old(words), WordKeys(old(words)), files)
        invariant users == old(users) && logs == old(logs)
        invariant deletions == old(deletions) && favorites == old(favorites)
      {
        var f := files[i];
        assert files[i..][1..] == files[i + 1..];
        if IsWordBookFileName(f.name) && f.content.Some? {
          var entries := f.content.value;
          var j := 0;
          while j < |entries|
            invariant 0 <= j <= |entries|
            invariant SyncFiles(SyncEntries(words, keys, entries[j..]).0, SyncEntries(words, keys, entries[j..]).1, files[i + 1..])
                      == SyncFiles(old(words), WordKeys(old(words)), files)
            invariant users == old(users) && logs == old(logs)
            invariant deletions == old(deletions) && favorites == old(favorites)
          {
            var e := entries[j];
            assert entries[j..][1..] == entries[j + 1..];
            var key := EntryKey(e);
            if key != "" && key !in keys {
              words := words + [NewWord(words, e)];
              keys := keys + {key};
            }
            j := j + 1;
          }
        }
        i := i + 1;
      }
    }
  }
}
