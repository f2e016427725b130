# Word Cards — a Dafny model of the study queue and its server rules

Word Cards is a flashcard vocabulary trainer. A FastAPI backend keeps five
tables — users, words, review logs, deletion requests and favorites — and
schedules each word by a doubling spaced-repetition interval. The browser
dashboard fetches the words due today, up to a daily quota, and walks a
queue of cards. A card the learner does not know goes back to the end of
the queue. A fuzzy card is followed at once by a reversed card.

This project models:

- the dashboard's study queue as a class whose methods change the queue,
  the cursor and the flip flag in place;
- the table rules of the backend's CRUD layer, both as functions over a
  value of the whole database and as a class whose methods update the
  tables in place;
- the arithmetic and guards of the HTTP endpoints: the daily quota, the
  word-book file names, the admin role checks and the article word bounds;
- the two string helpers of the web client, HTML escaping and the
  password rule.

Modules:

- `Wrappers`: `Option` and `Result`.
- `Text`: ASCII lower-casing as SQLite does it, substring and prefix
  tests, the order-keeping `Filter`, `FirstIndex` for `.first()`, Python
  slicing, and the JSON text that `json.dumps` writes for a list of
  translation objects of one assumed shape (an optional "type" key, then
  "translation").
- `Models`: the records of `models.py` and `schemas.py`, plus SQLite's
  choice of a new row id.
- `Crud`: the database as a value `Db` and every operation of `crud.py`
  as a function returning the new database and the result, with lemmas
  stating what each promises.
- `Tables`: class `Database`, whose methods update the five tables in
  place. Each method is proved to leave exactly the state the matching
  `Crud` function describes.
- `Api`: the endpoints of `main.py`, with HTTP errors as a `Result`.
- `Common`: `escapeHTML` and `validatePassword`.
- `Dashboard`: the card queue, rendering, the `parseInt`-based daily
  count, and class `StudyPage` holding the page's state.

Time is a parameter:

- `today` is a day number, counted as Python's `date.toordinal()` does;
- `now` and `todayStart` are timestamps.

Directory listings and parsed file contents are also parameters. Whether
a review POST succeeded is a boolean parameter.

## Model

| member | source | states |
|---|---|---|
| Text.FirstIndex | backend/app/crud.py:78-82 | `.first()` of a query: the index of the first row satisfying the condition, None exactly when no row does |
| Text.SliceTo | backend/app/crud.py:70-71 | Python's `words[:limit]` for any integer limit, negative included: the result is a prefix of the list, of length `limit`, `len + limit` or 0, clipped to the list |
| Models.NextRowId | backend/app/models.py:11 | the id SQLite gives a new row is positive, larger than every id in the table, and is 1 or one more than an existing id |
| Models.TranslationInJson | backend/app/crud.py:291-293 | the JSON text stored for a word's translations contains every translation that needs no JSON escape |
| Crud.CreateUserContract | backend/app/crud.py:19-43 | create_user fails exactly when the username is taken, and then nothing changes; otherwise it appends one user with a fresh id, the hashed password and the role, and the tables stay valid |
| Crud.EnsureDefaultAdminIdempotent | backend/app/crud.py:155-169 | when a user named "Admin" exists, nothing changes and None is returned; otherwise exactly one user is appended: "Admin", password 88888888, role "admin", a fresh id. A second call creates nothing, and afterwards a user named "Admin" exists |
| Crud.ResetPasswordContract | backend/app/crud.py:143-152 | None with no change exactly when no user has the id; otherwise only that user's hash is replaced |
| Crud.NextInterval | backend/app/crud.py:83-90 | the new interval is at least 1, and a success (quality at least 3) makes it strictly longer than the previous one |
| Crud.IntervalIsPowerOfTrailingSuccesses | backend/app/crud.py:83-91 | over a sequence of reviews, the interval is 2 to the power of the number of trailing successes |
| Crud.RecordReviewUpserts | backend/app/crud.py:75-108 | record_review fails with no change exactly when `today + interval` would pass `date.max` (OverflowError). Otherwise it is an upsert: afterwards exactly one log exists for (user, word). An existing log keeps its row and id; otherwise one row is appended. The interval follows NextInterval and `next_review = today + interval > today`. The other tables are untouched and the tables stay valid |
| Crud.LongStreakOverflows | backend/app/crud.py:83-91 | from 1 January 2026 on, a success on a word whose interval has reached 2^21 days (21 successes in a row) raises instead of recording the review, and changes nothing |
| Crud.AddFavoriteIdempotent | backend/app/crud.py:218-232 | when the pair has a row, add_favorite returns that row and changes nothing; otherwise it appends exactly one row for the pair, stamped `now`, with a fresh id. A second call returns the same row and changes nothing, and the tables stay valid |
| Crud.RemoveFavoriteContract | backend/app/crud.py:235-247 | True exactly when the pair had a row. False changes nothing. True removes exactly one row, no row of the pair is left, and every other favorite is kept |
| Crud.RemoveUndoesAdd | backend/app/crud.py:218-247 | for a pair with no favorite, removing after adding gives back the original database and True |
| Crud.CreateDeletionRequestIdempotent | backend/app/crud.py:172-184 | when the user has a request, create_deletion_request returns it and changes nothing; otherwise it appends exactly one request, stamped `now`, with a fresh id. A second call returns the same one and changes nothing, and the tables stay valid |
| Crud.DeleteUserCascades | backend/app/crud.py:193-215 | False with no change exactly for an unknown id. Otherwise exactly one user row goes, and with it every log, deletion request and favorite of that user, while every row of another user stays |
| Crud.FilterRemovesOne | backend/app/crud.py:196-203 | with unique ids, removing a present user's row shortens the user table by exactly one |
| Crud.DueWordsExactly | backend/app/crud.py:61-69 | with at most one log per (user, word), as the tables keep, a word is due exactly when the user has no log for it or its log's next review is not after today; a due word keeps its multiplicity in table order |
| Crud.GetDueWords | backend/app/crud.py:56-72 | with at most one log per (user, word), the loop collects exactly the due words, and with a limit returns the Python slice `[:limit]` of them |
| Crud.SearchWordsContract | backend/app/crud.py:111-127 | a word is found exactly when its lowered spelling or one of its lowered translations contains the lowered query. Each row appears once (the two groups are disjoint), and every prefix match precedes every other match |
| Crud.SearchFindsByTranslation | backend/tests/test_api.py:40-45 | searching for one of a word's translations finds that word, in the corrected search and, for text needing no JSON escape, in search_words as written |
| Crud.SearchAsWrittenMatchesKeyName | backend/app/crud.py:117-124 | as written, the query "translation" matches every word that has at least one translation, through the JSON key name |
| Crud.SearchKeyNameCounterexample | backend/app/crud.py:121 | a concrete word found by "translation" as written but not by the corrected search |
| Crud.InsertByAdded | backend/app/crud.py:264 | inserting one row into a newest-first list keeps it newest-first and adds exactly that row |
| Crud.SortByAddedDesc | backend/app/crud.py:264 | `ORDER BY added_at DESC`: the result is newest first and a permutation of the rows |
| Crud.JoinFavoritesMember | backend/app/crud.py:253-257 | a joined row is listed exactly when its word is in the table and the user has a favorite for it with that stamp |
| Crud.ListFavoritesContract | backend/app/crud.py:250-265 | list_favorites is newest first and, with one Favorite row per (user, word) and unique word ids, lists no row twice. A row is listed exactly when the user favorited that table word at that stamp and, for a non-empty `q`, the word matches it |
| Crud.ListFavoritesAsWrittenMatchesKeyName | backend/app/crud.py:258-263 | as written, the filter "translation" keeps every favorite whose word has a translation |
| Crud.DeleteUserLeavesNoFavorites | backend/app/crud.py:193-204 | after the corrected delete of an existing user, listing that id's favorites gives nothing |
| Crud.OrphanedFavoriteReappears | backend/app/crud.py:193-204 | with delete_user as written, a user registered after the deletion gets the deleted user's id and sees their favorite; with the corrected delete the list is empty |
| Crud.SyncEntriesStep | backend/app/crud.py:285-297 | one file's entries only append words: each added word is made from one of the entries (its spelling as written, its translations, its phrases), has a non-empty key that was not known and not added before, and an id larger than every earlier id; the key set is the keys of the new list |
| Crud.SyncFilesStep | backend/app/crud.py:276-297 | the same for the whole listing, each added word being made from an entry of a `wordBook_*.json` file that parses |
| Crud.SyncWordbooksAdds | backend/app/crud.py:268-298 | sync_wordbooks changes only the word table; a missing directory changes nothing; the old words stay in front; each new word is made from an entry of a `wordBook_*.json` file that parses, with that entry's spelling, translations and phrases, and has a fresh, non-empty, case-insensitively distinct spelling; the tables stay valid |
| Crud.SyncFilesCovers | backend/app/crud.py:276-297 | afterwards every entry of every word-book file has an empty key or a known key |
| Crud.SyncFilesCovered | backend/app/crud.py:285-288 | when every entry's key is empty or already known, nothing is added |
| Crud.SyncWordbooksIdempotent | backend/app/crud.py:268-298 | syncing the same files twice is the same as syncing once |
| Tables.Database.constructor | backend/app/models.py:8-52 | the object holds the given tables |
| Tables.Database.CreateUser | backend/app/crud.py:19-43 | the tables become what Crud.CreateUser gives, and stay valid |
| Tables.Database.EnsureDefaultAdmin | backend/app/crud.py:155-169 | the tables become what Crud.EnsureDefaultAdmin gives, and stay valid |
| Tables.Database.ResetPassword | backend/app/crud.py:143-152 | the user row is updated in place as Crud.ResetPassword gives, and the tables stay valid |
| Tables.Database.RecordReview | backend/app/crud.py:75-108 | computes the interval step by step, fails with no change past `date.max`, and otherwise updates or appends the log as Crud.RecordReview gives, keeping the tables valid |
| Tables.Database.AddFavorite | backend/app/crud.py:218-232 | the tables become what Crud.AddFavorite gives, and stay valid |
| Tables.Database.RemoveFavorite | backend/app/crud.py:235-247 | the tables become what Crud.RemoveFavorite gives, and stay valid |
| Tables.Database.CreateDeletionRequest | backend/app/crud.py:172-184 | the tables become what Crud.CreateDeletionRequest gives, and stay valid |
| Tables.Database.DeleteUser | backend/app/crud.py:193-204 | deletes the user's rows from every table as Crud.DeleteUser gives, and the tables stay valid |
| Tables.Database.SyncWordbooks | backend/app/crud.py:268-298 | the two loops over files and entries, with the local key set, leave the tables as Crud.SyncWordbooks gives, still valid |
| Api.Remaining | backend/app/main.py:166-180 | there is a cap exactly when the limit is truthy. The cap is never negative or above the limit, it is zero exactly when today's reviews reach the limit, and otherwise it is the limit minus today's reviews |
| Api.TodayWordsWithinQuota | backend/app/main.py:161-193 | words_today answers `min(due, remaining)` words, or all due words without a cap, each the i-th due word in table order |
| Api.WordsToday | backend/app/main.py:182-193 | the conversion loop answers exactly TodayWords |
| Api.MinNextReview | backend/app/main.py:250-255 | `min(next_review)` is None exactly for no logs, and otherwise is one log's value and at most every log's |
| Api.StatsDueAgreesWithToday | backend/app/main.py:222-257 | stats' `due` equals the number of words words_today would answer, `min(due, remaining)` with a cap. `next_due` is None exactly when the user has no log, and otherwise the earliest next review among that user's logs |
| Api.DailyLimitRespected | backend/tests/test_api.py:73-99 | a fresh user with limit 1 gets one word; the review succeeds on any day before 30 December 9999, and after it words_today answers nothing and stats reports due 0 |
| Api.WordBookNameLength | backend/app/main.py:286-287 | a word-book file name has at least 14 characters, so the middle slice is well defined |
| Api.ParseBookName | backend/app/main.py:286-287 | a name is extracted exactly for `wordBook_*.json` file names |
| Api.BookNameRoundTrip | backend/app/main.py:287-294 | `"wordBook_" + name + ".json"` parses back to the name, and a parsed name rebuilds its file name |
| Api.BookNamesMember | backend/app/main.py:284-288 | a name is listed exactly when its word-book file is in the listing |
| Api.ListWordbooks | backend/app/main.py:281-288 | the loop lists the book names of the listing, and nothing when the directory is missing |
| Api.GetWordbook | backend/app/main.py:291-299 | 404 exactly when the file is absent; a success returns that file's parsed content |
| Api.ListedBooksOpen | backend/app/main.py:281-299 | every name list_wordbooks shows opens without a 404 |
| Api.RegisterContract | backend/app/main.py:105-113 | 400 "Username taken", with no change, exactly when the name is taken; otherwise the new user's id with role "user" |
| Api.RemoveFavContract | backend/app/main.py:463-469 | 404 with no change exactly when the user has no favorite for the word; otherwise one row fewer |
| Api.RowFor | backend/app/main.py:370-379 | a deletion request yields a row exactly when a user has its user id, with that user's name and the request's stamp |
| Api.DeletionRowsMember | backend/app/main.py:368-380 | a row is listed exactly when some request yields it |
| Api.AdminListDeletions | backend/app/main.py:362-380 | 403 for a non-admin; otherwise the rows of the requests whose user exists |
| Api.AdminEndpointsGuarded | backend/app/main.py:302-391 | admin_users, admin_reset and admin_approve_delete answer 403 and change nothing exactly when the role is not "admin"; for an admin, approve answers 404 exactly for an unknown id |
| Api.GenerateArticleBounds | backend/app/main.py:490-519 | a success carries exactly the spellings of the requested table words, in table order (every such word, nothing else), 1 to 30 of them, and needs an API key. No matching word is exactly the "Word list is empty" 400; more than 30 is exactly the "Too many words (limit 30)" 400; with 1 to 30 words the request goes ahead exactly when a key is configured, and is otherwise the 500 |
| Common.EscapeHtmlIsEscapeEach | frontend/js/common.js:5-12 | the replace chain equals escaping each character on its own |
| Common.EscapeHtmlConcat | frontend/js/common.js:5-12 | escaping distributes over concatenation |
| Common.EscapeHtmlSafe | frontend/js/common.js:5-12 | the output has no `<`, `>`, `"` or `'`, every `&` in it starts one of the five entities, and it is no shorter than the input |
| Common.EscapeHtmlKeepsPlainText | frontend/js/common.js:5-12 | text without the five special characters comes back unchanged |
| Common.UnescapeEscapeHtml | frontend/js/common.js:5-12 | decoding the five entities gives back the input, so nothing is double-escaped or lost |
| Common.MatchFromMeaning | frontend/js/common.js:32 | the automaton for `/^[A-Za-z0-9]{6,}$/` accepts exactly all-alphanumeric input of sufficient length |
| Common.ValidatePasswordMeaning | frontend/js/common.js:31-35 | '' exactly when the password has at least 6 characters, all ASCII letters or digits; otherwise the fixed message |
| Common.ValidatePasswordExamples | frontend/js/common.js:31-35 | "" and "pwd" are rejected, "88888888" is accepted |
| Dashboard.ServerQuality | frontend/js/dashboard.js:59-61 | the buttons send 1, 3 or 5, and a success (at least 3) for every button but 不认识 |
| Dashboard.RequeueShape | frontend/js/dashboard.js:62-68 | 不认识 appends the same card; 模糊 places the reversed card right after the cursor and keeps the other cards' order; 认识 keeps the queue. The answered prefix never changes, and the length grows by exactly the number of cards added |
| Dashboard.AnswerPending | frontend/js/dashboard.js:62-68 | the words ahead of the cursor lose only the word answered 认识 |
| Dashboard.RunInvariant | frontend/js/dashboard.js:58-70 | over any run of answers the cursor advances once per answer, the queue only grows, the answered prefix is kept, and the pending words are the remaining ones plus those known |
| Dashboard.FinishedMeansAllKnown | frontend/js/dashboard.js:25-26 | when the cursor has passed the end, every fetched word has been answered 认识 exactly as often as it was fetched |
| Dashboard.ReversedCardSwapsSides | frontend/js/dashboard.js:40-45 | a reversed card shows the translations first and the spelling on its back |
| Dashboard.Render | frontend/js/dashboard.js:22-56 | "No words due today" exactly when no card is at the cursor and the cursor is 0; "All done!" with continue-by-5/10 exactly when it is past a non-empty queue; otherwise the card face chosen by the flip flag, with the buttons shown only on its back |
| Dashboard.ParseIntToString | frontend/js/dashboard.js:6 | `parseInt` reads back every integer that was stored as its decimal text |
| Dashboard.DailyCountFrom | frontend/js/dashboard.js:6 | the daily count is never 0; it is 5 when nothing is stored or the stored text parses to nothing or to 0, and otherwise the parsed value |
| Dashboard.DailyCountRoundTrip | frontend/js/dashboard.js:129-132 | a stored non-zero count is read back as itself |
| Dashboard.StudyPage.constructor | frontend/js/dashboard.js:3-6 | an empty queue at cursor 0, face up, with the stored or default daily count |
| Dashboard.StudyPage.ShowStudy | frontend/js/dashboard.js:13-20 | re-reads the daily count and asks for that many words; the fetched words become normal cards in fetch order at cursor 0, face up; a failed fetch leaves the queue |
| Dashboard.StudyPage.Flip | frontend/js/dashboard.js:56 | only the flip flag changes |
| Dashboard.StudyPage.Answer | frontend/js/dashboard.js:58-70 | posts the card's word with the button's quality; on success the queue is requeued, the cursor advances by one, and the card is face up; on failure nothing changes |
| Dashboard.StudyPage.ContinueStudy | frontend/js/dashboard.js:129-133 | adds n to the daily count, stores it, and starts a new session with it; a failed fetch leaves the queue, the cursor and the flip flag as they were |
| Dashboard.StudyPage.SaveSettings | frontend/js/dashboard.js:182-189 | the daily count and its stored text change exactly when the input parses to a positive integer; a non-empty book choice is stored |
| Dashboard.ContinueStudyAddsN | frontend/js/dashboard.js:129-132 | after continuing by n from a positive count, the stored count reads back as count + n |

## Left out

- HTTP transport, JSON bodies and token headers (`api()` in common.js, FastAPI routing and response models): endpoints are functions from their inputs to a `Result`.
- JWT encoding, decoding and refresh, `login`, `get_current_user`: the caller is passed in as a `User`.
- bcrypt: a hash is modelled as `Bcrypt(plain)`, an opaque wrapper, and `authenticate_user` is not modelled.
- The `users.json` mirror written by create_user and delete_user: file I/O beside the database.
- Reading word-book files: the listing and each file's parsed JSON are parameters, and a file that fails to parse is `None`. The model represents only files whose JSON is a list: get_wordbook would return any other parsed value with 200, and sync_wordbooks raises on most non-list values but skips `{}` and `""` silently, since they iterate nothing. A JSON entry whose "word" is present but not a string would raise; entries are modelled as a `RawEntry` with an optional spelling.
- get_wordbook joins the name into a path without checking for `..`; the model matches file names in the listing only.
- Clocks: `date.today()` and `datetime.utcnow()` are parameters. Dates are day numbers and timestamps integers.
- The LLM calls of `translate` and `generate_article`: only the guards before the network call are modelled; `translate` is not modelled.
- Startup seeding in main.py (ensure_default_admin then sync_wordbooks): the two operations are modelled, not the startup hook.
- review_word, search, add_fav, request_delete, list_fav and stats_export only delegate to the CRUD layer and reformat the result, and get_me returns the caller's own fields; the CRUD operations are modelled, not these wrappers.
- update_me is not modelled: it does not go through the CRUD layer but renames the caller's row itself, and a name that is already taken fails on the unique index of `username` with an IntegrityError, which the server answers as a 500.
- change_password is not modelled: it checks the old password against the stored hash itself and answers 400 "Incorrect password" on a mismatch, and only then calls reset_password, which is modelled as Crud.ResetPassword.
- Crud.ValidDb, and with it Crud.DueWordsExactly, Crud.GetDueWords, Api.WordsToday, Crud.EnsureDefaultAdminIdempotent, Crud.AddFavoriteIdempotent, Crud.CreateDeletionRequestIdempotent and Crud.ListFavoritesContract: the schema has no unique constraint on ReviewLog, Favorite or DeletionRequest, and only the select-then-insert of record_review, add_favorite and create_deletion_request keeps one row per (user, word) or per user. The model takes server requests one at a time; FastAPI runs these synchronous endpoints in a thread pool, so two overlapping requests for the same pair can both insert and create the duplicate rows that these members' `requires` exclude.
- Crud.SearchWordsContract: SQLite's `lower()` folds ASCII letters only, and the model folds the query the same way, while Python's `str.lower()` on the query also folds non-ASCII letters.
- Crud.SearchWordsContract: `%` and `_` inside the query are LIKE wildcards, both in the prefix test and in the two `contains` tests (SQLAlchemy does not escape them), so "b_" finds "abc" in the source; the model treats them as literal characters.
- Crud.ListFavoritesContract: the query is folded with Python's `str.lower()`, which also folds non-ASCII letters, while the model folds ASCII letters only; and `%` and `_` in it are LIKE wildcards in the `contains` tests, which the model treats as literal characters.
- Crud.ListFavoritesContract: the order of favorites with equal stamps, and the order in which SQLite returns the rows of a join, are not specified; the model keeps table order for ties.
- Dashboard.ParseInt: JavaScript numbers are doubles, so very long digit strings lose precision; the model reads them exactly.
- Dashboard.StudyPage.Answer: two clicks whose review requests are in flight at once both act on the queue; concurrency is not modelled, each answer is atomic.
- DOM rendering, event wiring, the search modal, stats and settings network calls and speech synthesis: UI. `Render` returns the text shown instead of HTML markup.
- Crud.SyncWordbooksAdds, and with it Crud.SyncEntriesStep, Crud.SyncFilesStep, Crud.SyncFilesCovers, Crud.SyncFilesCovered, Crud.SyncWordbooksIdempotent and Tables.Database.SyncWordbooks: the keys of the `existing` dictionary are built with Python's `str.lower()`, which folds Unicode ("Été" and "été", or the Kelvin sign and "k", give one key); the model folds ASCII letters only, so it can add a word whose spelling differs from a known one only in non-ASCII case.
- Models.TranslationsJson and Text.TranslationObject: sync_wordbooks stores each entry's translation objects as the word-book file has them, with their own key order, any extra keys and a possible `"type": null`; the model assumes the shape `{"type": ..., "translation": ...}` with "type" optional, which is all the stated properties rely on.
- Row ids: SQLite's rowid choice (one more than the largest id) is modelled; AUTOINCREMENT-style non-reuse is not used by the schema.

## Findings

| source | as written | input that shows it | evidently intended | confidence | as-written member | corrected member |
|---|---|---|---|---|---|---|
| backend/app/crud.py:193-204 | delete_user removes the user's review logs and deletion requests but not the user's Favorite rows | users Admin (id 1) and deluser (id 2), one favorite of user 2 for word 7; delete user 2, then register "eve", who gets id 2 and lists deluser's favorite | the docstring says it removes all related data, so the favorites should go too | not executed | Crud.DeleteUserAsWritten, Crud.OrphanedFavoriteReappears | Crud.DeleteUser, Crud.DeleteUserLeavesNoFavorites |
| backend/app/crud.py:117-124 | search_words and list_favorites test the query against the JSON text of the translations, key names and punctuation included | the query "translation" finds the word "absorb", whose only translation is "吸收" | match the query against the translations themselves | not executed | Crud.SearchWordsAsWritten, Crud.SearchAsWrittenMatchesKeyName, Crud.SearchKeyNameCounterexample, Crud.ListFavoritesAsWrittenMatchesKeyName | Crud.SearchWords, Crud.SearchWordsContract, Crud.ListFavoritesContract |
