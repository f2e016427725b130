/** The table rows of backend/app/models.py and the response shapes of
    backend/app/schemas.py. Dates are day numbers, counted as Python's
    `date.toordinal()` counts them (1 January of year 1 is day 1), and
    datetimes are timestamps; the clock that produces them is a parameter
    of every operation that reads it. */
module Models {
  import opened Wrappers
  import opened Text

  /** The day number of 31 December 9999, Python's `date.max`: adding a
      timedelta that goes past it raises OverflowError. */
  const MaxDay := 3652059

  /** One element of a word's translation list; `kind` is the optional
      part-of-speech ("type") key. */
  datatype Translation = Translation(kind: Option<string>, translation: string)

  datatype Phrase = Phrase(phrase: string, translation: string)

  /** The stored password hash. bcrypt itself is not part of this model:
      the hash of `plain` is represented by `plain` wrapped in `Bcrypt`. */
  datatype PasswordHash = Bcrypt(plain: string)

  datatype User = User(id: int, username: string, hashedPassword: PasswordHash, role: string)

  /** `translations` and `phrases` are JSON text in the table; the model
      keeps the lists they encode (`phrases` may be NULL). */
  datatype Word = Word(id: int, word: string, translations: seq<Translation>, phrases: Option<seq<Phrase>>)

  datatype ReviewLog = ReviewLog(
    id: int, userId: int, wordId: int, quality: int,
    lastInterval: int, nextReview: int, reviewedAt: int)

  datatype DeletionRequest = DeletionRequest(id: int, userId: int, requestedAt: int)

  datatype Favorite = Favorite(id: int, userId: int, wordId: int, addedAt: int)

  /** schemas.WordOut, the JSON shape of a word sent to the browser. */
  datatype WordOut = WordOut(
    id: int, word: string, translations: seq<Translation>, phrases: seq<Phrase>, addedAt: Option<int>)

  datatype UserOut = UserOut(id: int, username: string, role: string)

  /** The JSON text stored in `Word.translations`. */
  function TranslationsJson(ts: seq<Translation>): string {
    "[" + TranslationItems(ts) + "]"
  }

  function TranslationItems(ts: seq<Translation>): string
    decreases |ts|
  {
    if ts == [] then ""
    else TranslationObject(ts[0].kind, ts[0].translation)
         + (if |ts| == 1 then "" else ", " + TranslationItems(ts[1..]))
  }

  /** The stored text of a word with at least one translation contains the
      key name "translation" whatever the translations say. */
  lemma TranslationsJsonHasKey(ts: seq<Translation>)
    requires ts != []
    ensures Contains(Lower(TranslationsJson(ts)), "translation")
  {
    TranslationObjectHasKey(ts[0].kind, ts[0].translation);
    ItemsContainObject(ts, 0);
    ContainsTrans(TranslationItems(ts), TranslationObject(ts[0].kind, ts[0].translation), "translation");
    JsonContainsItems(ts, "translation");
    ContainsLower(TranslationsJson(ts), "translation");
    LowerKeyName();
  }

  lemma LowerKeyName()
    ensures Lower("translation") == "translation"
  {
  }

  /** Whatever the items of the JSON list contain, the list contains. */
  lemma JsonContainsItems(ts: seq<Translation>, q: string)
    requires Contains(TranslationItems(ts), q)
    ensures Contains(TranslationsJson(ts), q)
  {
    assert TranslationsJson(ts) == "[" + (TranslationItems(ts) + "]");
    ContainsAppend(TranslationItems(ts), "]", q);
    ContainsPrepend("[", TranslationItems(ts) + "]", q);
  }

  /** `t` is written into a JSON string as it is: no character of it needs
      an escape. */
  predicate PlainJsonText(t: string) {
    forall k :: 0 <= k < |t| ==> JsonEscapeChar(t[k]) == [t[k]]
  }

  lemma {:induction false} JsonEscapePlain(t: string)
    requires PlainJsonText(t)
    ensures JsonEscape(t) == t
    decreases |t|
  {
    if t != [] {
      assert PlainJsonText(t[1..]) by {
        forall k | 0 <= k < |t[1..]| ensures JsonEscapeChar(t[1..][k]) == [t[1..][k]] {
          assert t[1..][k] == t[k + 1];
        }
      }
      JsonEscapePlain(t[1..]);
      assert JsonEscapeChar(t[0]) == [t[0]];
    }
  }

  /** An occurrence inside an occurrence is an occurrence. */
  lemma {:induction false} ContainsWithinPrefix(x: string, s: string, t: string)
    requires Contains(x, t) && x <= s
    ensures Contains(s, t)
    decreases |x|
  {
    if !(t <= x) {
      assert x[1..] <= s[1..];
      ContainsWithinPrefix(x[1..], s[1..], t);
    }
  }

  lemma {:induction false} ContainsTrans(s: string, x: string, t: string)
    requires Contains(s, x) && Contains(x, t)
    ensures Contains(s, t)
    decreases |s|
  {
    if x <= s {
      ContainsWithinPrefix(x, s, t);
    } else {
      ContainsTrans(s[1..], x, t);
    }
  }

  lemma {:induction false} ItemsContainObject(ts: seq<Translation>, i: nat)
    requires i < |ts|
    ensures Contains(TranslationItems(ts), TranslationObject(ts[i].kind, ts[i].translation))
    decreases i
  {
    var obj0 := TranslationObject(ts[0].kind, ts[0].translation);
    var rest := if |ts| == 1 then "" else ", " + TranslationItems(ts[1..]);
    if i == 0 {
      assert TranslationItems(ts) == [] + obj0 + rest;
      ContainsInfix([], obj0, rest);
    } else {
      ItemsContainObject(ts[1..], i - 1);
      assert ts[1..][i - 1] == ts[i];
      assert TranslationItems(ts) == (obj0 + ", ") + TranslationItems(ts[1..]);
      ContainsPrepend(obj0 + ", ", TranslationItems(ts[1..]), TranslationObject(ts[i].kind, ts[i].translation));
    }
  }

  /** The stored JSON text holds each translation that needs no escape. */
  lemma TranslationInJson(ts: seq<Translation>, i: nat)
    requires i < |ts| && PlainJsonText(ts[i].translation)
    ensures Contains(TranslationsJson(ts), ts[i].translation)
  {
    var t := ts[i].translation;
    var obj := TranslationObject(ts[i].kind, t);
    var pre := "{" + TypeMember(ts[i].kind) + "\"" + TranslationKey + "\": ";
    JsonEscapePlain(t);
    ContainsInfix("\"", t, "\"");
    assert Contains(JsonString(t), t);
    ContainsPrepend(pre, JsonString(t), t);
    ContainsAppend(pre + JsonString(t), "}", t);
    ItemsContainObject(ts, i);
    ContainsTrans(TranslationItems(ts), obj, t);
    JsonContainsItems(ts, t);
  }


  /** SQLite's rowid for a new row: one more than the largest in use, 1 for
      an empty table. A freed largest id is therefore handed out again. */
  function NextRowId(ids: seq<int>): (r: int)
    ensures r >= 1
    ensures forall i :: 0 <= i < |ids| ==> ids[i] < r
    ensures r == 1 || exists i :: 0 <= i < |ids| && r == ids[i] + 1
    decreases |ids|
  {
    if ids == [] then 1
    else
      var rest := NextRowId(ids[1..]);
      if ids[0] >= rest then ids[0] + 1 else rest
  }
}
