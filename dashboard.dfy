/** The study screen of frontend/js/dashboard.js: a queue of cards over
    the words due today, a cursor into it and a flag for the side shown,
    with the daily word count kept in the browser's localStorage. Network
    calls are parameters: the words a request returned, or whether the
    review POST succeeded. */
module Dashboard {
  import opened Wrappers
  import opened Models

  // ---------------------------------------------------------------
  // Cards and the answer rule
  // ---------------------------------------------------------------

  /** 'normal' shows the spelling first, 'rev' the translations first. */
  datatype Mode = Normal | Rev

  datatype Card = Card(word: WordOut, mode: Mode)

  /** The three buttons, `data-q` 0, 1 and 2. */
  datatype Button = Unknown | Fuzzy | Known

  /** `[1, 3, 5][q]`: the quality sent to the server. */
  function ServerQuality(b: Button): (q: int)
    ensures q == 1 || q == 3 || q == 5
    ensures q >= 3 <==> b != Unknown
  {
    match b
    case Unknown => 1
    case Fuzzy => 3
    case Known => 5
  }

  /** `words.map(w => ({word: w, mode: 'normal'}))` */
  function StartCards(words: seq<WordOut>): seq<Card> {
    seq(|words|, i requires 0 <= i < |words| => Card(words[i], Normal))
  }

  /** The queue after answering the card at `index`: 不认识 pushes the
      same card again, 模糊 splices a reversed card in right after it,
      认识 leaves the queue alone. */
  function Requeue(cards: seq<Card>, index: nat, b: Button): seq<Card>
    requires index < |cards|
  {
    match b
    case Unknown => cards + [cards[index]]
    case Fuzzy => cards[..index + 1] + [Card(cards[index].word, Rev)] + cards[index + 1..]
    case Known => cards
  }

  /** One answer: the queue grows by one card unless the answer is 认识;
      the answered cards up to and including `index` stay where they are;
      a pushed card is the answered one, a spliced card is its reversed
      twin at `index + 1`; taking the new card out leaves the old queue. */
  lemma RequeueShape(cards: seq<Card>, index: nat, b: Button)
    requires index < |cards|
    ensures var r := Requeue(cards, index, b);
      && |r| == |cards| + (if b == Known then 0 else 1)
      && r[..index + 1] == cards[..index + 1]
      && (b == Unknown ==> r[|cards|] == cards[index] && r[..|cards|] == cards)
      && (b == Fuzzy ==> r[index + 1] == Card(cards[index].word, Rev) && r[..index + 1] + r[index + 2..] == cards)
      && (b == Known ==> r == cards)
  {
    var r := Requeue(cards, index, b);
    if b == Fuzzy {
      assert r[index + 2..] == cards[index + 1..];
      assert cards[..index + 1] + cards[index + 1..] == cards;
    }
  }

  function Words(cards: seq<Card>): seq<WordOut> {
    seq(|cards|, i requires 0 <= i < |cards| => cards[i].word)
  }

  /** The words still ahead of the cursor, the card at the cursor included. */
  function Pending(cards: seq<Card>, index: nat): multiset<WordOut>
    requires index <= |cards|
  {
    multiset(Words(cards[index..]))
  }

  lemma WordsConcat(a: seq<Card>, b: seq<Card>)
    ensures Words(a + b) == Words(a) + Words(b)
  {
  }

  /** Only 认识 takes a word off what is pending; the other two answers
      keep the word pending, as the same card or as its reversed twin. */
  lemma AnswerPending(cards: seq<Card>, index: nat, b: Button)
    requires index < |cards|
    ensures Pending(cards, index)
      == Pending(Requeue(cards, index, b), index + 1) + (if b == Known then multiset{cards[index].word} else multiset{})
  {
    var c, rest := cards[index], cards[index + 1..];
    assert cards[index..] == [c] + rest;
    WordsConcat([c], rest);
    var r := Requeue(cards, index, b);
    match b
    case Unknown =>
      assert r[index + 1..] == rest + [c];
      WordsConcat(rest, [c]);
    case Fuzzy =>
      assert r[index + 1..] == [Card(c.word, Rev)] + rest;
      WordsConcat([Card(c.word, Rev)], rest);
    case Known =>
  }

  /** A session from `index` on: each answer needs a card at the cursor
      (None when there is none), requeues and moves the cursor on. The
      result is the final queue and cursor and the words answered 认识. */
  function Run(cards: seq<Card>, index: nat, answers: seq<Button>): Option<(seq<Card>, nat, multiset<WordOut>)>
    decreases |answers|
  {
    if answers == [] then Some((cards, index, multiset{}))
    else if index >= |cards| then None
    else
      match Run(Requeue(cards, index, answers[0]), index + 1, answers[1..])
      case None => None
      case Some((c, i, known)) =>
        Some((c, i, known + if answers[0] == Known then multiset{cards[index].word} else multiset{}))
  }

  /** Over a whole session the cursor moves by one per answer and never
      past the end, the answered prefix never changes, and the pending
      words are exactly those still pending plus those answered 认识. */
  lemma {:induction false} RunInvariant(cards: seq<Card>, index: nat, answers: seq<Button>)
    requires index <= |cards|
    requires Run(cards, index, answers).Some?
    ensures var (c, i, known) := Run(cards, index, answers).value;
      && i == index + |answers| && i <= |c|
      && |cards| <= |c|
      && c[..index] == cards[..index]
      && Pending(cards, index) == Pending(c, i) + known
    decreases |answers|
  {
    if answers != [] {
      var b := answers[0];
      var r := Requeue(cards, index, b);
      RequeueShape(cards, index, b);
      AnswerPending(cards, index, b);
      RunInvariant(r, index + 1, answers[1..]);
      var (c, i, known) := Run(r, index + 1, answers[1..]).value;
      assert c[..index] == c[..index + 1][..index];
      assert cards[..index] == cards[..index + 1][..index];
    }
  }

  /** A session over the fetched words is finished, the cursor past the
      last card, only when every fetched word has been answered 认识, as
      often as it was fetched. */
  lemma FinishedMeansAllKnown(words: seq<WordOut>, answers: seq<Button>)
    requires Run(StartCards(words), 0, answers).Some?
    requires var (c, i, _) := Run(StartCards(words), 0, answers).value; i >= |c|
    ensures Run(StartCards(words), 0, answers).value.2 == multiset(words)
  {
    RunInvariant(StartCards(words), 0, answers);
    var (c, i, known) := Run(StartCards(words), 0, answers).value;
    assert c[i..] == [];
    assert StartCards(words)[0..] == StartCards(words);
    assert Words(StartCards(words)) == words;
  }

  // ---------------------------------------------------------------
  // What renderStudy shows
  // ---------------------------------------------------------------

  /** `${t.type || ''} ${t.translation}` */
  function TranslationLine(t: Translation): string {
    (if t.kind.Some? then t.kind.value else "") + " " + t.translation
  }

  function JoinBr(lines: seq<string>): string
    decreases |lines|
  {
    if lines == [] then ""
    else if |lines| == 1 then lines[0]
    else lines[0] + "<br>" + JoinBr(lines[1..])
  }

  function TranslationText(w: WordOut): string {
    JoinBr(seq(|w.translations|, i requires 0 <= i < |w.translations| => TranslationLine(w.translations[i])))
  }

  function PhrasesText(w: WordOut): string {
    JoinBr(seq(|w.phrases|, i requires 0 <= i < |w.phrases| => w.phrases[i].phrase + " - " + w.phrases[i].translation))
  }

  /** The back of a normal card: the translations, then a rule and the
      phrases when there are any. */
  function BackNormal(w: WordOut): string {
    var phrases := PhrasesText(w);
    "<div>" + TranslationText(w) + (if phrases != "" then "<hr class=\"my-2\">" + phrases else "") + "</div>"
  }

  function Front(card: Card): string {
    if card.mode == Normal then card.word.word else TranslationText(card.word)
  }

  function Back(card: Card): string {
    if card.mode == Normal then BackNormal(card.word) else card.word.word
  }

  /** A reversed card asks the other way round: its front is the word's
      translations and its back the spelling that its normal twin shows
      first. */
  lemma ReversedCardSwapsSides(w: WordOut)
    ensures Front(Card(w, Rev)) == TranslationText(w)
    ensures Back(Card(w, Rev)) == Front(Card(w, Normal)) == w.word
    ensures Back(Card(w, Normal)) == BackNormal(w)
  {
  }

  datatype View =
    | NoWordsDue
    | AllDone(continueBy: seq<int>)
    | ShowCard(text: string, buttonsVisible: bool)

  /** renderStudy: no card at the cursor shows "No words due today" when
      the cursor is still 0 and "All done!" with the continue-by-5 and
      continue-by-10 buttons otherwise; a card shows its back, with the
      answer buttons, or its front. */
  function Render(cards: seq<Card>, index: nat, showBack: bool): (v: View)
    ensures v.NoWordsDue? <==> index >= |cards| && index == 0
    ensures v.AllDone? <==> index >= |cards| && index != 0
    ensures v.AllDone? ==> v.continueBy == [5, 10]
    ensures v.ShowCard? ==>
      (index < |cards| && v.buttonsVisible == showBack
       && v.text == if showBack then Back(cards[index]) else Front(cards[index]))
  {
    if index >= |cards| then (if index == 0 then NoWordsDue else AllDone([5, 10]))
    else
      var card := cards[index];
      ShowCard(if showBack then Back(card) else Front(card), showBack)
  }

  // ---------------------------------------------------------------
  // parseInt and the stored daily count
  // ---------------------------------------------------------------

  /** The characters `parseInt` skips at the start: ECMAScript's white
      space and line terminators. */
  predicate IsJsSpace(c: char) {
    c == '\t' || c == '\n' || c == '\U{B}' || c == '\U{C}' || c == '\r' || c == ' '
    || c == '\U{A0}' || c == '\U{1680}' || ('\U{2000}' <= c <= '\U{200A}')
    || c == '\U{2028}' || c == '\U{2029}' || c == '\U{202F}' || c == '\U{205F}'
    || c == '\U{3000}' || c == '\U{FEFF}'
  }

  function TrimStart(s: string): string
    decreases |s|
  {
    if s != [] && IsJsSpace(s[0]) then TrimStart(s[1..]) else s
  }

  predicate IsDigit(c: char) {
    '0' <= c <= '9'
  }

  /** The longest run of decimal digits at the start of `s`. */
  function DigitPrefix(s: string): string
    decreases |s|
  {
    if s != [] && IsDigit(s[0]) then [s[0]] + DigitPrefix(s[1..]) else []
  }

  function DigitsValue(ds: string): nat
    decreases |ds|
  {
    if ds == [] then 0
    else
      var d := ds[|ds| - 1] as int - '0' as int;
      DigitsValue(ds[..|ds| - 1]) * 10 + (if 0 <= d then d else 0)
  }

  /** `parseInt(s, 10)`: skip white space, read an optional sign and the
      digits that follow; None stands for NaN (no digit there). */
  function ParseInt(s: string): Option<int> {
    var t := TrimStart(s);
    var negative := t != [] && t[0] == '-';
    var body := if t != [] && (t[0] == '-' || t[0] == '+') then t[1..] else t;
    var ds := DigitPrefix(body);
    var value: int := DigitsValue(ds);
    if ds == [] then None else Some(if negative then -value else value)
  }

  function DigitChar(d: nat): char
    requires d < 10
  {
    ('0' as int + d) as char
  }

  function NatToString(n: nat): string
    decreases n
  {
    if n < 10 then [DigitChar(n)] else NatToString(n / 10) + [DigitChar(n % 10)]
  }

  /** `String(n)` for an integer, as `localStorage.setItem` stores it. */
  function IntToString(n: int): string {
    if n < 0 then "-" + NatToString(-n) else NatToString(n)
  }

  lemma {:induction false} NatToStringDigits(n: nat)
    ensures NatToString(n) != []
    ensures forall i :: 0 <= i < |NatToString(n)| ==> IsDigit(NatToString(n)[i])
    ensures DigitsValue(NatToString(n)) == n
    decreases n
  {
    if n >= 10 {
      NatToStringDigits(n / 10);
      var s := NatToString(n);
      assert s[..|s| - 1] == NatToString(n / 10);
    }
  }

  lemma {:induction false} DigitPrefixAll(s: string)
    requires forall i :: 0 <= i < |s| ==> IsDigit(s[i])
    ensures DigitPrefix(s) == s
    decreases |s|
  {
    if s != [] {
      DigitPrefixAll(s[1..]);
    }
  }

  /** What `String` writes `parseInt` reads back. */
  lemma ParseIntToString(n: int)
    ensures ParseInt(IntToString(n)) == Some(n)
  {
    var m := if n < 0 then -n else n;
    NatToStringDigits(m);
    var digits := NatToString(m);
    DigitPrefixAll(digits);
    var s := IntToString(n);
    assert !IsJsSpace(s[0]);
    assert TrimStart(s) == s;
    if n < 0 {
      assert s[1..] == digits;
    } else {
      assert s[0] != '-' && s[0] != '+';
    }
  }

  /** `parseInt(localStorage.getItem('dailyCount'), 10) || 5`: an absent
      key reads as null, which parses to NaN; NaN and 0 fall back to 5. */
  function DailyCountFrom(storage: map<string, string>): (n: int)
    ensures n != 0
    ensures "dailyCount" !in storage ==> n == 5
    ensures "dailyCount" in storage ==>
      var parsed := ParseInt(storage["dailyCount"]);
      && (parsed.None? || parsed.value == 0 ==> n == 5)
      && (parsed.Some? && parsed.value != 0 ==> n == parsed.value)
  {
    var parsed := if "dailyCount" in storage then ParseInt(storage["dailyCount"]) else None;
    if parsed.None? || parsed.value == 0 then 5 else parsed.value
  }

  /** A count stored with `String` is read back as itself. */
  lemma DailyCountRoundTrip(storage: map<string, string>, n: int)
    requires n != 0
    ensures DailyCountFrom(storage["dailyCount" := IntToString(n)]) == n
  {
    ParseIntToString(n);
  }

  /** The review a button sends: `POST /review/<word id>` with a quality. */
  datatype ReviewPost = ReviewPost(wordId: int, quality: int)

  // ---------------------------------------------------------------
  // The page state
  // ---------------------------------------------------------------

  /** The module-level variables of dashboard.js and the localStorage they
      read and write. */
  class StudyPage {
    var studyWords: seq<Card>
    var studyIndex: nat
    var showBack: bool
    var dailyCount: int
    var storage: map<string, string>

    ghost predicate Valid()
      reads this
    {
      studyIndex <= |studyWords|
    }

    /** The page loads: empty queue, cursor 0, the count from storage. */
    constructor(storage: map<string, string>)
      ensures Valid()
      ensures studyWords == [] && studyIndex == 0 && !showBack
      ensures dailyCount == DailyCountFrom(storage) && this.storage == storage
    {
      studyWords := [];
      studyIndex := 0;
      showBack := false;
      dailyCount := DailyCountFrom(storage);
      this.storage := storage;
    }

    function View(): View
      reads this
    {
      Render(studyWords, studyIndex, showBack)
    }

    /** showStudy: re-reads the count and asks for that many words; when
        the request fails (`fetched` is None) nothing after the await runs.
        Otherwise one normal card per word, in order, cursor 0, front
        side. Returns the limit it asked for. */
    method ShowStudy(fetched: Option<seq<WordOut>>) returns (limit: int)
      requires Valid()
      modifies this
      ensures Valid()
      ensures limit == dailyCount == DailyCountFrom(old(storage)) && storage == old(storage)
      ensures fetched.None? ==> studyWords == old(studyWords) && studyIndex == old(studyIndex) && showBack == old(showBack)
      ensures fetched.Some? ==> studyWords == StartCards(fetched.value) && studyIndex == 0 && !showBack
    {
      dailyCount := DailyCountFrom(storage);
      limit := dailyCount;
      if fetched.Some? {
        studyWords := StartCards(fetched.value);
        studyIndex := 0;
        showBack := false;
      }
    }

    /** A click on the card turns it over. */
    method Flip()
      modifies this
      ensures showBack == !old(showBack)
      ensures studyWords == old(studyWords) && studyIndex == old(studyIndex)
      ensures dailyCount == old(dailyCount) && storage == old(storage)
    {
      showBack := !showBack;
    }

    /** An answer button: the review is posted first; only when it
        succeeds is the card requeued, the cursor moved on and the front
        side shown. */
    method Answer(b: Button, reviewOk: bool) returns (sent: ReviewPost)
      requires Valid() && studyIndex < |studyWords|
      modifies this
      ensures Valid()
      ensures sent == ReviewPost(old(studyWords)[old(studyIndex)].word.id, ServerQuality(b))
      ensures !reviewOk ==> studyWords == old(studyWords) && studyIndex == old(studyIndex) && showBack == old(showBack)
      ensures reviewOk ==> studyWords == Requeue(old(studyWords), old(studyIndex), b)
                           && studyIndex == old(studyIndex) + 1 && !showBack
      ensures dailyCount == old(dailyCount) && storage == old(storage)
    {
      var card := studyWords[studyIndex];
      sent := ReviewPost(card.word.id, ServerQuality(b));
      if !reviewOk {
        return;
      }
      showBack := false;
      if b == Unknown {
        studyWords := studyWords + [card];
      } else if b == Fuzzy {
        studyWords := studyWords[..studyIndex + 1] + [Card(card.word, Rev)] + studyWords[studyIndex + 1..];
      }
      studyIndex := studyIndex + 1;
    }

    /** continueStudy(n): the count grows by n and is stored, then the
        study screen reloads (and re-reads the count from storage). */
    method ContinueStudy(n: int, fetched: Option<seq<WordOut>>) returns (limit: int)
      requires Valid()
      modifies this
      ensures Valid()
      ensures storage == old(storage)["dailyCount" := IntToString(old(dailyCount) + n)]
      ensures dailyCount == limit == if old(dailyCount) + n != 0 then old(dailyCount) + n else 5
      ensures fetched.None? ==> studyWords == old(studyWords) && studyIndex == old(studyIndex) && showBack == old(showBack)
      ensures fetched.Some? ==> studyWords == StartCards(fetched.value) && studyIndex == 0 && !showBack
    {
      dailyCount := dailyCount + n;
      storage := storage["dailyCount" := IntToString(dailyCount)];
      ParseIntToString(dailyCount);
      limit := ShowStudy(fetched);
    }

    /** The settings form: the daily count changes, and is stored, only
        when the input parses to a positive integer; a non-empty book
        choice is stored. */
    method SaveSettings(dailyInput: string, book: string)
      requires Valid()
      modifies this
      ensures Valid()
      ensures var d := ParseInt(dailyInput);
        && (d.Some? && d.value > 0 ==>
              (dailyCount == d.value
               && storage == (old(storage)["dailyCount" := IntToString(d.value)])
                             + (if book != "" then map["wordBook" := book] else map[])))
        && (!(d.Some? && d.value > 0) ==>
              (dailyCount == old(dailyCount)
               && storage == old(storage) + (if book != "" then map["wordBook" := book] else map[])))
      ensures studyWords == old(studyWords) && studyIndex == old(studyIndex) && showBack == old(showBack)
    {
      var daily := ParseInt(dailyInput);
      if daily.Some? && daily.value > 0 {
        dailyCount := daily.value;
        storage := storage["dailyCount" := IntToString(daily.value)];
      }
      if book != "" {
        storage := storage["wordBook" := book];
      }
    }
  }

  /** With a positive count, continueStudy(n) for a positive n adds exactly
      n to the count, and the stored text reads back as the new count. */
  lemma ContinueStudyAddsN(storage: map<string, string>, count: int, n: int)
    requires count > 0 && n > 0
    ensures DailyCountFrom(storage["dailyCount" := IntToString(count + n)]) == count + n
  {
    DailyCountRoundTrip(storage, count + n);
  }
}
