/** The two string helpers of frontend/js/common.js: `escapeHTML`, a chain
    of five global replacements, and `validatePassword`, one regular
    expression test. */
module Common {

  // ---------------------------------------------------------------
  // escapeHTML
  // ---------------------------------------------------------------

  /** `s.replace(/c/g, rep)`: every occurrence of the character `c`
      becomes `rep`. */
  function ReplaceAll(s: string, c: char, rep: string): string
    decreases |s|
  {
    if s == [] then []
    else (if s[0] == c then rep else [s[0]]) + ReplaceAll(s[1..], c, rep)
  }

  /** The chain as written: `&` first, then `<`, `>`, `"` and `'`. */
  function EscapeHtml(s: string): string {
    ReplaceAll(ReplaceAll(ReplaceAll(ReplaceAll(ReplaceAll(s,
      '&', "&amp;"), '<', "&lt;"), '>', "&gt;"), '"', "&quot;"), '\'', "&#39;")
  }

  /** The entity each character stands for in the output. */
  function EscapeChar(c: char): string {
    if c == '&' then "&amp;"
    else if c == '<' then "&lt;"
    else if c == '>' then "&gt;"
    else if c == '"' then "&quot;"
    else if c == '\'' then "&#39;"
    else [c]
  }

  /** A reference definition: escape each character on its own. */
  function EscapeEach(s: string): string
    decreases |s|
  {
    if s == [] then [] else EscapeChar(s[0]) + EscapeEach(s[1..])
  }

  predicate IsSpecial(c: char) {
    c == '&' || c == '<' || c == '>' || c == '"' || c == '\''
  }

  lemma {:induction false} ReplaceAllConcat(a: string, b: string, c: char, rep: string)
    ensures ReplaceAll(a + b, c, rep) == ReplaceAll(a, c, rep) + ReplaceAll(b, c, rep)
    decreases |a|
  {
    if a == [] {
      assert a + b == b;
    } else {
      assert (a + b)[1..] == a[1..] + b;
      ReplaceAllConcat(a[1..], b, c, rep);
    }
  }

  lemma {:induction false} ReplaceAllAbsent(s: string, c: char, rep: string)
    requires c !in s
    ensures ReplaceAll(s, c, rep) == s
    decreases |s|
  {
    if s != [] {
      assert s[0] != c;
      ReplaceAllAbsent(s[1..], c, rep);
    }
  }

  lemma ReplaceAllOne(c: char, d: char, rep: string)
    ensures ReplaceAll([c], d, rep) == if c == d then rep else [c]
  {
    assert [c][1..] == [];
  }

  // The chain from its second, third and fourth step on leaves alone a
  // text without the characters those steps replace. No replacement text
  // contains a character a later step replaces, so each entity passes
  // through the rest of the chain unchanged.

  lemma ChainFromLt(t: string)
    requires '<' !in t && '>' !in t && '"' !in t && '\'' !in t
    ensures ReplaceAll(ReplaceAll(ReplaceAll(ReplaceAll(t, '<', "&lt;"), '>', "&gt;"), '"', "&quot;"), '\'', "&#39;") == t
  {
    ReplaceAllAbsent(t, '<', "&lt;");
    ChainFromGt(t);
  }

  lemma ChainFromGt(t: string)
    requires '>' !in t && '"' !in t && '\'' !in t
    ensures ReplaceAll(ReplaceAll(ReplaceAll(t, '>', "&gt;"), '"', "&quot;"), '\'', "&#39;") == t
  {
    ReplaceAllAbsent(t, '>', "&gt;");
    ChainFromQuot(t);
  }

  lemma ChainFromQuot(t: string)
    requires '"' !in t && '\'' !in t
    ensures ReplaceAll(ReplaceAll(t, '"', "&quot;"), '\'', "&#39;") == t
  {
    ReplaceAllAbsent(t, '"', "&quot;");
    ReplaceAllAbsent(t, '\'', "&#39;");
  }

  lemma EscapeHtmlChar(c: char)
    ensures EscapeHtml([c]) == EscapeChar(c)
  {
    ReplaceAllOne(c, '&', "&amp;");
    if c == '&' {
      ChainFromLt("&amp;");
    } else {
      ReplaceAllOne(c, '<', "&lt;");
      if c == '<' {
        ChainFromGt("&lt;");
      } else {
        ReplaceAllOne(c, '>', "&gt;");
        if c == '>' {
          ChainFromQuot("&gt;");
        } else {
          ReplaceAllOne(c, '"', "&quot;");
          if c == '"' {
            ReplaceAllAbsent("&quot;", '\'', "&#39;");
          } else {
            ReplaceAllOne(c, '\'', "&#39;");
          }
        }
      }
    }
  }

  /** Escaping works character by character:
      escape(a + b) == escape(a) + escape(b). */
  lemma EscapeHtmlConcat(a: string, b: string)
    ensures EscapeHtml(a + b) == EscapeHtml(a) + EscapeHtml(b)
  {
    var s1a, s1b := ReplaceAll(a, '&', "&amp;"), ReplaceAll(b, '&', "&amp;");
    ReplaceAllConcat(a, b, '&', "&amp;");
    var s2a, s2b := ReplaceAll(s1a, '<', "&lt;"), ReplaceAll(s1b, '<', "&lt;");
    ReplaceAllConcat(s1a, s1b, '<', "&lt;");
    var s3a, s3b := ReplaceAll(s2a, '>', "&gt;"), ReplaceAll(s2b, '>', "&gt;");
    ReplaceAllConcat(s2a, s2b, '>', "&gt;");
    var s4a, s4b := ReplaceAll(s3a, '"', "&quot;"), ReplaceAll(s3b, '"', "&quot;");
    ReplaceAllConcat(s3a, s3b, '"', "&quot;");
    ReplaceAllConcat(s4a, s4b, '\'', "&#39;");
  }

  /** The chain of replacements equals the per-character escape. */
  lemma {:induction false} EscapeHtmlIsEscapeEach(s: string)
    ensures EscapeHtml(s) == EscapeEach(s)
    decreases |s|
  {
    if s != [] {
      assert s == [s[0]] + s[1..];
      EscapeHtmlConcat([s[0]], s[1..]);
      EscapeHtmlChar(s[0]);
      EscapeHtmlIsEscapeEach(s[1..]);
    }
  }

  /** Every `&` of `t` begins one of the five entities. */
  predicate AmpersandsStartEntities(t: string) {
    forall i :: 0 <= i < |t| && t[i] == '&' ==> StartsEntity(t[i..])
  }

  predicate StartsEntity(t: string) {
    "&amp;" <= t || "&lt;" <= t || "&gt;" <= t || "&quot;" <= t || "&#39;" <= t
  }

  /** A character that markup would read: `<`, `>`, `"` or `'`. */
  predicate IsMarkup(c: char) {
    c == '<' || c == '>' || c == '"' || c == '\''
  }

  lemma PieceShape(c: char, rest: string)
    ensures forall i :: 0 <= i < |EscapeChar(c)| ==> !IsMarkup(EscapeChar(c)[i])
    ensures forall i :: 0 < i < |EscapeChar(c)| ==> EscapeChar(c)[i] != '&'
    ensures EscapeChar(c)[0] == '&' ==> StartsEntity(EscapeChar(c) + rest)
    ensures |EscapeChar(c)| >= 1
  {
    var t := EscapeChar(c) + rest;
    if c == '&' { assert t[..5] == "&amp;"; }
    else if c == '<' { assert t[..4] == "&lt;"; }
    else if c == '>' { assert t[..4] == "&gt;"; }
    else if c == '"' { assert t[..6] == "&quot;"; }
    else if c == '\'' { assert t[..5] == "&#39;"; }
  }

  lemma {:induction false} EscapeEachNoMarkup(s: string)
    ensures forall i :: 0 <= i < |EscapeEach(s)| ==> !IsMarkup(EscapeEach(s)[i])
    ensures |EscapeEach(s)| >= |s|
    decreases |s|
  {
    if s != [] {
      EscapeEachNoMarkup(s[1..]);
      PieceShape(s[0], EscapeEach(s[1..]));
      var piece, rest := EscapeChar(s[0]), EscapeEach(s[1..]);
      forall i | |piece| <= i < |piece + rest| ensures (piece + rest)[i] == rest[i - |piece|] {
      }
    }
  }

  lemma {:induction false} EscapeEachAmpersands(s: string)
    ensures AmpersandsStartEntities(EscapeEach(s))
    decreases |s|
  {
    if s != [] {
      EscapeEachAmpersands(s[1..]);
      var piece, rest := EscapeChar(s[0]), EscapeEach(s[1..]);
      PieceShape(s[0], rest);
      var t := piece + rest;
      forall i | 0 <= i < |t| && t[i] == '&' ensures StartsEntity(t[i..]) {
        if i < |piece| {
          assert t[i] == piece[i];
          assert i == 0;
        } else {
          assert t[i..] == rest[i - |piece|..];
          assert t[i] == rest[i - |piece|];
        }
      }
    }
  }

  /** The output holds no `<`, `>`, `"` or `'`, every `&` in it starts an
      entity, and it is at least as long as the input. */
  lemma EscapeHtmlSafe(s: string)
    ensures forall i :: 0 <= i < |EscapeHtml(s)| ==> !IsMarkup(EscapeHtml(s)[i])
    ensures AmpersandsStartEntities(EscapeHtml(s))
    ensures |EscapeHtml(s)| >= |s|
  {
    EscapeHtmlIsEscapeEach(s);
    EscapeEachNoMarkup(s);
    EscapeEachAmpersands(s);
  }

  /** A string with none of the five characters comes back unchanged. */
  lemma EscapeHtmlKeepsPlainText(s: string)
    requires forall i :: 0 <= i < |s| ==> !IsSpecial(s[i])
    ensures EscapeHtml(s) == s
  {
    ReplaceAllAbsent(s, '&', "&amp;");
    ReplaceAllAbsent(s, '<', "&lt;");
    ReplaceAllAbsent(s, '>', "&gt;");
    ReplaceAllAbsent(s, '"', "&quot;");
    ReplaceAllAbsent(s, '\'', "&#39;");
  }

  /** What a browser reads back from the escaped text: each of the five
      entities stands for its character. */
  function Unescape(t: string): string
    decreases |t|
  {
    if t == [] then []
    else if "&amp;" <= t then "&" + Unescape(t[5..])
    else if "&lt;" <= t then "<" + Unescape(t[4..])
    else if "&gt;" <= t then ">" + Unescape(t[4..])
    else if "&quot;" <= t then "\"" + Unescape(t[6..])
    else if "&#39;" <= t then "'" + Unescape(t[5..])
    else [t[0]] + Unescape(t[1..])
  }

  lemma UnescapePiece(c: char, rest: string)
    ensures Unescape(EscapeChar(c) + rest) == [c] + Unescape(rest)
  {
    var t := EscapeChar(c) + rest;
    if c == '&' {
      assert t[..5] == "&amp;" && t[5..] == rest;
    } else if c == '<' {
      assert t[..4] == "&lt;" && t[4..] == rest;
      assert !("&amp;" <= t) by { assert t[1] == 'l'; }
    } else if c == '>' {
      assert t[..4] == "&gt;" && t[4..] == rest;
      assert t[1] == 'g';
    } else if c == '"' {
      assert t[..6] == "&quot;" && t[6..] == rest;
      assert t[1] == 'q';
    } else if c == '\'' {
      assert t[..5] == "&#39;" && t[5..] == rest;
      assert t[1] == '#';
    } else {
      assert t[0] == c && t[1..] == rest;
    }
  }

  /** Nothing is escaped twice: reading the output back gives the input. */
  lemma {:induction false} UnescapeEscapeHtml(s: string)
    ensures Unescape(EscapeHtml(s)) == s
    decreases |s|
  {
    EscapeHtmlIsEscapeEach(s);
    if s != [] {
      UnescapePiece(s[0], EscapeEach(s[1..]));
      UnescapeEscapeHtml(s[1..]);
      EscapeHtmlIsEscapeEach(s[1..]);
    }
  }

  // ---------------------------------------------------------------
  // validatePassword
  // ---------------------------------------------------------------

  const PasswordMessage: string := "密码不能为空, 不能含特殊字符且至少6位"

  predicate IsAsciiAlnum(c: char) {
    'A' <= c <= 'Z' || 'a' <= c <= 'z' || '0' <= c <= '9'
  }

  /** `/^[A-Za-z0-9]{6,}$/` run as an automaton: `seen` counts the class
      characters matched so far (saturating at 6); the match succeeds at
      the end of the input once six have been seen. */
  function MatchFrom(s: string, seen: nat): bool
    decreases |s|
  {
    if s == [] then seen >= 6
    else if IsAsciiAlnum(s[0]) then MatchFrom(s[1..], if seen < 6 then seen + 1 else 6)
    else false
  }

  function ValidatePassword(pwd: string): string {
    if MatchFrom(pwd, 0) then "" else PasswordMessage
  }

  lemma {:induction false} MatchFromMeaning(s: string, seen: nat)
    requires seen <= 6
    ensures MatchFrom(s, seen) <==> (forall i :: 0 <= i < |s| ==> IsAsciiAlnum(s[i])) && |s| + seen >= 6
    decreases |s|
  {
    if s != [] {
      MatchFromMeaning(s[1..], if seen < 6 then seen + 1 else 6);
      if IsAsciiAlnum(s[0]) && (forall i :: 0 <= i < |s[1..]| ==> IsAsciiAlnum(s[1..][i])) {
        forall i | 0 <= i < |s| ensures IsAsciiAlnum(s[i]) {
          if i > 0 {
            assert s[i] == s[1..][i - 1];
          }
        }
      }
    }
  }

  /** validatePassword answers '' exactly for passwords of at least six
      ASCII letters and digits, and the fixed message otherwise. */
  lemma ValidatePasswordMeaning(pwd: string)
    ensures ValidatePassword(pwd) == "" <==> |pwd| >= 6 && forall i :: 0 <= i < |pwd| ==> IsAsciiAlnum(pwd[i])
    ensures ValidatePassword(pwd) == "" || ValidatePassword(pwd) == PasswordMessage
  {
    MatchFromMeaning(pwd, 0);
  }

  /** The empty password and the three-letter "pwd" are refused; the
      default administrator password "88888888" is accepted. */
  lemma ValidatePasswordExamples()
    ensures ValidatePassword("") == PasswordMessage
    ensures ValidatePassword("pwd") == PasswordMessage
    ensures ValidatePassword("88888888") == ""
  {
    ValidatePasswordMeaning("");
    ValidatePasswordMeaning("pwd");
    ValidatePasswordMeaning("88888888");
  }
}
