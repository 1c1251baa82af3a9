/** What the escaping of attribute values does: the five HTML characters become entities, script schemes lose their colon. */
module Escaping {
  import opened Strings
  import opened TagNodes
  import opened PrintedForm

  // ---------------------------------------------------------------- entities

  predicate Special(c: char) { c == '&' || c == '<' || c == '>' || c == '"' || c == '\'' }

  /** The character an entity stands for. */
  function Entity(name: string): Option<char> {
    if name == "amp" then Some('&') else if name == "lt" then Some('<') else if name == "gt" then Some('>')
    else if name == "quot" then Some('"') else if name == "#039" then Some('\'') else None
  }

  /** Reading entities back. */
  function Unescape(s: string): string
    decreases |s|
  {
    if s == "" then ""
    else if s[0] != '&' then [s[0]] + Unescape(s[1..])
    else
      var name := UpTo(s[1..], ';');
      if |name| < |s| - 1 && Entity(name).Some? then [Entity(name).value] + Unescape(s[|name| + 2..])
      else [s[0]] + Unescape(s[1..])
  }

  lemma EntityRead(name: string, rest: string)
    requires ';' !in name && Entity(name).Some?
    ensures Unescape("&" + (name + [';'] + rest)) == [Entity(name).value] + Unescape(rest)
  {
    hide Entity;
    var s := "&" + (name + [';'] + rest);
    assert s[1..] == name + [';'] + rest;
    UpToUnique(name, ';', rest);
    assert s[|name| + 2..] == rest;
  }

  lemma UnescapeFirst(c: char, rest: string)
    ensures Unescape(EscapeChar(c) + rest) == [c] + Unescape(rest)
  {
    hide Unescape;
    if c == '&' { Named("amp", c, rest); }
    else if c == '<' { Named("lt", c, rest); }
    else if c == '>' { Named("gt", c, rest); }
    else if c == '"' { Named("quot", c, rest); }
    else if c == '\'' { Named("#039", c, rest); }
    else { OrdinaryRead(c, rest); }
  }

  lemma OrdinaryRead(c: char, rest: string)
    requires c != '&'
    ensures Unescape([c] + rest) == [c] + Unescape(rest)
  {
    assert ([c] + rest)[1..] == rest;
  }

  lemma Named(name: string, c: char, rest: string)
    requires ';' !in name && Entity(name) == Some(c) && EscapeChar(c) == "&" + name + ";"
    ensures Unescape(EscapeChar(c) + rest) == [c] + Unescape(rest)
  {
    hide Unescape, EscapeChar, Entity;
    EntityRead(name, rest);
    assert EscapeChar(c) + rest == "&" + (name + [';'] + rest);
  }

  /** Entities are read back as the value. */
  lemma {:induction false} EntitiesComeBack(s: string)
    ensures Unescape(EscapeChars(s)) == s
  {
    hide Unescape, EscapeChar;
    if s == "" {
      NothingToUnescape();
    } else {
      EntitiesComeBack(s[1..]);
      UnescapeFirst(s[0], EscapeChars(s[1..]));
      assert s == [s[0]] + s[1..];
    }
  }

  predicate Markup(c: char) { c == '<' || c == '>' || c == '"' || c == '\'' }

  predicate NoMarkup(s: string) { forall c | c in s :: !Markup(c) }

  lemma EntityHasNoMarkup(c: char)
    ensures NoMarkup(EscapeChar(c))
  {
  }

  /** None of the characters that end a tag or a value is left. */
  lemma {:induction false} EntitiesHoldNoMarkup(s: string)
    ensures NoMarkup(EscapeChars(s))
  {
    hide EscapeChar, Markup;
    if s != "" {
      EntitiesHoldNoMarkup(s[1..]);
      EntityHasNoMarkup(s[0]);
    }
  }

  lemma NothingToUnescape()
    ensures Unescape("") == ""
  {
  }

  lemma {:induction false} LongerByEntities(s: string)
    ensures |EscapeChars(s)| >= |s|
    ensures EscapeChars(s) == s <==> forall c | c in s :: !Special(c)
  {
    if s != "" {
      LongerByEntities(s[1..]);
      var e, rest := EscapeChar(s[0]), EscapeChars(s[1..]);
      assert EscapeChars(s) == e + rest && s == [s[0]] + s[1..];
      assert |e| == 1 <==> !Special(s[0]);
      assert forall c | c in s[1..] :: c in s;
      assert s[0] in s && forall c | c in s :: c == s[0] || c in s[1..];
      if EscapeChars(s) == s {
        assert |e| == 1 && |rest| == |s[1..]|;
        assert rest == (e + rest)[1..];
      }
    }
  }

  // ---------------------------------------------------------------- script schemes

  /** A scheme and its colon stand at place i, in any letter case. */
  predicate SchemeAt(s: string, i: nat) {
    i <= |s| && (var l := Lower(s[i..]); "javascript:" <= l || "data:" <= l || "vbscript:" <= l)
  }

  predicate SchemeFree(s: string) { forall i | 0 <= i <= |s| :: !SchemeAt(s, i) }

  lemma {:induction false} LowerRest(s: string, i: nat)
    requires i <= |s|
    ensures Lower(s[i..]) == Lower(s)[i..]
  {
    assert forall k | 0 <= k < |s| - i :: Lower(s[i..])[k] == Lower(s)[i..][k];
  }

  lemma SchemeStarts(s: string)
    ensures SchemeAt(s, 0) <==> SchemeLength(s) > 0
    ensures SchemeLength(s) > 0 ==> s[SchemeLength(s)] == ':'
  {
    assert s[0..] == s;
    var n := SchemeLength(s);
    if n > 0 {
      assert Lower(s)[n] == ':';
      assert LowerChar(s[n]) == ':';
    }
  }

  lemma SchemeBehind(s: string, i: nat, n: nat)
    requires n <= i <= |s|
    ensures SchemeAt(s, i) <==> SchemeAt(s[n..], i - n)
  {
    assert s[n..][i - n..] == s[i..];
  }

  /** A value is written without a change exactly when no scheme stands in it. */
  lemma {:induction false} DefusedIsSame(s: string)
    ensures DefuseSchemes(s) == s <==> SchemeFree(s)
    ensures |DefuseSchemes(s)| >= |s| && (DefuseSchemes(s) != s ==> |DefuseSchemes(s)| > |s|)
    decreases |s|
  {
    hide SchemeLength, SchemeAt;
    if s == "" {
      NoSchemeInNothing();
    } else {
      var n := SchemeLength(s);
      SchemeStarts(s);
      if n > 0 {
        DefusedIsSame(s[n + 1..]);
        assert SchemeAt(s, 0);
      } else {
        DefusedIsSame(s[1..]);
        assert s == [s[0]] + s[1..];
        forall i | 1 <= i <= |s|
          ensures SchemeAt(s, i) <==> SchemeAt(s[1..], i - 1)
        {
          SchemeBehind(s, i, 1);
        }
        assert SchemeFree(s) <==> SchemeFree(s[1..]) by {
          if !SchemeFree(s[1..]) {
            var j :| 0 <= j <= |s[1..]| && SchemeAt(s[1..], j);
            assert SchemeAt(s, j + 1);
          }
        }
      }
    }
  }

  lemma NoSchemeInNothing()
    ensures SchemeFree("")
  {
  }

  /** The first scheme loses its colon, and what follows is treated the same way. */
  lemma {:induction false} FirstDefused(a: string, scheme: string, b: string)
    requires IsScheme(scheme) && forall i | 0 <= i < |a| :: !SchemeAt(a + (scheme + ":" + b), i)
    ensures DefuseSchemes(a + (scheme + ":" + b)) == a + (scheme + "%3A" + DefuseSchemes(b))
    decreases |a|
  {
    hide SchemeAt, IsScheme, DefuseSchemes;
    var x, y := scheme + ":" + b, scheme + "%3A" + DefuseSchemes(b);
    if a == "" {
      SchemeDefused(scheme, b);
      assert a + x == x && a + y == y;
    } else {
      var s := a + x;
      assert !SchemeAt(s, 0);
      assert s[1..] == a[1..] + x;
      forall i | 0 <= i < |a[1..]|
        ensures !SchemeAt(a[1..] + x, i)
      {
        SchemeBehind(s, i + 1, 1);
      }
      FirstDefused(a[1..], scheme, b);
      FirstKept(s);
      assert [a[0]] + (a[1..] + y) == a + y;
    }
  }

  predicate IsScheme(scheme: string) { Lower(scheme) == "javascript" || Lower(scheme) == "data" || Lower(scheme) == "vbscript" }

  lemma FirstKept(s: string)
    requires s != "" && !SchemeAt(s, 0)
    ensures DefuseSchemes(s) == [s[0]] + DefuseSchemes(s[1..])
  {
    hide SchemeLength, SchemeAt;
    SchemeStarts(s);
  }

  lemma SchemeDefused(scheme: string, b: string)
    requires IsScheme(scheme)
    ensures DefuseSchemes(scheme + ":" + b) == scheme + "%3A" + DefuseSchemes(b)
  {
    hide SchemeLength, IsScheme;
    var s := scheme + ":" + b;
    WholeScheme(scheme, b);
    assert s[..|scheme|] == scheme && s[|scheme| + 1..] == b;
  }

  lemma WholeScheme(scheme: string, b: string)
    requires IsScheme(scheme)
    ensures SchemeLength(scheme + ":" + b) == |scheme| > 0
  {
    var s := scheme + ":" + b;
    var l := Lower(scheme) + ":";
    LowerStarts(scheme, b);
    assert |l| == |scheme| + 1;
    assert l == "javascript:" || l == "data:" || l == "vbscript:";
    assert l[0] == Lower(s)[0];
  }

  lemma LowerStarts(scheme: string, b: string)
    ensures Lower(scheme) + ":" <= Lower(scheme + ":" + b)
  {
    var s := scheme + ":" + b;
    assert forall k | 0 <= k < |scheme| :: Lower(s)[k] == Lower(scheme)[k];
    assert Lower(s)[|scheme|] == LowerChar(':') == ':';
    assert Lower(s)[..|scheme| + 1] == Lower(scheme) + ":";
  }

  /** A word found at the start of a defused text without a per cent sign in it was there before. */
  lemma {:induction false} WordWasThere(s: string, w: string)
    requires '%' !in w && w <= Lower(DefuseSchemes(s))
    ensures w <= Lower(s)
    decreases |s|
  {
    hide SchemeLength;
    if w != "" && s != "" {
      var n := SchemeLength(s);
      var d := DefuseSchemes(s);
      if n > 0 {
        assert d[n] == '%' && d[..n] == s[..n];
        assert |w| <= n;
        assert forall k | 0 <= k < |w| :: w[k] == Lower(d)[k] == Lower(s)[k];
      } else {
        FirstSame(s, w);
        WordWasThere(s[1..], w[1..]);
        assert w == [w[0]] + w[1..] && Lower(s) == [LowerChar(s[0])] + Lower(s[1..]);
      }
    }
  }

  lemma FirstSame(s: string, w: string)
    requires s != "" && w != "" && SchemeLength(s) == 0 && '%' !in w && w <= Lower(DefuseSchemes(s))
    ensures w[0] == LowerChar(s[0]) && w[1..] <= Lower(DefuseSchemes(s[1..])) && '%' !in w[1..]
  {
    hide SchemeLength;
    var d := DefuseSchemes(s);
    assert d == [s[0]] + DefuseSchemes(s[1..]) && d[1..] == DefuseSchemes(s[1..]);
    LowerRest(d, 1);
    assert w[1..] <= Lower(d)[1..];
    assert forall c | c in w[1..] :: c in w;
  }

  lemma NothingNew(s: string)
    requires s != "" && !SchemeAt(s, 0)
    ensures !SchemeAt(DefuseSchemes(s), 0)
  {
    hide SchemeLength, DefuseSchemes;
    assert s[0..] == s && DefuseSchemes(s)[0..] == DefuseSchemes(s);
    if "javascript:" <= Lower(DefuseSchemes(s)) { WordWasThere(s, "javascript:"); }
    if "data:" <= Lower(DefuseSchemes(s)) { WordWasThere(s, "data:"); }
    if "vbscript:" <= Lower(DefuseSchemes(s)) { WordWasThere(s, "vbscript:"); }
  }

  predicate SchemeWord(word: string) { word == "javascript:" || word == "data:" || word == "vbscript:" }

  lemma SchemeWordChars(word: string)
    requires SchemeWord(word)
    ensures '%' !in word && '3' !in word && word != "" && word[|word| - 1] == ':' && ':' !in word[..|word| - 1]
  {
  }

  lemma WordOf(s: string, i: nat) returns (word: string)
    requires SchemeAt(s, i)
    ensures SchemeWord(word) && word <= Lower(s[i..])
  {
    var l := Lower(s[i..]);
    word := if "javascript:" <= l then "javascript:" else if "data:" <= l then "data:" else "vbscript:";
  }

  lemma Reached(s: string, i: nat, k: nat, word: string)
    requires i <= k < |s| && |word| > k - i && word <= Lower(s[i..])
    ensures word[k - i] == LowerChar(s[k]) && LowerChar(s[k]) in word
  {
    assert word[k - i] == Lower(s[i..])[k - i];
  }

  lemma ColonWithin(s: string, i: nat, k: nat, word: string)
    requires i <= k < |s| && SchemeWord(word) && |word| <= k - i && word <= Lower(s[i..])
    ensures ':' in s[i..k]
  {
    hide SchemeWord;
    SchemeWordChars(word);
    var n := |word| - 1;
    Reached(s, i, i + n, word);
    assert s[i..k][n] == s[i + n];
  }

  /** A word whose only colon comes last cannot reach over one of these characters. */
  lemma NoSchemeBefore(s: string, i: nat, k: nat)
    requires i <= k < |s| && (s[k] == '%' || s[k] == '3') && ':' !in s[i..k]
    ensures !SchemeAt(s, i)
  {
    hide SchemeAt, SchemeWord;
    if SchemeAt(s, i) {
      var word := WordOf(s, i);
      SchemeWordChars(word);
      if |word| <= k - i {
        ColonWithin(s, i, k, word);
      } else {
        Reached(s, i, k, word);
      }
    }
  }

  lemma NoSchemeAtA(s: string, i: nat)
    requires i < |s| && s[i] == 'A'
    ensures !SchemeAt(s, i)
  {
    assert Lower(s[i..])[0] == 'a';
  }

  /** No scheme is left. */
  lemma {:induction false} DefusedIsFree(s: string)
    ensures SchemeFree(DefuseSchemes(s))
    decreases |s|
  {
    hide SchemeLength, SchemeAt;
    if s == "" {
      NoSchemeInNothing();
    } else {
      var n := SchemeLength(s);
      var d := DefuseSchemes(s);
      SchemeStarts(s);
      var m := if n > 0 then n + 3 else 1;
      var t := s[if n > 0 then n + 1 else 1..];
      DefusedIsFree(t);
      assert d[m..] == DefuseSchemes(t);
      forall i | 0 <= i <= |d|
        ensures !SchemeAt(d, i)
      {
        if i >= m {
          SchemeBehind(d, i, m);
        } else if n == 0 {
          NothingNew(s);
        } else {
          BeforeDefused(s, i);
        }
      }
    }
  }

  lemma BeforeDefused(s: string, i: nat)
    requires s != "" && SchemeLength(s) > 0 && i < SchemeLength(s) + 3
    ensures !SchemeAt(DefuseSchemes(s), i)
  {
    hide SchemeAt;
    var n := SchemeLength(s);
    var d := DefuseSchemes(s);
    assert d[..n] == s[..n] && d[n..n + 3] == "%3A";
    assert d[n] == d[n..n + 3][0] && d[n + 1] == d[n..n + 3][1] && d[n + 2] == d[n..n + 3][2];
    if i <= n {
      SchemeHasNoColon(s);
      assert forall c | c in d[i..n] :: c in s[..n];
      NoSchemeBefore(d, i, n);
    } else if i == n + 1 {
      NoSchemeBefore(d, i, n + 1);
    } else {
      NoSchemeAtA(d, i);
    }
  }

  lemma SchemeHasNoColon(s: string)
    requires SchemeLength(s) > 0
    ensures ':' !in s[..SchemeLength(s)]
  {
    hide SchemeWord;
    var n := SchemeLength(s);
    assert s[0..] == s && SchemeAt(s, 0);
    var word := LongWordOf(s);
    SchemeWordChars(word);
    forall k | 0 <= k < n
      ensures s[k] != ':'
    {
      assert word[k] == Lower(s)[k] == LowerChar(s[k]) && word[..n][k] == word[k];
    }
  }

  lemma LongWordOf(s: string) returns (word: string)
    requires SchemeLength(s) > 0
    ensures SchemeWord(word) && word <= Lower(s) && |word| == SchemeLength(s) + 1
  {
    var l := Lower(s);
    word := if "javascript:" <= l then "javascript:" else if "data:" <= l then "data:" else "vbscript:";
  }

  // ---------------------------------------------------------------- both together

  /** A value of ordinary characters without a scheme is written as it is, and only such a value. */
  lemma WrittenAsItIs(value: string)
    ensures EscapeAttr(value) == value <==> (forall c | c in value :: !Special(c)) && SchemeFree(value)
  {
    hide EscapeChars, DefuseSchemes, SchemeFree;
    LongerByEntities(value);
    DefusedIsSame(EscapeChars(value));
    DefusedIsSame(value);
  }

  /** In a written value no quote and no angle bracket is left, and no scheme. */
  lemma WrittenIsHarmless(value: string)
    ensures NoMarkup(EscapeAttr(value)) && SchemeFree(EscapeAttr(value))
  {
    hide SchemeFree;
    EntitiesHoldNoMarkup(value);
    DefusedChars(EscapeChars(value));
    DefusedIsFree(EscapeChars(value));
  }
}
