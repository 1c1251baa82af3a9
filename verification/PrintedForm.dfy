/** Trees that can be printed and read back, and what the lexer makes of their printed form. */
module PrintedForm {
  import opened Strings
  import opened LexerSpec
  import opened TagNodes

  // ---------------------------------------------------------------- trees that survive printing

  const Cfg := Config('[', ']', false, [])

  predicate BracketFree(s: string) { '[' !in s && ']' !in s }

  predicate ValidName(name: string) {
    name != "" && Lower(name) == name && BracketFree(name) && EQ !in name && name[0] != SLASH && !Cfg.IsReserved(name[0])
  }

  /** A value as it may stand between quotes. */
  predicate PlainValue(value: string) {
    BracketFree(value) && QUOTEMARK !in value && (value != "" ==> value[|value| - 1] != BACKSLASH)
  }

  /** A value whose written form can be told from what follows: quotes are escaped, brackets are not. */
  predicate Writable(value: string) {
    BracketFree(value) && (value != "" ==> value[|value| - 1] != BACKSLASH)
  }

  predicate PlainKey(key: string) {
    key != "" && BracketFree(key) && forall c | c in key :: !IsSpecial(c)
  }

  predicate HasKey(attrs: Attrs, key: string) { exists a | a in attrs :: a.0 == key }

  /** Named attributes: distinct plain names with writable values. */
  predicate NamedAttrs(attrs: Attrs) {
    attrs == [] || (PlainKey(attrs[0].0) && Writable(attrs[0].1) && !HasKey(attrs[1..], attrs[0].0)
                    && NamedAttrs(attrs[1..]))
  }

  /** The single unnamed attribute of a tag such as [url="..."]. */
  predicate UnnamedAttr(attrs: Attrs) {
    |attrs| == 1 && attrs[0].0 == attrs[0].1 && attrs[0].1 != "" && Writable(attrs[0].1)
    && !(SPACE in attrs[0].1 && EQ in attrs[0].1)
  }

  /** An unnamed value, one word, beside named attributes: the printer finds it in the last place and writes it first. */
  predicate MixedAttrs(attrs: Attrs) {
    |attrs| > 1 && Unique(attrs) && Writable(attrs[|attrs| - 1].1) && NamedAttrs(attrs[..|attrs| - 1])
    && forall c | c in attrs[|attrs| - 1].1 :: !IsSpecial(c)
  }

  /** Whether the last attribute is printed as an unnamed value. */
  predicate Unique(attrs: Attrs) { UniqueAttr(attrs).Some? && UniqueAttr(attrs).value != "" }

  predicate ValidAttrs(attrs: Attrs) {
    UnnamedAttr(attrs) || MixedAttrs(attrs) || (UniqueAttr(attrs).None? && NamedAttrs(attrs))
  }

  predicate ValidTag(tag: string, attrs: Attrs) {
    ValidName(tag) && ValidAttrs(attrs) && (attrs != [] ==> forall c | c in tag :: !IsSpecial(c))
  }

  /** No text holds an opening bracket, and every tag can be told from its printed form. */
  predicate Printable(f: seq<Tree>) {
    f == [] ||
    ((match f[0]
      case Leaf(s) => '[' !in s
      case Void(tag, attrs) => ValidTag(tag, attrs)
      case Elem(tag, attrs, content) => ValidTag(tag, attrs) && Printable(content))
     && Printable(f[1..]))
  }

  // ---------------------------------------------------------------- text

  /** The first run of a text: a newline, a stretch of blanks, or a stretch of other characters. */
  function FirstRun(s: string): (r: Token)
    requires s != []
    ensures r.IsText() && 0 < |r.value| && r.value <= s
  {
    if s[0] == NEWLINE then Token(NewLine, [s[0]])
    else if IsWhiteSpace(s[0]) then Token(Space, TakeWhile(s, IsWhiteSpace))
    else Token(Word, TakeWhile(s, IsInk))
  }

  predicate IsInk(c: char) { !IsWhiteSpace(c) && c != NEWLINE }

  function TextTokens(s: string): seq<Token>
    decreases |s|
  {
    if s == [] then [] else
    var run := FirstRun(s);
    [run] + TextTokens(s[|run.value|..])
  }

  /** A run holds characters of one kind only, and a newline stands alone. */
  predicate Homogeneous(t: Token) {
    match t.kind
    case NewLine => t.value == [NEWLINE]
    case Space => t.value != [] && forall c | c in t.value :: IsWhiteSpace(c)
    case Word => t.value != [] && forall c | c in t.value :: IsInk(c)
    case _ => false
  }

  /** Cut into runs that cannot be joined with their neighbours. */
  predicate MaximalRuns(ts: seq<Token>) {
    (forall t | t in ts :: Homogeneous(t)) &&
    forall i | 0 <= i < |ts| - 1 :: ts[i].kind == ts[i + 1].kind ==> ts[i].kind.NewLine?
  }

  lemma FirstRunIsMaximal(s: string)
    requires s != []
    ensures var run := FirstRun(s);
            Homogeneous(run) && (|run.value| < |s| ==> FirstRun(s[|run.value|..]).kind == run.kind ==> run.kind.NewLine?)
  {
  }

  lemma {:induction false} TextTokensAreRuns(s: string)
    ensures MaximalRuns(TextTokens(s))
    decreases |s|
  {
    hide FirstRun, Homogeneous;
    if s != [] {
      var n := |FirstRun(s).value|;
      FirstRunIsMaximal(s);
      TextTokensAreRuns(s[n..]);
      assert TextTokens(s) == [FirstRun(s)] + TextTokens(s[n..]);
    }
  }

  lemma TextTokensFirst(s: string)
    requires s != []
    ensures var n := |FirstRun(s).value|;
            TokenText(TextTokens(s)) == FirstRun(s).value + TokenText(TextTokens(s[n..])) && s == FirstRun(s).value + s[n..]
  {
    hide FirstRun;
    var run := FirstRun(s);
    var more := TextTokens(s[|run.value|..]);
    assert TextTokens(s) == [run] + more && ([run] + more)[1..] == more;
  }

  /** TextTokens cuts a text into maximal runs and keeps every character. */
  lemma {:induction false} TextTokensAreMaximal(s: string)
    ensures MaximalRuns(TextTokens(s)) && TokenText(TextTokens(s)) == s
    decreases |s|
  {
    hide MaximalRuns, FirstRun;
    TextTokensAreRuns(s);
    if s != [] {
      hide TextTokens, TokenText;
      TextTokensFirst(s);
      TextTokensAreMaximal(s[|FirstRun(s).value|..]);
    }
  }

  lemma FirstRunIsSegment(s: string, tail: string)
    requires s != [] && '[' !in s && (tail == [] || tail[0] == '[')
    ensures NextSegment(Cfg, s + tail, "") == (Plain(FirstRun(s)), "")
  {
    var run := FirstRun(s);
    var n := |run.value|;
    assert s + tail == run.value + (s[n..] + tail);
    if s[0] != NEWLINE {
      var p := if IsWhiteSpace(s[0]) then IsWhiteSpace else Cfg.IsWordChar;
      forall c | c in run.value ensures p(c) { assert c in s; }
      TakeWhileUnique(run.value, s[n..] + tail, p);
    }
  }

  /** The lexer reads one run and goes on behind it. */
  lemma LexRun(s: string, tail: string)
    requires s != [] && '[' !in s && (tail == [] || tail[0] == '[')
    ensures var n := |FirstRun(s).value|;
            TokensOf(Lex(Cfg, s + tail, "")) == [FirstRun(s)] + TokensOf(Lex(Cfg, s[n..] + tail, "")) && '[' !in s[n..]
  {
    hide FirstRun, NextSegment, Lex, TokensOf;
    var run := FirstRun(s);
    FirstRunIsSegment(s, tail);
    LexUnfold(Cfg, s + tail, "");
    assert Plain(run).Source(Cfg) == run.value && Plain(run).Tokens() == [run];
    assert (s + tail)[|run.value|..] == s[|run.value|..] + tail;
  }

  /** Text up to an opening bracket, or to the end, is read as its maximal runs. */
  lemma {:induction false} LexText(s: string, tail: string)
    requires '[' !in s && (tail == [] || tail[0] == '[')
    ensures TokensOf(Lex(Cfg, s + tail, "")) == TextTokens(s) + TokensOf(Lex(Cfg, tail, ""))
    decreases |s|
  {
    hide FirstRun, Lex, TokensOf;
    if s == [] {
      assert s + tail == tail;
    } else {
      LexRun(s, tail);
      LexText(s[|FirstRun(s).value|..], tail);
    }
  }

  // ---------------------------------------------------------------- tags

  function BodySegment(body: string): Segment
    requires body != []
  {
    if EQ !in body || body[0] == SLASH then Plain(Token(Tag, body)) else TagWithAttrs(body)
  }

  lemma TagIsSegment(body: string, tail: string)
    requires body != [] && BracketFree(body) && !Cfg.IsReserved(body[0])
    ensures NextSegment(Cfg, "[" + body + "]" + tail, "") == (BodySegment(body), "")
  {
    var rest := "[" + body + "]" + tail;
    assert rest[1..] == body + [']'] + tail;
    assert rest[1] == body[0];
    assert rest[|body| + 1] == ']';
    assert StartsTag(Cfg, rest, "");
    UpToUnique(body, ']', tail);
  }

  lemma LexTag(body: string, tail: string)
    requires body != [] && BracketFree(body) && !Cfg.IsReserved(body[0])
    ensures TokensOf(Lex(Cfg, "[" + body + "]" + tail, "")) == BodySegment(body).Tokens() + TokensOf(Lex(Cfg, tail, ""))
  {
    var rest := "[" + body + "]" + tail;
    TagIsSegment(body, tail);
    LexUnfold(Cfg, rest, "");
    assert BodySegment(body).Source(Cfg) == "[" + body + "]";
    assert rest[|body| + 2..] == tail;
  }

  // ---------------------------------------------------------------- the written form of a value

  lemma {:induction false} EscapedChars(s: string)
    ensures forall c | c in EscapeChars(s) :: c != QUOTEMARK && (c in s || c in "&amplt;gquo#039")
    ensures s == "" <==> EscapeChars(s) == ""
    ensures s != "" ==> (EscapeChars(s)[|EscapeChars(s)| - 1] == BACKSLASH ==> s[|s| - 1] == BACKSLASH)
  {
    if s != "" {
      EscapedChars(s[1..]);
      assert forall c | c in s[1..] :: c in s;
      EscapedChar(s[0]);
    }
  }

  lemma EscapedChar(c: char)
    ensures var e := EscapeChar(c);
            e != "" && (e[|e| - 1] == BACKSLASH ==> c == BACKSLASH)
            && forall x | x in e :: x != QUOTEMARK && (x == c || x in "&amplt;gquo#039")
  {
  }

  lemma {:induction false} DefusedChars(s: string)
    ensures forall c | c in DefuseSchemes(s) :: c in s || c in "%3A"
    ensures s == "" <==> DefuseSchemes(s) == ""
    ensures s != "" ==> (DefuseSchemes(s)[|DefuseSchemes(s)| - 1] == BACKSLASH ==> s[|s| - 1] == BACKSLASH)
    decreases |s|
  {
    hide SchemeLength;
    if s != "" {
      var n := SchemeLength(s);
      var m := if n > 0 then n + 1 else 1;
      DefusedChars(s[m..]);
      assert forall c | c in s[m..] :: c in s;
      assert forall c | c in s[..n] :: c in s;
    }
  }

  /** Escaping makes a value fit to stand between quotes, and adds neither blanks nor equals signs. */
  lemma EscapedIsPlain(value: string)
    requires Writable(value)
    ensures PlainValue(EscapeAttr(value))
    ensures (SPACE in EscapeAttr(value) ==> SPACE in value) && (EQ in EscapeAttr(value) ==> EQ in value)
    ensures (forall c | c in value :: !IsSpecial(c)) ==> forall c | c in EscapeAttr(value) :: !IsSpecial(c)
    ensures value != "" ==> EscapeAttr(value) != ""
  {
    hide EscapeChars, DefuseSchemes;
    var once := EscapeChars(value);
    EscapedChars(value);
    DefusedChars(once);
    assert '[' !in once && ']' !in once && QUOTEMARK !in once;
    assert '[' !in DefuseSchemes(once) && ']' !in DefuseSchemes(once) && QUOTEMARK !in DefuseSchemes(once);
  }

  /** The tokens of attributes: values as they are written. */
  function NamedTokens(attrs: Attrs): seq<Token> {
    if attrs == [] then []
    else [Token(AttrName, attrs[0].0), Token(AttrValue, EscapeAttr(attrs[0].1))] + NamedTokens(attrs[1..])
  }

  function OpenTokens(tag: string, attrs: Attrs): seq<Token> {
    [Token(Tag, tag)] +
    if Unique(attrs) then [Token(AttrValue, EscapeAttr(attrs[|attrs| - 1].1))] + NamedTokens(attrs[..|attrs| - 1])
    else NamedTokens(attrs)
  }

  /** A quoted plain value is read up to its closing quote. */
  lemma {:induction false} PlainValueEnd(s: string, p: nat, e: nat, single: bool)
    requires 0 < p <= e < |s| && s[e] == QUOTEMARK && QUOTEMARK !in s[p..e] && s[e - 1] != BACKSLASH
    requires e + 1 < |s| ==> s[e + 1] == SPACE && !single
    ensures ValueEnd(s, p, true, single) == if e + 1 < |s| then e + 1 else e
    decreases e - p
  {
    if p < e {
      assert s[p] == s[p..e][0];
      assert s[p + 1..e] == s[p..e][1..];
      PlainValueEnd(s, p + 1, e, single);
    } else if e + 1 < |s| {
      assert TakeValueChar(s, e + 1, false, single) == (false, false);
      assert ValueEnd(s, e + 1, false, single) == e + 1;
    }
  }

  lemma {:induction false} NoQuoteNoReplacement(s: string)
    requires QUOTEMARK !in s
    ensures ReplaceFirst(s, [BACKSLASH, QUOTEMARK], [QUOTEMARK]) == s
  {
    if s != [] {
      assert |s| > 1 ==> s[1] in s;
      NoQuoteNoReplacement(s[1..]);
    }
  }

  lemma UnquotePlain(v: string)
    requires QUOTEMARK !in v
    ensures Unquote("\"" + v) == v && Unquote("\"" + v + "\"") == v
  {
    assert ("\"" + v)[1..] == v;
    assert ("\"" + v + "\"")[1..] == v + "\"";
    if v != [] {
      assert v[0] in v && v[|v| - 1] in v;
      assert (v + "\"")[..|v|] == v;
      assert TrimChar(v + "\"", QUOTEMARK) == TrimChar(v, QUOTEMARK);
    } else {
      assert TrimChar("\"", QUOTEMARK) == TrimChar([], QUOTEMARK);
      assert v + "\"" == "\"";
    }
    assert TrimChar(v, QUOTEMARK) == v;
    NoQuoteNoReplacement(v);
  }

  lemma OpenQuote(s: string, q: nat, single: bool)
    requires 0 < q < |s| && s[q] == QUOTEMARK && s[q - 1] == EQ
    ensures ValueEnd(s, q, false, single) == ValueEnd(s, q + 1, true, single)
  {
  }

  /** A quoted plain value at position q, just after its equals sign. */
  lemma QuotedValue(s: string, q: nat, value: string, more: string, single: bool)
    requires 0 < q <= |s| && s[q - 1] == EQ && s[q..] == "\"" + value + "\"" + more
    requires PlainValue(value) && (more == [] || (more[0] == SPACE && !single))
    ensures var e := q + |value| + if more == [] then 1 else 2;
            ValueEnd(s, q, false, single) == e && Unquote(s[q..e]) == value
  {
    hide ValueEnd, TakeValueChar, Unquote, IsSpecial;
    var e := q + 1 + |value|;
    var rest := s[q..];
    assert s[q] == rest[0] && s[e] == rest[1 + |value|];
    assert s[q + 1..e] == rest[1..1 + |value|] == value;
    assert s[q..e] == rest[..1 + |value|] == "\"" + value;
    if value != [] {
      assert s[e - 1] == rest[|value|] == value[|value| - 1];
    }
    if more != [] {
      assert s[e + 1] == rest[2 + |value|] == more[0];
      assert s[q..e + 1] == rest[..2 + |value|] == "\"" + value + "\"";
    }
    OpenQuote(s, q, single);
    PlainValueEnd(s, q + 1, e, single);
    UnquotePlain(value);
  }

  /** The name of a printed attribute, at position p. */
  lemma NamedStep(s: string, p: nat, key: string, rest: string)
    requires p <= |s| && s[p..] == key + rest && PlainKey(key) && rest != [] && rest[0] == EQ
    ensures TagStep(s, p, AttrMode, false) == (Token(AttrName, key), p + |key| + 1, ValueMode)
    ensures s[p + |key|] == EQ && s[p + |key| + 1..] == rest[1..]
  {
    TakeWhileUnique(key, rest, c => !IsSpecial(c));
    assert s[p + |key|] == s[p..][|key|];
    assert s[p + |key| + 1..] == s[p..][|key| + 1..];
  }

  lemma AfterFirst(attrs: Attrs)
    requires attrs != [] && NamedAttrs(attrs)
    ensures var (key, value) := attrs[0];
            AttrsToString(attrs)[1..] == key + ("=\"" + EscapeAttr(value) + "\"" + AttrsToString(attrs[1..]))
    ensures attrs[1..] != [] ==> |AttrsToString(attrs[1..])| > 1 && AttrsToString(attrs[1..])[0] == SPACE
    ensures attrs[1..] == [] ==> AttrsToString(attrs[1..]) == []
  {
    hide EscapeAttr;
  }

  lemma ValueTokens(s: string, q: nat, single: bool)
    requires q < |s|
    ensures var e := ValueEnd(s, q, false, single);
            TagSteps(s, q, ValueMode, single)
            == [Token(AttrValue, Unquote(s[q..e]))] + if e + 1 >= |s| then [] else TagSteps(s, e + 1, AttrMode, single)
  {
    hide ValueEnd, Unquote, IsSpecial;
  }

  /** The value step over one printed attribute. */
  lemma ValueStep(s: string, q: nat, value: string, more: string)
    requires 0 < q <= |s| && s[q - 1] == EQ && s[q..] == "\"" + value + "\"" + more
    requires PlainValue(value) && (more == [] || more[0] == SPACE)
    ensures more != [] ==> s[|s| - |more|..] == more
    ensures TagSteps(s, q, ValueMode, false)
         == [Token(AttrValue, value)] + if more == [] then [] else TagSteps(s, |s| - |more| + 1, AttrMode, false)
  {
    hide PlainValue, ValueEnd, Unquote, TagStep, TagSteps;
    QuotedValue(s, q, value, more, false);
    ValueTokens(s, q, false);
    assert |s| == q + |value| + 2 + |more|;
    if more != [] {
      assert s[|s| - |more|..] == s[q..][|value| + 2..] == more;
      if |more| == 1 { StepsDone(s, |s|, AttrMode, false); }
    }
  }

  /** Both steps over one printed attribute. */
  lemma NamedPair(s: string, p: nat, key: string, value: string, more: string)
    requires 0 < p <= |s| && s[p..] == key + ("=\"" + value + "\"" + more)
    requires PlainKey(key) && PlainValue(value) && (more == [] || more[0] == SPACE)
    ensures more != [] ==> s[|s| - |more|..] == more
    ensures TagSteps(s, p, AttrMode, false)
         == [Token(AttrName, key), Token(AttrValue, value)]
            + if more == [] then [] else TagSteps(s, |s| - |more| + 1, AttrMode, false)
  {
    hide PlainValue, PlainKey, TagStep, TagSteps;
    var rest := "=\"" + value + "\"" + more;
    var q := p + |key| + 1;
    NamedStep(s, p, key, rest);
    assert rest[1..] == "\"" + value + "\"" + more;
    assert s[q..] == "\"" + value + "\"" + more;
    ValueStep(s, q, value, more);
    StepOnce(s, p, AttrMode, false);
  }

  lemma {:induction false} NamedSteps(s: string, p: nat, attrs: Attrs)
    requires attrs != [] && NamedAttrs(attrs) && 0 < p <= |s| && s[p - 1..] == AttrsToString(attrs)
    ensures TagSteps(s, p, AttrMode, false) == NamedTokens(attrs)
    decreases |attrs|
  {
    hide EscapeAttr, TagStep, PlainValue, PlainKey, Writable;
    var more := AttrsToString(attrs[1..]);
    AfterFirst(attrs);
    assert s[p..] == s[p - 1..][1..];
    EscapedIsPlain(attrs[0].1);
    NamedPair(s, p, attrs[0].0, EscapeAttr(attrs[0].1), more);
    if attrs[1..] != [] {
      NamedSteps(s, |s| - |more| + 1, attrs[1..]);
    }
  }

  /** A list of named attributes is read back name by name and value by value. */
  lemma NamedTagTokens(tag: string, attrs: Attrs)
    requires attrs != [] && NamedAttrs(attrs) && forall c | c in tag :: !IsSpecial(c)
    ensures AttrTokens(tag + AttrsToString(attrs)) == [Token(Tag, tag)] + NamedTokens(attrs)
  {
    hide EscapeAttr;
    var more := AttrsToString(attrs);
    var s := tag + more;
    assert more[0] == SPACE;
    assert s[|tag|] == SPACE;
    assert s[0..] == s;
    TakeWhileUnique(tag, more, c => !IsSpecial(c));
    var p := |tag| + 1;
    assert more[1 + |attrs[0].0|] == EQ;
    assert s[p..][|attrs[0].0|] == EQ;
    assert TagStep(s, 0, NameMode, false) == (Token(Tag, tag), p, AttrMode);
    assert s[p - 1..] == more;
    NamedSteps(s, p, attrs);
  }

  lemma UnnamedTagName(tag: string, value: string, s: string)
    requires s == tag + ("=\"" + value + "\"") && !(SPACE in value && EQ in value) && forall c | c in tag :: !IsSpecial(c)
    ensures s[|tag| + 1..] == "\"" + value + "\""
    ensures TagStep(s, 0, NameMode, SPACE !in s) == (Token(Tag, tag), |tag| + 1, ValueMode)
  {
    var rest := "=\"" + value + "\"";
    TakeWhileUnique(tag, rest, c => !IsSpecial(c));
    assert s[0..] == s;
    var after := s[|tag| + 1..];
    assert after == "\"" + value + "\"";
    assert SPACE in s ==> SPACE in value;
    assert EQ in after ==> EQ in value;
  }

  /** The unnamed attribute is read back as its value. */
  lemma UnnamedTagTokens(tag: string, value: string)
    requires value != "" && PlainValue(value) && !(SPACE in value && EQ in value) && forall c | c in tag :: !IsSpecial(c)
    ensures AttrTokens(tag + ("=\"" + value + "\"")) == [Token(Tag, tag), Token(AttrValue, value)]
  {
    hide PlainValue, ValueEnd, Unquote, TagStep, TagSteps;
    var s := tag + ("=\"" + value + "\"");
    var single := SPACE !in s;
    var p := |tag| + 1;
    UnnamedTagName(tag, value, s);
    assert s[p - 1] == EQ && s[p..] == "\"" + value + "\"" + [];
    QuotedValue(s, p, value, [], single);
    ValueTokens(s, p, single);
    assert |s| == ValueEnd(s, p, false, single) + 1;
    StepOnce(s, 0, NameMode, single);
  }

  lemma {:induction false} NamedAttrsBracketFree(attrs: Attrs)
    requires NamedAttrs(attrs)
    ensures BracketFree(AttrsToString(attrs)) && (attrs != [] ==> EQ in AttrsToString(attrs))
  {
    hide EscapeAttr;
    if attrs != [] {
      NamedAttrsBracketFree(attrs[1..]);
      EscapedIsPlain(attrs[0].1);
      assert AttrsToString(attrs)[1 + |attrs[0].0|] == EQ;
    }
  }

  lemma UnnamedBody(tag: string, attrs: Attrs)
    requires ValidTag(tag, attrs) && UnnamedAttr(attrs)
    ensures TagBody(tag, attrs) == tag + ("=\"" + EscapeAttr(attrs[0].1) + "\"") && BracketFree(TagBody(tag, attrs))
    ensures BodySegment(TagBody(tag, attrs)).Tokens() == OpenTokens(tag, attrs)
  {
    hide EscapeAttr, AttrTokens;
    var body, value := TagBody(tag, attrs), EscapeAttr(attrs[0].1);
    EscapedIsPlain(attrs[0].1);
    assert attrs[..0] == [];
    assert body == tag + ("=\"" + value + "\"");
    assert body[|tag|] == EQ && body[0] == tag[0];
    UnnamedTagTokens(tag, value);
    assert OpenTokens(tag, attrs) == [Token(Tag, tag), Token(AttrValue, value)];
  }

  /** The step that reads a quoted word in the place of an attribute's name. */
  lemma WordStep(s: string, q: nat, value: string, more: string)
    requires q < |s| && s[q..] == "\"" + value + "\"" + more && more != "" && more[0] == SPACE
    requires QUOTEMARK !in value && forall c | c in value :: !IsSpecial(c)
    ensures TagStep(s, q, AttrMode, false) == (Token(AttrValue, value), q + |value| + 3, AttrMode)
    ensures q + |value| + 2 < |s| && s[q + |value| + 2..] == more
  {
    hide Unquote;
    var word := "\"" + value + "\"";
    assert s[q..] == word + more;
    TakeWhileUnique(word, more, c => !IsSpecial(c));
    UnquotePlain(value);
    assert s[q + |word|] == s[q..][|word|] == SPACE;
    assert s[q + |word|..] == s[q..][|word|..] == more;
  }

  /** The unnamed value is read first, then the named attributes. */
  lemma MixedTagTokens(tag: string, value: string, attrs: Attrs)
    requires PlainValue(value) && (forall c | c in value :: !IsSpecial(c)) && attrs != [] && NamedAttrs(attrs)
    requires forall c | c in tag :: !IsSpecial(c)
    ensures AttrTokens(tag + ("=\"" + value + "\"") + AttrsToString(attrs))
         == [Token(Tag, tag), Token(AttrValue, value)] + NamedTokens(attrs)
  {
    hide EscapeAttr, TagSteps, TagStep, AttrsToString, PlainValue, NamedAttrs, NamedTokens;
    var more := AttrsToString(attrs);
    var s := tag + ("=\"" + value + "\"") + more;
    MoreAttrs(attrs);
    MixedTagName(tag, value, more, s);
    assert QUOTEMARK !in value by { PlainHasNoQuote(value); }
    MixedSteps(s, |tag| + 1, value, attrs);
    StepOnce(s, 0, NameMode, false);
    assert [Token(Tag, tag)] + ([Token(AttrValue, value)] + NamedTokens(attrs))
        == [Token(Tag, tag), Token(AttrValue, value)] + NamedTokens(attrs);
  }

  lemma PlainHasNoQuote(value: string)
    requires PlainValue(value)
    ensures QUOTEMARK !in value
  {
  }

  /** The steps behind the tag's name. */
  lemma MixedSteps(s: string, q: nat, value: string, attrs: Attrs)
    requires q < |s| && s[q..] == "\"" + value + "\"" + AttrsToString(attrs) && attrs != [] && NamedAttrs(attrs)
    requires QUOTEMARK !in value && forall c | c in value :: !IsSpecial(c)
    ensures TagSteps(s, q, AttrMode, false) == [Token(AttrValue, value)] + NamedTokens(attrs)
  {
    hide EscapeAttr, TagSteps, TagStep, AttrsToString, NamedAttrs, NamedTokens;
    MoreAttrs(attrs);
    WordStep(s, q, value, AttrsToString(attrs));
    StepOnce(s, q, AttrMode, false);
    NamedSteps(s, q + |value| + 3, attrs);
  }

  lemma MoreAttrs(attrs: Attrs)
    requires attrs != []
    ensures AttrsToString(attrs) != "" && AttrsToString(attrs)[0] == SPACE && EQ in AttrsToString(attrs)
  {
    hide EscapeAttr;
    assert AttrsToString(attrs)[1 + |attrs[0].0|] == EQ;
  }

  lemma MixedTagName(tag: string, value: string, more: string, s: string)
    requires s == tag + ("=\"" + value + "\"") + more && more != "" && more[0] == SPACE && EQ in more
    requires forall c | c in tag :: !IsSpecial(c)
    ensures SPACE in s && TagStep(s, 0, NameMode, false) == (Token(Tag, tag), |tag| + 1, AttrMode)
    ensures |tag| + 1 < |s| && s[|tag| + 1..] == "\"" + value + "\"" + more
  {
    hide TakeWhile;
    var rest := "=\"" + value + "\"" + more;
    assert s == tag + rest && s[0..] == s && s[|tag|] == rest[0] == EQ;
    TakeWhileUnique(tag, rest, c => !IsSpecial(c));
    var after := s[|tag| + 1..];
    assert after == "\"" + value + "\"" + more;
    assert EQ in after && s[|tag| + |value| + 3] == more[0];
  }

  lemma MixedBody(tag: string, attrs: Attrs)
    requires ValidTag(tag, attrs) && MixedAttrs(attrs)
    ensures TagBody(tag, attrs) == tag + ("=\"" + EscapeAttr(attrs[|attrs| - 1].1) + "\"") + AttrsToString(attrs[..|attrs| - 1])
    ensures BracketFree(TagBody(tag, attrs)) && BodySegment(TagBody(tag, attrs)).Tokens() == OpenTokens(tag, attrs)
  {
    hide EscapeAttr, AttrTokens, AttrsToString;
    var n := |attrs| - 1;
    var body, value := TagBody(tag, attrs), EscapeAttr(attrs[n].1);
    EscapedIsPlain(attrs[n].1);
    NamedAttrsBracketFree(attrs[..n]);
    assert body == tag + ("=\"" + value + "\"") + AttrsToString(attrs[..n]);
    assert body[|tag|] == EQ && body[0] == tag[0];
    MixedTagTokens(tag, value, attrs[..n]);
    assert OpenTokens(tag, attrs) == [Token(Tag, tag), Token(AttrValue, value)] + NamedTokens(attrs[..n]);
  }

  lemma NamedBody(tag: string, attrs: Attrs)
    requires ValidTag(tag, attrs) && !UnnamedAttr(attrs) && !MixedAttrs(attrs)
    ensures TagBody(tag, attrs) == tag + AttrsToString(attrs) && BracketFree(TagBody(tag, attrs))
    ensures BodySegment(TagBody(tag, attrs)).Tokens() == OpenTokens(tag, attrs)
  {
    hide EscapeAttr, AttrTokens, AttrsToString;
    var body := TagBody(tag, attrs);
    NamedAttrsBracketFree(attrs);
    assert body[0] == tag[0];
    if attrs != [] {
      NamedTagTokens(tag, attrs);
    } else {
      NoAttrs();
      assert body == tag;
    }
  }

  lemma NoAttrs()
    ensures AttrsToString([]) == ""
  {
  }

  lemma OpenBody(tag: string, attrs: Attrs)
    requires ValidTag(tag, attrs)
    ensures var body := TagBody(tag, attrs);
            body != [] && BracketFree(body) && !Cfg.IsReserved(body[0]) && BodySegment(body).Tokens() == OpenTokens(tag, attrs)
  {
    hide EscapeAttr, AttrsToString, TagBody, BodySegment, OpenTokens, ValidAttrs;
    if UnnamedAttr(attrs) {
      UnnamedBody(tag, attrs);
    } else if MixedAttrs(attrs) {
      MixedBody(tag, attrs);
    } else {
      NamedBody(tag, attrs);
    }
    assert TagBody(tag, attrs)[0] == tag[0];
  }

  /** A printed opening tag is read back as itself. */
  lemma LexOpen(tag: string, attrs: Attrs, tail: string)
    requires ValidTag(tag, attrs)
    ensures TokensOf(Lex(Cfg, TagStart(tag, attrs) + tail, "")) == OpenTokens(tag, attrs) + TokensOf(Lex(Cfg, tail, ""))
  {
    OpenBody(tag, attrs);
    LexTag(TagBody(tag, attrs), tail);
  }

  lemma LexClose(tag: string, tail: string)
    requires ValidName(tag)
    ensures TokensOf(Lex(Cfg, TagEnd(tag) + tail, "")) == [Token(Tag, "/" + tag)] + TokensOf(Lex(Cfg, tail, ""))
  {
    var body := "/" + tag;
    assert TagEnd(tag) == "[" + body + "]";
    assert body[1..] == tag;
    assert body[0] == SLASH;
    LexTag(body, tail);
  }

  // ---------------------------------------------------------------- whole trees

  /** The tokens of a printed tree, with the text that stands directly before it. */
  function PrintedTokens(pending: string, f: seq<Tree>): seq<Token>
    decreases f
  {
    if f == [] then TextTokens(pending)
    else if f[0].Leaf? then PrintedTokens(pending + f[0].text, f[1..])
    else
      TextTokens(pending) + OpenTokens(f[0].tag, f[0].attrs) + InsideTokens(f[0]) + PrintedTokens("", f[1..])
  }

  /** The tokens from behind an opening tag to its closing tag. */
  function InsideTokens(t: Tree): seq<Token>
    requires !t.Leaf?
    decreases t
  {
    if t.Elem? && t.content != [] then PrintedTokens("", t.content) + [Token(Tag, "/" + t.tag)] else []
  }

  /** Lexing undoes printing. */
  lemma {:induction false} LexPrinted(pending: string, f: seq<Tree>, tail: string)
    requires Printable(f) && '[' !in pending && (tail == [] || tail[0] == '[')
    ensures TokensOf(Lex(Cfg, pending + Print(f) + tail, "")) == PrintedTokens(pending, f) + TokensOf(Lex(Cfg, tail, ""))
    decreases f
  {
    hide Lex, TokensOf, TextTokens, ValidTag, TagStart, OpenTokens;
    if f == [] {
      assert pending + Print(f) + tail == pending + tail;
      LexText(pending, tail);
    } else if f[0].Leaf? {
      assert pending + Print(f) + tail == (pending + f[0].text) + Print(f[1..]) + tail;
      LexPrinted(pending + f[0].text, f[1..], tail);
    } else {
      LexPrinted("", f[1..], tail);
      if f[0].Elem? && f[0].content != [] {
        LexPrinted("", f[0].content, TagEnd(f[0].tag) + (Print(f[1..]) + tail));
      }
      LexFirstTag(pending, f, tail);
    }
  }

  lemma LexFirstTag(pending: string, f: seq<Tree>, tail: string)
    requires f != [] && !f[0].Leaf? && ValidTag(f[0].tag, f[0].attrs) && '[' !in pending
    requires ReadsBack(f[1..], tail)
    requires f[0].Elem? && f[0].content != [] ==> ReadsBack(f[0].content, TagEnd(f[0].tag) + (Print(f[1..]) + tail))
    ensures TokensOf(Lex(Cfg, pending + Print(f) + tail, "")) == PrintedTokens(pending, f) + TokensOf(Lex(Cfg, tail, ""))
  {
    hide Lex, TokensOf, TextTokens, ValidTag, TagStart, OpenTokens, Print;
    var more := Print(f[1..]) + tail;
    assert "" + Print(f[1..]) + tail == more;
    LexPrintedTag(f[0], more);
    LexText(pending, Print([f[0]]) + more);
    PrintFirst(f);
    assert pending + Print(f) + tail == pending + (Print([f[0]]) + more);
    assert PrintedTokens(pending, f) == TextTokens(pending) + OpenTokens(f[0].tag, f[0].attrs) + InsideTokens(f[0])
                                        + PrintedTokens("", f[1..]);
  }

  lemma PrintFirst(f: seq<Tree>)
    requires f != []
    ensures Print(f) == Print([f[0]]) + Print(f[1..])
  {
    hide TagStart;
    assert [f[0]][1..] == [];
  }

  predicate ReadsBack(f: seq<Tree>, tail: string) {
    TokensOf(Lex(Cfg, "" + Print(f) + tail, "")) == PrintedTokens("", f) + TokensOf(Lex(Cfg, tail, ""))
  }

  lemma PrintOne(t: Tree)
    requires !t.Leaf?
    ensures Print([t]) == TagStart(t.tag, t.attrs)
                          + if t.Elem? && t.content != [] then Print(t.content) + TagEnd(t.tag) else ""
  {
    hide TagStart, TagEnd;
    assert [t][1..] == [];
  }

  lemma LexPrintedTag(t: Tree, more: string)
    requires !t.Leaf? && ValidTag(t.tag, t.attrs)
    requires t.Elem? && t.content != [] ==> ReadsBack(t.content, TagEnd(t.tag) + more)
    ensures (Print([t]) + more)[0] == '['
    ensures TokensOf(Lex(Cfg, Print([t]) + more, ""))
         == OpenTokens(t.tag, t.attrs) + InsideTokens(t) + TokensOf(Lex(Cfg, more, ""))
  {
    hide Lex, TokensOf, Print, PrintedTokens, ValidAttrs, ValidName, TagBody, OpenTokens, TagEnd;
    var start := TagStart(t.tag, t.attrs);
    PrintOne(t);
    if t.Elem? && t.content != [] {
      var closing := TagEnd(t.tag) + more;
      var inside := Print(t.content) + closing;
      assert Print([t]) + more == start + inside;
      assert "" + Print(t.content) + closing == inside;
      LexOpen(t.tag, t.attrs, inside);
      LexClose(t.tag, more);
    } else {
      assert Print([t]) == start;
      LexOpen(t.tag, t.attrs, more);
    }
  }
}
