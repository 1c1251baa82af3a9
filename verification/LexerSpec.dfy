/**
 What the BBCode lexer produces, as a function on the text still to be read.
 The class that reads the text character by character is proved against it in Lexer.dfy.
 */
module LexerSpec {
  import opened Strings

  const EQ := '='
  const QUOTEMARK := '"'
  const SPACE := ' '
  const TAB := '\t'
  const NEWLINE := '\n'
  const SLASH := '/'
  const BACKSLASH := '\\'
  const EM := '!'

  datatype TokenKind = Word | Tag | AttrName | AttrValue | Space | NewLine

  datatype Token = Token(kind: TokenKind, value: string) {
    predicate IsText() { kind == Word || kind == Space || kind == NewLine }

    predicate IsEnd() { value != [] && value[0] == SLASH }

    /** tokenToText, which always writes the default brackets. */
    function ToText(): string { "[" + value + "]" }
  }

  datatype Config = Config(openTag: char, closeTag: char, escapeTags: bool, contextFreeTags: seq<string>) {
    predicate IsReserved(c: char) {
      c == closeTag || c == openTag || c == QUOTEMARK || c == BACKSLASH || IsWhiteSpace(c) || c == EQ
      || c == NEWLINE || c == EM
    }

    /** A character that may stand inside a word token. */
    predicate IsWordChar(c: char) {
      c != openTag && !IsWhiteSpace(c) && c != NEWLINE && !(escapeTags && c == BACKSLASH)
    }

    predicate IsEscapable(c: char) { c == openTag || c == closeTag || c == BACKSLASH }

    /** checkContextFreeMode */
    function NextContext(context: string, name: string, isClosingTag: bool): string {
      var left := if isClosingTag then "" else context;
      if left == "" && Lower(name) in contextFreeTags then name else left
    }
  }

  predicate IsWhiteSpace(c: char) { c == SPACE || c == TAB }

  predicate IsSpecial(c: char) { c == EQ || IsWhiteSpace(c) }

  /** A stretch of the input together with the way the lexer took it. */
  datatype Segment =
    | Plain(token: Token)             // a word, a run of blanks, a newline or a tag without attributes
    | Escaped(token: Token)           // a backslash and the character it protects
    | TagWithAttrs(raw: string)       // the text between the brackets of a tag with attributes
  {
    /** The stretch of input, character for character. */
    function Source(cfg: Config): string {
      match this
      case Plain(t) => if t.kind.Tag? then [cfg.openTag] + t.value + [cfg.closeTag] else t.value
      case Escaped(t) => [BACKSLASH] + t.value
      case TagWithAttrs(raw) => [cfg.openTag] + raw + [cfg.closeTag]
    }

    function Tokens(): seq<Token> {
      match this
      case Plain(t) => [t]
      case Escaped(t) => [t]
      case TagWithAttrs(raw) => AttrTokens(raw)
    }
  }

  // ---------------------------------------------------------------- tags with attributes

  datatype TagMode = NameMode | AttrMode | ValueMode

  /** unq: outer quotes off, then the first escaped quote bare. */
  function Unquote(s: string): string {
    ReplaceFirst(TrimChar(s, QUOTEMARK), [BACKSLASH, QUOTEMARK], [QUOTEMARK])
  }

  /** Verdict of validAttrValue on the character at position p: whether to take it, and the quote flag after it. */
  function TakeValueChar(s: string, p: nat, quoted: bool, single: bool): (bool, bool)
    requires p < |s|
  {
    var c := s[p];
    var isNextEQ := p + 1 < |s| && s[p + 1] == EQ;
    var isNextWS := p + 1 < |s| && IsWhiteSpace(s[p + 1]);
    if quoted && IsSpecial(c) then (true, quoted)
    else if c == QUOTEMARK && !(p > 0 && s[p - 1] == BACKSLASH) then
      if quoted && !(isNextEQ || isNextWS) then (false, false)
      else (single || !IsWhiteSpace(c), !quoted)
    else (single || !IsWhiteSpace(c), quoted)
  }

  /** Where the attribute value that starts at p ends. */
  function ValueEnd(s: string, p: nat, quoted: bool, single: bool): (e: nat)
    requires p <= |s|
    ensures p <= e <= |s|
    decreases |s| - p
  {
    if p == |s| then p else
    var (take, quoted') := TakeValueChar(s, p, quoted, single);
    if take then ValueEnd(s, p + 1, quoted', single) else p
  }

  /** One call of nextTagState: the token, the position after it and the next mode. */
  function TagStep(s: string, p: nat, mode: TagMode, single: bool): (r: (Token, nat, TagMode))
    requires p < |s|
    ensures p < r.1 <= |s| + 1
    ensures r.2.NameMode? ==> r.1 >= |s|
  {
    match mode
    case NameMode =>
      var name := TakeWhile(s[p..], c => !IsSpecial(c));
      var q := p + |name| + 1;
      var hasEQ := q <= |s| && EQ in s[q..];
      (Token(Tag, name), q, if single || !hasEQ then ValueMode else AttrMode)
    case AttrMode =>
      var name := TakeWhile(s[p..], c => !IsSpecial(c));
      var q := p + |name|;
      if q == |s| then (Token(AttrValue, Unquote(name)), q + 1, NameMode)
      else if s[q] != EQ then (Token(AttrValue, Unquote(name)), q + 1, AttrMode)
      else (Token(AttrName, name), q + 1, ValueMode)
    case ValueMode =>
      var q := ValueEnd(s, p, false, single);
      (Token(AttrValue, Unquote(s[p..q])), q + 1, if q + 1 == |s| then NameMode else AttrMode)
  }

  function TagSteps(s: string, p: nat, mode: TagMode, single: bool): (r: seq<Token>)
    ensures |r| <= if p < |s| then |s| - p else 0
    decreases |s| - p
  {
    if p >= |s| then [] else
    var (token, q, mode') := TagStep(s, p, mode, single);
    [token] + TagSteps(s, q, mode', single)
  }

  lemma StepOnce(s: string, p: nat, mode: TagMode, single: bool)
    requires p < |s|
    ensures var (token, q, mode') := TagStep(s, p, mode, single);
            TagSteps(s, p, mode, single) == [token] + TagSteps(s, q, mode', single)
  {
    hide TagStep;
  }

  lemma StepsDone(s: string, p: nat, mode: TagMode, single: bool)
    requires p >= |s|
    ensures TagSteps(s, p, mode, single) == []
  {
  }

  /** The tokens of a tag with attributes, from the text between its brackets. */
  function AttrTokens(raw: string): seq<Token> {
    TagSteps(raw, 0, NameMode, SPACE !in raw)
  }

  /** The name such a tag gets. */
  function AttrTagName(raw: string): string {
    TakeWhile(raw, c => !IsSpecial(c))
  }

  // ---------------------------------------------------------------- the whole text

  /** What is read at an opening bracket that may start a tag, and the context-free tag after it. */
  function TagSegment(cfg: Config, rest: string, context: string): (r: (Segment, string))
    requires rest != []
  {
    var body := UpTo(rest[1..], cfg.closeTag);
    var substr := if |body| < |rest| - 1 then body else "";
    if (|rest| > 1 && cfg.IsReserved(rest[1])) || substr == "" || cfg.openTag in substr then
      (Plain(Token(Word, [rest[0]])), context)
    else if EQ !in substr || substr[0] == SLASH then
      (Plain(Token(Tag, substr)), cfg.NextContext(context, substr, substr[0] == SLASH))
    else
      (TagWithAttrs(substr), cfg.NextContext(context, AttrTagName(substr), false))
  }

  /** Whether an opening bracket is tried as a tag: in context-free mode only its own closing tag is. */
  predicate StartsTag(cfg: Config, rest: string, context: string) {
    if context != "" then [cfg.openTag, SLASH] + context <= rest else cfg.closeTag in rest
  }

  function NextSegment(cfg: Config, rest: string, context: string): (r: (Segment, string))
    requires rest != []
  {
    var c := rest[0];
    if c == NEWLINE then (Plain(Token(NewLine, [c])), context)
    else if IsWhiteSpace(c) then (Plain(Token(Space, TakeWhile(rest, IsWhiteSpace))), context)
    else if c == cfg.openTag then
      if StartsTag(cfg, rest, context) then TagSegment(cfg, rest, context)
      else (Plain(Token(Word, [c])), context)
    else if cfg.escapeTags && c == BACKSLASH then
      if |rest| > 1 && cfg.IsEscapable(rest[1]) then (Escaped(Token(Word, [rest[1]])), context)
      else (Plain(Token(Word, [c])), context)
    else (Plain(Token(Word, TakeWhile(rest, cfg.IsWordChar))), context)
  }

  /** Each segment is a non-empty prefix of what was left, and yields at most one token per character. */
  lemma SegmentIsPrefix(cfg: Config, rest: string, context: string)
    requires rest != []
    ensures var seg := NextSegment(cfg, rest, context).0;
            0 < |seg.Source(cfg)| && seg.Source(cfg) <= rest && |seg.Tokens()| <= |seg.Source(cfg)|
  {
    var c := rest[0];
    if c == cfg.openTag && c != NEWLINE && !IsWhiteSpace(c) && StartsTag(cfg, rest, context) {
      TagSegmentIsPrefix(cfg, rest, context);
    }
  }

  lemma TagSegmentIsPrefix(cfg: Config, rest: string, context: string)
    requires rest != [] && rest[0] == cfg.openTag
    ensures var seg := TagSegment(cfg, rest, context).0;
            0 < |seg.Source(cfg)| && seg.Source(cfg) <= rest && |seg.Tokens()| <= |seg.Source(cfg)|
  {
    var body := UpTo(rest[1..], cfg.closeTag);
    if |body| < |rest| - 1 {
      assert rest[1 + |body|] == cfg.closeTag;
      assert rest[..|body| + 2] == [cfg.openTag] + body + [cfg.closeTag];
    }
  }

  function Lex(cfg: Config, rest: string, context: string): seq<Segment>
    decreases |rest|
  {
    if rest == [] then [] else
    var (seg, context') := NextSegment(cfg, rest, context);
    SegmentIsPrefix(cfg, rest, context);
    [seg] + Lex(cfg, rest[|seg.Source(cfg)|..], context')
  }

  function TokensOf(segs: seq<Segment>): seq<Token> {
    if segs == [] then [] else segs[0].Tokens() + TokensOf(segs[1..])
  }

  lemma LexUnfold(cfg: Config, rest: string, context: string)
    requires rest != []
    ensures var (seg, context') := NextSegment(cfg, rest, context);
            var n := |seg.Source(cfg)|;
            0 < n <= |rest| && TokensOf(Lex(cfg, rest, context)) == seg.Tokens() + TokensOf(Lex(cfg, rest[n..], context'))
  {
    SegmentIsPrefix(cfg, rest, context);
    var (seg, context') := NextSegment(cfg, rest, context);
    var more := Lex(cfg, rest[|seg.Source(cfg)|..], context');
    assert Lex(cfg, rest, context) == [seg] + more;
    assert ([seg] + more)[1..] == more;
  }

  function SourceOf(cfg: Config, segs: seq<Segment>): string {
    if segs == [] then [] else segs[0].Source(cfg) + SourceOf(cfg, segs[1..])
  }

  /** All tokens of an input, from the start. */
  function LexAll(cfg: Config, input: string): seq<Token> {
    TokensOf(Lex(cfg, input, ""))
  }

  // ---------------------------------------------------------------- nothing is lost

  /** No character of any input is skipped, repeated or moved, whatever the options. */
  lemma {:induction false} LexKeepsSource(cfg: Config, rest: string, context: string)
    ensures SourceOf(cfg, Lex(cfg, rest, context)) == rest
    ensures |TokensOf(Lex(cfg, rest, context))| <= |rest|
    decreases |rest|
  {
    if rest != [] {
      SegmentIsPrefix(cfg, rest, context);
      var (seg, context') := NextSegment(cfg, rest, context);
      var n := |seg.Source(cfg)|;
      LexKeepsSource(cfg, rest[n..], context');
      assert Lex(cfg, rest, context) == [seg] + Lex(cfg, rest[n..], context');
      assert rest == rest[..n] + rest[n..];
    }
  }

  /** The text the tokens themselves stand for. */
  function TokenText(tokens: seq<Token>): string {
    if tokens == [] then []
    else (if tokens[0].kind.Tag? then tokens[0].ToText() else tokens[0].value) + TokenText(tokens[1..])
  }

  lemma TokenTextAppend(a: seq<Token>, b: seq<Token>)
    ensures TokenText(a + b) == TokenText(a) + TokenText(b)
  {
    if a == [] {
      assert a + b == b;
    } else {
      assert (a + b)[1..] == a[1..] + b;
      TokenTextAppend(a[1..], b);
    }
  }

  predicate AllPlain(segs: seq<Segment>) {
    forall seg | seg in segs :: seg.Plain?
  }

  lemma UnquoteShortens(s: string)
    ensures |Unquote(s)| <= |s|
  {
    TrimShortens(s);
    ReplaceShortens(TrimChar(s, QUOTEMARK));
  }

  lemma TrimShortens(s: string)
    ensures |TrimChar(s, QUOTEMARK)| <= |s|
    decreases |s|
  {
  }

  lemma ReplaceShortens(s: string)
    ensures |ReplaceFirst(s, [BACKSLASH, QUOTEMARK], [QUOTEMARK])| <= |s|
  {
  }

  /** Behind the name, every step drops its separator, so the values are shorter than what they are read from. */
  lemma {:induction false} TagStepsShorten(s: string, p: nat, mode: TagMode, single: bool)
    requires mode != NameMode || p >= |s|
    ensures |TokenText(TagSteps(s, p, mode, single))| <= if p < |s| then |s| - p else 0
    decreases |s| - p
  {
    hide Unquote, TakeValueChar;
    if p < |s| {
      var (token, q, mode') := TagStep(s, p, mode, single);
      TagStepsShorten(s, q, mode', single);
      StepOnce(s, p, mode, single);
      assert ([token] + TagSteps(s, q, mode', single))[1..] == TagSteps(s, q, mode', single);
      if mode.AttrMode? {
        UnquoteShortens(TakeWhile(s[p..], c => !IsSpecial(c)));
      } else {
        UnquoteShortens(s[p..ValueEnd(s, p, false, single)]);
      }
    } else {
      StepsDone(s, p, mode, single);
    }
  }

  /** The text of the tokens of a tag with attributes is at most one longer than the tag, so one shorter than with brackets. */
  lemma TagTokensShorten(s: string, single: bool)
    requires EQ in s
    ensures |TokenText(TagSteps(s, 0, NameMode, single))| <= |s| + 1
  {
    hide TakeWhile;
    var (token, q, mode') := TagStep(s, 0, NameMode, single);
    StepOnce(s, 0, NameMode, single);
    TagStepsShorten(s, q, mode', single);
    assert ([token] + TagSteps(s, q, mode', single))[1..] == TagSteps(s, q, mode', single);
    assert s[0..] == s && token.value <= s;
    assert |token.value| == |s| ==> token.value == s;
    assert EQ !in token.value;
  }

  lemma SegmentTextLength(cfg: Config, rest: string, context: string)
    requires cfg.openTag == '[' && cfg.closeTag == ']' && rest != []
    ensures var seg := NextSegment(cfg, rest, context).0;
            if seg.Plain? then TokenText(seg.Tokens()) == seg.Source(cfg)
            else |TokenText(seg.Tokens())| < |seg.Source(cfg)|
  {
    var seg := NextSegment(cfg, rest, context).0;
    match seg
    case Plain(t) => assert [t][1..] == [];
    case Escaped(t) => assert [t][1..] == [];
    case TagWithAttrs(raw) =>
      TagTokensShorten(raw, SPACE !in raw);
  }

  lemma {:induction false} TokenTextLength(cfg: Config, rest: string, context: string)
    requires cfg.openTag == '[' && cfg.closeTag == ']'
    ensures var segs := Lex(cfg, rest, context);
            if AllPlain(segs) then TokenText(TokensOf(segs)) == SourceOf(cfg, segs)
            else |TokenText(TokensOf(segs))| < |SourceOf(cfg, segs)|
    decreases |rest|
  {
    if rest != [] {
      SegmentIsPrefix(cfg, rest, context);
      SegmentTextLength(cfg, rest, context);
      var (seg, context') := NextSegment(cfg, rest, context);
      var more := Lex(cfg, rest[|seg.Source(cfg)|..], context');
      TokenTextLength(cfg, rest[|seg.Source(cfg)|..], context');
      var segs := Lex(cfg, rest, context);
      assert segs == [seg] + more;
      TokenTextAppend(seg.Tokens(), TokensOf(more));
      assert segs[0] in segs;
      assert forall x | x in more :: x in segs;
      assert AllPlain(segs) <==> seg.Plain? && AllPlain(more);
    }
  }

  /** Lexing is lossless on the tokens alone exactly when it meets no protected character and no attributes. */
  lemma LexIsLossless(cfg: Config, input: string)
    requires cfg.openTag == '[' && cfg.closeTag == ']'
    ensures TokenText(LexAll(cfg, input)) == input <==> AllPlain(Lex(cfg, input, ""))
  {
    TokenTextLength(cfg, input, "");
    LexKeepsSource(cfg, input, "");
  }

  lemma PlainStep(cfg: Config, rest: string, context: string)
    requires rest != [] && EQ !in rest && !(cfg.escapeTags && BACKSLASH in rest)
    ensures NextSegment(cfg, rest, context).0.Plain?
  {
    assert rest[0] in rest;
  }

  /** A caller's test for that: an input without equals sign and, where escapes are on, without backslash. */
  lemma {:induction false} PlainInput(cfg: Config, rest: string, context: string)
    requires EQ !in rest && !(cfg.escapeTags && BACKSLASH in rest)
    ensures AllPlain(Lex(cfg, rest, context))
    decreases |rest|
  {
    hide NextSegment;
    if rest != [] {
      SegmentIsPrefix(cfg, rest, context);
      PlainStep(cfg, rest, context);
      var (seg, context') := NextSegment(cfg, rest, context);
      PlainInput(cfg, rest[|seg.Source(cfg)|..], context');
    }
  }

  // ---------------------------------------------------------------- names of tags

  predicate NamesWithout(ts: seq<Token>, c: char) {
    forall t | t in ts && t.kind.Tag? :: c !in t.value
  }

  lemma {:induction false} StepNames(s: string, p: nat, mode: TagMode, single: bool, c: char)
    requires c !in s
    ensures NamesWithout(TagSteps(s, p, mode, single), c)
    decreases |s| - p
  {
    hide Unquote, TakeValueChar, ValueEnd;
    if p < |s| {
      var (token, q, mode') := TagStep(s, p, mode, single);
      StepNames(s, q, mode', single, c);
      StepOnce(s, p, mode, single);
      assert token.kind.Tag? ==> token.value <= s[p..] && forall x | x in s[p..] :: x in s;
    }
  }

  /** No tag's name holds an opening bracket, so a text in brackets is never one. */
  lemma {:induction false} NamesHoldNoBracket(cfg: Config, rest: string, context: string)
    ensures NamesWithout(TokensOf(Lex(cfg, rest, context)), cfg.openTag)
    decreases |rest|
  {
    if rest != [] {
      var (seg, context') := NextSegment(cfg, rest, context);
      LexUnfold(cfg, rest, context);
      NamesHoldNoBracket(cfg, rest[|seg.Source(cfg)|..], context');
      SegmentNames(cfg, rest, context);
    }
  }

  lemma SegmentNames(cfg: Config, rest: string, context: string)
    requires rest != []
    ensures NamesWithout(NextSegment(cfg, rest, context).0.Tokens(), cfg.openTag)
  {
    var seg := NextSegment(cfg, rest, context).0;
    if seg.TagWithAttrs? {
      StepNames(seg.raw, 0, NameMode, SPACE !in seg.raw, cfg.openTag);
    }
  }
}
