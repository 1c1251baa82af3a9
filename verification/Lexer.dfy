/** The lexer as it runs: a cursor, two mode variables, a token array allocated up front, and a tree builder
    that is called with every token as soon as it is emitted. */
module Lexer {
  import opened Strings
  import opened LexerSpec
  import opened ParserSpec
  import opened TagNodes
  import opened Parser

  class CharGrabber {
    const s: string
    var pos: nat

    constructor (s: string)
      ensures this.s == s && pos == 0
    {
      this.s, pos := s, 0;
    }

    predicate HasNext()
      reads this
    {
      |s| > pos
    }

    predicate IsLast()
      reads this
    {
      pos == |s|
    }

    function Curr(): char
      requires HasNext()
      reads this
    {
      s[pos]
    }

    function Next(): Option<char>
      reads this
    {
      if pos + 1 < |s| then Some(s[pos + 1]) else None
    }

    /** What is left; nothing when the cursor stands at the end or one past it. */
    function Rest(): string
      reads this
    {
      if pos <= |s| then s[pos..] else []
    }

    method Skip()
      modifies this
      ensures pos == old(pos) + 1
    {
      pos := pos + 1;
    }

    /** At the end of the text the cursor's start is never set, and all the text before it is returned. */
    method GrabWhile(cond: char -> bool) returns (r: string)
      requires pos <= |s|
      modifies this
      ensures if old(HasNext()) then r == TakeWhile(old(Rest()), cond) && pos == old(pos) + |r| <= |s|
              else r == s[..old(pos)] && pos == old(pos)
    {
      var start := 0;
      if HasNext() {
        start := pos;
        while HasNext() && cond(Curr())
          invariant start <= pos <= |s|
          invariant forall i | start <= i < pos :: cond(s[i])
          decreases |s| - pos
        {
          Skip();
        }
        assert s[start..] == s[start..pos] + s[pos..];
        assert forall c | c in s[start..pos] :: cond(c);
        TakeWhileUnique(s[start..pos], s[pos..], cond);
      }
      r := s[start..pos];
    }

    /** The text up to the next c, and nothing when there is none. */
    function SubstrUntil(c: char): string
      reads this
    {
      var body := UpTo(Rest(), c);
      if |body| < |Rest()| then body else ""
    }
  }

  /** Tokens still to come when the main cursor has rest before it. */
  function Remaining(cfg: Config, mode: StateMode, rest: string, context: string): seq<Token> {
    match mode
    case WordState => TokensOf(Lex(cfg, rest, context))
    case TagState =>
      if rest == [] then [] else
      var (seg, context') := TagSegment(cfg, rest, context);
      seg.Tokens() + TokensOf(Lex(cfg, After(rest, |seg.Source(cfg)|), context'))
    case AttrsState =>
      var raw := UpTo(rest, cfg.closeTag);
      AttrTokens(raw) + TokensOf(Lex(cfg, After(rest, |raw| + 1), cfg.NextContext(context, AttrTagName(raw), false)))
  }

  function After(s: string, n: nat): string { if n <= |s| then s[n..] else [] }

  datatype StateMode = WordState | TagState | AttrsState

  class Tokenizer {
    const cfg: Config
    const buffer: string
    const chars: CharGrabber
    const sink: TreeBuilder
    /** Allocated with one place per character. */
    const tokens: array<Token>
    var tokenIndex: int
    var contextFreeTag: string

    /** The array has a place per character, and the tree builder has seen each emitted token, in order. */
    ghost predicate Valid()
      reads this, sink, tokens
    {
      chars.s == buffer && tokens.Length == |buffer| && -1 <= tokenIndex < tokens.Length
      && sink.Valid() && sink.rules.buffer == buffer && sink.State() == Steps(sink.rules, Initial, Emitted())
    }

    /** The tokens emitted so far. */
    ghost function Emitted(): seq<Token>
      reads this, tokens
    {
      if -1 <= tokenIndex < tokens.Length then tokens[..tokenIndex + 1] else []
    }

    constructor (cfg: Config, buffer: string, sink: TreeBuilder)
      requires sink.Valid() && sink.rules.buffer == buffer && sink.State() == Initial
      ensures Valid() && Emitted() == [] && chars.pos == 0 && contextFreeTag == ""
      ensures this.cfg == cfg && this.buffer == buffer && this.sink == sink && fresh(chars) && fresh(tokens)
    {
      this.cfg, this.buffer, this.sink := cfg, buffer, sink;
      chars := new CharGrabber(buffer);
      tokens := new Token[|buffer|](_ => Token(Word, ""));
      tokenIndex := -1;
      contextFreeTag := "";
    }

    /** Room for one more token is never a question of luck: see the callers' bounds. */
    method EmitToken(kind: TokenKind, value: string)
      requires Valid() && tokenIndex + 1 < |chars.s|
      modifies this`tokenIndex, tokens, sink
      ensures Valid() && tokenIndex == old(tokenIndex) + 1
      ensures Emitted() == old(Emitted()) + [Token(kind, value)]
    {
      ghost var before := Emitted();
      var token := Token(kind, value);
      sink.OnToken(token);
      tokenIndex := tokenIndex + 1;
      tokens[tokenIndex] := token;
      assert Emitted() == before + [token];
      StepsAppend(sink.rules, Initial, before, [token]);
      OneStep(sink.rules, Steps(sink.rules, Initial, before), token);
    }

    method CheckContextFreeMode(name: string, isClosingTag: bool)
      requires Valid()
      modifies this`contextFreeTag
      ensures Valid() && contextFreeTag == cfg.NextContext(old(contextFreeTag), name, isClosingTag)
      ensures Emitted() == old(Emitted())
    {
      if contextFreeTag != "" && isClosingTag {
        contextFreeTag := "";
      }
      if contextFreeTag == "" && Lower(name) in cfg.contextFreeTags {
        contextFreeTag := name;
      }
    }

    /** The loop of grabWhile(validAttrValue), with the quote flag as a variable. */
    method GrabValue(tagChars: CharGrabber, single: bool) returns (r: string)
      requires tagChars.pos <= |tagChars.s|
      modifies tagChars
      ensures var e := ValueEnd(tagChars.s, old(tagChars.pos), false, single);
              tagChars.pos == e && r == tagChars.s[old(tagChars.pos)..e]
    {
      var start := tagChars.pos;
      var stateSpecial := false;
      while tagChars.HasNext()
        invariant start <= tagChars.pos <= |tagChars.s|
        invariant ValueEnd(tagChars.s, start, false, single) == ValueEnd(tagChars.s, tagChars.pos, stateSpecial, single)
        decreases |tagChars.s| - tagChars.pos
      {
        var (take, special) := TakeValueChar(tagChars.s, tagChars.pos, stateSpecial, single);
        if !take {
          break;
        }
        stateSpecial := special;
        tagChars.Skip();
      }
      r := tagChars.s[start..tagChars.pos];
    }

    method TagNameState(tagChars: CharGrabber, single: bool) returns (mode': TagMode)
      requires Valid() && tokenIndex + 1 < |chars.s| && tagChars.HasNext() && tagChars != chars && tagChars.pos == 0
      modifies this, tokens, sink, tagChars
      ensures Valid() && tokenIndex == old(tokenIndex) + 1
      ensures var (token, q, next) := TagStep(tagChars.s, 0, NameMode, single);
              Emitted() == old(Emitted()) + [token] && tagChars.pos == q && mode' == next
      ensures contextFreeTag == cfg.NextContext(old(contextFreeTag), AttrTagName(tagChars.s), false)
    {
      hide Valid, Emitted;
      assert tagChars.Rest() == tagChars.s == tagChars.s[0..];
      var name := tagChars.GrabWhile(c => !IsSpecial(c));
      EmitToken(Tag, name);
      CheckContextFreeMode(name, false);
      tagChars.Skip();
      return if single || EQ !in tagChars.Rest() then ValueMode else AttrMode;
    }

    method TagAttrState(tagChars: CharGrabber, single: bool) returns (mode': TagMode)
      requires Valid() && tokenIndex + 1 < |chars.s| && tagChars.HasNext() && tagChars != chars
      modifies this`tokenIndex, tokens, sink, tagChars
      ensures Valid() && tokenIndex == old(tokenIndex) + 1
      ensures var (token, q, next) := TagStep(tagChars.s, old(tagChars.pos), AttrMode, single);
              Emitted() == old(Emitted()) + [token] && tagChars.pos == q && mode' == next
    {
      hide Valid, Emitted, Unquote, TakeWhile, ValueEnd;
      var name := tagChars.GrabWhile(c => !IsSpecial(c));
      var isEnd := tagChars.IsLast();
      var isValue := isEnd || tagChars.Curr() != EQ;
      tagChars.Skip();
      if isEnd || isValue {
        EmitToken(AttrValue, Unquote(name));
      } else {
        EmitToken(AttrName, name);
      }
      return if isEnd then NameMode else if isValue then AttrMode else ValueMode;
    }

    method TagValueState(tagChars: CharGrabber, single: bool) returns (mode': TagMode)
      requires Valid() && tokenIndex + 1 < |chars.s| && tagChars.HasNext() && tagChars != chars
      modifies this`tokenIndex, tokens, sink, tagChars
      ensures Valid() && tokenIndex == old(tokenIndex) + 1
      ensures var (token, q, next) := TagStep(tagChars.s, old(tagChars.pos), ValueMode, single);
              Emitted() == old(Emitted()) + [token] && tagChars.pos == q && mode' == next
    {
      hide Valid, Emitted, Unquote, ValueEnd;
      var value := GrabValue(tagChars, single);
      tagChars.Skip();
      EmitToken(AttrValue, Unquote(value));
      return if tagChars.IsLast() then NameMode else AttrMode;
    }

    method NextTagState(tagChars: CharGrabber, mode: TagMode, single: bool) returns (mode': TagMode)
      requires Valid() && tokenIndex + 1 < |chars.s| && tagChars.HasNext() && tagChars != chars
      requires mode.NameMode? ==> tagChars.pos == 0
      modifies this, tokens, sink, tagChars
      ensures Valid() && tokenIndex == old(tokenIndex) + 1
      ensures var (token, q, next) := TagStep(tagChars.s, old(tagChars.pos), mode, single);
              Emitted() == old(Emitted()) + [token] && tagChars.pos == q && mode' == next
      ensures contextFreeTag == if mode.NameMode? then cfg.NextContext(old(contextFreeTag), AttrTagName(tagChars.s), false)
                                else old(contextFreeTag)
    {
      hide Valid, Emitted, TagStep;
      match mode
      case NameMode => mode' := TagNameState(tagChars, single);
      case AttrMode => mode' := TagAttrState(tagChars, single);
      case ValueMode => mode' := TagValueState(tagChars, single);
    }

    /** The tag's text is read with a cursor of its own. */
    method ReadAttributes(raw: string)
      requires Valid() && raw != [] && tokenIndex + |raw| < |chars.s|
      modifies this, tokens, sink
      ensures Valid() && tokenIndex <= old(tokenIndex) + |raw|
      ensures Emitted() == old(Emitted()) + AttrTokens(raw)
      ensures contextFreeTag == cfg.NextContext(old(contextFreeTag), AttrTagName(raw), false)
    {
      hide Valid, Emitted, TagStep, TagSteps, AttrTagName;
      ghost var before, first := Emitted(), tokenIndex;
      var tagChars := new CharGrabber(raw);
      var single := SPACE !in raw;
      StepOnce(raw, 0, NameMode, single);
      var tagMode := NextTagState(tagChars, NameMode, single);
      ghost var read := [TagStep(raw, 0, NameMode, single).0];
      while tagChars.HasNext()
        invariant Valid() && fresh(tagChars) && tagChars.s == raw && 0 < tagChars.pos
        invariant tagMode.NameMode? ==> tagChars.pos >= |raw|
        invariant tokenIndex == first + |read| && |read| <= tagChars.pos && |read| <= |raw|
        invariant Emitted() == before + read && read + TagSteps(raw, tagChars.pos, tagMode, single) == AttrTokens(raw)
        invariant contextFreeTag == cfg.NextContext(old(contextFreeTag), AttrTagName(raw), false)
        decreases |raw| - tagChars.pos
      {
        StepOnce(raw, tagChars.pos, tagMode, single);
        ghost var token := TagStep(raw, tagChars.pos, tagMode, single).0;
        tagMode := NextTagState(tagChars, tagMode, single);
        assert before + read + [token] == before + (read + [token]);
        read := read + [token];
      }
      StepsDone(raw, tagChars.pos, tagMode, single);
      assert read + [] == read;
    }

    /** The text up to the closing bracket, which lies ahead. */
    method GrabToClose() returns (r: string)
      requires chars.pos <= |chars.s| && cfg.closeTag in chars.Rest()
      modifies chars
      ensures r == UpTo(old(chars.Rest()), cfg.closeTag)
      ensures chars.pos == old(chars.pos) + |r| < |chars.s| && After(chars.Rest(), 1) == After(old(chars.Rest()), |r| + 1)
    {
      hide TakeWhile, UpTo;
      ghost var rest := chars.Rest();
      UpToMeaning(rest, cfg.closeTag);
      UpToBounds(rest, cfg.closeTag);
      r := chars.GrabWhile(c => c != cfg.closeTag);
    }

    method StateAttrs() returns (mode: StateMode)
      requires Valid() && tokenIndex + 1 < chars.pos && chars.HasNext()
      requires chars.Curr() != cfg.closeTag && cfg.closeTag in chars.Rest()
      modifies this, chars, tokens, sink
      ensures Valid() && mode.WordState? && tokenIndex < chars.pos <= |chars.s| && old(chars.pos) < chars.pos
      ensures Emitted() + Remaining(cfg, mode, chars.Rest(), contextFreeTag)
           == old(Emitted()) + old(Remaining(cfg, AttrsState, chars.Rest(), contextFreeTag))
    {
      hide Valid, Emitted, Remaining, AttrTokens, AttrTagName, UpTo, Config.NextContext;
      ghost var rest := chars.Rest();
      UpToBounds(rest, cfg.closeTag);
      AttrsAhead(cfg, rest, contextFreeTag, Emitted());
      var raw := GrabToClose();
      ReadAttributes(raw);
      chars.Skip();
      assert chars.Rest() == After(rest, |raw| + 1);
      return WordState;
    }

    /** The same, and the bracket is passed. */
    method GrabPastClose() returns (r: string)
      requires chars.pos <= |chars.s| && cfg.closeTag in chars.Rest()
      modifies chars
      ensures r == UpTo(old(chars.Rest()), cfg.closeTag)
      ensures chars.pos == old(chars.pos) + |r| + 1 <= |chars.s| && chars.Rest() == After(old(chars.Rest()), |r| + 1)
    {
      hide UpTo;
      r := GrabToClose();
      ghost var rest := chars.Rest();
      chars.Skip();
      assert chars.Rest() == rest[1..] == After(rest, 1);
    }

    /** A tag without attributes, read from behind its opening bracket up to and past its closing one. */
    method EmitPlainTag(isClosingTag: bool)
      requires Valid() && tokenIndex + 1 < chars.pos <= |chars.s| && cfg.closeTag in chars.Rest()
      modifies this, chars, tokens, sink
      ensures Valid() && tokenIndex < chars.pos <= |chars.s| && chars.pos > old(chars.pos)
      ensures var name := UpTo(old(chars.Rest()), cfg.closeTag);
              Emitted() == old(Emitted()) + [Token(Tag, name)] && chars.Rest() == After(old(chars.Rest()), |name| + 1)
              && contextFreeTag == cfg.NextContext(old(contextFreeTag), name, isClosingTag)
    {
      hide Valid, Emitted, UpTo, After, Config.NextContext;
      var name := GrabPastClose();
      EmitToken(Tag, name);
      CheckContextFreeMode(name, isClosingTag);
    }

    /** Passes an opening bracket; the text up to the closing one, and nothing when there is none. */
    method PassBracket() returns (currChar: char, nextChar: Option<char>, substr: string)
      requires Valid() && chars.HasNext()
      modifies chars
      ensures Valid() && Emitted() == old(Emitted()) && chars.pos == old(chars.pos) + 1 <= |chars.s|
      ensures var rest := old(chars.Rest());
              chars.Rest() == rest[1..] && currChar == rest[0] && nextChar == (if |rest| > 1 then Some(rest[1]) else None)
              && substr == if |UpTo(rest[1..], cfg.closeTag)| < |rest| - 1 then UpTo(rest[1..], cfg.closeTag) else ""
      ensures chars.IsLast() ==> substr == ""
      ensures substr != "" ==> chars.HasNext() && chars.Curr() != cfg.closeTag && cfg.closeTag in chars.Rest()
    {
      hide Valid, Emitted, UpTo;
      ghost var rest := chars.Rest();
      currChar, nextChar := chars.Curr(), chars.Next();
      chars.Skip();
      assert chars.Rest() == rest[1..];
      UpToBounds(rest[1..], cfg.closeTag);
      substr := chars.SubstrUntil(cfg.closeTag);
    }

    method StateTag() returns (mode: StateMode)
      requires Valid() && tokenIndex < chars.pos && chars.HasNext() && chars.Curr() == cfg.openTag
      modifies this, chars, tokens, sink
      ensures Valid() && old(chars.pos) < chars.pos <= |chars.s|
      ensures match mode
              case WordState => tokenIndex < chars.pos
              case TagState => false
              case AttrsState => tokenIndex + 1 < chars.pos && chars.HasNext() && chars.Curr() != cfg.closeTag
                                 && cfg.closeTag in chars.Rest()
      ensures Emitted() + Remaining(cfg, mode, chars.Rest(), contextFreeTag)
           == old(Emitted()) + old(Remaining(cfg, TagState, chars.Rest(), contextFreeTag))
    {
      hide Valid, Emitted, Remaining, TakeWhile, UpTo, After, Segment.Tokens, Config.IsReserved, Config.NextContext;
      TagAhead(cfg, chars.Rest(), contextFreeTag, Emitted());
      var currChar, nextChar, substr := PassBracket();
      if (nextChar.Some? && cfg.IsReserved(nextChar.value)) || substr == "" || cfg.openTag in substr || chars.IsLast() {
        EmitToken(Word, [currChar]);
        mode := WordState;
      } else if EQ !in substr || substr[0] == SLASH {
        EmitPlainTag(substr[0] == SLASH);
        mode := WordState;
      } else {
        mode := AttrsState;
      }
    }

    /** A backslash, with the bracket or backslash it protects when there is one. */
    method EmitEscape()
      requires Valid() && tokenIndex < chars.pos && chars.HasNext()
      modifies this`tokenIndex, chars, tokens, sink
      ensures Valid() && tokenIndex < chars.pos <= |chars.s| && chars.pos > old(chars.pos)
      ensures var rest := old(chars.Rest());
              if |rest| > 1 && cfg.IsEscapable(rest[1]) then
                Emitted() == old(Emitted()) + [Token(Word, [rest[1]])] && chars.Rest() == rest[2..]
              else Emitted() == old(Emitted()) + [Token(Word, [rest[0]])] && chars.Rest() == rest[1..]
    {
      hide Valid, Emitted;
      var currChar, nextChar := chars.Curr(), chars.Next();
      chars.Skip();
      if nextChar.Some? && cfg.IsEscapable(nextChar.value) {
        chars.Skip();
        EmitToken(Word, [nextChar.value]);
      } else {
        EmitToken(Word, [currChar]);
      }
    }

    /** The character under the cursor as a token of its own. */
    method EmitChar(kind: TokenKind)
      requires Valid() && tokenIndex < chars.pos && chars.HasNext()
      modifies this`tokenIndex, chars, tokens, sink
      ensures Valid() && tokenIndex < chars.pos <= |chars.s| && chars.pos > old(chars.pos)
      ensures var rest := old(chars.Rest());
              Emitted() == old(Emitted()) + [Token(kind, [rest[0]])] && chars.Rest() == rest[1..]
    {
      hide Valid, Emitted;
      EmitToken(kind, [chars.Curr()]);
      chars.Skip();
    }

    /** The longest run of such characters, of which the next one is the first. */
    method EmitRun(kind: TokenKind, cond: char -> bool)
      requires Valid() && tokenIndex < chars.pos && chars.HasNext() && cond(chars.Curr())
      modifies this`tokenIndex, chars, tokens, sink
      ensures Valid() && tokenIndex < chars.pos <= |chars.s| && chars.pos > old(chars.pos)
      ensures var rest := old(chars.Rest()); var run := TakeWhile(rest, cond);
              Emitted() == old(Emitted()) + [Token(kind, run)] && chars.Rest() == rest[|run|..]
    {
      hide Valid, Emitted, TakeWhile;
      SomeTaken(chars.Rest(), cond);
      var word := chars.GrabWhile(cond);
      EmitToken(kind, word);
    }

    method StateWord() returns (mode: StateMode)
      requires Valid() && tokenIndex < chars.pos && chars.HasNext()
      modifies this, chars, tokens, sink
      ensures Valid() && tokenIndex < chars.pos <= |chars.s|
      ensures match mode
              case WordState => chars.pos > old(chars.pos)
              case TagState => chars.pos == old(chars.pos) && chars.HasNext() && chars.Curr() == cfg.openTag
              case AttrsState => false
      ensures Emitted() + Remaining(cfg, mode, chars.Rest(), contextFreeTag)
           == old(Emitted()) + old(Remaining(cfg, WordState, chars.Rest(), contextFreeTag))
    {
      hide Valid, Emitted, Remaining, TakeWhile;
      WordRemaining(cfg, chars.Rest(), contextFreeTag);
      var c := chars.Curr();
      if c == NEWLINE {
        EmitChar(NewLine);
      } else if IsWhiteSpace(c) {
        EmitRun(Space, IsWhiteSpace);
      } else if c == cfg.openTag {
        if contextFreeTag != "" {
          var fullTagName := [cfg.openTag, SLASH] + contextFreeTag;
          if fullTagName <= chars.Rest() {
            return TagState;
          }
        } else if cfg.closeTag in chars.Rest() {
          return TagState;
        }
        EmitChar(Word);
      } else if cfg.escapeTags && c == BACKSLASH {
        EmitEscape();
      } else {
        EmitRun(Word, cfg.IsWordChar);
      }
      return WordState;
    }

    /** Reads the whole buffer: it ends, between tags, with every token of the specification emitted. */
    method Tokenize()
      requires Valid() && chars.pos == 0 && tokenIndex == -1 && contextFreeTag == ""
      modifies this, chars, tokens, sink
      ensures Valid() && Emitted() == LexAll(cfg, buffer)
      ensures sink.State() == Steps(sink.rules, Initial, LexAll(cfg, buffer))
    {
      hide Steps, Lex, TokensOf, AttrTokens;
      var stateMode := WordState;
      assert chars.Rest() == buffer;
      assert Emitted() == [];
      while chars.HasNext()
        invariant Valid() && tokenIndex < chars.pos <= |chars.s|
        invariant stateMode.TagState? ==> chars.HasNext() && chars.Curr() == cfg.openTag
        invariant stateMode.AttrsState? ==> tokenIndex + 1 < chars.pos && chars.HasNext() && chars.Curr() != cfg.closeTag
                                            && cfg.closeTag in chars.Rest()
        invariant Emitted() + Remaining(cfg, stateMode, chars.Rest(), contextFreeTag) == LexAll(cfg, buffer)
        decreases |buffer| - chars.pos, if stateMode.WordState? then 1 else 0
      {
        match stateMode
        case TagState => stateMode := StateTag();
        case AttrsState => stateMode := StateAttrs();
        case WordState => stateMode := StateWord();
      }
      NothingRemains(cfg, chars.Rest(), contextFreeTag);
      assert Emitted() + [] == Emitted();
    }
  }

  lemma NothingRemains(cfg: Config, rest: string, context: string)
    requires rest == []
    ensures Remaining(cfg, WordState, rest, context) == []
  {
  }

  lemma SomeTaken(s: string, p: char -> bool)
    requires s != "" && p(s[0])
    ensures TakeWhile(s, p) != ""
  {
  }

  lemma UpToBounds(s: string, c: char)
    ensures var r := UpTo(s, c); |r| <= |s| && (|r| < |s| <==> c in s) && (r != "" ==> s[0] != c)
  {
    var r := UpTo(s, c);
    assert r != "" ==> s[0] == r[0];
  }

  lemma TagRemaining(cfg: Config, rest: string, context: string)
    requires rest != [] && rest[0] == cfg.openTag
    ensures var body := UpTo(rest[1..], cfg.closeTag);
            var substr := if |body| < |rest| - 1 then body else "";
            Remaining(cfg, TagState, rest, context) ==
            if (|rest| > 1 && cfg.IsReserved(rest[1])) || substr == "" || cfg.openTag in substr then
              [Token(Word, [rest[0]])] + Remaining(cfg, WordState, rest[1..], context)
            else if EQ !in substr || substr[0] == SLASH then
              [Token(Tag, substr)]
              + Remaining(cfg, WordState, After(rest[1..], |body| + 1), cfg.NextContext(context, substr, substr[0] == SLASH))
            else Remaining(cfg, AttrsState, rest[1..], context)
  {
    hide Lex, TokensOf, AttrTokens, UpTo, AttrTagName, After, TagSegment, Segment.Tokens, Segment.Source, Config.IsReserved,
         Config.NextContext;
    TagParts(cfg, rest, context);
    AfterOne(rest, |UpTo(rest[1..], cfg.closeTag)|);
  }

  /** What is read at an opening bracket: its tokens, its length and the context-free tag after it. */
  lemma TagParts(cfg: Config, rest: string, context: string)
    requires rest != [] && rest[0] == cfg.openTag
    ensures var body := UpTo(rest[1..], cfg.closeTag);
            var substr := if |body| < |rest| - 1 then body else "";
            var (seg, next) := TagSegment(cfg, rest, context);
            if (|rest| > 1 && cfg.IsReserved(rest[1])) || substr == "" || cfg.openTag in substr then
              seg.Tokens() == [Token(Word, [rest[0]])] && |seg.Source(cfg)| == 1 && next == context
            else if EQ !in substr || substr[0] == SLASH then
              seg.Tokens() == [Token(Tag, substr)] && |seg.Source(cfg)| == |body| + 2
              && next == cfg.NextContext(context, substr, substr[0] == SLASH)
            else
              seg.Tokens() == AttrTokens(substr) && |seg.Source(cfg)| == |body| + 2
              && next == cfg.NextContext(context, AttrTagName(substr), false)
  {
    hide AttrTokens, UpTo, AttrTagName, Config.IsReserved, Config.NextContext;
  }

  /** The same behind the tokens emitted before. */
  lemma TagAhead(cfg: Config, rest: string, context: string, before: seq<Token>)
    requires rest != [] && rest[0] == cfg.openTag
    ensures var body := UpTo(rest[1..], cfg.closeTag);
            var substr := if |body| < |rest| - 1 then body else "";
            before + Remaining(cfg, TagState, rest, context) ==
            if (|rest| > 1 && cfg.IsReserved(rest[1])) || substr == "" || cfg.openTag in substr then
              before + [Token(Word, [rest[0]])] + Remaining(cfg, WordState, rest[1..], context)
            else if EQ !in substr || substr[0] == SLASH then
              before + [Token(Tag, substr)]
              + Remaining(cfg, WordState, After(rest[1..], |body| + 1), cfg.NextContext(context, substr, substr[0] == SLASH))
            else before + Remaining(cfg, AttrsState, rest[1..], context)
  {
    hide Remaining, UpTo, After, Config.IsReserved, Config.NextContext;
    TagRemaining(cfg, rest, context);
  }

  lemma AfterOne(s: string, n: nat)
    requires s != []
    ensures After(s[1..], n + 1) == After(s, n + 2) && After(s, 1) == s[1..]
  {
  }

  lemma WordRemaining(cfg: Config, rest: string, context: string)
    requires rest != []
    ensures var c, all := rest[0], Remaining(cfg, WordState, rest, context);
            if c == NEWLINE then all == [Token(NewLine, [c])] + Remaining(cfg, WordState, rest[1..], context)
            else if IsWhiteSpace(c) then
              var run := TakeWhile(rest, IsWhiteSpace);
              all == [Token(Space, run)] + Remaining(cfg, WordState, rest[|run|..], context)
            else if c == cfg.openTag then
              if StartsTag(cfg, rest, context) then all == Remaining(cfg, TagState, rest, context)
              else all == [Token(Word, [c])] + Remaining(cfg, WordState, rest[1..], context)
            else if cfg.escapeTags && c == BACKSLASH then
              if |rest| > 1 && cfg.IsEscapable(rest[1]) then
                all == [Token(Word, [rest[1]])] + Remaining(cfg, WordState, rest[2..], context)
              else all == [Token(Word, [c])] + Remaining(cfg, WordState, rest[1..], context)
            else
              var run := TakeWhile(rest, cfg.IsWordChar);
              all == [Token(Word, run)] + Remaining(cfg, WordState, rest[|run|..], context)
  {
    hide Lex, TokensOf, TagSegment, TakeWhile, AttrTokens;
    LexUnfold(cfg, rest, context);
  }

  lemma UpToMeaning(s: string, c: char)
    ensures UpTo(s, c) == TakeWhile(s, x => x != c)
  {
  }

  lemma AttrsRemaining(cfg: Config, rest: string, context: string)
    ensures var raw := UpTo(rest, cfg.closeTag);
            Remaining(cfg, AttrsState, rest, context)
            == AttrTokens(raw)
               + Remaining(cfg, WordState, After(rest, |raw| + 1), cfg.NextContext(context, AttrTagName(raw), false))
  {
    hide UpTo, Lex, TokensOf, AttrTokens, AttrTagName, After, Config.NextContext;
  }

  lemma AttrsAhead(cfg: Config, rest: string, context: string, before: seq<Token>)
    ensures var raw := UpTo(rest, cfg.closeTag);
            before + Remaining(cfg, AttrsState, rest, context)
            == before + AttrTokens(raw)
               + Remaining(cfg, WordState, After(rest, |raw| + 1), cfg.NextContext(context, AttrTagName(raw), false))
  {
    hide Remaining, UpTo, After, AttrTokens, AttrTagName, Config.NextContext;
    AttrsRemaining(cfg, rest, context);
  }

  /** The whole parser, run as the source runs it: the tree builder listens while the lexer reads. */
  method RunParse(options: Options, input: string) returns (tree: seq<Tree>)
    ensures tree == Parse(options, input)
  {
    var builder := new TreeBuilder(options.RulesFor(input));
    var tokenizer := new Tokenizer(options.LexerConfig(), input, builder);
    tokenizer.Tokenize();
    builder.Flush();
    tree := Resolve(builder.store, builder.nodes);
  }
}
