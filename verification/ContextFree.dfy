/** Context-free tags: what stands between such a tag and its closing tag is text, whatever it looks like. */
module ContextFree {
  import opened Strings
  import opened LexerSpec

  /** Brackets that can open and close tags at all. */
  predicate Brackets(cfg: Config) {
    !IsWhiteSpace(cfg.openTag) && cfg.openTag != NEWLINE && cfg.openTag != SLASH && cfg.openTag != BACKSLASH
    && cfg.closeTag != SLASH && cfg.openTag != cfg.closeTag
  }

  /** What may stand between the brackets of an opening tag, attributes included. */
  predicate Opening(cfg: Config, raw: string) {
    raw != "" && cfg.openTag !in raw && cfg.closeTag !in raw && raw[0] != SLASH && !cfg.IsReserved(raw[0])
  }

  function NameOf(raw: string): string { if EQ in raw then AttrTagName(raw) else raw }

  function OpeningTokens(raw: string): seq<Token> { if EQ in raw then AttrTokens(raw) else [Token(Tag, raw)] }

  predicate Name(cfg: Config, name: string) { name != "" && cfg.openTag !in name && cfg.closeTag !in name }

  lemma NameIsName(cfg: Config, raw: string)
    requires Opening(cfg, raw)
    ensures Name(cfg, NameOf(raw))
  {
    assert NameOf(raw) <= raw;
    assert forall c | c in NameOf(raw) :: c in raw;
  }

  /** What is looked for inside such a tag. */
  function Closer(cfg: Config, name: string): string { [cfg.openTag, SLASH] + name }

  /** No backslash at the end is left to protect what follows. */
  predicate Unprotected(cfg: Config, s: string)
    decreases |s|
  {
    if s == "" then true
    else if s[0] != BACKSLASH then Unprotected(cfg, s[1..])
    else |s| > 1 && Unprotected(cfg, if cfg.IsEscapable(s[1]) then s[2..] else s[1..])
  }

  predicate Body(cfg: Config, name: string, body: string) {
    !Occurs(body, Closer(cfg, name)) && (cfg.escapeTags ==> Unprotected(cfg, body))
  }

  lemma NoClosingAhead(cfg: Config, body: string, name: string, tail: string, i: nat)
    requires Brackets(cfg) && cfg.openTag !in name && i < |body| && OccursAt(body + Closer(cfg, name) + tail, Closer(cfg, name), i)
    ensures OccursAt(body, Closer(cfg, name), i)
  {
    var s, sub := body + Closer(cfg, name) + tail, Closer(cfg, name);
    forall m | i < m < i + |sub|
      ensures s[m] != cfg.openTag
    {
      assert s[m] == sub[m - i];
    }
    assert s[|body|] == cfg.openTag;
    assert s[i..i + |sub|] == body[i..i + |sub|];
  }

  lemma PrefixOccurs(s: string, sub: string)
    requires sub <= s
    ensures OccursAt(s, sub, 0) && Occurs(s, sub)
  {
    assert s[0..|sub|] == sub;
    assert OccursAt(s, sub, 0);
  }

  lemma AtStart(cfg: Config, body: string, name: string, tail: string)
    requires Brackets(cfg) && body != [] && cfg.openTag !in name && Closer(cfg, name) <= body + Closer(cfg, name) + tail
    ensures Occurs(body, Closer(cfg, name))
  {
    PrefixOccurs(body + Closer(cfg, name) + tail, Closer(cfg, name));
    NoClosingAhead(cfg, body, name, tail, 0);
  }

  lemma NotAtStart(cfg: Config, body: string, name: string, tail: string)
    requires Brackets(cfg) && body != [] && cfg.openTag !in name && !Occurs(body, Closer(cfg, name))
    ensures !(Closer(cfg, name) <= body) && !(Closer(cfg, name) <= body + Closer(cfg, name) + tail)
  {
    if Closer(cfg, name) <= body {
      PrefixOccurs(body, Closer(cfg, name));
    }
    if Closer(cfg, name) <= body + Closer(cfg, name) + tail {
      AtStart(cfg, body, name, tail);
    }
  }

  lemma SameRun(body: string, more: string, p: char -> bool)
    requires more != "" && !p(more[0])
    ensures TakeWhile(body + more, p) == TakeWhile(body, p)
  {
    var run := TakeWhile(body, p);
    assert body + more == run + (body[|run|..] + more);
    assert body[|run|..] + more != "";
    TakeWhileUnique(run, body[|run|..] + more, p);
  }

  /** Inside, the next segment is text and does not depend on what follows the closing tag. */
  lemma InsideStep(cfg: Config, body: string, name: string, tail: string)
    requires Brackets(cfg) && body != [] && name != "" && cfg.openTag !in name && Body(cfg, name, body)
    ensures var (seg, context) := NextSegment(cfg, body, name);
            !seg.TagWithAttrs? && seg.token.IsText() && context == name
            && NextSegment(cfg, body + Closer(cfg, name) + tail, name) == (seg, name)
  {
    hide TakeWhile, TagSegment, Occurs;
    var more := Closer(cfg, name) + tail;
    var s, c := body + Closer(cfg, name) + tail, body[0];
    assert s == body + more && s[0] == c && (|body| > 1 ==> s[1] == body[1]);
    NotAtStart(cfg, body, name, tail);
    SameRun(body, more, IsWhiteSpace);
    SameRun(body, more, cfg.IsWordChar);
  }

  lemma OccursInRest(body: string, sub: string, n: nat)
    requires n <= |body| && Occurs(body[n..], sub)
    ensures Occurs(body, sub)
  {
    var i :| 0 <= i <= |body[n..]| && OccursAt(body[n..], sub, i);
    assert OccursAt(body, sub, n + i);
  }

  lemma {:induction false} UnprotectedRest(cfg: Config, s: string, n: nat)
    requires Unprotected(cfg, s) && n <= |s| && forall c | c in s[..n] :: c != BACKSLASH
    ensures Unprotected(cfg, s[n..])
    decreases n
  {
    if n > 0 {
      assert s[..n][0] == s[0] && s[0] in s[..n];
      assert s[1..][..n - 1] == s[..n][1..];
      assert forall c | c in s[..n][1..] :: c in s[..n];
      UnprotectedRest(cfg, s[1..], n - 1);
      assert s[1..][n - 1..] == s[n..];
    } else {
      assert s[n..] == s;
    }
  }

  /** What is left of a body behind its first segment is a body as well. */
  lemma RestIsBody(cfg: Config, name: string, body: string)
    requires Brackets(cfg) && body != [] && name != "" && cfg.openTag !in name && Body(cfg, name, body)
    ensures var n := |NextSegment(cfg, body, name).0.Source(cfg)|; n <= |body| && Body(cfg, name, body[n..])
  {
    hide TagSegment, Occurs, Unprotected;
    var seg := NextSegment(cfg, body, name).0;
    var n := |seg.Source(cfg)|;
    SegmentIsPrefix(cfg, body, name);
    InsideStep(cfg, body, name, "");
    if Occurs(body[n..], Closer(cfg, name)) {
      OccursInRest(body, Closer(cfg, name), n);
    }
    if cfg.escapeTags {
      if body[0] == BACKSLASH {
        AfterBackslash(cfg, body);
      } else {
        NoBackslash(cfg, body, name);
        UnprotectedRest(cfg, body, n);
      }
    }
  }

  lemma AfterBackslash(cfg: Config, s: string)
    requires s != "" && s[0] == BACKSLASH && Unprotected(cfg, s)
    ensures |s| > 1 && Unprotected(cfg, s[if cfg.IsEscapable(s[1]) then 2 else 1..])
  {
  }

  lemma NoBackslash(cfg: Config, body: string, name: string)
    requires Brackets(cfg) && body != "" && cfg.escapeTags && body[0] != BACKSLASH
    requires var seg := NextSegment(cfg, body, name).0; seg.Plain? && seg.token.IsText() && seg.Source(cfg) <= body
    ensures forall c | c in body[..|NextSegment(cfg, body, name).0.Source(cfg)|] :: c != BACKSLASH
  {
    var seg := NextSegment(cfg, body, name).0;
    assert body[..|seg.Source(cfg)|] == seg.token.value;
    if body[0] != cfg.openTag && body[0] != NEWLINE && !IsWhiteSpace(body[0]) {
      assert forall c | c in seg.token.value :: cfg.IsWordChar(c);
    } else if IsWhiteSpace(body[0]) {
      assert forall c | c in seg.token.value :: IsWhiteSpace(c);
    }
  }

  /** Up to the closing tag there is only text, all of it, and then what follows is read as if the body were not there. */
  lemma {:induction false} BodyIsText(cfg: Config, body: string, name: string, tail: string)
    requires Brackets(cfg) && name != "" && cfg.openTag !in name && Body(cfg, name, body)
    ensures var tokens := TokensOf(Lex(cfg, body, name));
            (forall t | t in tokens :: t.IsText()) && (!cfg.escapeTags || BACKSLASH !in body ==> TokenText(tokens) == body)
            && TokensOf(Lex(cfg, body + Closer(cfg, name) + tail, name)) == tokens + TokensOf(Lex(cfg, Closer(cfg, name) + tail, name))
    decreases |body|
  {
    hide NextSegment, Body, Brackets, Closer, Token.IsText, Lex, TokensOf, TokenText, Segment.Source, Segment.Tokens;
    var rest := Closer(cfg, name) + tail;
    if body == [] {
      assert body + Closer(cfg, name) + tail == rest;
      NothingLeft(cfg, name);
      assert [] + TokensOf(Lex(cfg, rest, name)) == TokensOf(Lex(cfg, rest, name));
    } else {
      var s := body + Closer(cfg, name) + tail;
      InsideStep(cfg, body, name, tail);
      RestIsBody(cfg, name, body);
      var seg := NextSegment(cfg, body, name).0;
      var n := |seg.Source(cfg)|;
      TextStep(cfg, body, name, seg);
      TextStep(cfg, s, name, seg);
      BodyIsText(cfg, body[n..], name, tail);
      assert s[n..] == body[n..] + Closer(cfg, name) + tail;
      var more := TokensOf(Lex(cfg, body[n..], name));
      TextFirst(seg.token, more);
      if !cfg.escapeTags || BACKSLASH !in body {
        assert BACKSLASH !in body ==> BACKSLASH !in body[n..];
        NotEscaped(cfg, body, name);
        assert body == seg.token.value + body[n..];
      }
      assert [seg.token] + (more + TokensOf(Lex(cfg, rest, name))) == [seg.token] + more + TokensOf(Lex(cfg, rest, name));
    }
  }

  lemma NotEscaped(cfg: Config, s: string, context: string)
    requires s != "" && (!cfg.escapeTags || BACKSLASH !in s)
    requires var seg := NextSegment(cfg, s, context).0; !seg.TagWithAttrs? && seg.token.IsText() && seg.Source(cfg) <= s
    ensures NextSegment(cfg, s, context).0.Source(cfg) == NextSegment(cfg, s, context).0.token.value
  {
    assert s[0] in s;
  }

  /** One text token is read and the mode stays. */
  lemma TextStep(cfg: Config, s: string, context: string, seg: Segment)
    requires s != [] && NextSegment(cfg, s, context) == (seg, context) && !seg.TagWithAttrs?
    ensures var n := |seg.Source(cfg)|;
            0 < n <= |s| && seg.Source(cfg) <= s && TokensOf(Lex(cfg, s, context)) == [seg.token] + TokensOf(Lex(cfg, s[n..], context))
  {
    hide NextSegment;
    LexUnfold(cfg, s, context);
    SegmentIsPrefix(cfg, s, context);
  }

  lemma NothingLeft(cfg: Config, context: string)
    ensures TokensOf(Lex(cfg, [], context)) == [] && TokenText([]) == []
  {
  }

  lemma TextFirst(t: Token, more: seq<Token>)
    requires t.IsText()
    ensures TokenText([t] + more) == t.value + TokenText(more)
    ensures (forall x | x in more :: x.IsText()) ==> forall x | x in [t] + more :: x.IsText()
  {
    assert ([t] + more)[1..] == more;
  }

  lemma OpeningSegment(cfg: Config, raw: string, tail: string)
    requires Brackets(cfg) && Opening(cfg, raw) && Lower(NameOf(raw)) in cfg.contextFreeTags
    ensures var (seg, context) := NextSegment(cfg, [cfg.openTag] + raw + [cfg.closeTag] + tail, "");
            seg.Tokens() == OpeningTokens(raw) && seg.Source(cfg) == [cfg.openTag] + raw + [cfg.closeTag] && context == NameOf(raw)
  {
    hide Lower, UpTo, AttrTokens, AttrTagName;
    var rest := [cfg.openTag] + raw + [cfg.closeTag] + tail;
    assert rest[1..] == raw + [cfg.closeTag] + tail && rest[1] == raw[0] && rest[|raw| + 1] == cfg.closeTag;
    assert StartsTag(cfg, rest, "");
    UpToUnique(raw, cfg.closeTag, tail);
  }

  /** The opening tag, with its attributes if it has any, enters the mode. */
  lemma Opened(cfg: Config, raw: string, tail: string)
    requires Brackets(cfg) && Opening(cfg, raw) && Lower(NameOf(raw)) in cfg.contextFreeTags
    ensures TokensOf(Lex(cfg, [cfg.openTag] + raw + [cfg.closeTag] + tail, ""))
         == OpeningTokens(raw) + TokensOf(Lex(cfg, tail, NameOf(raw)))
  {
    hide Lower, Lex, TokensOf, NextSegment, OpeningTokens, NameOf;
    var rest := [cfg.openTag] + raw + [cfg.closeTag] + tail;
    OpeningSegment(cfg, raw, tail);
    LexUnfold(cfg, rest, "");
    assert rest[|raw| + 2..] == tail;
  }

  /** The closing tag leaves it. */
  lemma ClosingSegment(cfg: Config, name: string, tail: string)
    requires Brackets(cfg) && Name(cfg, name) && Lower([SLASH] + name) !in cfg.contextFreeTags
    ensures NextSegment(cfg, Closer(cfg, name) + ([cfg.closeTag] + tail), name) == (Plain(Token(Tag, [SLASH] + name)), "")
  {
    hide TagSegment, StartsTag, Lower;
    ClosingTag(cfg, name, tail);
    ClosingStarts(cfg, name, tail);
  }

  lemma ClosingStarts(cfg: Config, name: string, tail: string)
    ensures StartsTag(cfg, Closer(cfg, name) + ([cfg.closeTag] + tail), name)
  {
    var rest := Closer(cfg, name) + ([cfg.closeTag] + tail);
    assert rest[|name| + 2] == cfg.closeTag;
  }

  lemma ClosingTag(cfg: Config, name: string, tail: string)
    requires Brackets(cfg) && Name(cfg, name) && Lower([SLASH] + name) !in cfg.contextFreeTags
    ensures TagSegment(cfg, Closer(cfg, name) + ([cfg.closeTag] + tail), name) == (Plain(Token(Tag, [SLASH] + name)), "")
  {
    hide Lower, UpTo, StartsTag;
    var body := [SLASH] + name;
    var rest := Closer(cfg, name) + ([cfg.closeTag] + tail);
    assert rest[1..] == body + [cfg.closeTag] + tail && rest[1] == SLASH;
    UpToUnique(body, cfg.closeTag, tail);
  }

  lemma Closed(cfg: Config, name: string, tail: string)
    requires Brackets(cfg) && Name(cfg, name) && Lower([SLASH] + name) !in cfg.contextFreeTags
    ensures TokensOf(Lex(cfg, Closer(cfg, name) + ([cfg.closeTag] + tail), name))
         == [Token(Tag, [SLASH] + name)] + TokensOf(Lex(cfg, tail, ""))
  {
    hide Lower, Lex, TokensOf, NextSegment;
    var rest := Closer(cfg, name) + ([cfg.closeTag] + tail);
    ClosingSegment(cfg, name, tail);
    LexUnfold(cfg, rest, name);
    assert rest[|name| + 3..] == tail;
  }

  /** A context-free tag, with or without attributes, around any body that does not itself hold the start of its closing
      tag: the tag, the body as text and nothing but text, the closing tag, and then the rest as usual. With escapes on,
      the body's last backslash must not be left to protect the closing tag. */
  lemma ContextFreeTagHoldsText(cfg: Config, raw: string, body: string, tail: string)
    requires Brackets(cfg) && Opening(cfg, raw) && Lower(NameOf(raw)) in cfg.contextFreeTags
    requires Lower([SLASH] + NameOf(raw)) !in cfg.contextFreeTags && Body(cfg, NameOf(raw), body)
    ensures var name := NameOf(raw);
            var tokens := TokensOf(Lex(cfg, body, name));
            var rest := body + Closer(cfg, name) + ([cfg.closeTag] + tail);
            (forall t | t in tokens :: t.IsText()) && (!cfg.escapeTags || BACKSLASH !in body ==> TokenText(tokens) == body)
            && TokensOf(Lex(cfg, [cfg.openTag] + raw + [cfg.closeTag] + rest, ""))
               == OpeningTokens(raw) + tokens + [Token(Tag, [SLASH] + name)] + TokensOf(Lex(cfg, tail, ""))
  {
    hide Lex, TokensOf, TokenText, Lower, Brackets, Opening, Body, Closer, NameOf, OpeningTokens;
    var name := NameOf(raw);
    NameIsName(cfg, raw);
    Opened(cfg, raw, body + Closer(cfg, name) + ([cfg.closeTag] + tail));
    BodyIsText(cfg, body, name, [cfg.closeTag] + tail);
    Closed(cfg, name, tail);
  }
}
