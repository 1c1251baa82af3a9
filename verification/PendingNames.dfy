/** Attribute names that wait for a value never reach the next tag, whatever the input. */
module PendingNames {
  import opened Strings
  import opened LexerSpec
  import opened TagNodes
  import opened ParserSpec

  predicate AllEmpty(names: seq<string>) { forall n | n in names :: n == "" }

  /** No name waits. */
  predicate Settled(st: State) { AllEmpty(st.attrNames) }

  /** At most the last name waits, and then for the active tag. */
  predicate OneWaits(st: State) {
    Settled(st) || (st.tagNodes != [] && AllEmpty(st.attrNames[..|st.attrNames| - 1]))
  }

  /** The next tag starts with no name waiting. */
  lemma TagSettles(rules: Rules, st: State, name: string)
    requires OneWaits(st)
    ensures Settled(StartTag(rules, st, name)) && Settled(EndTag(rules, st)) && StartTag(rules, st, name).tagNodes != []
  {
    hide Surface, Occurs;
    FlushSettles(st);
  }

  lemma FlushSettles(st: State)
    requires OneWaits(st)
    ensures Settled(FlushTagNodes(st))
  {
    if st.tagNodes != [] && st.attrNames != [] {
      var names := st.attrNames[..|st.attrNames| - 1];
      forall n | n in names
        ensures n == ""
      {
        assert n in st.attrNames;
      }
      assert FlushTagNodes(st).attrNames == names;
    }
  }

  /** A value goes to the name that waits, or under itself when none does; then none waits. */
  lemma ValueSettles(st: State, value: string)
    requires OneWaits(st) && st.tagNodes != []
    ensures Settled(PutAttrValue(st, value)) && PutAttrValue(st, value).tagNodes == st.tagNodes
    ensures Settled(st) ==> PutAttrValue(st, value) == WriteAttr(st, value, value)
  {
    hide SetAttr;
    if st.attrNames != [] {
      var last := st.attrNames[|st.attrNames| - 1];
      assert last in st.attrNames;
      assert forall n | n in st.attrNames :: n == last || n in st.attrNames[..|st.attrNames| - 1];
    }
  }

  lemma NameWaits(st: State, name: string)
    requires Settled(st) && st.tagNodes != []
    ensures OneWaits(PutAttrName(st, name)) && PutAttrName(st, name).tagNodes == st.tagNodes
  {
    hide SetAttr;
    assert (st.attrNames + [name])[..|st.attrNames|] == st.attrNames;
  }

  /** The attribute tokens of a tag, read from place p on. */
  lemma {:induction false} AttrsSettle(rules: Rules, st: State, s: string, p: nat, mode: TagMode, single: bool)
    requires st.tagNodes != [] && OneWaits(st) && (mode.AttrMode? ==> Settled(st)) && (mode.NameMode? ==> p >= |s|)
    ensures OneWaits(Steps(rules, st, TagSteps(s, p, mode, single)))
    decreases |s| - p
  {
    hide Unquote, ValueEnd, TagSteps, Steps, OneWaits, Settled, PutAttrName, PutAttrValue;
    if p >= |s| {
      StepsDone(s, p, mode, single);
      NoStep(rules, st);
    } else {
      var (token, q, mode') := TagStep(s, p, mode, single);
      StepOnce(s, p, mode, single);
      StepsAppend(rules, st, [token], TagSteps(s, q, mode', single));
      OneStep(rules, st, token);
      if token.kind.AttrName? {
        NameWaits(st, token.value);
      } else {
        ValueSettles(st, token.value);
        SettledWaits(PutAttrValue(st, token.value));
      }
      AttrsSettle(rules, Step(rules, st, token), s, q, mode', single);
    }
  }

  lemma NoStep(rules: Rules, st: State)
    ensures Steps(rules, st, []) == st
  {
  }

  lemma SettledWaits(st: State)
    requires Settled(st)
    ensures OneWaits(st)
  {
  }

  /** All tokens of one stretch of the input. */
  lemma SegmentSettles(rules: Rules, cfg: Config, st: State, rest: string, context: string)
    requires rest != "" && OneWaits(st)
    ensures OneWaits(Steps(rules, st, NextSegment(cfg, rest, context).0.Tokens()))
  {
    hide Steps, OneWaits, Settled, NextSegment, TagSteps, TagStep, StartTag, EndTag, Put;
    var seg := NextSegment(cfg, rest, context).0;
    if seg.TagWithAttrs? {
      var raw := seg.raw;
      var single := SPACE !in raw;
      AttrsTagStart(cfg, rest, context);
      StepOnce(raw, 0, NameMode, single);
      var (token, q, mode) := TagStep(raw, 0, NameMode, single);
      NameFirst(raw, single);
      StepsAppend(rules, st, [token], TagSteps(raw, q, mode, single));
      OneStep(rules, st, token);
      TagSettles(rules, st, token.value);
      SettledWaits(StartTag(rules, st, token.value));
      AttrsSettle(rules, StartTag(rules, st, token.value), raw, q, mode, single);
    } else {
      OneTokenSettles(rules, st, seg.token);
      SegmentKinds(cfg, rest, context);
    }
  }

  lemma SegmentKinds(cfg: Config, rest: string, context: string)
    requires rest != "" && !NextSegment(cfg, rest, context).0.TagWithAttrs?
    ensures var t := NextSegment(cfg, rest, context).0.token; t.kind.Tag? || t.IsText()
  {
  }

  lemma AttrsTagStart(cfg: Config, rest: string, context: string)
    requires rest != "" && NextSegment(cfg, rest, context).0.TagWithAttrs?
    ensures var raw := NextSegment(cfg, rest, context).0.raw; raw != "" && raw[0] != SLASH
  {
  }

  lemma NameFirst(raw: string, single: bool)
    requires raw != "" && raw[0] != SLASH
    ensures var (token, q, mode) := TagStep(raw, 0, NameMode, single);
            token.kind.Tag? && !token.IsEnd() && (mode.NameMode? ==> q >= |raw|)
  {
    assert raw[0..] == raw;
  }

  lemma OneTokenSettles(rules: Rules, st: State, token: Token)
    requires OneWaits(st)
    ensures token.kind.Tag? || token.IsText() ==> OneWaits(Steps(rules, st, [token]))
  {
    hide Steps, StartTag, EndTag;
    OneStep(rules, st, token);
    if token.kind.Tag? {
      TagSettles(rules, st, token.value);
    }
  }

  /** For every input, at every point between two stretches of it, at most one name waits, for the active tag; the next tag
      forgets it. */
  lemma {:induction false} NamesDoNotLeak(rules: Rules, cfg: Config, st: State, rest: string, context: string)
    requires OneWaits(st)
    ensures OneWaits(Steps(rules, st, TokensOf(Lex(cfg, rest, context))))
    decreases |rest|
  {
    hide Steps, OneWaits, NextSegment;
    if rest == "" {
      NoStep(rules, st);
    } else {
      var (seg, context') := NextSegment(cfg, rest, context);
      var n := |seg.Source(cfg)|;
      LexUnfold(cfg, rest, context);
      SegmentSettles(rules, cfg, st, rest, context);
      StepsAppend(rules, st, seg.Tokens(), TokensOf(Lex(cfg, rest[n..], context')));
      NamesDoNotLeak(rules, cfg, Steps(rules, st, seg.Tokens()), rest[n..], context');
    }
  }

  /** So behind any beginning of a text, a tag with one value gets that value under itself, whatever came before. */
  lemma ValueIsItsOwn(rules: Rules, cfg: Config, before: string, context: string, name: string, value: string)
    requires name != "" && name[0] != SLASH && value != ""
    ensures var st := Steps(rules, Initial, TokensOf(Lex(cfg, before, context)));
            var st' := Steps(rules, st, [Token(Tag, name), Token(AttrValue, value)]);
            |st'.store| == |st.store| + 1 && st'.store[|st.store|] == [(value, value)] && st'.store[..|st.store|] == st.store
  {
    hide Steps, Occurs, Surface, Lex, TokensOf, OneWaits, Settled;
    StartsSettled();
    NamesDoNotLeak(rules, cfg, Initial, before, context);
    var st := Steps(rules, Initial, TokensOf(Lex(cfg, before, context)));
    var st1 := StartTag(rules, st, name);
    assert [Token(Tag, name)] + [Token(AttrValue, value)] == [Token(Tag, name), Token(AttrValue, value)];
    StepsAppend(rules, st, [Token(Tag, name)], [Token(AttrValue, value)]);
    OneStep(rules, st, Token(Tag, name));
    OneStep(rules, st1, Token(AttrValue, value));
    TagSettles(rules, st, name);
    SettledWaits(st1);
    ValueSettles(st1, value);
    assert SetAttr([], value, value) == [(value, value)];
  }

  lemma StartsSettled()
    ensures OneWaits(Initial)
  {
  }

  /** A name is written with the empty value at once; an equals sign without a name in front writes nothing, and the value
      behind it goes under itself. */
  lemma NamesAreWritten(st: State, name: string, value: string)
    requires Settled(st) && st.tagNodes != [] && st.tagNodes[|st.tagNodes| - 1] < |st.store|
    ensures var r := st.tagNodes[|st.tagNodes| - 1];
            PutAttrName(st, name).store == (if name == "" then st.store else st.store[r := SetAttr(st.store[r], name, "")])
            && PutAttrValue(PutAttrName(st, ""), value).store == st.store[r := SetAttr(st.store[r], value, value)]
  {
    hide SetAttr;
  }
}
