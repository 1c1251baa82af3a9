/** The round trip fails whenever a tag without content is taken for a nested one: too few tags come back. */
module RoundTripExact {
  import opened Strings
  import opened LexerSpec
  import opened TagNodes
  import opened ParserSpec
  import opened PrintedForm
  import opened RoundTrip

  // ---------------------------------------------------------------- how many tags can come back

  function NodeTags(ns: seq<Node>): nat {
    if ns == [] then 0 else
    (match ns[0]
     case Text(_) => 0
     case TagNode(_, _, content) => 1 + NodeTags(content)) + NodeTags(ns[1..])
  }

  function FrameTags(frames: seq<Frame>): nat {
    if frames == [] then 0 else FrameTags(frames[..|frames| - 1]) + NodeTags(frames[|frames| - 1].content)
  }

  function StateTags(st: State): nat { NodeTags(st.nodes) + FrameTags(st.nested) }

  lemma {:induction false} NodeTagsAppend(a: seq<Node>, b: seq<Node>)
    ensures NodeTags(a + b) == NodeTags(a) + NodeTags(b)
    decreases |a|
  {
    if a == [] {
      assert a + b == b;
    } else {
      assert (a + b)[1..] == a[1..] + b;
      NodeTagsAppend(a[1..], b);
    }
  }

  lemma PutTags(st: State, more: seq<Node>)
    ensures StateTags(Put(st, more)) == StateTags(st) + NodeTags(more)
  {
    hide NodeTags;
    if st.nested == [] {
      NodeTagsAppend(st.nodes, more);
    } else {
      var top := st.nested[|st.nested| - 1];
      NodeTagsAppend(top.content, more);
      assert Put(st, more).nested[..|st.nested| - 1] == st.nested[..|st.nested| - 1];
    }
  }

  lemma AsTextTags(store: seq<Attrs>, f: Frame, closed: bool)
    ensures NodeTags(AsText(store, f, closed)) == NodeTags(f.content)
  {
    hide TagStart, TagEnd;
    var start := [Text(TagStart(f.tag, At(store, f.attrs)))];
    var end := if closed then [Text(TagEnd(f.tag))] else [];
    assert start[1..] == [] && (closed ==> end[1..] == []);
    if f.content != [] {
      NodeTagsAppend(start, f.content + end);
      NodeTagsAppend(f.content, end);
    } else {
      assert AsText(store, f, closed) == start;
    }
  }

  lemma SurfaceTags(rules: Rules, store: seq<Attrs>, f: Frame)
    ensures NodeTags(Surface(rules, store, f)) <= 1 + NodeTags(f.content)
  {
    hide AsText;
    AsTextTags(store, f, true);
    var node := [TagNode(Lower(f.tag), f.attrs, f.content)];
    assert node[1..] == [];
  }

  /** A tag node is made by a closing tag, or by an opening tag that is not nested. */
  function MadeBy(rules: Rules, t: Token): nat {
    if t.kind.Tag? && (t.IsEnd() || !rules.IsNested(t.value)) then 1 else 0
  }

  function Made(rules: Rules, ts: seq<Token>): nat {
    if ts == [] then 0 else MadeBy(rules, ts[0]) + Made(rules, ts[1..])
  }

  lemma {:induction false} MadeAppend(rules: Rules, a: seq<Token>, b: seq<Token>)
    ensures Made(rules, a + b) == Made(rules, a) + Made(rules, b)
    decreases |a|
  {
    hide MadeBy;
    if a == [] {
      assert a + b == b;
    } else {
      assert (a + b)[1..] == a[1..] + b;
      MadeAppend(rules, a[1..], b);
    }
  }

  lemma StepTags(rules: Rules, st: State, t: Token)
    ensures StateTags(Step(rules, st, t)) <= StateTags(st) + MadeBy(rules, t)
  {
    hide NodeTags, AsText, Surface, Put, SetAttr;
    var st1 := FlushTagNodes(st);
    if t.kind.Tag? && t.IsEnd() {
      if st1.nested != [] {
        var top := st1.nested[|st1.nested| - 1];
        SurfaceTags(rules, st1.store, top);
        PutTags(st1.(nested := st1.nested[..|st1.nested| - 1]), Surface(rules, st1.store, top));
      }
    } else if t.kind.Tag? {
      var r := |st1.store|;
      var st2 := st1.(tagNodes := st1.tagNodes + [r], store := st1.store + [[]]);
      var frame := Frame(t.value, r, []);
      NoTags();
      assert (st2.nested + [frame])[..|st2.nested|] == st2.nested;
      SurfaceTags(rules, st2.store, frame);
      PutTags(st2, Surface(rules, st2.store, frame));
    } else if t.IsText() {
      PutTags(st, [Text(t.value)]);
      TextHasNoTags(t.value);
    }
  }

  lemma NoTags()
    ensures NodeTags([]) == 0
  {
  }

  lemma TextHasNoTags(s: string)
    ensures NodeTags([Text(s)]) == 0
  {
    assert [Text(s)][1..] == [];
  }

  lemma {:induction false} StepsTags(rules: Rules, st: State, ts: seq<Token>)
    ensures StateTags(Steps(rules, st, ts)) <= StateTags(st) + Made(rules, ts)
    decreases |ts|
  {
    hide Step, MadeBy, StateTags;
    if ts != [] {
      StepTags(rules, st, ts[0]);
      StepsTags(rules, Step(rules, st, ts[0]), ts[1..]);
    }
  }

  lemma FinishTags(st: State)
    ensures NodeTags(Finish(st)) <= StateTags(st)
  {
    hide NodeTags, AsText, Put;
    if st.nested != [] {
      var top := st.nested[|st.nested| - 1];
      var st1 := st.(nested := st.nested[..|st.nested| - 1]);
      AsTextTags(st.store, top, false);
      PutTags(st1, AsText(st.store, top, false));
    }
  }

  lemma ResolveTags(store: seq<Attrs>, ns: seq<Node>)
    ensures TagCount(Resolve(store, ns)) == NodeTags(ns)
  {
  }

  // ---------------------------------------------------------------- how many should

  lemma {:induction false} TextLeavesHaveNoTags(ts: seq<Token>)
    ensures TagCount(TextLeaves(ts)) == 0
  {
    if ts != [] {
      TextLeavesHaveNoTags(ts[1..]);
    }
  }

  lemma {:induction false} TagCountAppend(a: seq<Tree>, b: seq<Tree>)
    ensures TagCount(a + b) == TagCount(a) + TagCount(b)
    decreases |a|
  {
    if a == [] {
      assert a + b == b;
    } else {
      assert (a + b)[1..] == a[1..] + b;
      TagCountAppend(a[1..], b);
    }
  }

  /** Normal form keeps the number of tags. */
  lemma {:induction false} NormalKeepsTags(pending: string, f: seq<Tree>)
    ensures TagCount(Normal(pending, f)) == TagCount(f)
    decreases f
  {
    hide TextTokens, TextLeaves;
    TextLeavesHaveNoTags(TextTokens(pending));
    if f != [] {
      if f[0].Leaf? {
        NormalKeepsTags(pending + f[0].text, f[1..]);
      } else {
        NormalKeepsTags("", f[1..]);
        if HasContent(f[0]) {
          NormalKeepsTags("", f[0].content);
        }
        var text := TextLeaves(TextTokens(pending));
        var tag := [Elem(f[0].tag, f[0].attrs, if HasContent(f[0]) then Normal("", f[0].content) else [])];
        assert tag[1..] == [];
        assert TagCount(tag) == 1 + TagCount(tag[0].content);
        TagCountAppend(text + tag, Normal("", f[1..]));
        TagCountAppend(text, tag);
        assert Normal(pending, f) == text + tag + Normal("", f[1..]);
      }
    }
  }

  lemma {:induction false} AsReadTags(f: seq<Tree>)
    ensures TagCount(AsRead(f)) == TagCount(f)
    decreases f
  {
    hide ReadBack;
    if f != [] {
      assert AsRead(f)[1..] == AsRead(f[1..]) && AsRead(f)[0] == TagAsRead(f[0]);
      AsReadTags(f[1..]);
      if f[0].Elem? {
        AsReadTags(f[0].content);
      }
    }
  }

  /** What comes back is the tree as it was, its text cut into runs, exactly when writing changes no attributes. */
  lemma {:induction false} NormalReadIsNormal(pending: string, f: seq<Tree>)
    ensures NormalRead(pending, f) == Normal(pending, f) <==> AttributesKept(f)
    decreases f
  {
    hide TextTokens, TextLeaves, NormalRead, ReadBack, AttrsKept;
    NormalReadFirst(pending, f);
    if f != [] {
      if f[0].Leaf? {
        NormalReadIsNormal(pending + f[0].text, f[1..]);
      } else {
        NormalReadIsNormal("", f[1..]);
        if HasContent(f[0]) {
          NormalReadIsNormal("", f[0].content);
        }
        ReadBackIsSame(f[0].attrs);
        var text := TextLeaves(TextTokens(pending));
        var same := Elem(f[0].tag, f[0].attrs, if HasContent(f[0]) then Normal("", f[0].content) else []);
        assert Normal(pending, f) == text + [same] + Normal("", f[1..]);
        SameParts(text, NormalTag(f[0]), same, NormalRead("", f[1..]), Normal("", f[1..]));
      }
    }
  }

  lemma SameParts(text: seq<Tree>, x: Tree, y: Tree, a: seq<Tree>, b: seq<Tree>)
    ensures text + [x] + a == text + [y] + b <==> x == y && a == b
  {
    var l, r := text + [x] + a, text + [y] + b;
    var n := |text|;
    assert l[n] == x && r[n] == y && l[n + 1..] == a && r[n + 1..] == b;
  }

  lemma {:induction false} SetAttrLength(attrs: Attrs, key: string, value: string)
    ensures 0 < |SetAttr(attrs, key, value)| <= |attrs| + 1
    ensures attrs != [] ==> SetAttr(attrs, key, value)[0].0 == attrs[0].0
    ensures attrs != [] && attrs[0].0 == key ==> |SetAttr(attrs, key, value)| == |attrs|
  {
    if attrs != [] && attrs[0].0 != key {
      SetAttrLength(attrs[1..], key, value);
    }
  }

  lemma {:induction false} SetAllLength(done: Attrs, attrs: Attrs)
    requires done != []
    ensures |SetAll(done, attrs)| <= |done| + |attrs| && SetAll(done, attrs) != [] && SetAll(done, attrs)[0].0 == done[0].0
    ensures attrs != [] && attrs[0].0 == done[0].0 ==> |SetAll(done, attrs)| < |done| + |attrs|
    decreases |attrs|
  {
    hide EscapeAttr, SetAttr;
    if attrs != [] {
      SetAttrLength(done, attrs[0].0, EscapeAttr(attrs[0].1));
      SetAllLength(SetAttr(done, attrs[0].0, EscapeAttr(attrs[0].1)), attrs[1..]);
    }
  }

  /** An unnamed value beside named attributes does not come back in its place. */
  lemma MixedIsMoved(attrs: Attrs)
    requires Unique(attrs) && |attrs| > 1
    ensures ReadBack(attrs) != attrs
  {
    hide EscapeAttr, SetAll;
    var n := |attrs| - 1;
    var value := EscapeAttr(attrs[n].1);
    SetAllLength([(value, value)], attrs[..n]);
    assert attrs[..n][0] == attrs[0];
  }

  lemma ReadBackIsSame(attrs: Attrs)
    ensures ReadBack(attrs) == attrs <==> AttrsKept(attrs)
  {
    hide EscapeAttr, Writable;
    if Unique(attrs) {
      if |attrs| > 1 {
        MixedIsMoved(attrs);
      } else {
        assert attrs[..0] == [];
        assert attrs[0] in attrs;
      }
    } else {
      EscapedIsSame(attrs);
    }
  }

  lemma EscapedIsSame(attrs: Attrs)
    ensures EscapedValues(attrs) == attrs <==> forall a | a in attrs :: EscapeAttr(a.1) == a.1
  {
    hide EscapeAttr;
    if forall a | a in attrs :: EscapeAttr(a.1) == a.1 {
      assert forall i | 0 <= i < |attrs| :: attrs[i] in attrs;
    }
    if EscapedValues(attrs) == attrs {
      forall a | a in attrs
        ensures EscapeAttr(a.1) == a.1
      {
        var i :| 0 <= i < |attrs| && attrs[i] == a;
        assert EscapedValues(attrs)[i].1 == EscapeAttr(a.1);
      }
    }
  }

  lemma {:induction false} MadeByText(rules: Rules, ts: seq<Token>)
    requires forall t | t in ts :: t.IsText()
    ensures Made(rules, ts) == 0
  {
    if ts != [] {
      assert ts[0] in ts;
      assert forall t | t in ts[1..] :: t in ts;
      MadeByText(rules, ts[1..]);
    }
  }

  lemma {:induction false} MadeByNamed(rules: Rules, attrs: Attrs)
    ensures Made(rules, NamedTokens(attrs)) == 0
  {
    if attrs != [] {
      MadeByNamed(rules, attrs[1..]);
      var pair := [Token(AttrName, attrs[0].0), Token(AttrValue, EscapeAttr(attrs[0].1))];
      MadeAppend(rules, pair, NamedTokens(attrs[1..]));
      assert pair[1..][1..] == [];
      assert Made(rules, pair) == 0;
    }
  }

  lemma MadeByOpening(rules: Rules, tag: string, attrs: Attrs)
    requires ValidTag(tag, attrs)
    ensures Made(rules, OpenTokens(tag, attrs)) == if rules.IsNested(tag) then 0 else 1
  {
    hide ValidAttrs, EscapeAttr, NamedTokens;
    if Unique(attrs) {
      var n := |attrs| - 1;
      var first, more := [Token(AttrValue, EscapeAttr(attrs[n].1))], NamedTokens(attrs[..n]);
      MadeByNamed(rules, attrs[..n]);
      MadeAppend(rules, [Token(Tag, tag)], first + more);
      MadeAppend(rules, first, more);
      assert first[1..] == [];
    } else {
      MadeByNamed(rules, attrs);
      MadeAppend(rules, [Token(Tag, tag)], NamedTokens(attrs));
    }
    assert [Token(Tag, tag)][1..] == [];
  }

  /** How many tags without content the text makes look nested. */
  function Swallowed(rules: Rules, f: seq<Tree>): nat {
    if f == [] then 0 else
    (match f[0]
     case Leaf(_) => 0
     case Void(tag, _) => if rules.IsNested(tag) then 1 else 0
     case Elem(tag, _, content) =>
       if content != [] then Swallowed(rules, content) else if rules.IsNested(tag) then 1 else 0) + Swallowed(rules, f[1..])
  }

  /** The closing tags of f are all found. */
  predicate ClosersNested(rules: Rules, f: seq<Tree>) {
    forall closed | closed in ClosedTags(f) :: rules.IsNested(closed)
  }

  lemma MadeByTag(rules: Rules, t: Tree)
    requires !t.Leaf? && Printable([t]) && ClosersNested(rules, [t])
    requires HasContent(t) ==> Made(rules, PrintedTokens("", t.content)) + Swallowed(rules, t.content) == TagCount(t.content)
    ensures Made(rules, OpenTokens(t.tag, t.attrs) + InsideTokens(t)) + Swallowed(rules, [t]) == TagCount([t])
  {
    hide ValidAttrs, OpenTokens, PrintedTokens;
    assert [t][1..] == [];
    MadeByOpening(rules, t.tag, t.attrs);
    MadeAppend(rules, OpenTokens(t.tag, t.attrs), InsideTokens(t));
    if HasContent(t) {
      assert t.tag in ClosedTags([t]);
      var close := [Token(Tag, "/" + t.tag)];
      MadeAppend(rules, PrintedTokens("", t.content), close);
      assert close[1..] == [];
      assert Made(rules, close) == 1;
    }
  }

  lemma FirstClosers(rules: Rules, f: seq<Tree>)
    requires f != [] && Printable(f) && ClosersNested(rules, f)
    ensures Printable([f[0]]) && ClosersNested(rules, [f[0]]) && ClosersNested(rules, f[1..])
    ensures HasContent(f[0]) ==> ClosersNested(rules, f[0].content)
    ensures TagCount(f) == TagCount([f[0]]) + TagCount(f[1..])
    ensures Swallowed(rules, f) == Swallowed(rules, [f[0]]) + Swallowed(rules, f[1..])
  {
    hide ValidTag, Occurs;
    assert [f[0]][1..] == [];
    assert forall closed | closed in ClosedTags([f[0]]) :: closed in ClosedTags(f);
  }

  /** A printed tree makes all its tags but the swallowed ones. */
  lemma {:induction false} MadeByPrinted(rules: Rules, pending: string, f: seq<Tree>)
    requires Printable(f) && ClosersNested(rules, f)
    ensures Made(rules, PrintedTokens(pending, f)) + Swallowed(rules, f) == TagCount(f)
    decreases f
  {
    hide TextTokens, ValidTag, Made, OpenTokens, ClosersNested;
    TextTokensAreText(pending);
    MadeByText(rules, TextTokens(pending));
    if f != [] {
      FirstClosers(rules, f);
      if f[0].Leaf? {
        MadeByPrinted(rules, pending + f[0].text, f[1..]);
      } else {
        MadeByPrinted(rules, "", f[1..]);
        if HasContent(f[0]) {
          MadeByPrinted(rules, "", f[0].content);
        }
        MadeByTag(rules, f[0]);
        var own := OpenTokens(f[0].tag, f[0].attrs) + InsideTokens(f[0]);
        MadeAppend(rules, TextTokens(pending) + own, PrintedTokens("", f[1..]));
        MadeAppend(rules, TextTokens(pending), own);
        assert PrintedTokens(pending, f) == TextTokens(pending) + own + PrintedTokens("", f[1..]);
      }
    }
  }

  lemma {:induction false} SwallowedMeaning(rules: Rules, f: seq<Tree>)
    ensures WellNested(rules, f) <==> Swallowed(rules, f) == 0 && ClosersNested(rules, f)
    decreases f
  {
    hide Occurs;
    if f != [] {
      SwallowedMeaning(rules, f[1..]);
      if HasContent(f[0]) {
        SwallowedMeaning(rules, f[0].content);
      }
    }
  }

  // ---------------------------------------------------------------- the round trip

  /** Options under which the printed text is read as written: no escapes, no context-free tags. */
  predicate PlainOptions(options: Options) {
    !options.enableEscapeTags && LowerAll(options.contextFreeTags) == []
  }

  lemma PrintedState(options: Options, f: seq<Tree>)
    requires PlainOptions(options) && Printable(f)
    ensures FinalState(options, Print(f)) == Steps(options.RulesFor(Print(f)), Initial, PrintedTokens("", f))
  {
    hide Steps, Lex, Print, PrintedTokens;
    LexPrinted("", f, "");
    assert "" + Print(f) + "" == Print(f);
    assert options.LexerConfig() == Cfg;
    NothingToLex();
    assert PrintedTokens("", f) + [] == PrintedTokens("", f);
  }

  lemma NothingToLex()
    ensures TokensOf(Lex(Cfg, "", "")) == []
  {
  }

  lemma ParseWellNested(options: Options, f: seq<Tree>)
    requires PlainOptions(options) && Printable(f) && AllAllowed(options.RulesFor(Print(f)), f)
    requires WellNested(options.RulesFor(Print(f)), f)
    ensures Parse(options, Print(f)) == NormalRead("", f)
  {
    hide Steps, Print, PrintedTokens, LexAll, Built, NormalRead, Cells, WellNested, AllAllowed, Printable;
    var rules := options.RulesFor(Print(f));
    PrintedState(options, f);
    PrintedGrows(rules, Initial, "", f);
    var st := FinalState(options, Print(f));
    assert Finish(st) == [] + Built("", f, 0) == Built("", f, 0);
    assert st.store == [] + Cells(f) == Cells(f);
    BuiltResolves(st.store, "", f, 0);
  }

  lemma ParseSwallows(options: Options, f: seq<Tree>)
    requires PlainOptions(options) && Printable(f) && !WellNested(options.RulesFor(Print(f)), f)
    ensures TagCount(Parse(options, Print(f))) < TagCount(f)
  {
    hide Steps, Print, PrintedTokens, LexAll, Normal, WellNested, Printable, Finish, Resolve, StateTags, NodeTags, Occurs, ClosedTags;
    var rules := options.RulesFor(Print(f));
    PrintedState(options, f);
    var st := FinalState(options, Print(f));
    forall closed | closed in ClosedTags(f)
      ensures rules.IsNested(closed)
    {
      ClosedTagOccurs(f, closed);
    }
    SwallowedMeaning(rules, f);
    MadeByPrinted(rules, "", f);
    StepsTags(rules, Initial, PrintedTokens("", f));
    NothingYet();
    FinishTags(st);
    ResolveTags(st.store, Finish(st));
  }

  lemma NothingYet()
    ensures StateTags(Initial) == 0
  {
  }

  /** Parsing a printed tree gives the tree back, its text cut into runs and its attributes as they were written, exactly
      when no unclosed tag's name begins the name of a closed one; in every other case fewer tags come back than were
      printed. The attributes come back unchanged as well exactly when writing changes no value and no unnamed value
      stands beside named attributes, where it is written first and so read first. */
  lemma ParseUndoesPrint(options: Options, f: seq<Tree>)
    requires PlainOptions(options) && Printable(f) && AllAllowed(options.RulesFor(Print(f)), f)
    ensures Parse(options, Print(f)) == Normal("", AsRead(f)) <==> Unambiguous(f)
    ensures Parse(options, Print(f)) == Normal("", f) <==> Unambiguous(f) && AttributesKept(f)
    ensures !Unambiguous(f) ==> TagCount(Parse(options, Print(f))) < TagCount(f)
  {
    hide Parse, Print, Normal, AsRead, Unambiguous, AttributesKept, TagCount, Printable;
    var rules := options.RulesFor(Print(f));
    WellNestedIffUnambiguous(rules, f);
    NormalReadIsNormal("", f);
    if WellNested(rules, f) {
      ParseWellNested(options, f);
    } else {
      ParseSwallows(options, f);
      NormalKeepsTags("", f);
      NormalKeepsTags("", AsRead(f));
      AsReadTags(f);
    }
  }

  lemma NoListAllowsAll(rules: Rules, f: seq<Tree>)
    requires rules.onlyAllowTags == []
    ensures AllAllowed(rules, f)
  {
  }

  const BeforeBig := Elem("b", [], [])
  const Big := Elem("big", [], [Leaf("x")])

  lemma ExampleIsPrintable()
    ensures Printable([BeforeBig, Big])
  {
    hide LowerAll;
    assert Lower("b") == "b" && Lower("big") == "big";
    assert ValidName("b") && ValidName("big");
    hide ValidName;
    assert [Leaf("x")][1..] == [] && [BeforeBig, Big][1..] == [Big] && [Big][1..] == [];
    assert Printable([Leaf("x")]) && Printable([Big]);
  }

  lemma ExampleIsAmbiguous()
    ensures !Unambiguous([BeforeBig, Big])
  {
    var f := [BeforeBig, Big];
    assert f[1..] == [Big];
    assert UnclosedTags(f) == ["b"] + UnclosedTags([Big]);
    assert ClosedTags([Big]) == ["big"] + ClosedTags([Leaf("x")]) + ClosedTags([Big][1..]);
    assert "b" in UnclosedTags(f) && "big" in ClosedTags([Big]) && "big" in ClosedTags(f) && "b" <= "big";
  }

  /** An unclosed tag swallowed by a longer name: [b] before [big]x[/big]. */
  lemma SwallowedExample()
    ensures Parse(DefaultOptions, Print([BeforeBig, Big])) != Normal("", [BeforeBig, Big])
  {
    hide Parse, Print, Normal, Printable, Unambiguous, AllAllowed;
    var f := [BeforeBig, Big];
    ExampleIsPrintable();
    ExampleIsAmbiguous();
    NoListAllowsAll(DefaultOptions.RulesFor(Print(f)), f);
    ParseUndoesPrint(DefaultOptions, f);
  }
}
