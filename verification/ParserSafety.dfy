/** What holds of the parsed tree for every input, however malformed: the allow list only turns tags into text, and
    what becomes of the text itself. */
module ParserSafety {
  import opened Strings
  import opened LexerSpec
  import opened TagNodes
  import opened ParserSpec

  // ---------------------------------------------------------------- the parse before any list is applied

  /** A text, or a tag as it was written: its name, its attribute object, and the attributes it had when it was placed. */
  datatype Piece = Bit(text: string) | Part(name: string, attrs: nat, shown: Attrs, content: seq<Piece>)

  datatype OpenPart = OpenPart(name: string, attrs: nat, content: seq<Piece>)

  /** The side holds the attribute objects and what the tree builder remembers about them; it has no nodes. */
  datatype Build = Build(pieces: seq<Piece>, open: seq<OpenPart>, side: State)

  const Nothing := Build([], [], Initial)

  predicate Nested(buffer: string, name: string) { Occurs(buffer, "[/" + name) }

  function Place(b: Build, more: seq<Piece>): Build {
    if b.open == [] then b.(pieces := b.pieces + more) else
    var n := |b.open| - 1;
    b.(open := b.open[..n] + [b.open[n].(content := b.open[n].content + more)])
  }

  function StartPart(buffer: string, b: Build, name: string): Build {
    var side := FlushTagNodes(b.side);
    var r := |side.store|;
    var b1 := b.(side := side.(tagNodes := side.tagNodes + [r], store := side.store + [[]]));
    if Nested(buffer, name) then b1.(open := b1.open + [OpenPart(name, r, [])])
    else Place(b1, [Part(name, r, [], [])])
  }

  function EndPart(b: Build): Build {
    var side := FlushTagNodes(b.side);
    if b.open == [] then b.(side := side) else
    var n := |b.open| - 1;
    var top := b.open[n];
    Place(Build(b.pieces, b.open[..n], side), [Part(top.name, top.attrs, At(side.store, top.attrs), top.content)])
  }

  function BuildStep(buffer: string, b: Build, token: Token): Build {
    match token.kind
    case Tag => if token.IsEnd() then EndPart(b) else StartPart(buffer, b, token.value)
    case AttrName => b.(side := PutAttrName(b.side, token.value))
    case AttrValue => b.(side := PutAttrValue(b.side, token.value))
    case _ => Place(b, [Bit(token.value)])
  }

  function BuildAll(buffer: string, tokens: seq<Token>): Build {
    if tokens == [] then Nothing
    else BuildStep(buffer, BuildAll(buffer, tokens[..|tokens| - 1]), tokens[|tokens| - 1])
  }

  /** The innermost open tag is written out, the others are dropped. */
  function Closed(b: Build): seq<Piece> {
    if b.open == [] then b.pieces else
    var n := |b.open| - 1;
    var top := b.open[n];
    Place(b.(open := b.open[..n]), [Bit(TagStart(top.name, At(b.side.store, top.attrs)))] + top.content).pieces
  }

  /** All pieces of an input. They do not depend on the allow list. */
  function Pieces(cfg: Config, input: string): seq<Piece> { Closed(BuildAll(input, LexAll(cfg, input))) }

  // ---------------------------------------------------------------- the list flattens them

  /** Allowed tags become nodes; any other tag becomes its opening text, its children in order and its closing text. */
  function Flatten(rules: Rules, ps: seq<Piece>): (ns: seq<Node>)
    ensures ns == [] <==> ps == []
  {
    if ps == [] then [] else
    (match ps[0]
     case Bit(s) => [Text(s)]
     case Part(name, r, shown, content) =>
       if rules.IsAllowed(name) then [TagNode(Lower(name), r, Flatten(rules, content))]
       else [Text(TagStart(name, shown))] + if content == [] then [] else Flatten(rules, content) + [Text(TagEnd(name))])
    + Flatten(rules, ps[1..])
  }

  lemma {:induction false} FlattenAppend(rules: Rules, a: seq<Piece>, b: seq<Piece>)
    ensures Flatten(rules, a + b) == Flatten(rules, a) + Flatten(rules, b)
    decreases |a|
  {
    if a == [] {
      assert a + b == b;
    } else {
      assert (a + b)[1..] == a[1..] + b;
      FlattenAppend(rules, a[1..], b);
    }
  }

  function Frames(rules: Rules, open: seq<OpenPart>): (r: seq<Frame>)
    ensures |r| == |open|
    ensures forall i | 0 <= i < |open| :: r[i] == Frame(open[i].name, open[i].attrs, Flatten(rules, open[i].content))
  {
    if open == [] then [] else
    [Frame(open[0].name, open[0].attrs, Flatten(rules, open[0].content))] + Frames(rules, open[1..])
  }

  /** The tree builder's state that stands for a build under a list. */
  function View(rules: Rules, b: Build): State {
    b.side.(nodes := Flatten(rules, b.pieces), nested := Frames(rules, b.open))
  }

  lemma PlaceFlattens(rules: Rules, b: Build, more: seq<Piece>)
    ensures View(rules, Place(b, more)) == Put(View(rules, b), Flatten(rules, more))
  {
    hide Flatten;
    if b.open == [] {
      FlattenAppend(rules, b.pieces, more);
    } else {
      var n := |b.open| - 1;
      FlattenAppend(rules, b.open[n].content, more);
      assert Frames(rules, Place(b, more).open) == Put(View(rules, b), Flatten(rules, more)).nested;
    }
  }

  lemma FramesPart(rules: Rules, open: seq<OpenPart>, n: nat)
    requires n <= |open|
    ensures Frames(rules, open[..n]) == Frames(rules, open)[..n]
  {
  }

  lemma PartFlattens(rules: Rules, name: string, r: nat, shown: Attrs, content: seq<Piece>, store: seq<Attrs>)
    requires At(store, r) == shown
    ensures Flatten(rules, [Part(name, r, shown, content)]) == Surface(rules, store, Frame(name, r, Flatten(rules, content)))
  {
    var p := [Part(name, r, shown, content)];
    assert p[1..] == [] && Flatten(rules, p[1..]) == [];
  }

  lemma StepFlattens(rules: Rules, b: Build, token: Token)
    ensures Step(rules, View(rules, b), token) == View(rules, BuildStep(rules.buffer, b, token))
  {
    hide Flatten, Frames, Put, Place, Surface;
    match token.kind
    case Tag => if token.IsEnd() { EndFlattens(rules, b); } else { StartFlattens(rules, b, token.value); }
    case AttrName =>
    case AttrValue =>
    case _ =>
      PlaceFlattens(rules, b, [Bit(token.value)]);
      BitFlattens(rules, token.value);
  }

  lemma BitFlattens(rules: Rules, s: string)
    ensures Flatten(rules, [Bit(s)]) == [Text(s)]
  {
    assert [Bit(s)][1..] == [];
  }

  lemma StartFlattens(rules: Rules, b: Build, name: string)
    ensures StartTag(rules, View(rules, b), name) == View(rules, StartPart(rules.buffer, b, name))
  {
    hide Flatten, Put, Place, Surface;
    var side := FlushTagNodes(b.side);
    var r := |side.store|;
    var b1 := b.(side := side.(tagNodes := side.tagNodes + [r], store := side.store + [[]]));
    if Nested(rules.buffer, name) {
      var open' := b1.open + [OpenPart(name, r, [])];
      assert Frames(rules, open') == Frames(rules, b1.open) + [Frame(name, r, [])];
    } else {
      PartFlattens(rules, name, r, [], [], b1.side.store);
      PlaceFlattens(rules, b1, [Part(name, r, [], [])]);
    }
  }

  lemma FlushFlattens(rules: Rules, b: Build)
    ensures FlushTagNodes(View(rules, b)) == View(rules, b.(side := FlushTagNodes(b.side)))
  {
    hide Flatten, Frames;
  }

  lemma EndFlattens(rules: Rules, b: Build)
    ensures EndTag(rules, View(rules, b)) == View(rules, EndPart(b))
  {
    hide Flatten, Frames, Put, Place, Surface, FlushTagNodes;
    FlushFlattens(rules, b);
    var side := FlushTagNodes(b.side);
    if b.open != [] {
      var n := |b.open| - 1;
      var top := b.open[n];
      FramesPart(rules, b.open, n);
      PartFlattens(rules, top.name, top.attrs, At(side.store, top.attrs), top.content, side.store);
      PlaceFlattens(rules, Build(b.pieces, b.open[..n], side), [Part(top.name, top.attrs, At(side.store, top.attrs), top.content)]);
    }
  }

  lemma NothingFlattens(rules: Rules)
    ensures Steps(rules, Initial, []) == View(rules, BuildAll(rules.buffer, []))
  {
  }

  lemma {:induction false} StepsFlatten(rules: Rules, tokens: seq<Token>)
    ensures Steps(rules, Initial, tokens) == View(rules, BuildAll(rules.buffer, tokens))
    decreases |tokens|
  {
    hide Step, BuildStep, View, Steps;
    if tokens == [] {
      NothingFlattens(rules);
    } else {
      var init, t := tokens[..|tokens| - 1], tokens[|tokens| - 1];
      StepsFlatten(rules, init);
      StepFlattens(rules, BuildAll(rules.buffer, init), t);
      assert tokens == init + [t];
      StepsAppend(rules, Initial, init, [t]);
      OneStep(rules, Steps(rules, Initial, init), t);
    }
  }

  lemma AsTextOpen(store: seq<Attrs>, f: Frame)
    ensures AsText(store, f, false) == [Text(TagStart(f.tag, At(store, f.attrs)))] + f.content
  {
  }

  lemma ClosedFlattens(rules: Rules, b: Build)
    ensures Finish(View(rules, b)) == Flatten(rules, Closed(b))
  {
    hide Flatten, Put, Place, AsText, TagStart;
    if b.open != [] {
      var n := |b.open| - 1;
      var top := b.open[n];
      var start := Bit(TagStart(top.name, At(b.side.store, top.attrs)));
      FramesPart(rules, b.open, n);
      PlaceFlattens(rules, b.(open := b.open[..n]), [start] + top.content);
      FlattenAppend(rules, [start], top.content);
      BitFlattens(rules, start.text);
      AsTextOpen(b.side.store, Frame(top.name, top.attrs, Flatten(rules, top.content)));
    }
  }

  /** For every input and every list, the tree is the same parse, made without any list, flattened by the list. */
  lemma ParseFlattens(options: Options, input: string)
    ensures var b := BuildAll(input, LexAll(options.LexerConfig(), input));
            Parse(options, input) == Resolve(b.side.store, Flatten(options.RulesFor(input), Pieces(options.LexerConfig(), input)))
  {
    hide Flatten, BuildAll, Steps, LexAll, Finish, Resolve, Closed;
    var b := BuildAll(input, LexAll(options.LexerConfig(), input));
    StepsFlatten(options.RulesFor(input), LexAll(options.LexerConfig(), input));
    ClosedFlattens(options.RulesFor(input), b);
  }

  // ---------------------------------------------------------------- only allowed tags

  /** Every tag node, at any depth, has an allowed name. */
  predicate OnlyAllowed(allowed: seq<string>, f: seq<Tree>) {
    f == [] || ((match f[0]
                 case Leaf(_) => true
                 case Void(tag, _) => tag in allowed
                 case Elem(tag, _, content) => tag in allowed && OnlyAllowed(allowed, content))
                && OnlyAllowed(allowed, f[1..]))
  }

  lemma {:induction false} OnlyAllowedAppend(allowed: seq<string>, a: seq<Tree>, b: seq<Tree>)
    requires OnlyAllowed(allowed, a) && OnlyAllowed(allowed, b)
    ensures OnlyAllowed(allowed, a + b)
    decreases |a|
  {
    if a == [] {
      assert a + b == b;
    } else {
      assert (a + b)[1..] == a[1..] + b;
      OnlyAllowedAppend(allowed, a[1..], b);
    }
  }

  lemma TextAllowed(allowed: seq<string>, store: seq<Attrs>, s: string)
    ensures OnlyAllowed(allowed, Resolve(store, [Text(s)]))
  {
    assert [Text(s)][1..] == [];
    assert Resolve(store, [Text(s)]) == [Leaf(s)] + Resolve(store, []) == [Leaf(s)];
    assert [Leaf(s)][1..] == [];
  }

  lemma {:induction false} FlattenAllowed(rules: Rules, store: seq<Attrs>, ps: seq<Piece>)
    requires rules.onlyAllowTags != []
    ensures OnlyAllowed(rules.onlyAllowTags, Resolve(store, Flatten(rules, ps)))
    decreases ps
  {
    var allowed := rules.onlyAllowTags;
    if ps != [] {
      FlattenAllowed(rules, store, ps[1..]);
      var one := Flatten(rules, [ps[0]]);
      FlattenAppend(rules, [ps[0]], ps[1..]);
      assert ps == [ps[0]] + ps[1..];
      ResolveAppend(store, one, Flatten(rules, ps[1..]));
      FirstAllowed(rules, store, ps[0]);
      OnlyAllowedAppend(allowed, Resolve(store, one), Resolve(store, Flatten(rules, ps[1..])));
    }
  }

  lemma FirstAllowed(rules: Rules, store: seq<Attrs>, p: Piece)
    requires rules.onlyAllowTags != []
    ensures OnlyAllowed(rules.onlyAllowTags, Resolve(store, Flatten(rules, [p])))
    decreases p
  {
    hide Resolve, OnlyAllowed;
    var allowed := rules.onlyAllowTags;
    match p
    case Bit(s) =>
      BitFlattens(rules, s);
      TextAllowed(allowed, store, s);
    case Part(name, r, shown, content) =>
      FlattenAllowed(rules, store, content);
      PartFlattened(rules, p);
      if rules.IsAllowed(name) {
        NodeAllowed(allowed, store, Lower(name), r, Flatten(rules, content));
      } else {
        TextAllowed(allowed, store, TagStart(name, shown));
        TextAllowed(allowed, store, TagEnd(name));
        var inner, end := Flatten(rules, content), [Text(TagEnd(name))];
        ResolveAppend(store, inner, end);
        OnlyAllowedAppend(allowed, Resolve(store, inner), Resolve(store, end));
        ResolveAppend(store, [Text(TagStart(name, shown))], inner + end);
        OnlyAllowedAppend(allowed, Resolve(store, [Text(TagStart(name, shown))]), Resolve(store, inner + end));
      }
  }

  lemma PartFlattened(rules: Rules, p: Piece)
    requires p.Part?
    ensures Flatten(rules, [p]) ==
            if rules.IsAllowed(p.name) then [TagNode(Lower(p.name), p.attrs, Flatten(rules, p.content))]
            else if p.content == [] then [Text(TagStart(p.name, p.shown))]
            else [Text(TagStart(p.name, p.shown))] + (Flatten(rules, p.content) + [Text(TagEnd(p.name))])
  {
    assert [p][1..] == [] && Flatten(rules, []) == [];
  }

  lemma NodeAllowed(allowed: seq<string>, store: seq<Attrs>, tag: string, r: nat, content: seq<Node>)
    requires tag in allowed && OnlyAllowed(allowed, Resolve(store, content))
    ensures OnlyAllowed(allowed, Resolve(store, [TagNode(tag, r, content)]))
  {
    var n := [TagNode(tag, r, content)];
    assert n[1..] == [];
    assert Resolve(store, n) == [Elem(tag, At(store, r), Resolve(store, content))] + Resolve(store, []);
    assert Resolve(store, n)[1..] == [];
  }

  /** With an allow list, no input produces a tag node outside it: not by nesting, not by leaving tags open,
      not by attributes, escapes or context-free tags. */
  lemma ParseAllowsOnlyListed(options: Options, input: string)
    requires LowerAll(options.onlyAllowTags) != []
    ensures OnlyAllowed(LowerAll(options.onlyAllowTags), Parse(options, input))
  {
    hide Parse, Flatten, BuildAll, LexAll, Pieces;
    ParseFlattens(options, input);
    FlattenAllowed(options.RulesFor(input), BuildAll(input, LexAll(options.LexerConfig(), input)).side.store,
                   Pieces(options.LexerConfig(), input));
  }

  lemma {:induction false} ListMeaning(tags: seq<string>, name: string)
    ensures name in LowerAll(tags) <==> exists t | t in tags :: t != "" && Lower(t) == name
  {
    if tags != [] {
      ListMeaning(tags[1..], name);
      assert tags[0] in tags && forall t | t in tags[1..] :: t in tags;
      assert forall t | t in tags :: t == tags[0] || t in tags[1..];
    }
  }

  /** The list goes by names in any letter case; empty names in it do not count, and without others all is allowed. */
  lemma AllowedMeaning(options: Options, input: string, tag: string)
    ensures options.RulesFor(input).IsAllowed(tag)
            <==> (forall t | t in options.onlyAllowTags :: t == "")
                 || exists t | t in options.onlyAllowTags :: t != "" && Lower(t) == Lower(tag)
  {
    hide Lower;
    var allowed := LowerAll(options.onlyAllowTags);
    ListMeaning(options.onlyAllowTags, Lower(tag));
    if allowed != [] {
      assert allowed[0] in allowed;
      ListMeaning(options.onlyAllowTags, allowed[0]);
    }
    if t :| t in options.onlyAllowTags && t != "" {
      ListMeaning(options.onlyAllowTags, Lower(t));
    }
  }

  // ---------------------------------------------------------------- where each text leaf comes from

  /** A text leaf that was text, or one that was a tag, with the attributes the tag had when it was placed. */
  datatype Origin = FromText(text: string) | FromTag(name: string, shown: Attrs, text: string)

  function Origins(rules: Rules, ps: seq<Piece>): seq<Origin>
    decreases ps
  {
    if ps == [] then [] else PieceOrigins(rules, ps[0]) + Origins(rules, ps[1..])
  }

  function PieceOrigins(rules: Rules, p: Piece): seq<Origin>
    decreases p
  {
    if p.Bit? then [FromText(p.text)]
    else if rules.IsAllowed(p.name) then Origins(rules, p.content)
    else if p.content == [] then [FromTag(p.name, p.shown, TagStart(p.name, p.shown))]
    else [FromTag(p.name, p.shown, TagStart(p.name, p.shown))] + (Origins(rules, p.content) + [FromTag(p.name, p.shown, TagEnd(p.name))])
  }

  function TextsOf(os: seq<Origin>): seq<string> {
    if os == [] then [] else [os[0].text] + TextsOf(os[1..])
  }

  /** Those that were text, in order. */
  function KeptTexts(os: seq<Origin>): seq<string> {
    if os == [] then [] else (if os[0].FromText? then [os[0].text] else []) + KeptTexts(os[1..])
  }

  /** Those that were tags are the opening and closing texts of tags that are not allowed. */
  predicate OnlyDisallowed(rules: Rules, os: seq<Origin>) {
    forall o | o in os && o.FromTag? ::
      !rules.IsAllowed(o.name) && (o.text == TagEnd(o.name) || o.text == TagStart(o.name, o.shown))
  }

  lemma {:induction false} TextsAppend(a: seq<Origin>, b: seq<Origin>)
    ensures TextsOf(a + b) == TextsOf(a) + TextsOf(b) && KeptTexts(a + b) == KeptTexts(a) + KeptTexts(b)
    decreases |a|
  {
    if a == [] {
      assert a + b == b;
    } else {
      hide TextsOf, KeptTexts;
      TextsAppend(a[1..], b);
      assert (a + b)[1..] == a[1..] + b;
      TextsFirst(a);
      TextsFirst(a + b);
    }
  }

  lemma TextsFirst(os: seq<Origin>)
    requires os != []
    ensures TextsOf(os) == [os[0].text] + TextsOf(os[1..])
    ensures KeptTexts(os) == (if os[0].FromText? then [os[0].text] else []) + KeptTexts(os[1..])
  {
  }

  lemma TextLeaf(store: seq<Attrs>, s: string)
    ensures Leaves(Resolve(store, [Text(s)])) == [s]
  {
    assert [Text(s)][1..] == [];
    assert Resolve(store, [Text(s)]) == [Leaf(s)] + Resolve(store, []) == [Leaf(s)];
    assert [Leaf(s)][1..] == [];
  }

  lemma NodeLeaves(store: seq<Attrs>, tag: string, r: nat, content: seq<Node>)
    ensures Leaves(Resolve(store, [TagNode(tag, r, content)])) == Leaves(Resolve(store, content))
  {
    var n := [TagNode(tag, r, content)];
    assert n[1..] == [];
    assert Resolve(store, n) == [Elem(tag, At(store, r), Resolve(store, content))] + Resolve(store, []);
    assert Resolve(store, n)[1..] == [];
  }

  lemma {:induction false} FlattenLeaves(rules: Rules, store: seq<Attrs>, ps: seq<Piece>)
    ensures Leaves(Resolve(store, Flatten(rules, ps))) == TextsOf(Origins(rules, ps))
    decreases ps
  {
    if ps != [] {
      FlattenLeaves(rules, store, ps[1..]);
      FlattenAppend(rules, [ps[0]], ps[1..]);
      assert ps == [ps[0]] + ps[1..];
      ResolveAppend(store, Flatten(rules, [ps[0]]), Flatten(rules, ps[1..]));
      LeavesAppend(Resolve(store, Flatten(rules, [ps[0]])), Resolve(store, Flatten(rules, ps[1..])));
      FirstLeaves(rules, store, ps[0]);
      TextsAppend(PieceOrigins(rules, ps[0]), Origins(rules, ps[1..]));
    }
  }

  lemma OneText(o: Origin)
    ensures TextsOf([o]) == [o.text] && KeptTexts([o]) == if o.FromText? then [o.text] else []
  {
    assert [o][1..] == [];
  }

  lemma FirstLeaves(rules: Rules, store: seq<Attrs>, p: Piece)
    ensures Leaves(Resolve(store, Flatten(rules, [p]))) == TextsOf(PieceOrigins(rules, p))
    decreases p
  {
    hide Resolve, Leaves, Flatten, Origins, TextsOf;
    match p
    case Bit(s) =>
      BitFlattens(rules, s);
      TextLeaf(store, s);
      OneText(FromText(s));
    case Part(name, r, shown, content) =>
      FlattenLeaves(rules, store, content);
      PartFlattened(rules, p);
      var start, end := FromTag(name, shown, TagStart(name, shown)), FromTag(name, shown, TagEnd(name));
      OneText(start);
      OneText(end);
      if rules.IsAllowed(name) {
        NodeLeaves(store, Lower(name), r, Flatten(rules, content));
      } else {
        TextLeaf(store, start.text);
        TextLeaf(store, end.text);
        var inner, last := Flatten(rules, content), [Text(end.text)];
        ResolveAppend(store, inner, last);
        LeavesAppend(Resolve(store, inner), Resolve(store, last));
        ResolveAppend(store, [Text(start.text)], inner + last);
        LeavesAppend(Resolve(store, [Text(start.text)]), Resolve(store, inner + last));
        TextsAppend(Origins(rules, content), [end]);
        TextsAppend([start], Origins(rules, content) + [end]);
      }
  }

  lemma {:induction false} OriginsDisallowed(rules: Rules, ps: seq<Piece>)
    ensures OnlyDisallowed(rules, Origins(rules, ps))
    decreases ps
  {
    if ps != [] {
      OriginsDisallowed(rules, ps[1..]);
      if ps[0].Part? {
        OriginsDisallowed(rules, ps[0].content);
      }
    }
  }

  lemma {:induction false} NothingSurfaces(rules: Rules, ps: seq<Piece>)
    requires rules.onlyAllowTags == []
    ensures TextsOf(Origins(rules, ps)) == KeptTexts(Origins(rules, ps))
    decreases ps
  {
    if ps != [] {
      hide TextsOf, KeptTexts;
      NothingSurfaces(rules, ps[1..]);
      TextsAppend(PieceOrigins(rules, ps[0]), Origins(rules, ps[1..]));
      if ps[0].Part? {
        NothingSurfaces(rules, ps[0].content);
      } else {
        OneText(FromText(ps[0].text));
      }
    } else {
      assert Origins(rules, ps) == [];
    }
  }

  // ---------------------------------------------------------------- the text that is kept

  function PieceTexts(ps: seq<Piece>): seq<string> {
    if ps == [] then [] else
    (match ps[0]
     case Bit(s) => [s]
     case Part(_, _, _, content) => PieceTexts(content)) + PieceTexts(ps[1..])
  }

  /** No list takes text away or moves it. */
  lemma {:induction false} KeptIsPieces(rules: Rules, ps: seq<Piece>)
    ensures KeptTexts(Origins(rules, ps)) == PieceTexts(ps)
    decreases ps
  {
    if ps != [] {
      hide KeptTexts;
      KeptIsPieces(rules, ps[1..]);
      TextsAppend(PieceOrigins(rules, ps[0]), Origins(rules, ps[1..]));
      match ps[0]
      case Bit(s) => OneText(FromText(s));
      case Part(name, _, shown, content) =>
        KeptIsPieces(rules, content);
        var start, end := FromTag(name, shown, TagStart(name, shown)), FromTag(name, shown, TagEnd(name));
        OneText(start);
        OneText(end);
        TextsAppend(Origins(rules, content), [end]);
        TextsAppend([start], Origins(rules, content) + [end]);
    } else {
      assert Origins(rules, ps) == [];
    }
  }

  lemma {:induction false} PieceTextsAppend(a: seq<Piece>, b: seq<Piece>)
    ensures PieceTexts(a + b) == PieceTexts(a) + PieceTexts(b)
    decreases |a|
  {
    if a == [] {
      assert a + b == b;
    } else {
      assert (a + b)[1..] == a[1..] + b;
      PieceTextsAppend(a[1..], b);
    }
  }

  function OpenTexts(open: seq<OpenPart>): seq<string> {
    if open == [] then [] else OpenTexts(open[..|open| - 1]) + PieceTexts(open[|open| - 1].content)
  }

  /** The texts of a build: what is placed, then what the open tags hold, outermost first. */
  function BuildTexts(b: Build): seq<string> { PieceTexts(b.pieces) + OpenTexts(b.open) }

  lemma OpenTextsMore(open: seq<OpenPart>, last: OpenPart)
    ensures OpenTexts(open + [last]) == OpenTexts(open) + PieceTexts(last.content)
  {
    assert (open + [last])[..|open|] == open;
  }

  lemma PlaceTexts(b: Build, more: seq<Piece>)
    ensures BuildTexts(Place(b, more)) == BuildTexts(b) + PieceTexts(more)
  {
    hide PieceTexts;
    if b.open == [] {
      PieceTextsAppend(b.pieces, more);
    } else {
      var n := |b.open| - 1;
      PieceTextsAppend(b.open[n].content, more);
      OpenTextsMore(b.open[..n], b.open[n].(content := b.open[n].content + more));
    }
  }

  lemma OnePieceTexts(p: Piece)
    ensures PieceTexts([p]) == if p.Bit? then [p.text] else PieceTexts(p.content)
  {
    assert [p][1..] == [];
  }

  function TokenLeaves(token: Token): seq<string> { if token.IsText() then [token.value] else [] }

  function TextValues(tokens: seq<Token>): seq<string> {
    if tokens == [] then [] else TextValues(tokens[..|tokens| - 1]) + TokenLeaves(tokens[|tokens| - 1])
  }

  function OpenAfter(buffer: string, depth: nat, token: Token): nat {
    if !token.kind.Tag? then depth
    else if token.IsEnd() then (if depth == 0 then 0 else depth - 1)
    else if Nested(buffer, token.value) then depth + 1 else depth
  }

  /** How many opened tags are still waiting after the tokens. */
  function OpenTags(buffer: string, tokens: seq<Token>): nat {
    if tokens == [] then 0 else OpenAfter(buffer, OpenTags(buffer, tokens[..|tokens| - 1]), tokens[|tokens| - 1])
  }

  /** The number of tokens up to the last point at which none was waiting. */
  function LastClosed(buffer: string, tokens: seq<Token>): (k: nat)
    ensures k <= |tokens|
  {
    if OpenTags(buffer, tokens) == 0 then |tokens| else LastClosed(buffer, tokens[..|tokens| - 1])
  }

  /** While a tag waits, nothing is placed outside it, and the outermost one stays the same. */
  predicate Kept(b: Build, b': Build, name: string) {
    b'.open != [] ==> b'.pieces == b.pieces && b'.open[0].name == if b.open == [] then name else b.open[0].name
  }

  lemma PlaceKeeps(b: Build, more: seq<Piece>, name: string)
    ensures |Place(b, more).open| == |b.open| && Kept(b, Place(b, more), name)
  {
  }

  lemma StartKeeps(buffer: string, b: Build, name: string)
    ensures var b' := StartPart(buffer, b, name);
            |b'.open| == |b.open| + (if Nested(buffer, name) then 1 else 0) && Kept(b, b', name)
  {
    hide Place, Nested, FlushTagNodes;
    var side := FlushTagNodes(b.side);
    var r := |side.store|;
    var b1 := b.(side := side.(tagNodes := side.tagNodes + [r], store := side.store + [[]]));
    PlaceKeeps(b1, [Part(name, r, [], [])], name);
  }

  lemma EndKeeps(b: Build, name: string)
    ensures var b' := EndPart(b); |b'.open| == (if b.open == [] then 0 else |b.open| - 1) && Kept(b, b', name)
  {
    hide Place, FlushTagNodes;
    if b.open != [] {
      var side := FlushTagNodes(b.side);
      var n := |b.open| - 1;
      var top := b.open[n];
      var part := Part(top.name, top.attrs, At(side.store, top.attrs), top.content);
      PlaceKeeps(Build(b.pieces, b.open[..n], side), [part], name);
    }
  }

  /** One token adds its text at the end. */
  lemma StepTexts(buffer: string, b: Build, token: Token)
    ensures var b' := BuildStep(buffer, b, token);
            BuildTexts(b') == BuildTexts(b) + TokenLeaves(token) && |b'.open| == OpenAfter(buffer, |b.open|, token)
            && Kept(b, b', token.value)
  {
    hide PieceTexts, OpenTexts, Place, StartPart, EndPart, Nested;
    match token.kind
    case Tag =>
      if token.IsEnd() {
        EndTexts(b);
        EndKeeps(b, token.value);
      } else {
        StartTexts(buffer, b, token.value);
        StartKeeps(buffer, b, token.value);
      }
    case AttrName =>
    case AttrValue =>
    case _ =>
      PlaceTexts(b, [Bit(token.value)]);
      OnePieceTexts(Bit(token.value));
      PlaceKeeps(b, [Bit(token.value)], token.value);
  }

  lemma StartTexts(buffer: string, b: Build, name: string)
    ensures BuildTexts(StartPart(buffer, b, name)) == BuildTexts(b)
  {
    hide PieceTexts, Place, Nested;
    var side := FlushTagNodes(b.side);
    var r := |side.store|;
    var b1 := b.(side := side.(tagNodes := side.tagNodes + [r], store := side.store + [[]]));
    assert PieceTexts([]) == [] by { NoPieces(); }
    if Nested(buffer, name) {
      OpenTextsMore(b1.open, OpenPart(name, r, []));
    } else {
      PlaceTexts(b1, [Part(name, r, [], [])]);
      OnePieceTexts(Part(name, r, [], []));
    }
  }

  lemma NoPieces()
    ensures PieceTexts([]) == []
  {
  }

  lemma EndTexts(b: Build)
    ensures BuildTexts(EndPart(b)) == BuildTexts(b)
  {
    hide PieceTexts, Place;
    if b.open != [] {
      var side := FlushTagNodes(b.side);
      var n := |b.open| - 1;
      var part := Part(b.open[n].name, b.open[n].attrs, At(side.store, b.open[n].attrs), b.open[n].content);
      PlaceTexts(Build(b.pieces, b.open[..n], side), [part]);
      OnePieceTexts(part);
    }
  }

  /** At every point, the texts placed are those up to the last point at which no tag waited; the open tags hold the
      rest, and the outermost of them is the one that was opened there. */
  lemma {:induction false} BuiltTexts(buffer: string, tokens: seq<Token>)
    ensures var b, k := BuildAll(buffer, tokens), LastClosed(buffer, tokens);
            |b.open| == OpenTags(buffer, tokens) && BuildTexts(b) == TextValues(tokens)
            && PieceTexts(b.pieces) == TextValues(tokens[..k])
            && (b.open != [] ==> k < |tokens| && b.open[0].name == tokens[k].value)
    decreases |tokens|
  {
    hide PieceTexts, BuildStep, OpenAfter, TokenLeaves;
    if tokens == [] {
      NoPieces();
      assert OpenTexts([]) == [];
    } else {
      var init, t := tokens[..|tokens| - 1], tokens[|tokens| - 1];
      BuiltTexts(buffer, init);
      StepTexts(buffer, BuildAll(buffer, init), t);
      if OpenTags(buffer, tokens) == 0 {
        assert tokens[..|tokens|] == tokens;
        assert OpenTexts(BuildAll(buffer, tokens).open) == [];
      } else {
        var k := LastClosed(buffer, init);
        assert tokens[..k] == init[..k];
      }
    }
  }

  lemma TextValuesMore(init: seq<Token>, last: Token)
    ensures TextValues(init + [last]) == TextValues(init) + TokenLeaves(last) && TextValues([]) == []
  {
    assert (init + [last])[..|init|] == init;
  }

  lemma {:induction false} TextValuesAppend(a: seq<Token>, b: seq<Token>)
    ensures TextValues(a + b) == TextValues(a) + TextValues(b)
    decreases |b|
  {
    hide TextValues;
    if b == [] {
      assert a + b == a;
      TextValuesMore([], Token(Word, ""));
    } else {
      var n := |b| - 1;
      TextValuesAppend(a, b[..n]);
      assert b == b[..n] + [b[n]] && a + b == a + b[..n] + [b[n]];
      TextValuesMore(b[..n], b[n]);
      TextValuesMore(a + b[..n], b[n]);
    }
  }

  lemma TextValuesSplit(tokens: seq<Token>, k: nat)
    requires k <= |tokens|
    ensures TextValues(tokens) == TextValues(tokens[..k]) + TextValues(tokens[k..])
  {
    hide TextValues;
    assert tokens == tokens[..k] + tokens[k..];
    TextValuesAppend(tokens[..k], tokens[k..]);
  }

  /** The texts of an input's pieces, from its tokens: all of them when no tag is left open; when one is, its opening
      text stands among them where it was opened; when several are, everything from the outermost of them on is gone. */
  lemma ClosedTexts(cfg: Config, input: string)
    ensures var tokens := LexAll(cfg, input);
            var open, k, texts := OpenTags(input, tokens), LastClosed(input, tokens), PieceTexts(Pieces(cfg, input));
            (open == 0 ==> texts == TextValues(tokens))
            && (open == 1 ==> k < |tokens| && exists attrs ::
                  texts == TextValues(tokens[..k]) + [TagStart(tokens[k].value, attrs)] + TextValues(tokens[k..]))
            && (open > 1 ==> texts == TextValues(tokens[..k]))
  {
    hide LexAll, PieceTexts, TextValues, BuildAll, OpenTags, LastClosed, TagStart;
    var tokens := LexAll(cfg, input);
    var b, k := BuildAll(input, tokens), LastClosed(input, tokens);
    BuiltTexts(input, tokens);
    TextValuesSplit(tokens, k);
    if b.open == [] {
      assert OpenTexts(b.open) == [];
    } else {
      var n := |b.open| - 1;
      var start := TagStart(b.open[n].name, At(b.side.store, b.open[n].attrs));
      if n == 0 {
        OpenOne(b);
        PieceTextsAppend(b.pieces, [Bit(start)] + b.open[0].content);
        PieceTextsAppend([Bit(start)], b.open[0].content);
        OnePieceTexts(Bit(start));
        Cancel(PieceTexts(b.pieces), PieceTexts(b.open[0].content), TextValues(tokens[k..]));
        assert PieceTexts(Closed(b)) == TextValues(tokens[..k]) + [start] + TextValues(tokens[k..]);
      }
    }
  }

  lemma OpenOne(b: Build)
    requires |b.open| == 1
    ensures BuildTexts(b) == PieceTexts(b.pieces) + PieceTexts(b.open[0].content)
    ensures Closed(b) == b.pieces + ([Bit(TagStart(b.open[0].name, At(b.side.store, b.open[0].attrs)))] + b.open[0].content)
  {
    hide PieceTexts;
    assert b.open[..0] == [] && OpenTexts([]) == [];
    assert [] + PieceTexts(b.open[0].content) == PieceTexts(b.open[0].content);
  }

  lemma Cancel(a: seq<string>, b: seq<string>, c: seq<string>)
    requires a + b == a + c
    ensures b == c
  {
    assert b == (a + b)[|a|..] && c == (a + c)[|a|..];
  }

  // ---------------------------------------------------------------- text and tags of the parsed tree

  /** For every input and every list: the text leaves are the kept texts and, between them, the opening and closing
      texts of tags that are not allowed. The kept texts are all words, blanks and newlines of the input, in order,
      exactly when no tag is left open, or when more than one is and no text follows the last point at which none was. */
  lemma ParseKeepsText(options: Options, input: string)
    ensures var rules, tokens := options.RulesFor(input), LexAll(options.LexerConfig(), input);
            var origins := Origins(rules, Pieces(options.LexerConfig(), input));
            var open, k := OpenTags(input, tokens), LastClosed(input, tokens);
            Leaves(Parse(options, input)) == TextsOf(origins) && OnlyDisallowed(rules, origins)
            && (KeptTexts(origins) == TextValues(tokens) <==> open == 0 || (open > 1 && TextValues(tokens[k..]) == []))
  {
    hide LexAll, Parse, Leaves, OpenTags, TextValues, Pieces, Flatten, Origins, KeptTexts, OnlyDisallowed, TagStart, BuildAll, LastClosed;
    var rules, tokens, pieces := options.RulesFor(input), LexAll(options.LexerConfig(), input), Pieces(options.LexerConfig(), input);
    var k := LastClosed(input, tokens);
    ParseFlattens(options, input);
    FlattenLeaves(rules, BuildAll(input, tokens).side.store, pieces);
    OriginsDisallowed(rules, pieces);
    KeptIsPieces(rules, pieces);
    ClosedTexts(options.LexerConfig(), input);
    TextValuesSplit(tokens, k);
    if OpenTags(input, tokens) > 1 {
      assert TextValues(tokens[..k]) == TextValues(tokens) <==> |TextValues(tokens[k..])| == 0;
    }
  }

  /** Without a list the leaves are the kept texts and nothing else. */
  lemma ParseWithoutList(options: Options, input: string)
    requires LowerAll(options.onlyAllowTags) == []
    ensures Leaves(Parse(options, input)) == PieceTexts(Pieces(options.LexerConfig(), input))
  {
    hide LexAll, Parse, Leaves, TextValues, Pieces, Flatten, Origins, KeptTexts, PieceTexts, OnlyDisallowed;
    ParseKeepsText(options, input);
    NothingSurfaces(options.RulesFor(input), Pieces(options.LexerConfig(), input));
    KeptIsPieces(options.RulesFor(input), Pieces(options.LexerConfig(), input));
  }
}
