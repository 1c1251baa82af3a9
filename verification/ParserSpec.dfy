/** What the BBCode tree builder does with each token, as a function on its state. */
module ParserSpec {
  import opened Strings
  import opened LexerSpec
  import opened TagNodes

  /** A node under construction. Nodes refer to their attribute object by its place in the store, because
      toTagNode hands the same object to the copy it makes and later attributes must reach that copy. */
  datatype Node = Text(text: string) | TagNode(tag: string, attrs: nat, content: seq<Node>)

  /** A tag that has been opened and waits for a closing tag. */
  datatype Frame = Frame(tag: string, attrs: nat, content: seq<Node>)

  datatype State = State(
    nodes: seq<Node>,
    nested: seq<Frame>,
    tagNodes: seq<nat>,
    attrNames: seq<string>,
    store: seq<Attrs>)

  const Initial := State([], [], [], [], [])

  datatype Rules = Rules(buffer: string, onlyAllowTags: seq<string>) {
    predicate IsAllowed(tag: string) { onlyAllowTags == [] || Lower(tag) in onlyAllowTags }

    /** isTokenNested: the text holds a closing tag that begins like this one. */
    predicate IsNested(name: string) { Occurs(buffer, "[/" + name) }
  }

  function At(store: seq<Attrs>, r: nat): Attrs { if r < |store| then store[r] else [] }

  // ---------------------------------------------------------------- one token

  /** getNodes().push(...more) */
  function Put(st: State, more: seq<Node>): State {
    if st.nested == [] then st.(nodes := st.nodes + more) else
    var top := st.nested[|st.nested| - 1];
    st.(nested := st.nested[..|st.nested| - 1] + [top.(content := top.content + more)])
  }

  /** appendNodeAsString */
  function AsText(store: seq<Attrs>, f: Frame, closed: bool): seq<Node> {
    [Text(TagStart(f.tag, At(store, f.attrs)))] +
    if f.content == [] then [] else f.content + if closed then [Text(TagEnd(f.tag))] else []
  }

  /** What a tag becomes in its parent: a node when it may stay, its text around its children otherwise. */
  function Surface(rules: Rules, store: seq<Attrs>, f: Frame): seq<Node> {
    if rules.IsAllowed(f.tag) then [TagNode(Lower(f.tag), f.attrs, f.content)] else AsText(store, f, true)
  }

  function FlushTagNodes(st: State): State {
    if st.tagNodes == [] then st else
    st.(tagNodes := st.tagNodes[..|st.tagNodes| - 1],
        attrNames := if st.attrNames == [] then [] else st.attrNames[..|st.attrNames| - 1])
  }

  function StartTag(rules: Rules, st: State, name: string): State {
    var st1 := FlushTagNodes(st);
    var r := |st1.store|;
    var st2 := st1.(tagNodes := st1.tagNodes + [r], store := st1.store + [[]]);
    if rules.IsNested(name) then st2.(nested := st2.nested + [Frame(name, r, [])])
    else Put(st2, Surface(rules, st2.store, Frame(name, r, [])))
  }

  function EndTag(rules: Rules, st: State): State {
    var st1 := FlushTagNodes(st);
    if st1.nested == [] then st1 else
    var top := st1.nested[|st1.nested| - 1];
    Put(st1.(nested := st1.nested[..|st1.nested| - 1]), Surface(rules, st1.store, top))
  }

  /** activeTagNode.attr(name, value) */
  function WriteAttr(st: State, name: string, value: string): State {
    if st.tagNodes == [] then st else
    var r := st.tagNodes[|st.tagNodes| - 1];
    if r < |st.store| then st.(store := st.store[r := SetAttr(st.store[r], name, value)]) else st
  }

  function PutAttrName(st: State, name: string): State {
    if st.tagNodes == [] then st else
    var st1 := st.(attrNames := st.attrNames + [name]);
    if name == "" then st1 else WriteAttr(st1, name, "")
  }

  function PutAttrValue(st: State, value: string): State {
    if st.tagNodes == [] then st
    else if st.attrNames != [] && st.attrNames[|st.attrNames| - 1] != "" then
      WriteAttr(st, st.attrNames[|st.attrNames| - 1], value).(attrNames := st.attrNames[..|st.attrNames| - 1])
    else WriteAttr(st, value, value)
  }

  function Step(rules: Rules, st: State, token: Token): State {
    match token.kind
    case Tag => if token.IsEnd() then EndTag(rules, st) else StartTag(rules, st, token.value)
    case AttrName => PutAttrName(st, token.value)
    case AttrValue => PutAttrValue(st, token.value)
    case _ => Put(st, [Text(token.value)])
  }

  // ---------------------------------------------------------------- all tokens

  function Steps(rules: Rules, st: State, tokens: seq<Token>): State
    decreases |tokens|
  {
    if tokens == [] then st else Steps(rules, Step(rules, st, tokens[0]), tokens[1..])
  }

  lemma {:induction false} StepsAppend(rules: Rules, st: State, a: seq<Token>, b: seq<Token>)
    ensures Steps(rules, st, a + b) == Steps(rules, Steps(rules, st, a), b)
    decreases |a|
  {
    if a == [] {
      assert a + b == b;
    } else {
      assert (a + b)[1..] == a[1..] + b;
      StepsAppend(rules, Step(rules, st, a[0]), a[1..], b);
    }
  }

  lemma OneStep(rules: Rules, st: State, t: Token)
    ensures Steps(rules, st, [t]) == Step(rules, st, t)
  {
    assert [t][1..] == [];
  }

  /** After the last token the innermost open tag is written out as text; outer open tags are dropped. */
  function Finish(st: State): seq<Node> {
    if st.nested == [] then st.nodes else
    var top := st.nested[|st.nested| - 1];
    Put(st.(nested := st.nested[..|st.nested| - 1]), AsText(st.store, top, false)).nodes
  }

  /** The tree the nodes stand for once the attribute objects have their final contents. */
  function Resolve(store: seq<Attrs>, ns: seq<Node>): seq<Tree> {
    if ns == [] then [] else
    [match ns[0]
     case Text(s) => Leaf(s)
     case TagNode(tag, r, content) => Elem(tag, At(store, r), Resolve(store, content))]
    + Resolve(store, ns[1..])
  }

  lemma {:induction false} ResolveAppend(store: seq<Attrs>, a: seq<Node>, b: seq<Node>)
    ensures Resolve(store, a + b) == Resolve(store, a) + Resolve(store, b)
    decreases |a|
  {
    if a == [] {
      assert a + b == b;
    } else {
      assert (a + b)[1..] == a[1..] + b;
      ResolveAppend(store, a[1..], b);
    }
  }

  datatype Options = Options(onlyAllowTags: seq<string>, contextFreeTags: seq<string>, enableEscapeTags: bool) {
    function RulesFor(input: string): Rules { Rules(input, LowerAll(onlyAllowTags)) }

    /** The brackets are the default ones. */
    function LexerConfig(): Config { Config('[', ']', enableEscapeTags, LowerAll(contextFreeTags)) }
  }

  const DefaultOptions := Options([], [], false)

  /** filter(Boolean).map(toLowerCase) */
  function LowerAll(tags: seq<string>): seq<string> {
    if tags == [] then [] else (if tags[0] == "" then [] else [Lower(tags[0])]) + LowerAll(tags[1..])
  }

  function FinalState(options: Options, input: string): State {
    Steps(options.RulesFor(input), Initial, LexAll(options.LexerConfig(), input))
  }

  function Parse(options: Options, input: string): seq<Tree> {
    var st := FinalState(options, input);
    Resolve(st.store, Finish(st))
  }
}
