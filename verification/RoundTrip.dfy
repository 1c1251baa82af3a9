/** Parsing undoes printing, and exactly when it does. */
module RoundTrip {
  import opened Strings
  import opened LexerSpec
  import opened TagNodes
  import opened ParserSpec
  import opened PrintedForm

  // ---------------------------------------------------------------- what should come back

  predicate HasContent(t: Tree) { t.Elem? && t.content != [] }

  function TextLeaves(ts: seq<Token>): seq<Tree> {
    if ts == [] then [] else [Leaf(ts[0].value)] + TextLeaves(ts[1..])
  }

  /** The same tree with neighbouring texts joined and then cut into maximal runs; pending is the text just before f. */
  function Normal(pending: string, f: seq<Tree>): seq<Tree>
    decreases f
  {
    if f == [] then TextLeaves(TextTokens(pending))
    else if f[0].Leaf? then Normal(pending + f[0].text, f[1..])
    else
      TextLeaves(TextTokens(pending))
      + [Elem(f[0].tag, f[0].attrs, if HasContent(f[0]) then Normal("", f[0].content) else [])]
      + Normal("", f[1..])
  }

  /** An attribute object as it is read back: an unnamed value comes first, and all values as they are written. */
  function ReadBack(attrs: Attrs): Attrs {
    if Unique(attrs) then
      var n, value := |attrs| - 1, EscapeAttr(attrs[|attrs| - 1].1);
      SetAll([(value, value)], attrs[..n])
    else EscapedValues(attrs)
  }

  /** Attributes written one after the other. */
  function SetAll(done: Attrs, attrs: Attrs): (r: Attrs)
    decreases |attrs|
  {
    if attrs == [] then done else SetAll(SetAttr(done, attrs[0].0, EscapeAttr(attrs[0].1)), attrs[1..])
  }

  function EscapedValues(attrs: Attrs): (r: Attrs)
    ensures |r| == |attrs| && forall i | 0 <= i < |attrs| :: r[i] == (attrs[i].0, EscapeAttr(attrs[i].1))
  {
    if attrs == [] then [] else [(attrs[0].0, EscapeAttr(attrs[0].1))] + EscapedValues(attrs[1..])
  }

  /** The tree with all its attributes as they are read back. */
  function AsRead(f: seq<Tree>): (r: seq<Tree>)
    ensures |r| == |f|
  {
    if f == [] then [] else [TagAsRead(f[0])] + AsRead(f[1..])
  }

  function TagAsRead(t: Tree): Tree {
    match t
    case Leaf(s) => t
    case Void(tag, attrs) => Void(tag, ReadBack(attrs))
    case Elem(tag, attrs, content) => Elem(tag, ReadBack(attrs), AsRead(content))
  }

  /** No attribute value is changed by writing it, and no unnamed value stands beside named attributes. */
  predicate AttributesKept(f: seq<Tree>) {
    f == [] ||
    ((match f[0]
      case Leaf(_) => true
      case Void(_, attrs) => AttrsKept(attrs)
      case Elem(_, attrs, content) => AttrsKept(attrs) && AttributesKept(content))
     && AttributesKept(f[1..]))
  }

  predicate AttrsKept(attrs: Attrs) {
    (forall a | a in attrs :: EscapeAttr(a.1) == a.1) && (Unique(attrs) ==> |attrs| == 1)
  }

  // ---------------------------------------------------------------- when it does

  /** Names of the tags that are printed with a closing tag. */
  function ClosedTags(f: seq<Tree>): seq<string> {
    if f == [] then [] else
    (match f[0]
     case Leaf(_) => []
     case Void(_, _) => []
     case Elem(tag, _, content) => if content == [] then [] else [tag] + ClosedTags(content)) + ClosedTags(f[1..])
  }

  /** Names of the tags that are printed without one. */
  function UnclosedTags(f: seq<Tree>): seq<string> {
    if f == [] then [] else
    (match f[0]
     case Leaf(_) => []
     case Void(tag, _) => [tag]
     case Elem(tag, _, content) => if content == [] then [tag] else UnclosedTags(content)) + UnclosedTags(f[1..])
  }

  /** No closing tag in the printed text begins like an unclosed tag. */
  predicate Unambiguous(f: seq<Tree>) {
    forall name, closed | name in UnclosedTags(f) && closed in ClosedTags(f) :: !(name <= closed)
  }

  /** isTokenNested answers true for the tags with content and false for the others. */
  predicate WellNested(rules: Rules, f: seq<Tree>) {
    f == [] ||
    ((match f[0]
      case Leaf(_) => true
      case Void(tag, _) => !rules.IsNested(tag)
      case Elem(tag, _, content) => (rules.IsNested(tag) <==> content != []) && WellNested(rules, content))
     && WellNested(rules, f[1..]))
  }

  predicate AllAllowed(rules: Rules, f: seq<Tree>) {
    f == [] ||
    ((match f[0]
      case Leaf(_) => true
      case Void(tag, _) => rules.IsAllowed(tag)
      case Elem(tag, _, content) => rules.IsAllowed(tag) && AllAllowed(rules, content))
     && AllAllowed(rules, f[1..]))
  }

  // ---------------------------------------------------------------- the nodes that are built

  /** The attribute objects of a tree, in the order its tags are opened. */
  function Cells(f: seq<Tree>): seq<Attrs> {
    if f == [] then [] else
    (match f[0]
     case Leaf(_) => []
     case Void(_, attrs) => [ReadBack(attrs)]
     case Elem(_, attrs, content) => [ReadBack(attrs)] + Cells(content)) + Cells(f[1..])
  }

  function TextNodes(ts: seq<Token>): seq<Node> {
    if ts == [] then [] else [Text(ts[0].value)] + TextNodes(ts[1..])
  }

  /** The node for one tag, whose attribute object is number k. */
  function BuiltTag(t: Tree, k: nat): Node
    requires !t.Leaf?
    decreases t
  {
    TagNode(t.tag, k, if HasContent(t) then Built("", t.content, k + 1) else [])
  }

  function Built(pending: string, f: seq<Tree>, k: nat): seq<Node>
    decreases f
  {
    if f == [] then TextNodes(TextTokens(pending))
    else if f[0].Leaf? then Built(pending + f[0].text, f[1..], k)
    else TextNodes(TextTokens(pending)) + [BuiltTag(f[0], k)] + Built("", f[1..], k + |Cells([f[0]])|)
  }

  lemma CellsFirst(f: seq<Tree>)
    requires f != []
    ensures Cells(f) == Cells([f[0]]) + Cells(f[1..])
  {
    assert [f[0]][1..] == [];
  }

  lemma TextResolves(store: seq<Attrs>, ts: seq<Token>)
    ensures Resolve(store, TextNodes(ts)) == TextLeaves(ts)
  {
  }

  /** What a tree comes back as. */
  function NormalRead(pending: string, f: seq<Tree>): seq<Tree> { Normal(pending, AsRead(f)) }

  function NormalTag(t: Tree): Tree
    requires !t.Leaf?
  {
    Elem(t.tag, ReadBack(t.attrs), if HasContent(t) then NormalRead("", t.content) else [])
  }

  lemma NormalReadFirst(pending: string, f: seq<Tree>)
    ensures f == [] ==> NormalRead(pending, f) == TextLeaves(TextTokens(pending))
    ensures f != [] && f[0].Leaf? ==> NormalRead(pending, f) == NormalRead(pending + f[0].text, f[1..])
    ensures f != [] && !f[0].Leaf? ==>
              NormalRead(pending, f) == TextLeaves(TextTokens(pending)) + [NormalTag(f[0])] + NormalRead("", f[1..])
  {
    hide ReadBack, TextTokens, TextLeaves;
    if f != [] {
      assert AsRead(f)[1..] == AsRead(f[1..]) && AsRead(f)[0] == TagAsRead(f[0]);
    }
  }

  lemma TagResolves(store: seq<Attrs>, t: Tree, k: nat)
    requires !t.Leaf? && k < |store| && store[k] == ReadBack(t.attrs)
    requires HasContent(t) ==> Resolve(store, Built("", t.content, k + 1)) == NormalRead("", t.content)
    ensures Resolve(store, [BuiltTag(t, k)]) == [NormalTag(t)]
  {
    hide Built, NormalRead, ReadBack;
    var n := BuiltTag(t, k);
    assert [n][1..] == [];
    assert Resolve(store, []) == [];
  }

  lemma FirstTagResolves(store: seq<Attrs>, pending: string, f: seq<Tree>, k: nat)
    requires f != [] && !f[0].Leaf?
    requires Resolve(store, [BuiltTag(f[0], k)]) == [NormalTag(f[0])]
    requires Resolve(store, Built("", f[1..], k + |Cells([f[0]])|)) == NormalRead("", f[1..])
    ensures Resolve(store, Built(pending, f, k)) == NormalRead(pending, f)
  {
    hide Resolve, TextTokens, Cells, NormalRead;
    NormalReadFirst(pending, f);
    var ts := TextTokens(pending);
    TextResolves(store, ts);
    var more := Built("", f[1..], k + |Cells([f[0]])|);
    ResolveAppend(store, TextNodes(ts) + [BuiltTag(f[0], k)], more);
    ResolveAppend(store, TextNodes(ts), [BuiltTag(f[0], k)]);
    assert Built(pending, f, k) == TextNodes(ts) + [BuiltTag(f[0], k)] + more;
    assert NormalRead(pending, f) == TextLeaves(ts) + [NormalTag(f[0])] + NormalRead("", f[1..]);
  }

  /** The store holds the attributes of f from place k on. */
  predicate Holds(store: seq<Attrs>, f: seq<Tree>, k: nat) {
    HoldsCells(store, Cells(f), k)
  }

  predicate HoldsCells(store: seq<Attrs>, cells: seq<Attrs>, k: nat) {
    k + |cells| <= |store| && forall i | 0 <= i < |cells| :: store[k + i] == cells[i]
  }

  lemma HoldsSplit(store: seq<Attrs>, a: seq<Attrs>, b: seq<Attrs>, k: nat)
    requires HoldsCells(store, a + b, k)
    ensures HoldsCells(store, a, k) && HoldsCells(store, b, k + |a|)
  {
    assert forall i | 0 <= i < |a| :: a[i] == (a + b)[i];
    forall i | 0 <= i < |b|
      ensures store[k + |a| + i] == b[i]
    {
      assert b[i] == (a + b)[|a| + i];
    }
  }

  lemma HoldsParts(store: seq<Attrs>, f: seq<Tree>, k: nat)
    requires f != [] && Holds(store, f, k)
    ensures Holds(store, f[1..], k + |Cells([f[0]])|)
    ensures !f[0].Leaf? ==> k < |store| && store[k] == ReadBack(f[0].attrs)
    ensures HasContent(f[0]) ==> Holds(store, f[0].content, k + 1)
  {
    hide ReadBack;
    CellsFirst(f);
    var own := Cells([f[0]]);
    HoldsSplit(store, own, Cells(f[1..]), k);
    assert [f[0]][1..] == [];
    if !f[0].Leaf? {
      assert store[k + 0] == own[0];
    }
    if HasContent(f[0]) {
      assert own == [ReadBack(f[0].attrs)] + Cells(f[0].content);
      HoldsSplit(store, [ReadBack(f[0].attrs)], Cells(f[0].content), k);
    }
  }

  /** Once the store holds the attributes in opening order, the built nodes stand for the normal form. */
  lemma {:induction false} BuiltResolves(store: seq<Attrs>, pending: string, f: seq<Tree>, k: nat)
    requires Holds(store, f, k)
    ensures Resolve(store, Built(pending, f, k)) == NormalRead(pending, f)
    decreases f
  {
    hide TextTokens, Holds, Cells, Resolve, NormalRead;
    NormalReadFirst(pending, f);
    if f == [] {
      TextResolves(store, TextTokens(pending));
    } else {
      HoldsParts(store, f, k);
      if f[0].Leaf? {
        LeafHasNoCells(f[0]);
        BuiltResolves(store, pending + f[0].text, f[1..], k);
      } else {
        BuiltResolves(store, "", f[1..], k + |Cells([f[0]])|);
        if HasContent(f[0]) {
          BuiltResolves(store, "", f[0].content, k + 1);
        }
        TagResolves(store, f[0], k);
        FirstTagResolves(store, pending, f, k);
      }
    }
  }

  lemma LeafHasNoCells(t: Tree)
    requires t.Leaf?
    ensures Cells([t]) == []
  {
    assert [t][1..] == [];
  }

  // ---------------------------------------------------------------- building them

  /** st' is st with more nodes in its innermost place and more attribute objects; which tag was opened last
      no longer matters. */
  ghost predicate Grown(st: State, st': State, more: seq<Node>, cells: seq<Attrs>) {
    st'.nodes == Put(st, more).nodes && st'.nested == Put(st, more).nested
    && st'.attrNames == [] && st'.store == st.store + cells
  }

  lemma GrownTwice(st: State, st1: State, st2: State, more1: seq<Node>, cells1: seq<Attrs>, more2: seq<Node>, cells2: seq<Attrs>)
    requires Grown(st, st1, more1, cells1) && Grown(st1, st2, more2, cells2)
    ensures Grown(st, st2, more1 + more2, cells1 + cells2)
  {
    assert st.store + cells1 + cells2 == st.store + (cells1 + cells2);
    if st.nested == [] {
      assert st.nodes + more1 + more2 == st.nodes + (more1 + more2);
    } else {
      var top := st.nested[|st.nested| - 1];
      assert top.content + more1 + more2 == top.content + (more1 + more2);
    }
  }

  lemma {:induction false} TextGrows(rules: Rules, st: State, ts: seq<Token>)
    requires st.attrNames == [] && forall t | t in ts :: t.IsText()
    ensures Grown(st, Steps(rules, st, ts), TextNodes(ts), [])
    decreases |ts|
  {
    if ts == [] {
      assert st.nested != [] ==> st.nested[|st.nested| - 1].content + [] == st.nested[|st.nested| - 1].content;
    } else {
      var st1 := Step(rules, st, ts[0]);
      assert ts[0] in ts;
      assert Grown(st, st1, [Text(ts[0].value)], []);
      TextGrows(rules, st1, ts[1..]);
      GrownTwice(st, st1, Steps(rules, st1, ts[1..]), [Text(ts[0].value)], [], TextNodes(ts[1..]), []);
    }
  }

  lemma {:induction false} TextTokensAreText(s: string)
    ensures forall t | t in TextTokens(s) :: t.IsText()
    decreases |s|
  {
    if s != [] {
      TextTokensAreText(s[|FirstRun(s).value|..]);
    }
  }

  // ---------------------------------------------------------------- attributes

  lemma {:induction false} SetNewAttr(attrs: Attrs, key: string, value: string)
    requires !HasKey(attrs, key)
    ensures SetAttr(attrs, key, value) == attrs + [(key, value)]
  {
    if attrs != [] {
      assert attrs[0] in attrs;
      assert forall a | a in attrs[1..] :: a in attrs;
      SetNewAttr(attrs[1..], key, value);
      assert attrs == [attrs[0]] + attrs[1..];
    }
  }

  /** The state in which the tag opened last has the given attributes. */
  ghost predicate Opened(st: State, base: State, attrs: Attrs) {
    st.nodes == base.nodes && st.nested == base.nested && st.attrNames == [] && st.tagNodes != []
    && st.tagNodes[|st.tagNodes| - 1] == |base.store| && st.store == base.store + [attrs]
  }

  predicate Fresh(done: Attrs, attrs: Attrs) {
    forall a | a in attrs :: !HasKey(done, a.0)
  }

  lemma {:induction false} SetTwice(attrs: Attrs, key: string, old': string, value: string)
    ensures SetAttr(SetAttr(attrs, key, old'), key, value) == SetAttr(attrs, key, value)
  {
    if attrs != [] && attrs[0].0 != key {
      SetTwice(attrs[1..], key, old', value);
      assert SetAttr(attrs, key, old')[1..] == SetAttr(attrs[1..], key, old');
    }
  }

  lemma NameWritten(st: State, base: State, done: Attrs, key: string)
    requires Opened(st, base, done) && key != ""
    ensures PutAttrName(st, key) == st.(attrNames := [key], store := base.store + [SetAttr(done, key, "")])
  {
    hide SetAttr;
    assert st.store[|base.store| := SetAttr(done, key, "")] == base.store + [SetAttr(done, key, "")];
  }

  lemma ValueWritten(st: State, base: State, done: Attrs, key: string, value: string)
    requires Opened(st.(attrNames := []), base, done) && st.attrNames == [key] && key != ""
    ensures Opened(PutAttrValue(st, value), base, SetAttr(done, key, value))
  {
    hide SetAttr;
    assert st.store[|base.store| := SetAttr(done, key, value)] == base.store + [SetAttr(done, key, value)];
  }

  lemma NamedPairWritten(rules: Rules, st: State, base: State, done: Attrs, key: string, value: string)
    requires Opened(st, base, done) && key != ""
    ensures Opened(Steps(rules, st, [Token(AttrName, key), Token(AttrValue, value)]), base, SetAttr(done, key, value))
  {
    hide Steps, PutAttrName, PutAttrValue, SetAttr;
    var st1 := PutAttrName(st, key);
    NameWritten(st, base, done, key);
    ValueWritten(st1, base, SetAttr(done, key, ""), key, value);
    SetTwice(done, key, "", value);
    StepsAppend(rules, st, [Token(AttrName, key)], [Token(AttrValue, value)]);
    OneStep(rules, st, Token(AttrName, key));
    OneStep(rules, st1, Token(AttrValue, value));
    assert [Token(AttrName, key)] + [Token(AttrValue, value)] == [Token(AttrName, key), Token(AttrValue, value)];
  }

  lemma {:induction false} NamedWritten(rules: Rules, st: State, base: State, done: Attrs, attrs: Attrs)
    requires Opened(st, base, done) && NamedAttrs(attrs)
    ensures Opened(Steps(rules, st, NamedTokens(attrs)), base, SetAll(done, attrs))
    decreases |attrs|
  {
    hide Writable, Steps, EscapeAttr, Opened, HasKey, SetAttr;
    if attrs == [] {
      NoSteps(rules, st);
    } else {
      var (key, value) := (attrs[0].0, EscapeAttr(attrs[0].1));
      var pair := [Token(AttrName, key), Token(AttrValue, value)];
      NamedPairWritten(rules, st, base, done, key, value);
      StepsAppend(rules, st, pair, NamedTokens(attrs[1..]));
      NamedWritten(rules, Steps(rules, st, pair), base, SetAttr(done, key, value), attrs[1..]);
    }
  }

  lemma FreshAfter(done: Attrs, attrs: Attrs, value: string)
    requires attrs != [] && NamedAttrs(attrs) && Fresh(done, attrs)
    ensures !HasKey(done, attrs[0].0) && Fresh(done + [(attrs[0].0, value)], attrs[1..]) && NamedAttrs(attrs[1..])
  {
    hide Writable, PlainKey;
    var key := attrs[0].0;
    assert attrs[0] in attrs;
    forall a | a in attrs[1..]
      ensures !HasKey(done + [(key, value)], a.0)
    {
      assert a in attrs;
      assert forall b | b in done + [(key, value)] :: b in done || b == (key, value);
      assert !HasKey(attrs[1..], key);
    }
  }

  /** New names are added behind the old ones, in order. */
  lemma {:induction false} SetAllFresh(done: Attrs, attrs: Attrs)
    requires NamedAttrs(attrs) && Fresh(done, attrs)
    ensures SetAll(done, attrs) == done + EscapedValues(attrs)
    decreases |attrs|
  {
    hide NamedAttrs, EscapeAttr, HasKey, Fresh, SetAttr;
    if attrs == [] {
      assert done + EscapedValues(attrs) == done;
    } else {
      var (key, value) := (attrs[0].0, EscapeAttr(attrs[0].1));
      FreshAfter(done, attrs, value);
      SetNewAttr(done, key, value);
      SetAllFresh(done + [(key, value)], attrs[1..]);
      assert done + [(key, value)] + EscapedValues(attrs[1..]) == done + EscapedValues(attrs);
    }
  }

  lemma NoSteps(rules: Rules, st: State)
    ensures Steps(rules, st, []) == st
  {
  }

  lemma UnnamedWritten(rules: Rules, st: State, base: State, value: string)
    requires Opened(st, base, []) && value != ""
    ensures Opened(Steps(rules, st, [Token(AttrValue, value)]), base, [(value, value)])
  {
    hide Steps;
    OneStep(rules, st, Token(AttrValue, value));
    assert SetAttr([], value, value) == [(value, value)];
    assert st.store[|base.store| := [(value, value)]] == base.store + [[(value, value)]];
  }

  lemma AttributesWritten(rules: Rules, st: State, base: State, tag: string, attrs: Attrs)
    requires Opened(st, base, []) && ValidAttrs(attrs)
    ensures Opened(Steps(rules, st, OpenTokens(tag, attrs)[1..]), base, ReadBack(attrs))
  {
    hide EscapeAttr, Opened, Steps, SetAll, NamedTokens, Writable;
    if Unique(attrs) {
      var n := |attrs| - 1;
      var value := EscapeAttr(attrs[n].1);
      var first, more := [Token(AttrValue, value)], NamedTokens(attrs[..n]);
      assert OpenTokens(tag, attrs)[1..] == first + more;
      assert NamedAttrs(attrs[..n]) && Writable(attrs[n].1) by { assert n == 0 ==> attrs[..n] == []; }
      EscapedIsPlain(attrs[n].1);
      UnnamedWritten(rules, st, base, value);
      StepsAppend(rules, st, first, more);
      NamedWritten(rules, Steps(rules, st, first), base, [(value, value)], attrs[..n]);
    } else {
      assert OpenTokens(tag, attrs)[1..] == NamedTokens(attrs);
      NamedWritten(rules, st, base, [], attrs);
      SetAllFresh([], attrs);
      assert [] + EscapedValues(attrs) == ReadBack(attrs);
    }
  }

  // ---------------------------------------------------------------- tags

  /** An opening tag without content becomes a node at once. */
  lemma EmptyTagGrows(rules: Rules, st: State, t: Tree)
    requires st.attrNames == [] && !t.Leaf? && !HasContent(t) && ValidTag(t.tag, t.attrs)
    requires rules.IsAllowed(t.tag) && !rules.IsNested(t.tag)
    ensures Grown(st, Steps(rules, st, OpenTokens(t.tag, t.attrs)), [BuiltTag(t, |st.store|)], [ReadBack(t.attrs)])
  {
    hide ValidAttrs, TagStart, ReadBack;
    var k := |st.store|;
    var tokens := OpenTokens(t.tag, t.attrs);
    var st1 := Step(rules, st, tokens[0]);
    var base := Put(st, [TagNode(t.tag, k, [])]);
    assert Opened(st1, base, []);
    AttributesWritten(rules, st1, base, t.tag, t.attrs);
    assert Steps(rules, st, tokens) == Steps(rules, st1, tokens[1..]);
  }

  /** An opening tag with content waits on the stack. */
  lemma NestedTagOpens(rules: Rules, st: State, tag: string, attrs: Attrs)
    requires st.attrNames == [] && ValidTag(tag, attrs) && rules.IsNested(tag)
    ensures var st' := Steps(rules, st, OpenTokens(tag, attrs));
            st'.nodes == st.nodes && st'.nested == st.nested + [Frame(tag, |st.store|, [])]
            && st'.attrNames == [] && st'.store == st.store + [ReadBack(attrs)]
  {
    hide ValidAttrs, TagStart, ReadBack;
    var tokens := OpenTokens(tag, attrs);
    var st1 := Step(rules, st, tokens[0]);
    var base := st.(nested := st.nested + [Frame(tag, |st.store|, [])]);
    assert Opened(st1, base, []);
    AttributesWritten(rules, st1, base, tag, attrs);
    assert Steps(rules, st, tokens) == Steps(rules, st1, tokens[1..]);
  }

  lemma AllowedSurface(rules: Rules, store: seq<Attrs>, tag: string, k: nat, content: seq<Node>)
    requires Lower(tag) == tag && rules.IsAllowed(tag)
    ensures Surface(rules, store, Frame(tag, k, content)) == [TagNode(tag, k, content)]
  {
    hide AsText, Lower;
  }

  lemma ValidNameIsLower(name: string)
    requires ValidName(name)
    ensures Lower(name) == name
  {
  }

  /** Its closing tag moves it, with the content gathered meanwhile, into its parent. */
  lemma NestedTagCloses(rules: Rules, st: State, st': State, tag: string, k: nat, content: seq<Node>)
    requires st'.nodes == st.nodes && st'.nested == st.nested + [Frame(tag, k, content)] && st'.attrNames == []
    requires ValidName(tag) && rules.IsAllowed(tag)
    ensures var r := Steps(rules, st', [Token(Tag, "/" + tag)]);
            r.nodes == Put(st, [TagNode(tag, k, content)]).nodes && r.nested == Put(st, [TagNode(tag, k, content)]).nested
            && r.attrNames == [] && r.store == st'.store
  {
    hide TagStart, Surface, Lower, ValidName, Put;
    ValidNameIsLower(tag);
    OneStep(rules, st', Token(Tag, "/" + tag));
    assert st'.nested[..|st'.nested| - 1] == st.nested;
    AllowedSurface(rules, st'.store, tag, k, content);
    SamePlace(st, FlushTagNodes(st').(nested := st.nested), [TagNode(tag, k, content)]);
  }

  /** Where nodes are put depends on the nodes and the stack only. */
  lemma SamePlace(st: State, st1: State, more: seq<Node>)
    requires st1.nodes == st.nodes && st1.nested == st.nested
    ensures Put(st1, more).nodes == Put(st, more).nodes && Put(st1, more).nested == Put(st, more).nested
    ensures Put(st1, more).attrNames == st1.attrNames && Put(st1, more).store == st1.store
  {
  }

  lemma TagGrows(rules: Rules, st: State, t: Tree)
    requires st.attrNames == [] && !t.Leaf? && Printable([t]) && WellNested(rules, [t]) && AllAllowed(rules, [t])
    ensures Grown(st, Steps(rules, st, OpenTokens(t.tag, t.attrs) + InsideTokens(t)), [BuiltTag(t, |st.store|)], Cells([t]))
    decreases t
  {
    hide Steps, ValidTag, OpenTokens, Grown, Put;
    TagParts(rules, t);
    if HasContent(t) {
      NestedTagOpens(rules, st, t.tag, t.attrs);
      PrintedGrows(rules, Steps(rules, st, OpenTokens(t.tag, t.attrs)), "", t.content);
      NestedTagGrows(rules, st, t);
    } else {
      EmptyTagGrows(rules, st, t);
      assert OpenTokens(t.tag, t.attrs) + InsideTokens(t) == OpenTokens(t.tag, t.attrs);
    }
  }

  lemma TagParts(rules: Rules, t: Tree)
    requires !t.Leaf? && Printable([t]) && WellNested(rules, [t]) && AllAllowed(rules, [t])
    ensures ValidTag(t.tag, t.attrs) && rules.IsAllowed(t.tag)
    ensures HasContent(t) ==> rules.IsNested(t.tag) && Printable(t.content) && WellNested(rules, t.content)
                              && AllAllowed(rules, t.content) && Cells([t]) == [ReadBack(t.attrs)] + Cells(t.content)
    ensures !HasContent(t) ==> !rules.IsNested(t.tag) && Cells([t]) == [ReadBack(t.attrs)]
  {
    hide ValidTag, ReadBack;
    assert [t][1..] == [];
  }

  lemma PutInTop(st: State, nested: seq<Frame>, top: Frame, more: seq<Node>)
    requires st.nested == nested + [top]
    ensures Put(st, more).nodes == st.nodes && Put(st, more).nested == nested + [top.(content := top.content + more)]
  {
  }

  lemma NestedTagGrows(rules: Rules, st: State, t: Tree)
    requires HasContent(t) && ValidTag(t.tag, t.attrs) && rules.IsAllowed(t.tag) && rules.IsNested(t.tag)
    requires Cells([t]) == [ReadBack(t.attrs)] + Cells(t.content) && st.attrNames == []
    requires var st1 := Steps(rules, st, OpenTokens(t.tag, t.attrs));
             Grown(st1, Steps(rules, st1, PrintedTokens("", t.content)), Built("", t.content, |st1.store|), Cells(t.content))
    ensures Grown(st, Steps(rules, st, OpenTokens(t.tag, t.attrs) + InsideTokens(t)), [BuiltTag(t, |st.store|)], Cells([t]))
  {
    hide Steps, OpenTokens, PrintedTokens, Cells, Built, ReadBack, Put, ValidAttrs;
    var k := |st.store|;
    var open, inside, close := OpenTokens(t.tag, t.attrs), PrintedTokens("", t.content), [Token(Tag, "/" + t.tag)];
    var content := Built("", t.content, k + 1);
    NestedTagOpens(rules, st, t.tag, t.attrs);
    var st1 := Steps(rules, st, open);
    var st2 := Steps(rules, st1, inside);
    PutInTop(st1, st.nested, Frame(t.tag, k, []), content);
    assert [] + content == content;
    NestedTagCloses(rules, st, st2, t.tag, k, content);
    StepsAppend(rules, st1, inside, close);
    StepsAppend(rules, st, open, inside + close);
    assert st.store + [ReadBack(t.attrs)] + Cells(t.content) == st.store + Cells([t]);
  }

  /** The tokens of a printed tree build exactly its nodes. */
  lemma {:induction false} PrintedGrows(rules: Rules, st: State, pending: string, f: seq<Tree>)
    requires st.attrNames == [] && Printable(f) && WellNested(rules, f) && AllAllowed(rules, f)
    ensures Grown(st, Steps(rules, st, PrintedTokens(pending, f)), Built(pending, f, |st.store|), Cells(f))
    decreases f
  {
    hide Steps, ValidTag, OpenTokens, Put, TextTokens, TextNodes, Cells;
    var ts := TextTokens(pending);
    TextTokensAreText(pending);
    if f == [] {
      NoCells();
      TextGrows(rules, st, ts);
    } else if f[0].Leaf? {
      LeafHasNoCells(f[0]);
      CellsFirst(f);
      PrintedGrows(rules, st, pending + f[0].text, f[1..]);
    } else {
      var own := OpenTokens(f[0].tag, f[0].attrs) + InsideTokens(f[0]);
      var more := PrintedTokens("", f[1..]);
      TextGrows(rules, st, ts);
      var st1 := Steps(rules, st, ts);
      FirstOnly(rules, f);
      TagGrows(rules, st1, f[0]);
      var st2 := Steps(rules, st1, own);
      PrintedGrows(rules, st2, "", f[1..]);
      JoinGrown(rules, st, pending, f);
    }
  }

  lemma NoCells()
    ensures Cells([]) == []
  {
  }

  lemma FirstOnly(rules: Rules, f: seq<Tree>)
    requires f != [] && Printable(f) && WellNested(rules, f) && AllAllowed(rules, f)
    ensures Printable([f[0]]) && WellNested(rules, [f[0]]) && AllAllowed(rules, [f[0]])
  {
    hide ValidTag;
    assert [f[0]][1..] == [];
  }

  lemma JoinGrown(rules: Rules, st: State, pending: string, f: seq<Tree>)
    requires f != [] && !f[0].Leaf?
    requires Grown(st, Steps(rules, st, TextTokens(pending)), TextNodes(TextTokens(pending)), [])
    requires var st1 := Steps(rules, st, TextTokens(pending));
             var own := OpenTokens(f[0].tag, f[0].attrs) + InsideTokens(f[0]);
             var st2 := Steps(rules, st1, own);
             Grown(st1, st2, [BuiltTag(f[0], |st1.store|)], Cells([f[0]]))
             && Grown(st2, Steps(rules, st2, PrintedTokens("", f[1..])), Built("", f[1..], |st2.store|), Cells(f[1..]))
    ensures Grown(st, Steps(rules, st, PrintedTokens(pending, f)), Built(pending, f, |st.store|), Cells(f))
  {
    hide TextTokens, Steps, OpenTokens, InsideTokens, TextNodes, Cells, Put;
    var ts := TextTokens(pending);
    var own := OpenTokens(f[0].tag, f[0].attrs) + InsideTokens(f[0]);
    var more := PrintedTokens("", f[1..]);
    var st1 := Steps(rules, st, ts);
    var st2 := Steps(rules, st1, own);
    var st3 := Steps(rules, st2, more);
    var k := |st.store|;
    var built := Built("", f[1..], k + |Cells([f[0]])|);
    assert |st1.store| == k && |st2.store| == k + |Cells([f[0]])|;
    StepsAppend(rules, st, ts + own, more);
    StepsAppend(rules, st, ts, own);
    assert PrintedTokens(pending, f) == ts + own + more;
    GrownTwice(st, st1, st2, TextNodes(ts), [], [BuiltTag(f[0], k)], Cells([f[0]]));
    GrownTwice(st, st2, st3, TextNodes(ts) + [BuiltTag(f[0], k)], [] + Cells([f[0]]), built, Cells(f[1..]));
    CellsFirst(f);
    assert [] + Cells([f[0]]) + Cells(f[1..]) == Cells(f);
    assert Built(pending, f, k) == TextNodes(ts) + [BuiltTag(f[0], k)] + built;
  }

  // ---------------------------------------------------------------- closing tags in the printed text

  lemma OccursInPart(a: string, b: string, c: string, sub: string)
    requires Occurs(b, sub)
    ensures Occurs(a + b + c, sub)
  {
    var i: nat :| i <= |b| && OccursAt(b, sub, i);
    var s := a + b + c;
    assert s[|a| + i..|a| + i + |sub|] == b[i..i + |sub|];
    assert OccursAt(s, sub, |a| + i);
  }

  /** The printed text of a tag with content: its opening tag, its content and its closing tag. */
  lemma PrintContent(f: seq<Tree>)
    requires f != [] && HasContent(f[0])
    ensures Print(f) == TagStart(f[0].tag, f[0].attrs) + Print(f[0].content) + (TagEnd(f[0].tag) + Print(f[1..]))
  {
    hide TagStart, TagEnd;
  }

  /** Every tag with content puts its closing tag into the printed text. */
  lemma {:induction false} ClosedTagOccurs(f: seq<Tree>, closed: string)
    requires closed in ClosedTags(f)
    ensures Occurs(Print(f), "[/" + closed)
    decreases f
  {
    hide TagStart, Occurs, Print;
    if closed in ClosedTags(f[1..]) {
      ClosedTagOccurs(f[1..], closed);
      PrintFirst(f);
      OccursInPart(Print([f[0]]), Print(f[1..]), "", "[/" + closed);
      assert Print([f[0]]) + Print(f[1..]) + "" == Print(f);
    } else if closed == f[0].tag {
      OwnTagOccurs(f);
    } else {
      ClosedTagOccurs(f[0].content, closed);
      PrintContent(f);
      OccursInPart(TagStart(f[0].tag, f[0].attrs), Print(f[0].content), TagEnd(f[0].tag) + Print(f[1..]), "[/" + closed);
    }
  }

  lemma OwnTagOccurs(f: seq<Tree>)
    requires f != [] && HasContent(f[0])
    ensures Occurs(Print(f), "[/" + f[0].tag)
  {
    hide TagStart, Print;
    var start, end := TagStart(f[0].tag, f[0].attrs), TagEnd(f[0].tag);
    PrintContent(f);
    assert end[0..0 + |"[/" + f[0].tag|] == "[/" + f[0].tag;
    assert OccursAt(end, "[/" + f[0].tag, 0);
    OccursInPart(start + Print(f[0].content), end, Print(f[1..]), "[/" + f[0].tag);
    assert start + Print(f[0].content) + end + Print(f[1..]) == Print(f);
  }

  /** Reading from a bracket in the first of two texts stays in it when the second starts with a bracket. */
  lemma OccursInFirst(a: string, b: string, name: string, i: nat)
    requires BracketFree(name) && i < |a| && OccursAt(a + b, "[/" + name, i) && (b == [] || b[0] == '[')
    ensures OccursAt(a, "[/" + name, i)
  {
    var sub := "[/" + name;
    var s := a + b;
    assert s[i] == s[i..i + |sub|][0];
    forall k | i < k < i + |sub|
      ensures s[k] != '['
    {
      assert s[k] == s[i..i + |sub|][k - i] == sub[k - i];
      assert sub[k - i] == '/' || sub[k - i] in name;
    }
    assert b != [] ==> s[|a|] == '[';
    assert i + |sub| <= |a|;
    assert s[i..i + |sub|] == a[i..i + |sub|];
  }

  lemma OccursInSecond(a: string, b: string, sub: string, i: nat)
    requires |a| <= i && OccursAt(a + b, sub, i)
    ensures OccursAt(b, sub, i - |a|)
  {
    assert (a + b)[i..i + |sub|] == b[i - |a|..i - |a| + |sub|];
  }

  lemma NotInBracketed(body: string, rest: string, name: string, i: nat)
    requires BracketFree(body) && body != [] && body[0] != '/'
    requires OccursAt("[" + body + "]" + rest, "[/" + name, i)
    ensures |body| + 2 <= i
  {
    var s := "[" + body + "]" + rest;
    var found := s[i..i + |name| + 2];
    assert s[i] == found[0] == '[' && s[i + 1] == found[1] == '/';
    assert forall k | 0 < k <= |body| :: s[k] == body[k - 1] && body[k - 1] in body;
    assert s[|body| + 1] == ']';
  }

  lemma NotInOpening(tag: string, attrs: Attrs, rest: string, name: string, i: nat)
    requires ValidTag(tag, attrs) && OccursAt(TagStart(tag, attrs) + rest, "[/" + name, i)
    ensures |TagStart(tag, attrs)| <= i
  {
    hide ValidAttrs, TagBody, OpenTokens, OccursAt;
    OpenBody(tag, attrs);
    FirstOfBody(tag, attrs);
    NotInBracketed(TagBody(tag, attrs), rest, name, i);
  }

  lemma FirstOfBody(tag: string, attrs: Attrs)
    requires tag != ""
    ensures TagBody(tag, attrs) != [] && TagBody(tag, attrs)[0] == tag[0]
  {
    hide EscapeAttr;
  }

  lemma InClosing(tag: string, rest: string, name: string, i: nat)
    requires BracketFree(tag) && BracketFree(name) && i < |TagEnd(tag)| && OccursAt(TagEnd(tag) + rest, "[/" + name, i)
    ensures name <= tag
  {
    var s, found := TagEnd(tag) + rest, "[/" + name;
    assert s[i..i + |name| + 2][0] == s[i] && found[0] == '[';
    forall k | 1 <= k < |tag| + 3
      ensures s[k] != '['
    {
      assert s[k] == if k == 1 then '/' else if k == |tag| + 2 then ']' else tag[k - 2];
    }
    assert i == 0;
    ClosingName(tag, rest, name);
  }

  lemma NameIsBracketFree(name: string)
    requires ValidName(name)
    ensures BracketFree(name)
  {
  }

  lemma ClosingName(tag: string, rest: string, name: string)
    requires BracketFree(tag) && BracketFree(name) && OccursAt(TagEnd(tag) + rest, "[/" + name, 0)
    ensures name <= tag
  {
    var s := TagEnd(tag) + rest;
    forall k | 0 <= k < |name|
      ensures s[2 + k] == name[k] && name[k] != ']'
    {
      assert s[2 + k] == s[0..|name| + 2][2 + k] == ("[/" + name)[2 + k];
    }
    assert s[2 + |tag|] == ']';
    assert |name| <= |tag|;
    assert s[2..2 + |name|] == tag[..|name|];
    assert name == s[2..2 + |name|];
  }

  predicate ClosedBy(f: seq<Tree>, name: string) {
    exists closed | closed in ClosedTags(f) :: name <= closed
  }

  /** A closing tag found in the printed text belongs to a tag with content. */
  lemma {:induction false} ClosingIsClosed(f: seq<Tree>, name: string, i: nat)
    requires Printable(f) && BracketFree(name) && OccursAt(Print(f), "[/" + name, i)
    ensures ClosedBy(f, name)
    decreases f
  {
    hide ValidTag, TagStart, TagEnd, OccursAt, ClosedBy;
    SomethingPrinted(f, name, i);
    if f[0].Leaf? {
      NotInText(f, name, i);
      ClosingIsClosed(f[1..], name, i - |f[0].text|);
      ClosedByMore(f, f[1..], name);
    } else {
      PrintParts(f);
      var start := TagStart(f[0].tag, f[0].attrs);
      var inside := if HasContent(f[0]) then Print(f[0].content) + (TagEnd(f[0].tag) + Print(f[1..])) else Print(f[1..]);
      NotInOpening(f[0].tag, f[0].attrs, inside, name, i);
      OccursInSecond(start, inside, "[/" + name, i);
      if HasContent(f[0]) {
        ClosingInContent(f, name, i - |start|);
      } else {
        ClosingIsClosed(f[1..], name, i - |start|);
        ClosedByMore(f, f[1..], name);
      }
    }
  }

  lemma SomethingPrinted(f: seq<Tree>, name: string, i: nat)
    requires OccursAt(Print(f), "[/" + name, i)
    ensures f != []
  {
  }

  lemma NotInText(f: seq<Tree>, name: string, i: nat)
    requires f != [] && f[0].Leaf? && Printable(f) && OccursAt(Print(f), "[/" + name, i)
    ensures |f[0].text| <= i && OccursAt(Print(f[1..]), "[/" + name, i - |f[0].text|)
  {
    hide TagStart, TagEnd, ValidTag;
    var text, s := f[0].text, Print(f);
    assert s == text + Print(f[1..]);
    hide Print;
    assert s[i] == s[i..i + |name| + 2][0] == '[';
    assert forall k | 0 <= k < |text| :: s[k] == text[k] && text[k] in text;
    OccursInSecond(text, Print(f[1..]), "[/" + name, i);
  }

  lemma ClosedByMore(f: seq<Tree>, part: seq<Tree>, name: string)
    requires f != [] && (part == f[1..] || (HasContent(f[0]) && part == f[0].content)) && ClosedBy(part, name)
    ensures ClosedBy(f, name)
  {
    var closed :| closed in ClosedTags(part) && name <= closed;
    assert closed in ClosedTags(f);
  }

  lemma PrintParts(f: seq<Tree>)
    requires f != [] && !f[0].Leaf?
    ensures Print(f) == TagStart(f[0].tag, f[0].attrs) +
                        if HasContent(f[0]) then Print(f[0].content) + (TagEnd(f[0].tag) + Print(f[1..])) else Print(f[1..])
  {
    hide TagStart, TagEnd;
    if HasContent(f[0]) {
      PrintContent(f);
    }
  }

  lemma ClosingInContent(f: seq<Tree>, name: string, i: nat)
    requires f != [] && HasContent(f[0]) && Printable(f) && BracketFree(name)
    requires OccursAt(Print(f[0].content) + (TagEnd(f[0].tag) + Print(f[1..])), "[/" + name, i)
    ensures ClosedBy(f, name)
    decreases f, 0
  {
    hide ValidAttrs, Print, OccursAt, TagEnd;
    var inner, end, more := Print(f[0].content), TagEnd(f[0].tag), Print(f[1..]);
    StartsWithBracket(f[0].tag, more);
    if i < |inner| {
      OccursInFirst(inner, end + more, name, i);
      ClosingIsClosed(f[0].content, name, i);
      ClosedByMore(f, f[0].content, name);
    } else {
      OccursInSecond(inner, end + more, "[/" + name, i);
      if i - |inner| < |end| {
        NameIsBracketFree(f[0].tag);
        InClosing(f[0].tag, more, name, i - |inner|);
        assert f[0].tag in ClosedTags(f);
      } else {
        OccursInSecond(end, more, "[/" + name, i - |inner|);
        ClosingIsClosed(f[1..], name, i - |inner| - |end|);
        ClosedByMore(f, f[1..], name);
      }
    }
  }

  lemma StartsWithBracket(tag: string, more: string)
    ensures (TagEnd(tag) + more)[0] == '['
  {
  }

  // ---------------------------------------------------------------- which trees nest as they should

  lemma {:induction false} WellNestedMeaning(rules: Rules, f: seq<Tree>)
    ensures WellNested(rules, f) <==>
            (forall name | name in UnclosedTags(f) :: !rules.IsNested(name))
            && (forall closed | closed in ClosedTags(f) :: rules.IsNested(closed))
    decreases f
  {
    if f != [] {
      WellNestedMeaning(rules, f[1..]);
      if HasContent(f[0]) {
        WellNestedMeaning(rules, f[0].content);
      }
    }
  }

  lemma {:induction false} UnclosedAreValid(f: seq<Tree>)
    requires Printable(f)
    ensures forall name | name in UnclosedTags(f) :: BracketFree(name)
    decreases f
  {
    hide ValidAttrs;
    if f != [] {
      UnclosedAreValid(f[1..]);
      if HasContent(f[0]) {
        UnclosedAreValid(f[0].content);
      }
    }
  }

  lemma PrefixOccurs(s: string, closed: string, name: string)
    requires Occurs(s, "[/" + closed) && name <= closed
    ensures Occurs(s, "[/" + name)
  {
    var sub, sub' := "[/" + closed, "[/" + name;
    var i: nat :| i <= |s| && OccursAt(s, sub, i);
    assert s[i..i + |sub'|] == s[i..i + |sub|][..|sub'|] == sub';
    assert OccursAt(s, sub', i);
  }

  /** In its own printed text, a tree nests as it should exactly when it is unambiguous. */
  lemma WellNestedIffUnambiguous(rules: Rules, f: seq<Tree>)
    requires Printable(f) && rules.buffer == Print(f)
    ensures WellNested(rules, f) <==> Unambiguous(f)
  {
    hide Occurs, Print, UnclosedTags, ClosedTags;
    WellNestedMeaning(rules, f);
    UnclosedAreValid(f);
    forall closed | closed in ClosedTags(f)
      ensures rules.IsNested(closed)
    {
      ClosedTagOccurs(f, closed);
    }
    forall name | name in UnclosedTags(f)
      ensures rules.IsNested(name) <==> ClosedBy(f, name)
    {
      NestedMeaning(rules, f, name);
    }
  }

  lemma NestedMeaning(rules: Rules, f: seq<Tree>, name: string)
    requires Printable(f) && rules.buffer == Print(f) && BracketFree(name)
    ensures rules.IsNested(name) <==> ClosedBy(f, name)
  {
    hide Print;
    if rules.IsNested(name) {
      var i: nat :| i <= |rules.buffer| && OccursAt(rules.buffer, "[/" + name, i);
      ClosingIsClosed(f, name, i);
    }
    if ClosedBy(f, name) {
      var closed :| closed in ClosedTags(f) && name <= closed;
      ClosedTagOccurs(f, closed);
      PrefixOccurs(Print(f), closed, name);
    }
  }
}
