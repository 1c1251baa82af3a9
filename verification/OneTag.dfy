/** The parse of a tag with any attributes around any printed tree, its name in any letter case. */
module OneTag {
  import opened Strings
  import opened LexerSpec
  import opened TagNodes
  import opened ParserSpec
  import opened PrintedForm
  import opened RoundTrip
  import opened RoundTripExact
  import opened BareAttrs

  // ---------------------------------------------------------------- attribute objects

  function Lookup(attrs: Attrs, name: string): Option<string> {
    if attrs == [] then None else if attrs[0].0 == name then Some(attrs[0].1) else Lookup(attrs[1..], name)
  }

  function Names(attrs: Attrs): (r: seq<string>)
    ensures |r| == |attrs| && forall i | 0 <= i < |attrs| :: r[i] == attrs[i].0
  {
    if attrs == [] then [] else [attrs[0].0] + Names(attrs[1..])
  }

  /** Writing an attribute changes what is found under its name, and nothing else; a new name comes last. */
  lemma {:induction false} SetAttrMeaning(attrs: Attrs, name: string, value: string, other: string)
    ensures Lookup(SetAttr(attrs, name, value), other) == if other == name then Some(value) else Lookup(attrs, other)
    ensures Names(SetAttr(attrs, name, value)) == if name in Names(attrs) then Names(attrs) else Names(attrs) + [name]
  {
    if attrs != [] {
      SetAttrMeaning(attrs[1..], name, value, other);
      assert attrs == [attrs[0]] + attrs[1..];
    }
  }

  /** The attribute object after the items, written one after the other. */
  function Gathered(done: Attrs, items: seq<Item>): Attrs
    decreases |items|
  {
    if items == [] then done else Gathered(SetAttr(done, items[0].Pair().0, items[0].Pair().1), items[1..])
  }

  function Pairs(items: seq<Item>): Attrs {
    if items == [] then [] else [items[0].Pair()] + Pairs(items[1..])
  }

  ghost predicate DistinctNames(items: seq<Item>) {
    forall i, j | 0 <= i < j < |items| :: items[i].Pair().0 != items[j].Pair().0
  }

  predicate AllNew(done: Attrs, items: seq<Item>) { forall i | i in items :: !HasKey(done, i.Pair().0) }

  lemma StillNew(done: Attrs, items: seq<Item>)
    requires items != [] && DistinctNames(items) && AllNew(done, items)
    ensures DistinctNames(items[1..]) && !HasKey(done, items[0].Pair().0)
    ensures AllNew(done + [items[0].Pair()], items[1..])
  {
    hide Item.Pair;
    assert items[0] in items;
    forall i | i in items[1..]
      ensures !HasKey(done + [items[0].Pair()], i.Pair().0)
    {
      var j :| 0 <= j < |items[1..]| && items[1..][j] == i;
      assert items[j + 1] == i && i in items && items[0].Pair().0 != items[j + 1].Pair().0;
      assert forall a | a in done + [items[0].Pair()] :: a in done || a == items[0].Pair();
    }
  }

  lemma {:induction false} GatheredInOrder(done: Attrs, items: seq<Item>)
    requires DistinctNames(items) && AllNew(done, items)
    ensures Gathered(done, items) == done + Pairs(items)
    decreases |items|
  {
    hide SetAttr, Item.Pair, AllNew, DistinctNames;
    if items != [] {
      var pair := items[0].Pair();
      StillNew(done, items);
      SetNewAttr(done, pair.0, pair.1);
      assert [(pair.0, pair.1)] == [pair];
      GatheredInOrder(done + [pair], items[1..]);
      assert done + [pair] + Pairs(items[1..]) == done + Pairs(items);
    }
  }

  lemma LoneWritten(rules: Rules, st: State, base: State, done: Attrs, w: string)
    requires RoundTrip.Opened(st, base, done)
    ensures RoundTrip.Opened(Steps(rules, st, [Token(AttrValue, w)]), base, SetAttr(done, w, w))
  {
    hide Steps, SetAttr;
    OneStep(rules, st, Token(AttrValue, w));
    assert st.store[|base.store| := SetAttr(done, w, w)] == base.store + [SetAttr(done, w, w)];
  }

  /** No attribute has an empty name. */
  predicate Keyed(items: seq<Item>) { forall i | i in items :: i.Lone? || i.key != "" }

  lemma {:induction false} ItemsWritten(rules: Rules, st: State, base: State, done: Attrs, items: seq<Item>)
    requires RoundTrip.Opened(st, base, done) && Keyed(items)
    ensures RoundTrip.Opened(Steps(rules, st, ItemTokens(items)), base, Gathered(done, items))
    decreases |items|
  {
    hide Steps, SetAttr, RoundTrip.Opened, ItemTokens;
    if items == [] {
      NoItems();
      NoSteps(rules, st);
    } else {
      FirstWritten(items);
      assert items[0] in items && forall i | i in items[1..] :: i in items;
      ItemWritten(rules, st, base, done, items[0]);
      StepsAppend(rules, st, items[0].Tokens(), ItemTokens(items[1..]));
      ItemsWritten(rules, Steps(rules, st, items[0].Tokens()), base, SetAttr(done, items[0].Pair().0, items[0].Pair().1), items[1..]);
    }
  }

  lemma ItemWritten(rules: Rules, st: State, base: State, done: Attrs, item: Item)
    requires RoundTrip.Opened(st, base, done) && (item.Lone? || item.key != "")
    ensures RoundTrip.Opened(Steps(rules, st, item.Tokens()), base, SetAttr(done, item.Pair().0, item.Pair().1))
  {
    hide Steps, SetAttr, RoundTrip.Opened;
    if item.Lone? {
      LoneWritten(rules, st, base, done, item.word);
    } else {
      NamedPairWritten(rules, st, base, done, item.key, item.value);
    }
  }

  // ---------------------------------------------------------------- opening tags

  /** What stands between the brackets is read as this name with these attributes. */
  predicate Reads(body: string, name: string, items: seq<Item>) {
    body != "" && BracketFree(body) && !Cfg.IsReserved(body[0]) && body[0] != '/'
    && name != "" && name[0] != '/' && BracketFree(name) && Keyed(items)
    && BodySegment(body).Tokens() == [Token(Tag, name)] + ItemTokens(items)
  }

  /** A name a tag can have: none of the reserved characters first, no bracket and no equals sign in it. */
  predicate TagName(name: string) {
    name != "" && BracketFree(name) && '=' !in name && name[0] != '/' && name[0] !in "\"\\ \t\n!"
  }

  lemma FirstIsFree(name: string, rest: string)
    requires TagName(name)
    ensures (name + rest)[0] == name[0] && !Cfg.IsReserved(name[0])
  {
    assert name[0] in name;
  }

  /** [name] */
  lemma PlainReads(name: string)
    requires TagName(name)
    ensures Reads(name, name, [])
  {
    FirstIsFree(name, "");
    assert name + "" == name;
    NoItems();
    assert [Token(Tag, name)] + [] == [Token(Tag, name)];
  }

  /** [name=value] */
  lemma ValueReads(name: string, v: string)
    requires TagName(name) && Unbroken(name) && v != "" && ' ' !in v && '"' !in v && BracketFree(v)
    ensures Reads(name + "=" + v, name, [Lone(v)])
  {
    hide AttrTokens;
    var body := name + "=" + v;
    FirstIsFree(name, "=" + v);
    assert body == name + ("=" + v) && body[|name|] == '=';
    BareValueTokens(name, v);
    OneItem(Lone(v));
    assert [Token(Tag, name)] + [Token(AttrValue, v)] == [Token(Tag, name), Token(AttrValue, v)];
  }

  lemma OneItem(item: Item)
    ensures ItemTokens([item]) == item.Tokens() && Written([item]) == " " + item.Text()
  {
    hide Item.Text;
    FirstWritten([item]);
    NoItems();
    assert [item][1..] == [] && item.Tokens() + [] == item.Tokens() && item.Text() + "" == item.Text();
  }

  lemma {:induction false} WrittenBracketFree(items: seq<Item>)
    requires AllValid(items) && forall i | i in items && i.Lone? :: BracketFree(i.word)
    requires forall i | i in items && i.Named? :: BracketFree(i.value)
    ensures BracketFree(Written(items)) && Keyed(items)
  {
    if items != [] {
      assert items[0] in items && items[0].Valid();
      assert forall i | i in items[1..] :: i in items;
      WrittenBracketFree(items[1..]);
      assert BracketFree(items[0].Text());
    }
  }

  /** [name key=value ...] */
  lemma ListReads(name: string, items: seq<Item>)
    requires TagName(name) && Unbroken(name) && items != [] && AllValid(items) && '=' in Written(items)
    requires BracketFree(Written(items)) && Keyed(items)
    ensures Reads(name + Written(items), name, items)
  {
    hide AttrTokens, Written, ItemTokens, AllValid, Keyed;
    FirstIsFree(name, Written(items));
    ListTokens(name, items);
    assert '=' in name + Written(items);
  }

  // ---------------------------------------------------------------- which tags look nested

  /** The input: the tag, what it holds, and its closing tag. */
  function Around(body: string, f: seq<Tree>, name: string): string { "[" + body + "]" + Print(f) + ("[/" + name + "]") }

  lemma NestedAround(body: string, f: seq<Tree>, name: string, x: string)
    requires body != "" && BracketFree(body) && body[0] != '/' && BracketFree(name) && BracketFree(x) && Printable(f)
    ensures Occurs(Around(body, f, name), "[/" + x) <==> ClosedBy(f, x) || x <= name
  {
    hide Print, Printable, OccursAt;
    var s, sub := Around(body, f, name), "[/" + x;
    var end := TagEnd(name);
    assert end == "[/" + name + "]";
    assert s == "[" + body + "]" + (Print(f) + end);
    if Occurs(s, sub) {
      var i: nat :| i <= |s| && OccursAt(s, sub, i);
      NotInBracketed(body, Print(f) + end, x, i);
      OccursInSecond("[" + body + "]", Print(f) + end, sub, i);
      var j := i - |body| - 2;
      if j < |Print(f)| {
        OccursInFirst(Print(f), end, x, j);
        ClosingIsClosed(f, x, j);
      } else {
        OccursInSecond(Print(f), end, sub, j);
        OccursBounds(end, sub, j - |Print(f)|);
        assert end + "" == end;
        InClosing(name, "", x, j - |Print(f)|);
      }
    }
    if ClosedBy(f, x) {
      var closed :| closed in ClosedTags(f) && x <= closed;
      ClosedTagOccurs(f, closed);
      OccursInPart("[" + body + "]", Print(f), end, "[/" + closed);
      RoundTrip.PrefixOccurs(s, closed, x);
    }
    if x <= name {
      ClosingOccurs(name);
      OccursInPart("[" + body + "]" + Print(f), end, "", "[/" + name);
      assert "[" + body + "]" + Print(f) + end + "" == s;
      RoundTrip.PrefixOccurs(s, name, x);
    }
  }

  lemma OccursBounds(s: string, sub: string, i: nat)
    requires OccursAt(s, sub, i) && sub != ""
    ensures i < |s|
  {
  }

  lemma ClosingOccurs(name: string)
    ensures Occurs(TagEnd(name), "[/" + name)
  {
    assert TagEnd(name)[0..|name| + 2] == "[/" + name;
    assert OccursAt(TagEnd(name), "[/" + name, 0);
  }

  /** No unclosed tag inside has a name that begins that of a closed one, the outer tag's included. */
  predicate Fits(f: seq<Tree>, name: string) {
    Unambiguous(f) && forall x | x in UnclosedTags(f) :: !(x <= name)
  }

  lemma InsideWellNested(rules: Rules, body: string, f: seq<Tree>, name: string)
    requires rules.buffer == Around(body, f, name) && Fits(f, name) && Printable(f)
    requires body != "" && BracketFree(body) && body[0] != '/' && BracketFree(name)
    ensures WellNested(rules, f) && rules.IsNested(name)
  {
    hide Occurs, Print, Printable, UnclosedTags, ClosedTags, Around;
    WellNestedMeaning(rules, f);
    UnclosedAreValid(f);
    NestedAround(body, f, name, name);
    forall x | x in UnclosedTags(f)
      ensures !rules.IsNested(x)
    {
      NestedAround(body, f, name, x);
    }
    forall closed | closed in ClosedTags(f)
      ensures rules.IsNested(closed)
    {
      ClosedAreValid(f);
      NestedAround(body, f, name, closed);
    }
  }

  lemma {:induction false} ClosedAreValid(f: seq<Tree>)
    requires Printable(f)
    ensures forall closed | closed in ClosedTags(f) :: BracketFree(closed)
    decreases f
  {
    hide ValidAttrs;
    if f != [] {
      ClosedAreValid(f[1..]);
      if HasContent(f[0]) {
        ClosedAreValid(f[0].content);
      }
    }
  }

  // ---------------------------------------------------------------- the parse

  lemma AroundTokens(body: string, f: seq<Tree>, name: string, items: seq<Item>)
    requires Reads(body, name, items) && Printable(f)
    ensures TokensOf(Lex(Cfg, Around(body, f, name), ""))
         == [Token(Tag, name)] + ItemTokens(items) + PrintedTokens("", f) + [Token(Tag, "/" + name)]
  {
    hide Lex, TokensOf, Print, PrintedTokens, Printable, ItemTokens, Keyed;
    var end := "[" + ("/" + name) + "]";
    assert Around(body, f, name) == "[" + body + "]" + ("" + Print(f) + end);
    LexTag(body, "" + Print(f) + end);
    LexPrinted("", f, end);
    LexTag("/" + name, "");
    assert end + "" == end;
    NothingToLex();
    assert BodySegment("/" + name).Tokens() == [Token(Tag, "/" + name)];
    assert [Token(Tag, "/" + name)] + [] == [Token(Tag, "/" + name)];
  }

  lemma TagOpens(rules: Rules, name: string, items: seq<Item>)
    requires name != "" && name[0] != '/' && rules.IsNested(name) && Keyed(items)
    ensures var st := Steps(rules, Initial, [Token(Tag, name)] + ItemTokens(items));
            st.nodes == [] && st.nested == [Frame(name, 0, [])] && st.attrNames == [] && st.store == [Gathered([], items)]
  {
    hide Occurs, ItemTokens, Gathered, TagStart;
    var t := Token(Tag, name);
    var base := Initial.(nested := [Frame(name, 0, [])]);
    var st1 := Step(rules, Initial, t);
    OneStep(rules, Initial, t);
    StepsAppend(rules, Initial, [t], ItemTokens(items));
    assert RoundTrip.Opened(st1, base, []);
    ItemsWritten(rules, st1, base, [], items);
    assert base.store + [Gathered([], items)] == [Gathered([], items)];
  }

  lemma TagCloses(rules: Rules, st: State, name: string, content: seq<Node>)
    requires st.nodes == [] && st.nested == [Frame(name, 0, content)] && rules.IsAllowed(name)
    ensures var st' := Steps(rules, st, [Token(Tag, "/" + name)]);
            Finish(st') == [TagNode(Lower(name), 0, content)] && st'.store == st.store
  {
    hide TagStart, Lower;
    OneStep(rules, st, Token(Tag, "/" + name));
    assert st.nested[..0] == [];
    assert [] + [TagNode(Lower(name), 0, content)] == [TagNode(Lower(name), 0, content)];
  }

  lemma AroundState(rules: Rules, f: seq<Tree>, name: string, items: seq<Item>)
    requires name != "" && name[0] != '/' && rules.IsNested(name) && rules.IsAllowed(name) && Keyed(items)
    requires Printable(f) && WellNested(rules, f) && AllAllowed(rules, f)
    ensures var st := Steps(rules, Initial, [Token(Tag, name)] + ItemTokens(items) + PrintedTokens("", f) + [Token(Tag, "/" + name)]);
            Finish(st) == [TagNode(Lower(name), 0, Built("", f, 1))] && st.store == [Gathered([], items)] + Cells(f)
  {
    hide Steps, Finish, Printable, WellNested, AllAllowed, PrintedTokens, ItemTokens, Built, Cells, Lower, Keyed, Occurs;
    var open, inside, close := [Token(Tag, name)] + ItemTokens(items), PrintedTokens("", f), [Token(Tag, "/" + name)];
    TagOpens(rules, name, items);
    var st1 := Steps(rules, Initial, open);
    StepsAppend(rules, Initial, open, inside);
    PrintedGrows(rules, st1, "", f);
    var st2 := Steps(rules, st1, inside);
    assert [] + Built("", f, 1) == Built("", f, 1);
    StepsAppend(rules, Initial, open + inside, close);
    TagCloses(rules, st2, name, Built("", f, 1));
  }

  /** A tag around any printed tree, its name in any letter case, its attributes in any form that is read so: one tag
      node, with the lower-case name, those attributes and that tree. */
  lemma TagAroundParses(options: Options, body: string, name: string, items: seq<Item>, f: seq<Tree>)
    requires PlainOptions(options) && Reads(body, name, items) && Printable(f) && Fits(f, name)
    requires var rules := options.RulesFor(Around(body, f, name)); rules.IsAllowed(name) && AllAllowed(rules, f)
    ensures Parse(options, Around(body, f, name)) == [Elem(Lower(name), Gathered([], items), NormalRead("", f))]
  {
    hide Steps, Finish, Resolve, Printable, WellNested, AllAllowed, PrintedTokens, ItemTokens, Built, Cells, Lower, Keyed, Occurs, Around;
    hide Fits, Lex, TokensOf, NormalRead, LowerAll, BodySegment;
    var input := Around(body, f, name);
    var rules := options.RulesFor(input);
    InsideWellNested(rules, body, f, name);
    AroundTokens(body, f, name, items);
    assert options.LexerConfig() == Cfg;
    AroundState(rules, f, name, items);
    var st := FinalState(options, input);
    HeldBehind(st.store, Gathered([], items), f);
    BuiltResolves(st.store, "", f, 1);
    OneNodeResolves(st.store, Lower(name), Built("", f, 1));
  }

  lemma HeldBehind(store: seq<Attrs>, first: Attrs, f: seq<Tree>)
    requires store == [first] + Cells(f)
    ensures Holds(store, f, 1) && At(store, 0) == first
  {
    hide Cells;
  }

  lemma OneNodeResolves(store: seq<Attrs>, tag: string, content: seq<Node>)
    ensures Resolve(store, [TagNode(tag, 0, content)]) == [Elem(tag, At(store, 0), Resolve(store, content))]
  {
    var n := [TagNode(tag, 0, content)];
    assert n[1..] == [] && Resolve(store, []) == [];
  }

  // ---------------------------------------------------------------- a tag that is not closed

  lemma NestedBehind(body: string, f: seq<Tree>, x: string)
    requires body != "" && BracketFree(body) && body[0] != '/' && BracketFree(x) && Printable(f)
    ensures Occurs("[" + body + "]" + Print(f), "[/" + x) <==> ClosedBy(f, x)
  {
    hide Print, Printable, OccursAt;
    var s, sub := "[" + body + "]" + Print(f), "[/" + x;
    if Occurs(s, sub) {
      var i: nat :| i <= |s| && OccursAt(s, sub, i);
      NotInBracketed(body, Print(f), x, i);
      OccursInSecond("[" + body + "]", Print(f), sub, i);
      ClosingIsClosed(f, x, i - |body| - 2);
    }
    if ClosedBy(f, x) {
      var closed :| closed in ClosedTags(f) && x <= closed;
      ClosedTagOccurs(f, closed);
      OccursInPart("[" + body + "]", Print(f), "", "[/" + closed);
      assert "[" + body + "]" + Print(f) + "" == s;
      RoundTrip.PrefixOccurs(s, closed, x);
    }
  }

  lemma BehindWellNested(rules: Rules, body: string, f: seq<Tree>, name: string)
    requires rules.buffer == "[" + body + "]" + Print(f) && Unambiguous(f) && Printable(f)
    requires body != "" && BracketFree(body) && body[0] != '/' && BracketFree(name) && !ClosedBy(f, name)
    ensures WellNested(rules, f) && !rules.IsNested(name)
  {
    hide Occurs, Print, Printable, UnclosedTags, ClosedTags;
    WellNestedMeaning(rules, f);
    UnclosedAreValid(f);
    ClosedAreValid(f);
    NestedBehind(body, f, name);
    forall x | x in UnclosedTags(f)
      ensures !rules.IsNested(x)
    {
      NestedBehind(body, f, x);
    }
    forall closed | closed in ClosedTags(f)
      ensures rules.IsNested(closed)
    {
      NestedBehind(body, f, closed);
    }
  }

  lemma BehindTokens(body: string, f: seq<Tree>, name: string, items: seq<Item>)
    requires Reads(body, name, items) && Printable(f)
    ensures TokensOf(Lex(Cfg, "[" + body + "]" + Print(f), "")) == [Token(Tag, name)] + ItemTokens(items) + PrintedTokens("", f)
  {
    hide Lex, TokensOf, Print, PrintedTokens, Printable, ItemTokens, Keyed;
    LexTag(body, Print(f));
    LexPrinted("", f, "");
    assert "" + Print(f) + "" == Print(f);
    NothingToLex();
    assert PrintedTokens("", f) + [] == PrintedTokens("", f);
  }

  lemma TagStands(rules: Rules, name: string, items: seq<Item>)
    requires name != "" && name[0] != '/' && !rules.IsNested(name) && rules.IsAllowed(name) && Keyed(items)
    ensures var st := Steps(rules, Initial, [Token(Tag, name)] + ItemTokens(items));
            st.nodes == [TagNode(Lower(name), 0, [])] && st.nested == [] && st.attrNames == [] && st.store == [Gathered([], items)]
  {
    hide Occurs, ItemTokens, Gathered, TagStart, Lower;
    var t := Token(Tag, name);
    var base := Initial.(nodes := [TagNode(Lower(name), 0, [])]);
    var st1 := Step(rules, Initial, t);
    OneStep(rules, Initial, t);
    StepsAppend(rules, Initial, [t], ItemTokens(items));
    assert RoundTrip.Opened(st1, base, []);
    ItemsWritten(rules, st1, base, [], items);
    assert base.store + [Gathered([], items)] == [Gathered([], items)];
  }

  /** A tag without a closing tag stands alone in front of what follows it. */
  lemma TagBeforeParses(options: Options, body: string, name: string, items: seq<Item>, f: seq<Tree>)
    requires PlainOptions(options) && Reads(body, name, items) && Printable(f) && Unambiguous(f) && !ClosedBy(f, name)
    requires var rules := options.RulesFor("[" + body + "]" + Print(f)); rules.IsAllowed(name) && AllAllowed(rules, f)
    ensures Parse(options, "[" + body + "]" + Print(f)) == [Elem(Lower(name), Gathered([], items), [])] + NormalRead("", f)
  {
    hide Steps, Resolve, Printable, WellNested, AllAllowed, PrintedTokens, ItemTokens, Built, Cells, Lower, Keyed, Occurs;
    hide Unambiguous, Lex, TokensOf, NormalRead, LowerAll, BodySegment, Print, ClosedBy;
    var input := "[" + body + "]" + Print(f);
    var rules := options.RulesFor(input);
    BehindWellNested(rules, body, f, name);
    BehindTokens(body, f, name, items);
    assert options.LexerConfig() == Cfg;
    var open := [Token(Tag, name)] + ItemTokens(items);
    TagStands(rules, name, items);
    var st1 := Steps(rules, Initial, open);
    StepsAppend(rules, Initial, open, PrintedTokens("", f));
    PrintedGrows(rules, st1, "", f);
    var st := FinalState(options, input);
    HeldBehind(st.store, Gathered([], items), f);
    BuiltResolves(st.store, "", f, 1);
    OneNodeResolves(st.store, Lower(name), []);
    ResolveAppend(st.store, [TagNode(Lower(name), 0, [])], Built("", f, 1));
    NothingResolves(st.store);
  }

  lemma NothingResolves(store: seq<Attrs>)
    ensures Resolve(store, []) == []
  {
  }

  // ---------------------------------------------------------------- around text

  lemma TextIsPrinted(text: string)
    requires '[' !in text
    ensures Print([Leaf(text)]) == text && Printable([Leaf(text)]) && NormalRead("", [Leaf(text)]) == TextLeaves(TextTokens(text))
    ensures UnclosedTags([Leaf(text)]) == [] && ClosedTags([Leaf(text)]) == []
  {
    hide TextTokens, TextLeaves;
    assert [Leaf(text)][1..] == [];
    NormalReadFirst("", [Leaf(text)]);
    NormalReadFirst("" + text, []);
    assert "" + text == text;
  }

  /** Around a text without opening brackets, with the default options. */
  lemma TextAroundParses(body: string, name: string, items: seq<Item>, text: string)
    requires Reads(body, name, items) && '[' !in text
    ensures Parse(DefaultOptions, "[" + body + "]" + text + ("[/" + name + "]"))
         == [Elem(Lower(name), Gathered([], items), TextLeaves(TextTokens(text)))]
  {
    hide Parse, Print, Printable, Reads, TextTokens, TextLeaves, NormalRead, Lower, Gathered, UnclosedTags, ClosedTags;
    var f := [Leaf(text)];
    TextIsPrinted(text);
    NoListAllowsAll(DefaultOptions.RulesFor(Around(body, f, name)), f);
    TagAroundParses(DefaultOptions, body, name, items, f);
  }

  /** [name=value]text[/name]: one node, whose only attribute is the value under itself, whatever it is made of but
      quotes, blanks and brackets. */
  lemma ValueTagParses(name: string, v: string, text: string)
    requires TagName(name) && Unbroken(name) && v != "" && ' ' !in v && '"' !in v && BracketFree(v) && '[' !in text
    ensures Parse(DefaultOptions, "[" + (name + "=" + v) + "]" + text + ("[/" + name + "]"))
         == [Elem(Lower(name), [(v, v)], TextLeaves(TextTokens(text)))]
  {
    hide Parse, Lower, TextTokens, TextLeaves;
    ValueReads(name, v);
    TextAroundParses(name + "=" + v, name, [Lone(v)], text);
    GatheredInOrder([], [Lone(v)]);
    assert [Lone(v)][1..] == [];
  }

  /** [name key=value ...]text[/name]: one node with these attributes in their order. */
  lemma ListTagParses(name: string, items: seq<Item>, text: string)
    requires TagName(name) && Unbroken(name) && items != [] && AllValid(items) && '=' in Written(items)
    requires BracketFree(Written(items)) && Keyed(items) && DistinctNames(items) && '[' !in text
    ensures Parse(DefaultOptions, "[" + (name + Written(items)) + "]" + text + ("[/" + name + "]"))
         == [Elem(Lower(name), Pairs(items), TextLeaves(TextTokens(text)))]
  {
    hide Parse, Lower, TextTokens, TextLeaves, Written, AllValid, Keyed, DistinctNames;
    ListReads(name, items);
    TextAroundParses(name + Written(items), name, items, text);
    GatheredInOrder([], items);
    assert [] + Pairs(items) == Pairs(items);
  }
}
