/** The tree builder: it is handed each token as the lexer emits it and changes its stacks in place. */
module Parser {
  import opened Strings
  import opened LexerSpec
  import opened TagNodes
  import opened ParserSpec

  class TreeBuilder {
    const rules: Rules
    var nodes: seq<Node>
    var nestedNodes: seq<Frame>
    var tagNodes: seq<nat>
    var attrNames: seq<string>
    var store: seq<Attrs>
    /** Answers of buffer.indexOf(...) > -1 seen so far. */
    var nestedMap: map<string, bool>
    /** Names found nested so far. */
    var nestedTags: set<string>

    ghost predicate Valid()
      reads this
    {
      (forall v | v in nestedMap :: nestedMap[v] == Occurs(rules.buffer, v))
      && (forall n | n in nestedTags :: rules.IsNested(n))
      && (forall f | f in nestedNodes :: f.tag in nestedTags)
    }

    ghost function State(): State
      reads this
    {
      ParserSpec.State(nodes, nestedNodes, tagNodes, attrNames, store)
    }

    constructor (rules: Rules)
      ensures Valid() && State() == Initial && this.rules == rules
    {
      this.rules := rules;
      nodes, nestedNodes, tagNodes, attrNames, store := [], [], [], [], [];
      nestedMap, nestedTags := map[], {};
    }

    /** Both caches together answer as the text itself does. */
    method IsTokenNested(name: string) returns (nested: bool)
      requires Valid()
      modifies this`nestedMap, this`nestedTags
      ensures Valid() && nested == rules.IsNested(name) && (nested ==> name in nestedTags)
      ensures old(nestedTags) <= nestedTags
    {
      if name !in nestedTags {
        var value := "[/" + name;
        if value !in nestedMap {
          nestedMap := nestedMap[value := Occurs(rules.buffer, value)];
        }
        if nestedMap[value] {
          nestedTags := nestedTags + {name};
        }
      }
      nested := name in nestedTags;
    }

    method FlushTagNodes()
      requires Valid()
      modifies this`tagNodes, this`attrNames
      ensures Valid() && State() == ParserSpec.FlushTagNodes(old(State()))
    {
      if tagNodes != [] {
        tagNodes := tagNodes[..|tagNodes| - 1];
        if attrNames != [] {
          attrNames := attrNames[..|attrNames| - 1];
        }
      }
    }

    /** getNodes().push(...more) */
    method PushNodes(more: seq<Node>)
      requires Valid()
      modifies this`nodes, this`nestedNodes
      ensures Valid() && State() == Put(old(State()), more)
    {
      if nestedNodes != [] {
        var n := |nestedNodes| - 1;
        var top := nestedNodes[n];
        assert top in nestedNodes;
        nestedNodes := nestedNodes[n := top.(content := top.content + more)];
        assert nestedNodes == old(nestedNodes)[..n] + [top.(content := top.content + more)];
      } else {
        nodes := nodes + more;
      }
    }

    /** appendNodeAsString(getNodes(), ...): the children are moved one by one between the two tag texts. */
    method AppendAsString(f: Frame, closed: bool)
      requires Valid()
      modifies this`nodes, this`nestedNodes
      ensures Valid() && State() == Put(old(State()), AsText(store, f, closed))
    {
      hide TagStart, TagEnd, Put;
      ghost var start := [Text(TagStart(f.tag, At(store, f.attrs)))];
      PushNodes([Text(TagStart(f.tag, At(store, f.attrs)))]);
      if f.content != [] {
        assert start + f.content[..0] == start;
        for i := 0 to |f.content|
          invariant Valid() && State() == Put(old(State()), start + f.content[..i])
        {
          PushNodes([f.content[i]]);
          PutTwice(old(State()), start + f.content[..i], [f.content[i]]);
          assert start + f.content[..i] + [f.content[i]] == start + f.content[..i + 1];
        }
        assert f.content[..|f.content|] == f.content;
        if closed {
          PushNodes([Text(TagEnd(f.tag))]);
          PutTwice(old(State()), start + f.content, [Text(TagEnd(f.tag))]);
          assert start + f.content + [Text(TagEnd(f.tag))] == AsText(store, f, closed);
        } else {
          assert start + f.content == AsText(store, f, closed);
        }
      } else {
        assert start == AsText(store, f, closed);
      }
    }

    /** appendNodes(getNodes(), tag) */
    method AppendTag(f: Frame)
      requires Valid()
      modifies this`nodes, this`nestedNodes
      ensures Valid() && State() == Put(old(State()), Surface(rules, store, f))
    {
      if rules.IsAllowed(f.tag) {
        PushNodes([TagNode(Lower(f.tag), f.attrs, f.content)]);
      } else {
        AppendAsString(f, true);
      }
    }

    method HandleTagStart(name: string)
      requires Valid()
      modifies this
      ensures Valid() && State() == StartTag(rules, old(State()), name)
    {
      FlushTagNodes();
      var r := |store|;
      store := store + [[]];
      var isNested := IsTokenNested(name);
      tagNodes := tagNodes + [r];
      if isNested {
        nestedNodes := nestedNodes + [Frame(name, r, [])];
      } else {
        AppendTag(Frame(name, r, []));
      }
    }

    method HandleTagEnd()
      requires Valid()
      modifies this
      ensures Valid() && State() == EndTag(rules, old(State()))
    {
      FlushTagNodes();
      if nestedNodes != [] {
        var top := nestedNodes[|nestedNodes| - 1];
        nestedNodes := nestedNodes[..|nestedNodes| - 1];
        AppendTag(top);
      }
    }

    /** activeTagNode.attr(name, value) */
    method WriteAttribute(name: string, value: string)
      requires Valid()
      modifies this`store
      ensures Valid() && State() == WriteAttr(old(State()), name, value)
    {
      if tagNodes != [] {
        var r := tagNodes[|tagNodes| - 1];
        if r < |store| {
          store := store[r := SetAttr(store[r], name, value)];
        }
      }
    }

    method HandleNode(token: Token)
      requires Valid() && !token.kind.Tag?
      modifies this
      ensures Valid() && State() == Step(rules, old(State()), token)
    {
      if token.kind.AttrName? {
        if tagNodes != [] {
          attrNames := attrNames + [token.value];
          var attrName := attrNames[|attrNames| - 1];
          if attrName != "" {
            WriteAttribute(attrName, "");
          }
        }
      } else if token.kind.AttrValue? {
        if tagNodes != [] {
          var attrName := if attrNames == [] then "" else attrNames[|attrNames| - 1];
          if attrName != "" {
            WriteAttribute(attrName, token.value);
            attrNames := attrNames[..|attrNames| - 1];
          } else {
            WriteAttribute(token.value, token.value);
          }
        }
      } else {
        PushNodes([Text(token.value)]);
      }
    }

    method OnToken(token: Token)
      requires Valid()
      modifies this
      ensures Valid() && State() == Step(rules, old(State()), token)
    {
      if token.kind.Tag? {
        if token.IsEnd() {
          HandleTagEnd();
        } else {
          HandleTagStart(token.value);
        }
      } else {
        HandleNode(token);
      }
    }

    /** What parse does once the lexer is done. */
    method Flush()
      requires Valid()
      modifies this
      ensures nodes == Finish(old(State())) && store == old(store)
    {
      if nestedNodes != [] {
        var top := nestedNodes[|nestedNodes| - 1];
        assert top in nestedNodes;
        nestedNodes := nestedNodes[..|nestedNodes| - 1];
        if top.tag in nestedTags {
          AppendAsString(top, false);
        }
      }
    }
  }

  lemma PutTwice(st: State, a: seq<Node>, b: seq<Node>)
    ensures Put(Put(st, a), b) == Put(st, a + b)
  {
    if st.nested == [] {
      assert st.nodes + a + b == st.nodes + (a + b);
    } else {
      var n := |st.nested| - 1;
      var top := st.nested[n];
      assert top.content + a + b == top.content + (a + b);
      assert Put(st, a).nested[..n] == st.nested[..n];
    }
  }
}
