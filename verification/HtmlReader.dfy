/** The HTML that is produced, read as text again: every tag is closed in its place, and between the tags stands the text
    of the tree. */
module HtmlReader {
  import opened Strings
  import opened LexerSpec
  import opened ParserSpec
  import opened TagNodes
  import opened Preset
  import opened Escaping
  import opened Html
  import opened Convert

  // ---------------------------------------------------------------- reading

  /** The text between the tags, when each closing tag names the tag opened last and none is left open. */
  function Read(html: string, open: seq<string>): Option<string>
    decreases |html|
  {
    if html == "" then (if open == [] then Some("") else None)
    else if html[0] != '<' then Behind([html[0]], Read(html[1..], open))
    else
      var tag := UpTo(html[1..], '>');
      if |tag| == |html| - 1 || tag == "" then None else
      var rest := html[|tag| + 2..];
      if tag[0] == '/' then
        if open != [] && open[|open| - 1] == tag[1..] then Read(rest, open[..|open| - 1]) else None
      else if tag[|tag| - 1] == '/' then Read(rest, open)
      else Read(rest, open + [TakeWhile(tag, c => c != ' ')])
  }

  function Behind(text: string, more: Option<string>): Option<string> {
    if more.Some? then Some(text + more.value) else None
  }

  // ---------------------------------------------------------------- trees whose HTML can be read

  /** A name that can be told in HTML. */
  predicate HtmlName(name: string) {
    name != "" && '<' !in name && '>' !in name && ' ' !in name && name[0] != '/' && name[|name| - 1] != '/'
  }

  predicate HtmlAttrs(attrs: Attrs) { forall a | a in attrs :: '<' !in a.0 && '>' !in a.0 }

  predicate Clean(f: seq<Tree>) {
    f == [] || (CleanNode(f[0]) && Clean(f[1..]))
  }

  predicate CleanNode(t: Tree) {
    match t
    case Leaf(s) => '<' !in s
    case Void(tag, attrs) => HtmlName(tag) && HtmlAttrs(attrs)
    case Elem(tag, attrs, content) => HtmlName(tag) && HtmlAttrs(attrs) && Clean(content)
  }

  lemma BehindTwice(a: string, b: string, more: Option<string>)
    ensures Behind(a, Behind(b, more)) == Behind(a + b, more)
  {
    if more.Some? {
      assert a + (b + more.value) == a + b + more.value;
    }
  }

  lemma NothingRead(more: string)
    ensures Render([]) + more == more && TextOf([]) == "" && forall o: Option<string> :: Behind("", o) == o
  {
    assert forall s: string :: "" + s == s;
  }

  lemma {:induction false} TextRead(text: string, more: string, open: seq<string>)
    requires '<' !in text
    ensures Read(text + more, open) == Behind(text, Read(more, open))
    decreases |text|
  {
    if text == "" {
      assert text + more == more;
      NothingRead(more);
    } else {
      assert (text + more)[1..] == text[1..] + more;
      assert text[0] in text && forall c | c in text[1..] :: c in text;
      TextRead(text[1..], more, open);
      BehindTwice([text[0]], text[1..], Read(more, open));
      assert text == [text[0]] + text[1..];
    }
  }

  lemma {:induction false} WrittenAttrs(attrs: Attrs)
    requires HtmlAttrs(attrs)
    ensures var s := AttrsToString(attrs);
            '>' !in s && (attrs != [] ==> s != "" && s[0] == ' ' && s[|s| - 1] == '"')
  {
    hide EscapeAttr;
    if attrs != [] {
      assert attrs[0] in attrs && forall a | a in attrs[1..] :: a in attrs;
      WrittenAttrs(attrs[1..]);
      WrittenIsHarmless(attrs[0].1);
      var value := EscapeAttr(attrs[0].1);
      assert '>' !in value;
    }
  }

  lemma TagRead(tag: string, more: string, open: seq<string>)
    requires tag != "" && '>' !in tag
    ensures Read("<" + tag + ">" + more, open) ==
            if tag[0] == '/' then if open != [] && open[|open| - 1] == tag[1..] then Read(more, open[..|open| - 1]) else None
            else if tag[|tag| - 1] == '/' then Read(more, open)
            else Read(more, open + [TakeWhile(tag, c => c != ' ')])
  {
    var html := "<" + tag + ">" + more;
    assert html[1..] == tag + ['>'] + more;
    UpToUnique(tag, '>', more);
    assert html[|tag| + 2..] == more;
  }

  lemma OpeningRead(name: string, attrs: Attrs, more: string, open: seq<string>)
    requires HtmlName(name) && HtmlAttrs(attrs)
    ensures Read("<" + (name + AttrsToString(attrs)) + ">" + more, open) == Read(more, open + [name])
  {
    hide Read;
    var tag := name + AttrsToString(attrs);
    WrittenAttrs(attrs);
    NoAttr();
    assert tag[0] == name[0];
    assert tag[|tag| - 1] == if attrs == [] then name[|name| - 1] else '"';
    TakeWhileUnique(name, AttrsToString(attrs), c => c != ' ');
    TagRead(tag, more, open);
  }

  lemma ClosingRead(name: string, more: string, open: seq<string>)
    requires HtmlName(name)
    ensures Read("<" + ("/" + name) + ">" + more, open + [name]) == Read(more, open)
  {
    hide Read;
    TagRead("/" + name, more, open + [name]);
    assert (open + [name])[..|open|] == open && ("/" + name)[1..] == name;
  }

  lemma VoidRead(name: string, attrs: Attrs, more: string, open: seq<string>)
    requires HtmlName(name) && HtmlAttrs(attrs)
    ensures Read("<" + (name + AttrsToString(attrs) + "/") + ">" + more, open) == Read(more, open)
  {
    hide Read;
    WrittenAttrs(attrs);
    TagRead(name + AttrsToString(attrs) + "/", more, open);
  }

  /** What is shown of one node. */
  lemma NodeText(t: Tree, more: string)
    ensures Render([t]) + more ==
            match t
            case Leaf(s) => s + more
            case Void(tag, attrs) => "<" + (tag + AttrsToString(attrs) + "/") + ">" + more
            case Elem(tag, attrs, content) =>
              "<" + (tag + AttrsToString(attrs)) + ">" + (Render(content) + ("<" + ("/" + tag) + ">" + more))
  {
    hide AttrsToString, Render;
    RenderOne(t);
  }

  /** For every tree whose names and texts hold no angle brackets, every opening tag of its HTML has its closing tag, and
      what stands between the tags is the text of the tree. */
  lemma {:induction false} HtmlReads(f: seq<Tree>, more: string, open: seq<string>)
    requires Clean(f)
    ensures Read(Render(f) + more, open) == Behind(TextOf(f), Read(more, open))
    decreases f
  {
    hide Read, Render, TextOf;
    if f == [] {
      NothingRead(more);
    } else {
      var t, rest := f[0], Render(f[1..]) + more;
      RenderFirst(f);
      TextFirst(f);
      assert Render(f) + more == Render([t]) + rest;
      NodeReads(t, rest, open);
      HtmlReads(f[1..], more, open);
      BehindTwice(TextOf([t]), TextOf(f[1..]), Read(more, open));
    }
  }

  lemma NodeReads(t: Tree, rest: string, open: seq<string>)
    requires CleanNode(t)
    ensures Read(Render([t]) + rest, open) == Behind(TextOf([t]), Read(rest, open))
    decreases t, 0
  {
    hide Read, Render, TextOf, AttrsToString, HtmlName, HtmlAttrs;
    NodeText(t, rest);
    OneText(t);
    NothingRead(rest);
    match t
    case Leaf(s) => TextRead(s, rest, open);
    case Void(tag, attrs) => VoidRead(tag, attrs, rest, open);
    case Elem(tag, attrs, content) =>
      var closing := "<" + ("/" + tag) + ">" + rest;
      OpeningRead(tag, attrs, Render(content) + closing, open);
      HtmlReads(content, closing, open + [tag]);
      ClosingRead(tag, rest, open);
  }

  // ---------------------------------------------------------------- from the input

  lemma {:induction false} CleanAppend(a: seq<Tree>, b: seq<Tree>)
    ensures Clean(a + b) <==> Clean(a) && Clean(b)
    decreases |a|
  {
    hide CleanNode;
    if a == [] {
      assert a + b == b;
    } else {
      assert (a + b)[1..] == a[1..] + b;
      CleanAppend(a[1..], b);
    }
  }

  lemma OneClean(t: Tree)
    ensures Clean([t]) <==> CleanNode(t)
  {
    assert [t][1..] == [];
  }

  lemma AddClean(acc: seq<Tree>, t: Tree)
    requires Clean(acc) && CleanNode(t)
    ensures Clean(AddToList(acc, t))
  {
    hide HtmlName, HtmlAttrs;
    OneClean(t);
    if IsStarText(t) {
      StarClean(t);
      CleanAppend(acc, [Elem("li", [], [Leaf(t.text[1..])])]);
    } else if IsStarTag(t) {
      ItemClean([]);
      CleanAppend(acc, [Elem("li", [], [])]);
    } else if acc != [] && acc[|acc| - 1].Elem? {
      var n := |acc| - 1;
      var item' := acc[n].(content := acc[n].content + [t]);
      assert acc == acc[..n] + [acc[n]];
      CleanAppend(acc[..n], [acc[n]]);
      OneClean(acc[n]);
      CleanAppend(acc[n].content, [t]);
      OneClean(item');
      CleanAppend(acc[..n], [item']);
    } else {
      CleanAppend(acc, [t]);
    }
  }

  lemma ItemClean(content: seq<Tree>)
    requires Clean(content)
    ensures Clean([Elem("li", [], content)])
  {
    OneClean(Elem("li", [], content));
  }

  lemma StarClean(t: Tree)
    requires IsStarText(t) && CleanNode(t)
    ensures Clean([Elem("li", [], [Leaf(t.text[1..])])])
  {
    assert forall c | c in t.text[1..] :: c in t.text;
    OneClean(Leaf(t.text[1..]));
    ItemClean([Leaf(t.text[1..])]);
  }

  lemma {:induction false} ListClean(acc: seq<Tree>, content: seq<Tree>)
    requires Clean(acc) && Clean(content)
    ensures Clean(ListNodes(acc, content))
    decreases |content|
  {
    hide AddToList, CleanNode;
    if content != [] {
      AddClean(acc, content[0]);
      ListClean(AddToList(acc, content[0]), content[1..]);
    }
  }

  lemma FixedNames()
    ensures HtmlName("span") && HtmlName("a") && HtmlName("img") && HtmlName("blockquote") && HtmlName("p")
    ensures HtmlName("pre") && HtmlName("ol") && HtmlName("ul") && HtmlAttrs([])
  {
  }

  lemma FixedAttrs(value: string)
    ensures HtmlAttrs([("style", value)]) && HtmlAttrs([("href", value)]) && HtmlAttrs([("src", value)]) && HtmlAttrs([("type", value)])
  {
  }

  lemma KeptClean(t: Tree, tag: string, attrs: Attrs)
    requires CleanNode(t) && !t.Leaf? && HtmlName(tag) && HtmlAttrs(attrs)
    ensures CleanNode(WithContentOf(t, tag, attrs))
  {
    hide HtmlName, HtmlAttrs;
  }

  lemma ListNodeClean(t: Tree)
    requires CleanNode(t) && !t.Leaf? && t.tag == "list"
    ensures CleanNode(Rewrite(t))
  {
    hide HtmlName, HtmlAttrs, ListNodes, UniqueAttr;
    FixedNames();
    FixedAttrs(Unique(t.attrs));
    if t.Elem? {
      ListClean([], t.content);
    }
  }

  /** The other tags keep their content in a new tag. */
  lemma ReplacedClean(t: Tree)
    requires CleanNode(t) && !t.Leaf? && t.tag !in {"list", "quote", "img"}
    ensures CleanNode(Rewrite(t))
  {
    hide HtmlName, HtmlAttrs, CleanNode, Render, Join, StyleParts, UniqueAttr;
    FixedNames();
    var n := Rewrite(t);
    if n != t {
      FixedAttrs(if n.attrs == [] then "" else n.attrs[0].1);
      KeptClean(t, n.tag, n.attrs);
    }
  }

  lemma RewriteClean(t: Tree)
    requires CleanNode(t)
    ensures CleanNode(Rewrite(t))
  {
    hide Render, Join, StyleParts, ListNodes, UniqueAttr, HtmlName, HtmlAttrs;
    if t.Leaf? {
    } else if t.tag == "quote" {
      FixedNames();
      OneClean(WithContentOf(t, "p", []));
    } else if t.tag == "list" {
      ListNodeClean(t);
    } else if t.tag == "img" {
      FixedNames();
      FixedAttrs(Render(Content(t)));
    } else {
      ReplacedClean(t);
    }
  }

  lemma {:induction false} WalkClean(f: seq<Tree>)
    requires Clean(f)
    ensures Clean(Walk(f))
    decreases Weight(f), |f|
  {
    hide Rewrite, HtmlName, HtmlAttrs;
    if f != [] {
      WeightFirst(f);
      RewriteShrinks(f[0]);
      RewriteClean(f[0]);
      WalkNodeMeaning(f[0]);
      var n := Rewrite(f[0]);
      if n.Elem? {
        WalkClean(n.content);
      }
      WalkClean(f[1..]);
      assert Walk(f)[1..] == Walk(f[1..]) && Walk(f)[0] == WalkNode(f[0]);
    }
  }

  /** From the input: when no name and no text of the parsed tree holds an angle bracket, all tags of the HTML are closed in
      their places and the text between them is that of the rewritten tree; that of the parsed tree when the preset keeps it. */
  lemma ConvertedReads(input: string)
    requires Clean(Parse(DefaultOptions, input))
    ensures Read(Converted(input), []) == Some(TextOf(Walk(Parse(DefaultOptions, input))))
    ensures Read(Converted(input), []) == Some(TextOf(Parse(DefaultOptions, input))) <==> Keeps(Parse(DefaultOptions, input))
  {
    hide Parse, Walk, Render, TextOf, Keeps, Clean;
    var f := Parse(DefaultOptions, input);
    WalkClean(f);
    HtmlReads(Walk(f), "", []);
    assert Render(Walk(f)) + "" == Render(Walk(f));
    assert TextOf(Walk(f)) + "" == TextOf(Walk(f));
    PresetKeepsText(f);
  }
}
