/** What HTML a parsed tree is shown as, tag by tag in the text that is produced; the preset and the renderer together
    are proved to produce it. */
module Html {
  import opened Strings
  import opened TagNodes
  import opened Preset

  // ---------------------------------------------------------------- lists

  predicate IsStar(t: Tree) { (t.Leaf? && t.text != "" && t.text[0] == '*') || (!t.Leaf? && t.tag == "*") }

  /** How many nodes stand in front of the first star. */
  function Leading(content: seq<Tree>): (n: nat)
    ensures n <= |content|
    ensures forall i | 0 <= i < n :: !IsStar(content[i])
    ensures n < |content| ==> IsStar(content[n])
  {
    if content == [] || IsStar(content[0]) then 0 else 1 + Leading(content[1..])
  }

  /** In front of the first star texts stay as they are, and the first tag takes all that follows it. */
  function Lead(content: seq<Tree>): seq<Tree> {
    if content == [] then []
    else if content[0].Elem? then [content[0].(content := content[0].content + content[1..])]
    else [content[0]] + Lead(content[1..])
  }

  /** The text that a star has of its own. */
  function Own(star: Tree): seq<Tree> { if star.Leaf? && star.text != "" then [Leaf(star.text[1..])] else [] }

  /** Each star opens an item: its own text, if it is one, and all that follows up to the next star. */
  function Items(content: seq<Tree>): seq<Tree>
    decreases |content|
  {
    if content == [] then [] else
    var n := Leading(content[1..]);
    [Elem("li", [], Own(content[0]) + content[1..n + 1])] + Items(content[n + 1..])
  }

  lemma {:induction false} ListAppend(acc: seq<Tree>, a: seq<Tree>, b: seq<Tree>)
    ensures ListNodes(acc, a + b) == ListNodes(ListNodes(acc, a), b)
    decreases |a|
  {
    hide AddToList;
    if a == [] {
      assert a + b == b;
    } else {
      assert (a + b)[1..] == a[1..] + b;
      ListAppend(AddToList(acc, a[0]), a[1..], b);
    }
  }

  /** Once a tag stands last it takes what follows. */
  lemma {:induction false} LastTagTakes(acc: seq<Tree>, item: Tree, more: seq<Tree>)
    requires item.Elem? && Leading(more) == |more|
    ensures ListNodes(acc + [item], more) == acc + [item.(content := item.content + more)]
    decreases |more|
  {
    if more == [] {
      assert item.content + [] == item.content;
    } else {
      var grown := item.(content := item.content + [more[0]]);
      assert (acc + [item])[..|acc|] == acc;
      assert AddToList(acc + [item], more[0]) == acc + [grown];
      LastTagTakes(acc, grown, more[1..]);
      assert item.content + [more[0]] + more[1..] == item.content + more;
    }
  }

  lemma {:induction false} LeadMeaning(acc: seq<Tree>, content: seq<Tree>)
    requires Leading(content) == |content| && (acc == [] || !acc[|acc| - 1].Elem?)
    ensures ListNodes(acc, content) == acc + Lead(content)
    decreases |content|
  {
    if content == [] {
      assert acc + [] == acc;
    } else if content[0].Elem? {
      assert AddToList(acc, content[0]) == acc + [content[0]];
      LastTagTakes(acc, content[0], content[1..]);
    } else {
      assert AddToList(acc, content[0]) == acc + [content[0]];
      LeadMeaning(acc + [content[0]], content[1..]);
      assert acc + [content[0]] + Lead(content[1..]) == acc + ([content[0]] + Lead(content[1..]));
    }
  }

  lemma ItemMeaning(acc: seq<Tree>, star: Tree, more: seq<Tree>)
    requires IsStar(star) && Leading(more) == |more|
    ensures ListNodes(acc, [star] + more) == acc + [Elem("li", [], Own(star) + more)]
  {
    hide Leading;
    assert ([star] + more)[1..] == more;
    assert AddToList(acc, star) == acc + [Elem("li", [], Own(star))];
    LastTagTakes(acc, Elem("li", [], Own(star)), more);
  }

  lemma {:induction false} LeadingPart(content: seq<Tree>, n: nat)
    requires n <= Leading(content)
    ensures Leading(content[..n]) == n
  {
    if n > 0 {
      assert content[..n][1..] == content[1..][..n - 1];
      LeadingPart(content[1..], n - 1);
    }
  }

  lemma FirstItemParts(content: seq<Tree>) returns (more: seq<Tree>, rest: seq<Tree>)
    requires content != []
    ensures content == [content[0]] + more + rest && Leading(more) == |more| && (rest != [] ==> IsStar(rest[0]))
    ensures Items(content) == [Elem("li", [], Own(content[0]) + more)] + Items(rest) && |rest| < |content|
  {
    hide IsStar, Own;
    var n := Leading(content[1..]);
    more, rest := content[1..n + 1], content[n + 1..];
    assert more == content[1..][..n];
    LeadingPart(content[1..], n);
    assert rest != [] ==> rest[0] == content[1..][n];
  }

  lemma {:induction false} ItemsMeaning(acc: seq<Tree>, content: seq<Tree>)
    requires content == [] || IsStar(content[0])
    ensures ListNodes(acc, content) == acc + Items(content)
    decreases |content|
  {
    hide AddToList, IsStar, Own, ListNodes, Items, Leading;
    if content == [] {
      NothingListed(acc);
    } else {
      var more, rest := FirstItemParts(content);
      ListAppend(acc, [content[0]] + more, rest);
      ItemMeaning(acc, content[0], more);
      var item := Elem("li", [], Own(content[0]) + more);
      ItemsMeaning(acc + [item], rest);
      assert acc + [item] + Items(rest) == acc + ([item] + Items(rest));
    }
  }

  lemma NothingListed(acc: seq<Tree>)
    ensures ListNodes(acc, []) == acc + Items([])
  {
  }

  /** The nodes of a list: what stands before the first star, then one item for each star. */
  function Grouped(content: seq<Tree>): seq<Tree> {
    var n := Leading(content);
    Lead(content[..n]) + Items(content[n..])
  }

  lemma ListMeaning(content: seq<Tree>)
    ensures ListNodes([], content) == Grouped(content)
  {
    hide AddToList, ListNodes, Items, Lead, IsStar;
    var n := Leading(content);
    LeadingPart(content, n);
    LeadMeaning([], content[..n]);
    assert [] + Lead(content[..n]) == Lead(content[..n]);
    assert content == content[..n] + content[n..];
    ListAppend([], content[..n], content[n..]);
    ItemsMeaning(Lead(content[..n]), content[n..]);
  }

  lemma GroupedWeight(content: seq<Tree>)
    ensures Weight(Grouped(content)) <= 2 * Weight(content)
  {
    hide Weight, Grouped;
    ListMeaning(content);
    ListWeight([], content);
    NoWeight();
  }

  // ---------------------------------------------------------------- tags

  /** A tag with its written attributes around inner text; a node without content closes itself. */
  function Shown(t: Tree, tag: string, attrs: string, inner: string): string {
    if t.Elem? then "<" + tag + attrs + ">" + inner + "</" + tag + ">" else "<" + tag + attrs + "/>"
  }

  function StyleAttr(style: string): string { " style=\"" + EscapeAttr(style) + "\"" }

  function HrefAttr(href: string): string { " href=\"" + EscapeAttr(href) + "\"" }

  function SrcAttr(src: string): string { " src=\"" + EscapeAttr(src) + "\"" }

  function TypeAttr(kind: string): string { " type=\"" + EscapeAttr(kind) + "\"" }

  /** The unnamed value of a tag: the last attribute, when it stands under itself. */
  function ValueOf(attrs: Attrs): Option<string> {
    if attrs == [] then None else
    var (name, value) := attrs[|attrs| - 1];
    if name == value then Some(value) else None
  }

  /** The declarations that colours and sizes become, one blank apart. */
  function Declarations(attrs: Attrs): string {
    if attrs == [] then "" else
    var (name, value) := attrs[0];
    var more := Declarations(attrs[1..]);
    var one := if name == "color" then "color:" + value + ";" else if name == "size" then "font-size:" + value + ";" else "";
    if one == "" then more else if more == "" then one else one + " " + more
  }

  /** A tree as HTML, its own tags left as they are. */
  function Raw(f: seq<Tree>): string {
    if f == [] then "" else
    (if f[0].Leaf? then f[0].text
     else Shown(f[0], f[0].tag, AttrsToString(f[0].attrs), if f[0].Elem? then Raw(f[0].content) else ""))
    + Raw(f[1..])
  }

  function HtmlOf(f: seq<Tree>): string
    decreases Weight(f), |f|
  {
    if f == [] then "" else
    WeightFirst(f);
    HtmlNode(f[0]) + HtmlOf(f[1..])
  }

  function HtmlNode(t: Tree): string
    decreases Weight([t]), 0
  {
    if t.Leaf? then t.text else
    OneWeight(t);
    if t.Void? then TagHtml(t, "", "")
    else if t.tag == "list" then
      GroupedWeight(t.content);
      TagHtml(t, HtmlOf(Grouped(t.content)), "")
    else TagHtml(t, HtmlOf(t.content), Raw(t.content))
  }

  /** One tag, from the HTML of what it holds and from that as it stands. */
  function TagHtml(t: Tree, inner: string, raw: string): string
    requires !t.Leaf?
  {
    var value := ValueOf(t.attrs);
    if t.tag == "b" then Shown(t, "span", StyleAttr("font-weight: bold;"), inner)
    else if t.tag == "i" then Shown(t, "span", StyleAttr("font-style: italic;"), inner)
    else if t.tag == "u" then Shown(t, "span", StyleAttr("text-decoration: underline;"), inner)
    else if t.tag == "s" then Shown(t, "span", StyleAttr("text-decoration: line-through;"), inner)
    else if t.tag == "url" then Shown(t, "a", HrefAttr(if value.Some? && value.value != "" then value.value else raw), inner)
    else if t.tag == "img" then "<img" + SrcAttr(raw) + "/>"
    else if t.tag == "quote" then "<blockquote>" + Shown(t, "p", "", inner) + "</blockquote>"
    else if t.tag == "code" then Shown(t, "pre", "", inner)
    else if t.tag == "style" then Shown(t, "span", StyleAttr(Declarations(t.attrs)), inner)
    else if t.tag == "list" then
      if value.Some? && value.value != "" then Shown(t, "ol", TypeAttr(value.value), inner) else Shown(t, "ul", "", inner)
    else if t.tag == "color" then
      Shown(t, "span", StyleAttr("color: " + (if value.Some? then value.value else "null") + ";"), inner)
    else Shown(t, t.tag, AttrsToString(t.attrs), inner)
  }

  // ---------------------------------------------------------------- the preset shows just that

  lemma {:induction false} RenderIsRaw(f: seq<Tree>)
    ensures Render(f) == Raw(f)
    decreases f
  {
    hide AttrsToString;
    if f != [] {
      RenderIsRaw(f[1..]);
      if f[0].Elem? {
        RenderIsRaw(f[0].content);
      }
    }
  }

  lemma UniqueIsValue(attrs: Attrs)
    ensures UniqueAttr(attrs) == ValueOf(attrs)
    ensures Unique(attrs) == if ValueOf(attrs).Some? then ValueOf(attrs).value else ""
  {
  }

  lemma {:induction false} StyleIsDeclarations(attrs: Attrs)
    ensures Join(StyleParts(attrs)) == Declarations(attrs)
    ensures Declarations(attrs) == "" <==> StyleParts(attrs) == []
  {
    if attrs != [] {
      StyleIsDeclarations(attrs[1..]);
      var one := if attrs[0].0 == "color" then ["color:" + attrs[0].1 + ";"]
                 else if attrs[0].0 == "size" then ["font-size:" + attrs[0].1 + ";"] else [];
      assert one != [] ==> one[0] != "" && (one + StyleParts(attrs[1..]))[1..] == StyleParts(attrs[1..]);
      assert one == [] ==> one + StyleParts(attrs[1..]) == StyleParts(attrs[1..]);
    }
  }

  lemma OneAttr(value: string)
    ensures AttrsToString([("style", value)]) == StyleAttr(value) && AttrsToString([("href", value)]) == HrefAttr(value)
    ensures AttrsToString([("src", value)]) == SrcAttr(value) && AttrsToString([("type", value)]) == TypeAttr(value)
  {
    hide EscapeAttr;
    SingleAttr("style", value);
    SingleAttr("href", value);
    SingleAttr("src", value);
    SingleAttr("type", value);
  }

  lemma SingleAttr(name: string, value: string)
    ensures AttrsToString([(name, value)]) == " " + name + "=\"" + EscapeAttr(value) + "\""
  {
    hide EscapeAttr;
    NoAttr();
    assert [(name, value)][1..] == [];
  }

  lemma NoAttr()
    ensures AttrsToString([]) == ""
  {
  }

  lemma RenderFirst(f: seq<Tree>)
    requires f != []
    ensures Render(f) == Render([f[0]]) + Render(f[1..])
  {
    hide AttrsToString;
    assert [f[0]][1..] == [];
  }

  lemma RenderOne(t: Tree)
    ensures Render([t]) == if t.Leaf? then t.text else Shown(t, t.tag, AttrsToString(t.attrs), if t.Elem? then Render(t.content) else "")
  {
    hide AttrsToString;
    assert [t][1..] == [];
  }

  /** The tag that replaces t and keeps its content. */
  lemma ReplacedShown(t: Tree, tag: string, attrs: Attrs)
    requires !t.Leaf? && Rewrite(t) == WithContentOf(t, tag, attrs)
    ensures Render([WalkNode(t)]) == Shown(t, tag, AttrsToString(attrs), if t.Elem? then Render(Walk(t.content)) else "")
  {
    hide Rewrite, AttrsToString, Walk, Render;
    WalkNodeMeaning(t);
    RenderOne(WalkNode(t));
  }

  lemma ImageShown(t: Tree)
    requires !t.Leaf? && t.tag == "img"
    ensures Render([WalkNode(t)]) == TagHtml(t, "", if t.Elem? then Raw(t.content) else "")
  {
    hide AttrsToString, Walk, Render, EscapeAttr, Raw, SrcAttr;
    WalkNodeMeaning(t);
    var src := Render(Content(t));
    assert Rewrite(t) == Void("img", [("src", src)]);
    RenderOne(WalkNode(t));
    OneAttr(src);
    RenderIsRaw(Content(t));
    NothingShown();
  }

  lemma NothingShown()
    ensures Render([]) == "" && Raw([]) == "" && HtmlOf([]) == ""
  {
  }

  lemma QuoteShown(t: Tree)
    requires !t.Leaf? && t.tag == "quote"
    ensures Render([WalkNode(t)]) == TagHtml(t, if t.Elem? then Render(Walk(t.content)) else "", "")
  {
    hide AttrsToString, Render, Shown, WalkNode, Walk;
    var p := WithContentOf(t, "p", []);
    var n := Elem("blockquote", [], [WalkNode(p)]);
    QuoteWalked(t);
    ReplacedShown(p, "p", []);
    NoAttr();
    RenderOne(n);
    InBlockquote(n, Render([WalkNode(p)]));
    SameShown(t, p, if t.Elem? then Render(Walk(t.content)) else "");
  }

  lemma InBlockquote(n: Tree, inner: string)
    requires n.Elem?
    ensures Shown(n, "blockquote", "", inner) == "<blockquote>" + inner + "</blockquote>"
  {
  }

  lemma SameShown(t: Tree, p: Tree, inner: string)
    requires t.Elem? == p.Elem?
    ensures Shown(t, "p", "", inner) == Shown(p, "p", "", inner)
  {
  }

  lemma QuoteWalked(t: Tree)
    requires !t.Leaf? && t.tag == "quote"
    ensures var p := WithContentOf(t, "p", []); Rewrite(p) == p && WalkNode(t) == Elem("blockquote", [], [WalkNode(p)])
  {
    var p := WithContentOf(t, "p", []);
    WalkNodeMeaning(t);
    assert [p][1..] == [];
    assert Walk([p]) == [WalkNode(p)];
  }

  lemma ListShown(t: Tree)
    requires !t.Leaf? && t.tag == "list"
    ensures Render([WalkNode(t)]) == TagHtml(t, if t.Elem? then Render(Walk(Grouped(t.content))) else "", "")
  {
    hide AttrsToString, Render, ListNodes, Grouped, Walk, WalkNode, EscapeAttr, UniqueAttr, ValueOf, Shown, TypeAttr;
    ListWalked(t);
    UniqueIsValue(t.attrs);
    OneAttr(Unique(t.attrs));
    NoAttr();
    RenderOne(WalkNode(t));
    var n := WalkNode(t);
    ShownAlike(t, n, n.tag, AttrsToString(n.attrs), if n.Elem? then Render(n.content) else "");
  }

  lemma ShownAlike(t: Tree, n: Tree, tag: string, attrs: string, inner: string)
    requires t.Elem? == n.Elem?
    ensures Shown(t, tag, attrs, inner) == Shown(n, tag, attrs, inner)
  {
  }

  lemma ListWalked(t: Tree)
    requires !t.Leaf? && t.tag == "list"
    ensures var kind := Unique(t.attrs);
            var tag, attrs := if kind != "" then "ol" else "ul", if kind != "" then [("type", kind)] else [];
            WalkNode(t) == if t.Elem? then Elem(tag, attrs, Walk(Grouped(t.content))) else Void(tag, attrs)
  {
    hide Walk, ListNodes, Grouped;
    WalkNodeMeaning(t);
    if t.Elem? {
      ListMeaning(t.content);
    }
  }

  lemma StyledShown(t: Tree)
    requires !t.Leaf? && t.tag in {"b", "i", "u", "s"}
    ensures Render([WalkNode(t)]) == TagHtml(t, if t.Elem? then Render(Walk(t.content)) else "", "")
  {
    hide AttrsToString, Render, HtmlOf, Walk, WalkNode, EscapeAttr, ValueOf, Raw, UniqueAttr, Shown, StyleAttr, HrefAttr, SrcAttr, TypeAttr;
    var style := if t.tag == "b" then "font-weight: bold;" else if t.tag == "i" then "font-style: italic;"
                 else if t.tag == "u" then "text-decoration: underline;" else "text-decoration: line-through;";
    ReplacedShown(t, "span", [("style", style)]);
    OneAttr(style);
  }

  lemma LinkShown(t: Tree)
    requires !t.Leaf? && t.tag == "url"
    ensures Render([WalkNode(t)])
         == TagHtml(t, if t.Elem? then Render(Walk(t.content)) else "", if t.Elem? then Raw(t.content) else "")
  {
    hide AttrsToString, Render, HtmlOf, Walk, WalkNode, EscapeAttr, ValueOf, Raw, UniqueAttr, Shown, StyleAttr, HrefAttr, SrcAttr, TypeAttr;
    UniqueIsValue(t.attrs);
    var href := if Unique(t.attrs) != "" then Unique(t.attrs) else Render(Content(t));
    RenderIsRaw(Content(t));
    NothingShown();
    ReplacedShown(t, "a", [("href", href)]);
    OneAttr(href);
  }

  lemma ColouredShown(t: Tree)
    requires !t.Leaf? && (t.tag == "color" || t.tag == "style")
    ensures Render([WalkNode(t)]) == TagHtml(t, if t.Elem? then Render(Walk(t.content)) else "", "")
  {
    hide AttrsToString, Render, HtmlOf, Walk, WalkNode, EscapeAttr, ValueOf, Raw, UniqueAttr, Shown, StyleAttr, HrefAttr, SrcAttr, TypeAttr, Declarations, Join, StyleParts;
    UniqueIsValue(t.attrs);
    StyleIsDeclarations(t.attrs);
    var value := match UniqueAttr(t.attrs) case Some(v) => v case None => "null";
    var style := if t.tag == "color" then "color: " + value + ";" else Join(StyleParts(t.attrs));
    ReplacedShown(t, "span", [("style", style)]);
    OneAttr(style);
  }

  lemma OtherShown(t: Tree)
    requires !t.Leaf? && t.tag !in {"b", "i", "u", "s", "url", "img", "quote", "style", "list", "color"}
    ensures Render([WalkNode(t)]) == TagHtml(t, if t.Elem? then Render(Walk(t.content)) else "", "")
  {
    hide AttrsToString, Render, HtmlOf, Walk, WalkNode, EscapeAttr, ValueOf, Raw, UniqueAttr, Shown, StyleAttr, HrefAttr, SrcAttr, TypeAttr;
    if t.tag == "code" {
      ReplacedShown(t, "pre", []);
      NoAttr();
    } else {
      ReplacedShown(t, t.tag, t.attrs);
    }
  }

  /** Only a link and an image look at their content as it stands. */
  lemma RawUnused(t: Tree, inner: string, raw: string)
    requires !t.Leaf? && t.tag != "url" && t.tag != "img"
    ensures TagHtml(t, inner, raw) == TagHtml(t, inner, "")
  {
    hide Shown, StyleAttr, AttrsToString, TypeAttr, ValueOf;
  }

  lemma InnerUnused(t: Tree, inner: string, raw: string)
    requires !t.Leaf? && t.tag == "img"
    ensures TagHtml(t, inner, raw) == TagHtml(t, "", raw)
  {
    hide SrcAttr;
  }

  lemma NodeShown(t: Tree)
    requires !t.Leaf? && (t.Elem? && t.tag != "list" ==> Render(Walk(t.content)) == HtmlOf(t.content))
    requires t.Elem? && t.tag == "list" ==> Render(Walk(Grouped(t.content))) == HtmlOf(Grouped(t.content))
    ensures Render([WalkNode(t)]) == HtmlNode(t)
  {
    hide Render, HtmlOf, Walk, WalkNode, Raw, Grouped, TagHtml;
    var inner := if t.Elem? then Render(Walk(t.content)) else "";
    var raw := if t.Elem? then Raw(t.content) else "";
    if t.tag == "list" { ListShown(t); }
    else if t.tag == "img" { ImageShown(t); InnerUnused(t, inner, raw); }
    else if t.tag == "url" { LinkShown(t); }
    else {
      RawUnused(t, inner, raw);
      if t.tag == "quote" { QuoteShown(t); }
      else if t.tag in {"b", "i", "u", "s"} { StyledShown(t); }
      else if t.tag == "color" || t.tag == "style" { ColouredShown(t); }
      else { OtherShown(t); }
    }
  }

  /** The rewritten tree, rendered, is the HTML of the parsed one. */
  lemma {:induction false} WalkIsHtml(f: seq<Tree>)
    ensures Render(Walk(f)) == HtmlOf(f)
    decreases Weight(f), |f|
  {
    hide Render, WalkNode, HtmlNode, Grouped;
    if f == [] {
      NothingShown();
    } else {
      var t := f[0];
      WeightFirst(f);
      OneWeight(t);
      WalkIsHtml(f[1..]);
      RenderFirst(Walk(f));
      assert Walk(f)[0] == WalkNode(t) && Walk(f)[1..] == Walk(f[1..]);
      if t.Leaf? {
        LeafShown(t);
      } else {
        if t.Elem? && t.tag == "list" {
          GroupedWeight(t.content);
          WalkIsHtml(Grouped(t.content));
        } else if t.Elem? {
          WalkIsHtml(t.content);
        }
        NodeShown(t);
      }
    }
  }

  lemma LeafShown(t: Tree)
    requires t.Leaf?
    ensures Render([WalkNode(t)]) == HtmlNode(t)
  {
    RenderOne(t);
  }
}
