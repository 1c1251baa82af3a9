/** The HTML5 preset: the walk that rewrites a parsed tree in place, and the HTML renderer. */
module Preset {
  import opened Strings
  import opened TagNodes

  // ---------------------------------------------------------------- rendering

  /** render(nodes) */
  function Render(f: seq<Tree>): string {
    if f == [] then "" else
    (match f[0]
     case Leaf(s) => s
     case Void(tag, attrs) => "<" + tag + AttrsToString(attrs) + "/>"
     case Elem(tag, attrs, content) =>
       "<" + tag + AttrsToString(attrs) + ">" + Render(content) + "</" + tag + ">") + Render(f[1..])
  }

  // ---------------------------------------------------------------- what becomes of one tag

  /** toNode(tag, attrs, node.content): a null content stays null. */
  function WithContentOf(t: Tree, tag: string, attrs: Attrs): Tree {
    if t.Elem? then Elem(tag, attrs, t.content) else Void(tag, attrs)
  }

  function Join(parts: seq<string>): string {
    if parts == [] then "" else if |parts| == 1 then parts[0] else parts[0] + " " + Join(parts[1..])
  }

  function StyleParts(attrs: Attrs): seq<string> {
    if attrs == [] then [] else
    (if attrs[0].0 == "color" then ["color:" + attrs[0].1 + ";"]
     else if attrs[0].0 == "size" then ["font-size:" + attrs[0].1 + ";"]
     else []) + StyleParts(attrs[1..])
  }

  /** getUniqAttr as a condition: null and the empty string are both false. */
  function Unique(attrs: Attrs): string {
    if UniqueAttr(attrs).Some? then UniqueAttr(attrs).value else ""
  }

  predicate IsStarText(t: Tree) { t.Leaf? && t.text != "" && t.text[0] == '*' }

  predicate IsStarTag(t: Tree) { !t.Leaf? && t.tag == "*" }

  /** One round of toListNodes: a star opens a new item, anything else goes into the last tag, if there is one. */
  function AddToList(acc: seq<Tree>, t: Tree): (r: seq<Tree>)
    ensures r != []
  {
    if IsStarText(t) then acc + [Elem("li", [], [Leaf(t.text[1..])])]
    else if IsStarTag(t) then acc + [Elem("li", [], [])]
    else if acc != [] && acc[|acc| - 1].Elem? then
      var item := acc[|acc| - 1];
      acc[..|acc| - 1] + [item.(content := item.content + [t])]
    else acc + [t]
  }

  function ListNodes(acc: seq<Tree>, content: seq<Tree>): seq<Tree>
    decreases |content|
  {
    if content == [] then acc else ListNodes(AddToList(acc, content[0]), content[1..])
  }

  /** defaultTags: the node a tag is replaced by. */
  function Rewrite(t: Tree): Tree {
    if t.Leaf? then t
    else if t.tag == "b" then WithContentOf(t, "span", [("style", "font-weight: bold;")])
    else if t.tag == "i" then WithContentOf(t, "span", [("style", "font-style: italic;")])
    else if t.tag == "u" then WithContentOf(t, "span", [("style", "text-decoration: underline;")])
    else if t.tag == "s" then WithContentOf(t, "span", [("style", "text-decoration: line-through;")])
    else if t.tag == "url" then
      WithContentOf(t, "a", [("href", if Unique(t.attrs) != "" then Unique(t.attrs) else Render(Content(t)))])
    else if t.tag == "img" then Void("img", [("src", Render(Content(t)))])
    else if t.tag == "quote" then Elem("blockquote", [], [WithContentOf(t, "p", [])])
    else if t.tag == "code" then WithContentOf(t, "pre", [])
    else if t.tag == "style" then WithContentOf(t, "span", [("style", Join(StyleParts(t.attrs)))])
    else if t.tag == "list" then
      var kind := Unique(t.attrs);
      var tag := if kind != "" then "ol" else "ul";
      var attrs := if kind != "" then [("type", kind)] else [];
      if t.Elem? then Elem(tag, attrs, ListNodes([], t.content)) else Void(tag, attrs)
    else if t.tag == "color" then
      var value := match UniqueAttr(t.attrs) case Some(v) => v case None => "null";
      WithContentOf(t, "span", [("style", "color: " + value + ";")])
    else t
  }

  // ---------------------------------------------------------------- the walk ends

  /** A measure that each rewriting step shrinks: lists and quotes make new nodes, which are then walked too. */
  function Weight(f: seq<Tree>): nat {
    if f == [] then 0 else
    (match f[0]
     case Leaf(_) => 1
     case Void(tag, _) => if tag == "quote" then 3 else 1
     case Elem(tag, _, content) =>
       if tag == "quote" then 3 + Weight(content)
       else if tag == "list" then 1 + 2 * Weight(content)
       else 1 + Weight(content)) + Weight(f[1..])
  }

  lemma {:induction false} WeightAppend(a: seq<Tree>, b: seq<Tree>)
    ensures Weight(a + b) == Weight(a) + Weight(b)
    decreases |a|
  {
    if a == [] {
      assert a + b == b;
    } else {
      assert (a + b)[1..] == a[1..] + b;
      WeightAppend(a[1..], b);
    }
  }

  lemma OneWeight(t: Tree)
    ensures Weight([t]) ==
            if t.Leaf? then 1
            else (if t.tag == "quote" then 3 else 1) + if t.Void? then 0
                                                       else if t.tag == "list" then 2 * Weight(t.content) else Weight(t.content)
  {
    assert [t][1..] == [];
  }

  /** One more node in a tag weighs at most twice as much as it does alone. */
  lemma GrownWeight(item: Tree, t: Tree)
    requires item.Elem?
    ensures Weight([item.(content := item.content + [t])]) <= Weight([item]) + 2 * Weight([t])
  {
    hide Weight;
    WeightAppend(item.content, [t]);
    OneWeight(item);
    OneWeight(item.(content := item.content + [t]));
  }

  lemma AddWeight(acc: seq<Tree>, t: Tree)
    ensures Weight(AddToList(acc, t)) <= Weight(acc) + 2 * Weight([t])
  {
    hide Weight;
    OneWeight(t);
    if IsStarText(t) {
      var text := Leaf(t.text[1..]);
      OneWeight(text);
      OneWeight(Elem("li", [], [text]));
      WeightAppend(acc, [Elem("li", [], [text])]);
    } else if IsStarTag(t) {
      OneWeight(Elem("li", [], []));
      NoWeight();
      WeightAppend(acc, [Elem("li", [], [])]);
    } else if acc != [] && acc[|acc| - 1].Elem? {
      var n := |acc| - 1;
      GrownWeight(acc[n], t);
      WeightAppend(acc[..n], [acc[n]]);
      WeightAppend(acc[..n], [acc[n].(content := acc[n].content + [t])]);
      assert acc == acc[..n] + [acc[n]];
    } else {
      WeightAppend(acc, [t]);
    }
  }

  lemma NoWeight()
    ensures Weight([]) == 0
  {
  }

  lemma {:induction false} ListWeight(acc: seq<Tree>, content: seq<Tree>)
    ensures Weight(ListNodes(acc, content)) <= Weight(acc) + 2 * Weight(content)
    decreases |content|
  {
    if content != [] {
      AddWeight(acc, content[0]);
      ListWeight(AddToList(acc, content[0]), content[1..]);
      WeightFirst(content);
    }
  }

  lemma WeightFirst(f: seq<Tree>)
    requires f != []
    ensures Weight(f) == Weight([f[0]]) + Weight(f[1..]) && Weight([f[0]]) > 0
  {
    assert [f[0]][1..] == [];
  }

  /** The content of the new node weighs less than the old node, so re-entering it ends. */
  lemma RewriteShrinks(t: Tree)
    ensures Weight(Content(Rewrite(t))) < Weight([t])
  {
    hide Render, Join, StyleParts;
    assert [t][1..] == [];
    if t.Elem? && t.tag == "list" {
      ListWeight([], t.content);
    } else if !t.Leaf? && t.tag == "quote" {
      assert [WithContentOf(t, "p", [])][1..] == [];
    }
  }

  /** The tree after the walk: each node is replaced, then the replacement's content is walked. */
  function Walk(f: seq<Tree>): (r: seq<Tree>)
    ensures |r| == |f|
    decreases Weight(f), |f|
  {
    if f == [] then [] else
    WeightFirst(f);
    [WalkNode(f[0])] + Walk(f[1..])
  }

  function WalkNode(t: Tree): Tree
    decreases Weight([t]), 0
  {
    var n := Rewrite(t);
    RewriteShrinks(t);
    if n.Elem? then n.(content := Walk(n.content)) else n
  }

  lemma {:induction false} WalkAt(f: seq<Tree>, i: nat)
    requires i < |f|
    ensures Walk(f)[i] == WalkNode(f[i])
  {
    if i > 0 {
      WalkAt(f[1..], i - 1);
    }
  }

  lemma {:induction false} WeightAt(f: seq<Tree>, i: nat)
    requires i < |f|
    ensures Weight([f[i]]) <= Weight(f)
  {
    WeightFirst(f);
    if i > 0 {
      WeightAt(f[1..], i - 1);
    }
  }

  /** iterate on an array, with the preset's callback: every place is overwritten. */
  method Iterate(tree: array<Tree>)
    modifies tree
    ensures tree[..] == Walk(old(tree[..]))
    decreases Weight(tree[..]), 1
  {
    hide Rewrite, WalkNode, Walk;
    ghost var before := tree[..];
    for idx := 0 to tree.Length
      invariant forall k | 0 <= k < idx :: tree[k] == Walk(before)[k]
      invariant forall k | idx <= k < tree.Length :: tree[k] == before[k]
    {
      WalkAt(before, idx);
      WeightAt(before, idx);
      RewriteShrinks(before[idx]);
      WalkNodeMeaning(before[idx]);
      var node := IterateNode(Rewrite(tree[idx]));
      tree[idx] := node;
    }
    assert tree[..] == Walk(before);
  }

  /** iterate on a node: the places of its content array are overwritten. */
  method IterateNode(n: Tree) returns (r: Tree)
    ensures r == if n.Elem? then n.(content := Walk(n.content)) else n
    decreases Weight(Content(n)), 2
  {
    hide Walk;
    r := n;
    if n.Elem? {
      var content := new Tree[|n.content|](i requires 0 <= i < |n.content| => n.content[i]);
      assert content[..] == n.content;
      Iterate(content);
      r := n.(content := content[..]);
    }
  }

  lemma WalkNodeMeaning(t: Tree)
    ensures var n := Rewrite(t); WalkNode(t) == if n.Elem? then n.(content := Walk(n.content)) else n
  {
  }

  // ---------------------------------------------------------------- the text survives

  lemma {:induction false} TextAppend(a: seq<Tree>, b: seq<Tree>)
    ensures TextOf(a + b) == TextOf(a) + TextOf(b)
    decreases |a|
  {
    if a == [] {
      assert a + b == b;
    } else {
      assert (a + b)[1..] == a[1..] + b;
      TextAppend(a[1..], b);
    }
  }

  lemma TextFirst(f: seq<Tree>)
    requires f != []
    ensures TextOf(f) == TextOf([f[0]]) + TextOf(f[1..])
  {
    assert [f[0]][1..] == [];
  }

  /** In a list: no text opens an item by its star, and no star tag holds text. */
  predicate StarFree(content: seq<Tree>) {
    forall t | t in content :: !IsStarText(t) && (IsStarTag(t) ==> TextOf([t]) == "")
  }

  lemma OneText(t: Tree)
    ensures TextOf([t]) == if t.Leaf? then t.text else TextOf(Content(t))
  {
    assert [t][1..] == [];
  }

  /** Text put into the last tag comes after all the text there was. */
  lemma TextIntoLast(acc: seq<Tree>, t: Tree)
    requires acc != [] && acc[|acc| - 1].Elem?
    ensures var n := |acc| - 1;
            TextOf(acc[..n] + [acc[n].(content := acc[n].content + [t])]) == TextOf(acc) + TextOf([t])
  {
    hide TextOf;
    var n := |acc| - 1;
    var item := acc[n];
    var item' := item.(content := item.content + [t]);
    TextAppend(item.content, [t]);
    TextAppend(acc[..n], [item]);
    TextAppend(acc[..n], [item']);
    assert acc == acc[..n] + [item];
    OneText(item);
    OneText(item');
    Associate(TextOf(acc[..n]), TextOf(item.content), TextOf([t]));
  }

  lemma Associate(a: string, b: string, c: string)
    ensures a + (b + c) == (a + b) + c
  {
  }

  lemma AddText(acc: seq<Tree>, t: Tree)
    ensures if StarFree([t]) then TextOf(AddToList(acc, t)) == TextOf(acc) + TextOf([t])
            else |TextOf(AddToList(acc, t))| < |TextOf(acc)| + |TextOf([t])|
  {
    hide TextOf;
    OneText(t);
    assert StarFree([t]) <==> !IsStarText(t) && (IsStarTag(t) ==> TextOf([t]) == "") by {
      assert t in [t];
    }
    NoText();
    if IsStarText(t) {
      var item := Elem("li", [], [Leaf(t.text[1..])]);
      TextAppend(acc, [item]);
      OneText(item);
      OneText(item.content[0]);
    } else if IsStarTag(t) {
      var item := Elem("li", [], []);
      TextAppend(acc, [item]);
      OneText(item);
      assert TextOf(acc) + "" == TextOf(acc);
    } else if acc != [] && acc[|acc| - 1].Elem? {
      TextIntoLast(acc, t);
    } else {
      TextAppend(acc, [t]);
    }
  }

  lemma {:induction false} ListText(acc: seq<Tree>, content: seq<Tree>)
    ensures if StarFree(content) then TextOf(ListNodes(acc, content)) == TextOf(acc) + TextOf(content)
            else |TextOf(ListNodes(acc, content))| < |TextOf(acc)| + |TextOf(content)|
    decreases |content|
  {
    hide AddToList, TextOf, IsStarText, IsStarTag;
    if content != [] {
      AddText(acc, content[0]);
      ListText(AddToList(acc, content[0]), content[1..]);
      TextFirst(content);
      assert forall t | t in content[1..] :: t in content;
      assert content[0] in content;
      assert StarFree(content) <==> StarFree([content[0]]) && StarFree(content[1..]);
    } else {
      NoText();
    }
  }

  lemma NoText()
    ensures TextOf([]) == ""
  {
  }

  /** Whether replacing one node keeps its text: an image drops what it shows, a list its stars. */
  predicate KeepsOwnText(t: Tree) {
    (t.Elem? && t.tag == "img" ==> TextOf(t.content) == "") && (t.Elem? && t.tag == "list" ==> StarFree(t.content))
  }

  lemma RewriteText(t: Tree)
    ensures if KeepsOwnText(t) then TextOf([Rewrite(t)]) == TextOf([t]) else |TextOf([Rewrite(t)])| < |TextOf([t])|
  {
    hide Render, Join, StyleParts, StarFree, ListNodes, TextOf;
    OneText(t);
    OneText(Rewrite(t));
    NoText();
    if t.Elem? && t.tag == "list" {
      ListText([], t.content);
    } else if !t.Leaf? && t.tag == "quote" {
      OneText(WithContentOf(t, "p", []));
    }
  }

  /** The whole tree keeps its text: no image holds text, and no list has stars, neither as parsed nor once the
      nodes behind a tag have been put into that tag. */
  predicate Keeps(f: seq<Tree>)
    decreases Weight(f), |f|
  {
    if f == [] then true else
    WeightFirst(f);
    KeepsNode(f[0]) && Keeps(f[1..])
  }

  predicate KeepsNode(t: Tree)
    decreases Weight([t]), 0
  {
    if !t.Elem? then true else
    OneWeight(t);
    if t.tag == "img" then TextOf(t.content) == ""
    else if t.tag == "list" then
      ListWeight([], t.content);
      StarFree(t.content) && Keeps(ListNodes([], t.content))
    else Keeps(t.content)
  }

  /** This is the same as to look at the replacement of each node. */
  lemma KeepsRewritten(t: Tree)
    ensures KeepsNode(t) <==> KeepsOwnText(t) && Keeps(Content(Rewrite(t)))
  {
    hide Render, Join, StyleParts, TextOf, StarFree, ListNodes;
    if !t.Leaf? && t.tag == "quote" {
      var p := WithContentOf(t, "p", []);
      assert [p][1..] == [] && Keeps([p]) == KeepsNode(p);
    }
  }

  lemma WalkFirst(f: seq<Tree>)
    requires f != []
    ensures TextOf(Walk(f)) == TextOf([WalkNode(f[0])]) + TextOf(Walk(f[1..]))
  {
    hide TextOf, WalkNode;
    TextFirst(Walk(f));
    assert Walk(f)[1..] == Walk(f[1..]) && Walk(f)[0] == WalkNode(f[0]);
  }

  lemma {:induction false} WalkText(f: seq<Tree>)
    ensures if Keeps(f) then TextOf(Walk(f)) == TextOf(f) else |TextOf(Walk(f))| < |TextOf(f)|
    decreases Weight(f), |f|
  {
    hide Rewrite, KeepsOwnText, KeepsNode, TextOf, Walk;
    if f == [] {
      NothingWalked();
    } else {
      WeightFirst(f);
      RewriteShrinks(f[0]);
      KeepsRewritten(f[0]);
      RewriteText(f[0]);
      var n := Rewrite(f[0]);
      WalkText(Content(n));
      WalkText(f[1..]);
      TextFirst(f);
      WalkFirst(f);
      OneText(n);
      OneText(WalkNode(f[0]));
    }
  }

  lemma NothingWalked()
    ensures Walk([]) == []
  {
  }

  /** The preset keeps the visible text, character for character, exactly when no image has text inside and no
      list has stars, at any node the walk meets; otherwise text is lost and none is added. */
  lemma PresetKeepsText(f: seq<Tree>)
    ensures TextOf(Walk(f)) == TextOf(f) <==> Keeps(f)
    ensures |TextOf(Walk(f))| <= |TextOf(f)|
  {
    WalkText(f);
  }

  predicate IsImageOrList(t: Tree) { !t.Leaf? && (t.tag == "img" || t.tag == "list") }

  /** A test on the tree as parsed: images hold no text, lists hold no stars, and no image or list stands directly in a
      list, where it would be given what follows it. */
  predicate Simple(f: seq<Tree>) {
    f == [] || (SimpleNode(f[0]) && Simple(f[1..]))
  }

  predicate SimpleNode(t: Tree) {
    t.Elem? ==>
      if t.tag == "img" then TextOf(t.content) == ""
      else Simple(t.content) && (t.tag == "list" ==> StarFree(t.content) && forall c | c in t.content :: !IsImageOrList(c))
  }

  lemma {:induction false} SimpleAppend(a: seq<Tree>, b: seq<Tree>)
    ensures Simple(a + b) <==> Simple(a) && Simple(b)
    decreases |a|
  {
    if a == [] {
      assert a + b == b;
    } else {
      assert (a + b)[1..] == a[1..] + b;
      SimpleAppend(a[1..], b);
    }
  }

  lemma OneSimple(t: Tree)
    ensures Simple([t]) <==> SimpleNode(t)
  {
    assert [t][1..] == [];
  }

  lemma AddSimple(acc: seq<Tree>, t: Tree)
    requires Simple(acc) && SimpleNode(t) && !IsImageOrList(t) && forall c | c in acc :: !IsImageOrList(c)
    ensures Simple(AddToList(acc, t)) && forall c | c in AddToList(acc, t) :: !IsImageOrList(c)
  {
    hide TextOf, StarFree;
    if IsStarText(t) {
      var item := Elem("li", [], [Leaf(t.text[1..])]);
      OneSimple(Leaf(t.text[1..]));
      OneSimple(item);
      SimpleAppend(acc, [item]);
    } else if IsStarTag(t) {
      OneSimple(Elem("li", [], []));
      SimpleAppend(acc, [Elem("li", [], [])]);
    } else if acc != [] && acc[|acc| - 1].Elem? {
      var n := |acc| - 1;
      var item' := acc[n].(content := acc[n].content + [t]);
      assert acc == acc[..n] + [acc[n]] && acc[n] in acc;
      SimpleAppend(acc[..n], [acc[n]]);
      OneSimple(acc[n]);
      OneSimple(t);
      SimpleAppend(acc[n].content, [t]);
      OneSimple(item');
      SimpleAppend(acc[..n], [item']);
    } else {
      OneSimple(t);
      SimpleAppend(acc, [t]);
    }
  }

  lemma {:induction false} ListSimple(acc: seq<Tree>, content: seq<Tree>)
    requires Simple(acc) && Simple(content) && forall c | c in acc + content :: !IsImageOrList(c)
    ensures Simple(ListNodes(acc, content))
    decreases |content|
  {
    hide AddToList, SimpleNode, IsImageOrList;
    if content != [] {
      assert content[0] in acc + content;
      assert forall c | c in acc :: c in acc + content;
      AddSimple(acc, content[0]);
      assert forall c | c in content[1..] :: c in acc + content;
      ListSimple(AddToList(acc, content[0]), content[1..]);
    }
  }

  /** Such trees keep their text. */
  lemma {:induction false} SimpleTreesKeepText(f: seq<Tree>)
    requires Simple(f)
    ensures Keeps(f)
    decreases Weight(f), |f|
  {
    hide TextOf, StarFree, ListNodes;
    if f != [] {
      WeightFirst(f);
      OneWeight(f[0]);
      if f[0].Elem? && f[0].tag == "list" {
        ListWeight([], f[0].content);
        assert [] + f[0].content == f[0].content;
        ListSimple([], f[0].content);
        SimpleTreesKeepText(ListNodes([], f[0].content));
      } else if f[0].Elem? && f[0].tag != "img" {
        SimpleTreesKeepText(f[0].content);
      }
      SimpleTreesKeepText(f[1..]);
    }
  }

  /** No list and no image anywhere. */
  predicate NoListNoImage(f: seq<Tree>) {
    f == [] || ((match f[0]
                 case Leaf(_) => true
                 case Void(tag, _) => tag != "list" && tag != "img"
                 case Elem(tag, _, content) => tag != "list" && tag != "img" && NoListNoImage(content))
                && NoListNoImage(f[1..]))
  }

  lemma {:induction false} PlainTreesAreSimple(f: seq<Tree>)
    requires NoListNoImage(f)
    ensures Simple(f)
    decreases f
  {
    if f != [] {
      PlainTreesAreSimple(f[1..]);
      if f[0].Elem? {
        PlainTreesAreSimple(f[0].content);
      }
    }
  }

  lemma PlainTreesKeepText(f: seq<Tree>)
    requires NoListNoImage(f)
    ensures TextOf(Walk(f)) == TextOf(f)
  {
    PlainTreesAreSimple(f);
    SimpleTreesKeepText(f);
    PresetKeepsText(f);
  }

  const Caption := [Elem("list", [], [Elem("img", [], []), Leaf("caption")])]

  const Captioned := Elem("img", [], [Leaf("caption")])

  lemma CaptionGrouped()
    ensures ListNodes([], Caption[0].content) == [Captioned]
  {
    var img, text := Elem("img", [], []), Leaf("caption");
    var content := [img, text];
    assert content[1..] == [text] && [text][1..] == [];
    assert [] + [text] == [text] && [] + [img] == [img];
    assert AddToList([], img) == [img];
    assert [img][..0] == [] && AddToList([img], text) == [] + [Captioned] == [Captioned];
    assert ListNodes([], content) == ListNodes([img], [text]) == ListNodes([Captioned], []) == [Captioned];
  }

  lemma CaptionText()
    ensures TextOf(Caption) == "caption" && TextOf(Captioned.content) == "caption"
  {
    OneText(Caption[0]);
    OneText(Elem("img", [], []));
    OneText(Leaf("caption"));
    NoText();
    TextAppend([Elem("img", [], [])], [Leaf("caption")]);
    assert Caption[0].content == [Elem("img", [], [])] + [Leaf("caption")];
    assert Caption == [Caption[0]];
  }

  /** In a list even an empty image loses text: what follows it is put inside it, and images drop their content. */
  lemma ImageInListLosesText()
    ensures StarFree(Caption[0].content) && TextOf(Caption) == "caption" && !Keeps(Caption)
  {
    hide TextOf, ListNodes;
    CaptionGrouped();
    CaptionText();
    assert !KeepsNode(Captioned);
    assert !Keeps([Captioned]);
    assert !KeepsNode(Caption[0]);
  }
}
