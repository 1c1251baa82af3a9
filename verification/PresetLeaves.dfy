/** The preset and the text leaves one by one: which trees keep them all, in order and unchanged. */
module PresetLeaves {
  import opened Strings
  import opened TagNodes
  import opened Preset

  /** In a list: no text opens an item by its star, and no star tag holds a leaf. */
  predicate NoStars(content: seq<Tree>) {
    forall t | t in content :: !IsStarText(t) && (IsStarTag(t) ==> Leaves([t]) == [])
  }

  predicate KeepsOwnLeaves(t: Tree) {
    (t.Elem? && t.tag == "img" ==> Leaves(t.content) == []) && (t.Elem? && t.tag == "list" ==> NoStars(t.content))
  }

  /** No image holds a leaf, and no list has stars, neither as parsed nor once its nodes have been grouped. */
  predicate KeepsLeaves(f: seq<Tree>)
    decreases Weight(f), |f|
  {
    if f == [] then true else
    WeightFirst(f);
    KeepsNodeLeaves(f[0]) && KeepsLeaves(f[1..])
  }

  predicate KeepsNodeLeaves(t: Tree)
    decreases Weight([t]), 0
  {
    if !t.Elem? then true else
    OneWeight(t);
    if t.tag == "img" then Leaves(t.content) == []
    else if t.tag == "list" then
      ListWeight([], t.content);
      NoStars(t.content) && KeepsLeaves(ListNodes([], t.content))
    else KeepsLeaves(t.content)
  }

  lemma KeepsLeavesRewritten(t: Tree)
    ensures KeepsNodeLeaves(t) <==> KeepsOwnLeaves(t) && KeepsLeaves(Content(Rewrite(t)))
  {
    hide Render, Join, StyleParts, Leaves, NoStars, ListNodes;
    if !t.Leaf? && t.tag == "quote" {
      var p := WithContentOf(t, "p", []);
      assert [p][1..] == [] && KeepsLeaves([p]) == KeepsNodeLeaves(p);
    }
  }

  /** Grows with every leaf and every character. */
  function Size(ls: seq<string>): nat {
    if ls == [] then 0 else |ls[0]| + 1 + Size(ls[1..])
  }

  lemma {:induction false} SizeAppend(a: seq<string>, b: seq<string>)
    ensures Size(a + b) == Size(a) + Size(b)
    decreases |a|
  {
    if a == [] {
      assert a + b == b;
    } else {
      assert (a + b)[1..] == a[1..] + b;
      SizeAppend(a[1..], b);
    }
  }

  lemma NothingHasNoSize(ls: seq<string>)
    ensures Size(ls) == 0 <==> ls == []
  {
  }

  lemma OneTree(t: Tree)
    ensures Leaves([t]) == if t.Leaf? then [t.text] else Leaves(Content(t))
  {
    assert [t][1..] == [];
  }

  lemma NoLeaves()
    ensures Leaves([]) == []
  {
  }

  lemma FirstTree(f: seq<Tree>)
    requires f != []
    ensures Leaves(f) == Leaves([f[0]]) + Leaves(f[1..]) && Size(Leaves(f)) == Size(Leaves([f[0]])) + Size(Leaves(f[1..]))
  {
    hide Leaves, Size;
    assert f == [f[0]] + f[1..];
    LeavesAppend([f[0]], f[1..]);
    SizeAppend(Leaves([f[0]]), Leaves(f[1..]));
  }

  /** What is put into the last tag comes after all the leaves there were. */
  lemma LeafIntoLast(acc: seq<Tree>, t: Tree)
    requires acc != [] && acc[|acc| - 1].Elem?
    ensures var n := |acc| - 1;
            Leaves(acc[..n] + [acc[n].(content := acc[n].content + [t])]) == Leaves(acc) + Leaves([t])
  {
    hide Leaves;
    var n := |acc| - 1;
    var item := acc[n];
    var item' := item.(content := item.content + [t]);
    LeavesAppend(item.content, [t]);
    LeavesAppend(acc[..n], [item]);
    LeavesAppend(acc[..n], [item']);
    assert acc == acc[..n] + [item];
    OneTree(item);
    OneTree(item');
    Regroup(Leaves(acc[..n]), Leaves(item.content), Leaves([t]));
  }

  lemma Regroup(a: seq<string>, b: seq<string>, c: seq<string>)
    ensures a + (b + c) == (a + b) + c
  {
  }

  lemma AddLeaves(acc: seq<Tree>, t: Tree)
    ensures if NoStars([t]) then Leaves(AddToList(acc, t)) == Leaves(acc) + Leaves([t])
            else Size(Leaves(AddToList(acc, t))) < Size(Leaves(acc)) + Size(Leaves([t]))
  {
    hide Leaves, Size;
    OneTree(t);
    NoLeaves();
    NothingHasNoSize(Leaves([t]));
    assert NoStars([t]) <==> !IsStarText(t) && (IsStarTag(t) ==> Leaves([t]) == []) by {
      assert t in [t];
    }
    if IsStarText(t) {
      var text := Leaf(t.text[1..]);
      var item := Elem("li", [], [text]);
      LeavesAppend(acc, [item]);
      SizeAppend(Leaves(acc), Leaves([item]));
      OneTree(item);
      OneTree(text);
      OneSize(t.text);
      OneSize(text.text);
    } else if IsStarTag(t) {
      var item := Elem("li", [], []);
      LeavesAppend(acc, [item]);
      OneTree(item);
      assert Leaves(acc) + [] == Leaves(acc);
    } else if acc != [] && acc[|acc| - 1].Elem? {
      LeafIntoLast(acc, t);
    } else {
      LeavesAppend(acc, [t]);
    }
  }

  lemma OneSize(s: string)
    ensures Size([s]) == |s| + 1
  {
    assert [s][1..] == [];
  }

  lemma {:induction false} ListLeaves(acc: seq<Tree>, content: seq<Tree>)
    ensures if NoStars(content) then Leaves(ListNodes(acc, content)) == Leaves(acc) + Leaves(content)
            else Size(Leaves(ListNodes(acc, content))) < Size(Leaves(acc)) + Size(Leaves(content))
    decreases |content|
  {
    hide AddToList, Leaves, Size, IsStarText, IsStarTag;
    if content == [] {
      NoLeaves();
    } else {
      AddLeaves(acc, content[0]);
      ListLeaves(AddToList(acc, content[0]), content[1..]);
      FirstTree(content);
      SizeAppend(Leaves(acc), Leaves([content[0]]));
      SizeAppend(Leaves(AddToList(acc, content[0])), Leaves(content[1..]));
      assert forall t | t in content[1..] :: t in content;
      assert content[0] in content;
      assert NoStars(content) <==> NoStars([content[0]]) && NoStars(content[1..]);
    }
  }

  lemma RewriteLeaves(t: Tree)
    ensures if KeepsOwnLeaves(t) then Leaves([Rewrite(t)]) == Leaves([t])
            else Size(Leaves([Rewrite(t)])) < Size(Leaves([t]))
  {
    hide Render, Join, StyleParts, NoStars, ListNodes, Leaves, Size;
    OneTree(t);
    OneTree(Rewrite(t));
    NoLeaves();
    NothingHasNoSize(Leaves([t]));
    NothingHasNoSize(Leaves([Rewrite(t)]));
    if t.Elem? && t.tag == "list" {
      NothingHasNoSize(Leaves([]));
      ListLeaves([], t.content);
    } else if !t.Leaf? && t.tag == "quote" {
      OneTree(WithContentOf(t, "p", []));
    }
  }

  lemma {:induction false} WalkLeaves(f: seq<Tree>)
    ensures if KeepsLeaves(f) then Leaves(Walk(f)) == Leaves(f) else Size(Leaves(Walk(f))) < Size(Leaves(f))
    decreases Weight(f), |f|
  {
    hide Rewrite, KeepsOwnLeaves, KeepsNodeLeaves, Leaves, Size, Walk;
    if f == [] {
      NothingWalked();
    } else {
      WeightFirst(f);
      RewriteShrinks(f[0]);
      KeepsLeavesRewritten(f[0]);
      RewriteLeaves(f[0]);
      var n := Rewrite(f[0]);
      WalkLeaves(Content(n));
      WalkLeaves(f[1..]);
      FirstTree(f);
      WalkFirstTree(f);
      OneTree(n);
      OneTree(WalkNode(f[0]));
    }
  }

  lemma WalkFirstTree(f: seq<Tree>)
    requires f != []
    ensures Leaves(Walk(f)) == Leaves([WalkNode(f[0])]) + Leaves(Walk(f[1..]))
    ensures Size(Leaves(Walk(f))) == Size(Leaves([WalkNode(f[0])])) + Size(Leaves(Walk(f[1..])))
  {
    hide Leaves, Size, WalkNode;
    FirstTree(Walk(f));
    assert Walk(f)[1..] == Walk(f[1..]) && Walk(f)[0] == WalkNode(f[0]);
  }

  /** The preset leaves every text leaf as it is and where it is exactly when no image holds a leaf and no list has
      stars, at any node of the tree or of a grouped list. */
  lemma PresetKeepsLeaves(f: seq<Tree>)
    ensures Leaves(Walk(f)) == Leaves(f) <==> KeepsLeaves(f)
  {
    WalkLeaves(f);
  }

  /** A tree without lists and images is such a tree. */
  lemma {:induction false} PlainTreesKeepLeaves(f: seq<Tree>)
    requires NoListNoImage(f)
    ensures KeepsLeaves(f) && Leaves(Walk(f)) == Leaves(f)
    decreases f
  {
    hide Walk, Leaves, NoStars;
    if f != [] {
      PlainTreesKeepLeaves(f[1..]);
      if f[0].Elem? {
        PlainTreesKeepLeaves(f[0].content);
      }
    }
    PresetKeepsLeaves(f);
  }
}
