/** The whole conversion: parse, rewrite with the HTML5 preset, render. */
module Convert {
  import opened Strings
  import opened LexerSpec
  import opened TagNodes
  import opened ParserSpec
  import opened ParserSafety
  import opened Preset
  import opened PresetLeaves
  import opened Html
  import Lexer

  /** Parse, rewrite and render. */
  function Converted(input: string): string { Render(Walk(Parse(DefaultOptions, input))) }

  method ConvertBBCode(input: string) returns (html: string)
    ensures html == Converted(input) == HtmlOf(Parse(DefaultOptions, input))
  {
    var parsed := Lexer.RunParse(DefaultOptions, input);
    var tree := new Tree[|parsed|](i requires 0 <= i < |parsed| => parsed[i]);
    assert tree[..] == parsed;
    Iterate(tree);
    html := Render(tree[..]);
    WalkIsHtml(parsed);
  }

  function Concat(parts: seq<string>): string {
    if parts == [] then "" else parts[0] + Concat(parts[1..])
  }

  lemma {:induction false} ConcatAppend(a: seq<string>, b: seq<string>)
    ensures Concat(a + b) == Concat(a) + Concat(b)
    decreases |a|
  {
    if a == [] {
      assert a + b == b;
    } else {
      assert (a + b)[1..] == a[1..] + b;
      ConcatAppend(a[1..], b);
    }
  }

  lemma {:induction false} TextOfLeaves(f: seq<Tree>)
    ensures TextOf(f) == Concat(Leaves(f))
    decreases f
  {
    if f != [] {
      TextOfLeaves(f[1..]);
      match f[0]
      case Leaf(s) => ConcatAppend([s], Leaves(f[1..]));
      case Void(_, _) =>
        assert Leaves(f) == [] + Leaves(f[1..]) == Leaves(f[1..]);
        assert TextOf(f) == "" + TextOf(f[1..]) == TextOf(f[1..]);
      case Elem(_, _, content) =>
        TextOfLeaves(content);
        ConcatAppend(Leaves(content), Leaves(f[1..]));
    }
  }

  /** From the input to the rewritten tree, whatever the input: the texts of its pieces all arrive, in order, exactly
      when the preset keeps the text of the parsed tree, and each as a leaf of its own exactly when it keeps the leaves.
      When no tag is left open these texts are all the words, blanks and newlines of the input. */
  lemma ConvertKeepsText(input: string)
    ensures var cfg := DefaultOptions.LexerConfig();
            var f, texts := Parse(DefaultOptions, input), PieceTexts(Pieces(cfg, input));
            (TextOf(Walk(f)) == Concat(texts) <==> Keeps(f)) && (Leaves(Walk(f)) == texts <==> KeepsLeaves(f))
            && (OpenTags(input, LexAll(cfg, input)) == 0 ==> texts == TextValues(LexAll(cfg, input)))
  {
    hide Parse, LexAll, Walk, Keeps, KeepsLeaves, OpenTags, Pieces, PieceTexts, TextValues;
    var f := Parse(DefaultOptions, input);
    ParseWithoutList(DefaultOptions, input);
    ClosedTexts(DefaultOptions.LexerConfig(), input);
    TextOfLeaves(f);
    PresetKeepsText(f);
    PresetKeepsLeaves(f);
  }
}
