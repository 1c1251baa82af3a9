/** Each tag from the text that is typed to the HTML that is shown, character for character. */
module TagsConverted {
  import opened Strings
  import opened LexerSpec
  import opened TagNodes
  import opened ParserSpec
  import opened PrintedForm
  import opened RoundTrip
  import opened BareAttrs
  import opened OneTag
  import opened Escaping
  import opened Html
  import opened Convert
  import Preset

  // ---------------------------------------------------------------- text

  lemma {:induction false} RunsShown(ts: seq<Token>)
    requires forall t | t in ts :: t.IsText()
    ensures HtmlOf(TextLeaves(ts)) == TokenText(ts) && Raw(TextLeaves(ts)) == TokenText(ts)
  {
    if ts != [] {
      assert ts[0] in ts;
      assert forall t | t in ts[1..] :: t in ts;
      RunsShown(ts[1..]);
      var f := TextLeaves(ts);
      assert f[0] == Leaf(ts[0].value) && f[1..] == TextLeaves(ts[1..]);
    }
  }

  /** Text is shown as it is. */
  lemma TextShown(text: string)
    ensures HtmlOf(TextLeaves(TextTokens(text))) == text && Raw(TextLeaves(TextTokens(text))) == text
  {
    TextTokensAreText(text);
    RunsShown(TextTokens(text));
    TextTokensAreMaximal(text);
  }

  lemma OneShown(t: Tree)
    ensures HtmlOf([t]) == HtmlNode(t)
  {
    hide HtmlNode;
    assert [t][1..] == [] && HtmlNode(t) + "" == HtmlNode(t);
  }

  lemma ConvertedIsHtml(input: string)
    ensures Converted(input) == HtmlOf(Parse(DefaultOptions, input))
  {
    hide Parse, HtmlOf, Preset.Walk, Preset.Render;
    WalkIsHtml(Parse(DefaultOptions, input));
  }

  /** The tag that a name, its attributes and a text make. */
  function TagOf(name: string, attrs: Attrs, text: string): Tree { Elem(Lower(name), attrs, TextLeaves(TextTokens(text))) }

  function Input(body: string, name: string, text: string): string { "[" + body + "]" + text + "[/" + name + "]" }

  /** Any tag but a list, around a text. */
  lemma TagConverted(body: string, name: string, items: seq<Item>, text: string)
    requires Reads(body, name, items) && '[' !in text && Lower(name) != "list"
    ensures Converted(Input(body, name, text)) == TagHtml(TagOf(name, Gathered([], items), text), text, text)
  {
    hide Parse, Reads, TextTokens, TextLeaves, Lower, Gathered, HtmlOf, TagHtml, Converted, Raw;
    var t := TagOf(name, Gathered([], items), text);
    assert Input(body, name, text) == "[" + body + "]" + text + ("[/" + name + "]");
    TextAroundParses(body, name, items, text);
    ConvertedIsHtml(Input(body, name, text));
    TextShown(text);
    OneShown(t);
  }

  // ---------------------------------------------------------------- names and values

  /** A name spelled with letters, in any case. */
  lemma LettersAreName(name: string)
    requires name != "" && forall c | c in Lower(name) :: 'a' <= c <= 'z'
    ensures TagName(name) && Unbroken(name)
  {
    forall c | c in name
      ensures 'a' <= c <= 'z' || 'A' <= c <= 'Z'
    {
      var i :| 0 <= i < |name| && name[i] == c;
      assert Lower(name)[i] == LowerChar(c) && Lower(name)[i] in Lower(name);
    }
    assert name[0] in name;
  }

  /** The letters before this place are not the last ones of a scheme. */
  predicate CalmAt(s: string, k: nat)
    requires k <= |s|
  {
    k >= 2 && LowerChar(s[k - 1]) != 'a' && (LowerChar(s[k - 1]) == 't' ==> LowerChar(s[k - 2]) != 'p')
  }

  predicate Calm(s: string) { forall k | 0 <= k < |s| && s[k] == ':' :: CalmAt(s, k) }

  /** None of the five HTML characters. */
  predicate Ordinary(s: string) { forall c | c in s :: !Special(c) }

  lemma CalmIsFree(s: string)
    requires Calm(s)
    ensures SchemeFree(s)
  {
    hide SchemeWord, SchemeAt;
    forall i | 0 <= i <= |s|
      ensures !SchemeAt(s, i)
    {
      if SchemeAt(s, i) {
        var word := WordOf(s, i);
        ColonReached(s, i, word);
        WordEnds(word);
      }
    }
  }

  /** A colon behind a text without one, calm letters in front of it. */
  lemma OneMoreColon(a: string, b: string)
    requires ':' !in a && CalmAt(a, |a|) && Calm(b)
    ensures Calm(a + ":" + b)
  {
    var s := a + ":" + b;
    assert forall j | 0 <= j < |a| :: s[j] == a[j] && a[j] in a;
    forall k | 0 <= k < |s| && s[k] == ':'
      ensures CalmAt(s, k)
    {
      if k > |a| {
        assert s[k] == b[k - |a| - 1];
        assert CalmAt(b, k - |a| - 1);
        assert s[k - 1] == b[k - |a| - 2] && s[k - 2] == b[k - |a| - 3];
      }
    }
  }

  lemma ColonReached(s: string, i: nat, word: string)
    requires i <= |s| && SchemeWord(word) && word <= Lower(s[i..])
    ensures |word| > 3 && i + |word| <= |s|
    ensures var k := i + |word| - 1;
            s[k] == ':' && word[|word| - 2] == LowerChar(s[k - 1]) && word[|word| - 3] == LowerChar(s[k - 2])
  {
    hide SchemeWord;
    SchemeWordChars(word);
    WordEnds(word);
    var n := |word| - 1;
    assert |Lower(s[i..])| == |s| - i;
    Reached(s, i, i + n, word);
    Reached(s, i, i + n - 1, word);
    Reached(s, i, i + n - 2, word);
  }

  lemma WordEnds(word: string)
    requires SchemeWord(word)
    ensures |word| > 3 && (word[|word| - 2] == 'a' || (word[|word| - 2] == 't' && word[|word| - 3] == 'p'))
  {
  }

  /** The fixed styles are written as they are. */
  lemma BoldStyle()
    ensures EscapeAttr("font-weight: bold;") == "font-weight: bold;"
  {
    hide EscapeAttr, Ordinary, CalmAt;
    BoldWords();
    BoldJoined();
    PlainStyle("font-weight", " bold;");
  }

  lemma BoldWords()
    ensures ':' !in "font-weight" && ':' !in " bold;" && CalmAt("font-weight", 11) && Ordinary("font-weight") && Ordinary(" bold;")
  {
  }

  lemma BoldJoined()
    ensures "font-weight" + ":" + " bold;" == "font-weight: bold;"
  {
  }

  lemma ItalicStyle()
    ensures EscapeAttr("font-style: italic;") == "font-style: italic;"
  {
    hide EscapeAttr, Ordinary, CalmAt;
    ItalicWords();
    ItalicJoined();
    PlainStyle("font-style", " italic;");
  }

  lemma ItalicWords()
    ensures ':' !in "font-style" && ':' !in " italic;" && CalmAt("font-style", 10) && Ordinary("font-style") && Ordinary(" italic;")
  {
  }

  lemma ItalicJoined()
    ensures "font-style" + ":" + " italic;" == "font-style: italic;"
  {
  }

  lemma UnderlineStyle()
    ensures EscapeAttr("text-decoration: underline;") == "text-decoration: underline;"
  {
    hide EscapeAttr, Ordinary, CalmAt;
    UnderlineWords();
    UnderlineJoined();
    PlainStyle("text-decoration", " underline;");
  }

  lemma UnderlineWords()
    ensures ':' !in "text-decoration" && ':' !in " underline;" && CalmAt("text-decoration", 15) && Ordinary("text-decoration") && Ordinary(" underline;")
  {
  }

  lemma UnderlineJoined()
    ensures "text-decoration" + ":" + " underline;" == "text-decoration: underline;"
  {
  }

  lemma StrikeStyle()
    ensures EscapeAttr("text-decoration: line-through;") == "text-decoration: line-through;"
  {
    hide EscapeAttr, Ordinary, CalmAt;
    StrikeWords();
    StrikeJoined();
    PlainStyle("text-decoration", " line-through;");
  }

  lemma StrikeWords()
    ensures ':' !in "text-decoration" && ':' !in " line-through;" && CalmAt("text-decoration", 15) && Ordinary("text-decoration") && Ordinary(" line-through;")
  {
  }

  lemma StrikeJoined()
    ensures "text-decoration" + ":" + " line-through;" == "text-decoration: line-through;"
  {
  }

  lemma NoColon(b: string)
    requires ':' !in b
    ensures Calm(b)
  {
  }

  lemma PlainStyle(a: string, b: string)
    requires ':' !in a && ':' !in b && CalmAt(a, |a|) && Ordinary(a) && Ordinary(b)
    ensures EscapeAttr(a + ":" + b) == a + ":" + b
  {
    hide EscapeAttr, SchemeFree, Calm, CalmAt;
    var s := a + ":" + b;
    NoColon(b);
    OneMoreColon(a, b);
    CalmIsFree(s);
    OrdinaryWritten(s);
  }

  // ---------------------------------------------------------------- tags without attributes

  lemma NothingGathered()
    ensures Gathered([], []) == []
  {
  }

  /** A tag with nothing but its name. */
  lemma PlainTag(name: string, text: string)
    requires name != "" && (forall c | c in Lower(name) :: 'a' <= c <= 'z') && Lower(name) != "list" && '[' !in text
    ensures Converted("[" + name + "]" + text + "[/" + name + "]") == TagHtml(TagOf(name, [], text), text, text)
  {
    hide Converted, TagHtml, TagOf, Reads;
    LettersAreName(name);
    PlainReads(name);
    NothingGathered();
    TagConverted(name, name, [], text);
  }

  function Span(style: string, text: string): string { "<span style=\"" + style + "\">" + text + "</span>" }

  /** A span with a style as it is written. */
  lemma SpanShown(t: Tree, style: string, text: string)
    requires t.Elem?
    ensures Shown(t, "span", StyleAttr(style), text) == Span(EscapeAttr(style), text)
  {
    hide EscapeAttr;
    var x := EscapeAttr(style);
    assert "<" + "span" + (" style=\"" + x + "\"") + ">" == "<span style=\"" + x + "\">";
    assert "</" + "span" + ">" == "</span>";
  }

  /** What is shown of a tag that only styles its text. */
  lemma StyleShown(name: string, text: string)
    ensures var t := TagOf(name, [], text);
            (Lower(name) == "b" ==> TagHtml(t, text, text) == Shown(t, "span", StyleAttr("font-weight: bold;"), text))
            && (Lower(name) == "i" ==> TagHtml(t, text, text) == Shown(t, "span", StyleAttr("font-style: italic;"), text))
            && (Lower(name) == "u" ==> TagHtml(t, text, text) == Shown(t, "span", StyleAttr("text-decoration: underline;"), text))
            && (Lower(name) == "s" ==> TagHtml(t, text, text) == Shown(t, "span", StyleAttr("text-decoration: line-through;"), text))
  {
    hide Shown, StyleAttr, Lower, TextTokens, TextLeaves;
  }

  lemma StyledConverted(name: string, text: string, style: string)
    requires name != "" && (forall c | c in Lower(name) :: 'a' <= c <= 'z') && Lower(name) != "list" && '[' !in text
    requires var t := TagOf(name, [], text); TagHtml(t, text, text) == Shown(t, "span", StyleAttr(style), text)
    requires EscapeAttr(style) == style
    ensures Converted("[" + name + "]" + text + "[/" + name + "]") == Span(style, text)
  {
    hide Converted, EscapeAttr, Shown, StyleAttr, TagHtml, Lower, TextTokens, TextLeaves;
    PlainTag(name, text);
    SpanShown(TagOf(name, [], text), style, text);
  }

  /** [b]text[/b], the name in any letter case, is bold; and so on for the other three. */
  lemma BoldConverted(name: string, text: string)
    requires Lower(name) == "b" && '[' !in text
    ensures Converted("[" + name + "]" + text + "[/" + name + "]") == Span("font-weight: bold;", text)
  {
    hide Converted, EscapeAttr, Shown, StyleAttr, TagHtml, TagOf, Span;
    StyleShown(name, text);
    BoldStyle();
    StyledConverted(name, text, "font-weight: bold;");
  }

  lemma ItalicConverted(name: string, text: string)
    requires Lower(name) == "i" && '[' !in text
    ensures Converted("[" + name + "]" + text + "[/" + name + "]") == Span("font-style: italic;", text)
  {
    hide Converted, EscapeAttr, Shown, StyleAttr, TagHtml, TagOf, Span;
    StyleShown(name, text);
    ItalicStyle();
    StyledConverted(name, text, "font-style: italic;");
  }

  lemma UnderlineConverted(name: string, text: string)
    requires Lower(name) == "u" && '[' !in text
    ensures Converted("[" + name + "]" + text + "[/" + name + "]") == Span("text-decoration: underline;", text)
  {
    hide Converted, EscapeAttr, Shown, StyleAttr, TagHtml, TagOf, Span;
    StyleShown(name, text);
    UnderlineStyle();
    StyledConverted(name, text, "text-decoration: underline;");
  }

  lemma StrikeConverted(name: string, text: string)
    requires Lower(name) == "s" && '[' !in text
    ensures Converted("[" + name + "]" + text + "[/" + name + "]") == Span("text-decoration: line-through;", text)
  {
    hide Converted, EscapeAttr, Shown, StyleAttr, TagHtml, TagOf, Span;
    StyleShown(name, text);
    StrikeStyle();
    StyledConverted(name, text, "text-decoration: line-through;");
  }

  /** A tag without attributes in the HTML. */
  lemma BareShown(t: Tree, tag: string, text: string, open: string, close: string)
    requires t.Elem? && open == "<" + tag + ">" && close == "</" + tag + ">"
    ensures Shown(t, tag, "", text) == open + text + close
  {
    assert "<" + tag + "" + ">" == open;
  }

  lemma CodeConverted(name: string, text: string)
    requires Lower(name) == "code" && '[' !in text
    ensures Converted("[" + name + "]" + text + "[/" + name + "]") == "<pre>" + text + "</pre>"
  {
    hide Converted, Shown;
    PlainTag(name, text);
    BareShown(TagOf(name, [], text), "pre", text, "<pre>", "</pre>");
  }

  lemma QuoteConverted(name: string, text: string)
    requires Lower(name) == "quote" && '[' !in text
    ensures Converted("[" + name + "]" + text + "[/" + name + "]") == "<blockquote>" + ("<p>" + text + "</p>") + "</blockquote>"
  {
    hide Converted, Shown;
    PlainTag(name, text);
    BareShown(TagOf(name, [], text), "p", text, "<p>", "</p>");
  }

  /** An image shows nothing of its text but takes it for its source, and closes itself. */
  lemma ImageConverted(name: string, text: string)
    requires Lower(name) == "img" && '[' !in text
    ensures Converted("[" + name + "]" + text + "[/" + name + "]") == "<img src=\"" + EscapeAttr(text) + "\"/>"
  {
    hide Converted, EscapeAttr;
    PlainTag(name, text);
    var x := EscapeAttr(text);
    assert "<img" + (" src=\"" + x + "\"") + "/>" == "<img src=\"" + x + "\"/>";
  }

  /** A name the preset does not know stays a tag of its own. */
  lemma UnknownConverted(name: string, text: string)
    requires name != "" && (forall c | c in Lower(name) :: 'a' <= c <= 'z') && '[' !in text
    requires Lower(name) !in {"b", "i", "u", "s", "url", "img", "quote", "code", "style", "list", "color"}
    ensures Converted("[" + name + "]" + text + "[/" + name + "]") == ("<" + Lower(name) + ">") + text + ("</" + Lower(name) + ">")
  {
    hide Converted, Shown, Lower;
    PlainTag(name, text);
    NoAttr();
    BareShown(TagOf(name, [], text), Lower(name), text, "<" + Lower(name) + ">", "</" + Lower(name) + ">");
  }

  // ---------------------------------------------------------------- links and colours

  lemma ValueGathered(v: string)
    ensures Gathered([], [Lone(v)]) == [(v, v)]
  {
    assert [Lone(v)][1..] == [];
  }

  /** A tag with a value and nothing else, the value made of anything but quotes, blanks and brackets. */
  lemma ValueTag(name: string, v: string, text: string)
    requires name != "" && (forall c | c in Lower(name) :: 'a' <= c <= 'z') && Lower(name) != "list" && '[' !in text
    requires v != "" && ' ' !in v && '"' !in v && BracketFree(v)
    ensures Converted("[" + (name + "=" + v) + "]" + text + "[/" + name + "]") == TagHtml(TagOf(name, [(v, v)], text), text, text)
  {
    hide Converted, TagHtml, TagOf, Reads, Lower, Gathered;
    LettersAreName(name);
    ValueReads(name, v);
    ValueGathered(v);
    TagConverted(name + "=" + v, name, [Lone(v)], text);
  }

  lemma LinkShownAs(t: Tree, href: string, text: string)
    requires t.Elem?
    ensures Shown(t, "a", HrefAttr(href), text) == "<a href=\"" + EscapeAttr(href) + "\">" + text + "</a>"
  {
    hide EscapeAttr;
    var x := EscapeAttr(href);
    assert "<" + "a" + (" href=\"" + x + "\"") + ">" == "<a href=\"" + x + "\">";
    assert "</" + "a" + ">" == "</a>";
  }

  /** [url=address]text[/url] links to the address. */
  lemma LinkConverted(name: string, v: string, text: string)
    requires Lower(name) == "url" && v != "" && ' ' !in v && '"' !in v && BracketFree(v) && '[' !in text
    ensures Converted("[" + (name + "=" + v) + "]" + text + "[/" + name + "]") == "<a href=\"" + EscapeAttr(v) + "\">" + text + "</a>"
  {
    hide Converted, Shown, HrefAttr, EscapeAttr;
    ValueTag(name, v, text);
    LinkShownAs(TagOf(name, [(v, v)], text), v, text);
  }

  /** [url]address[/url] links to what it shows. */
  lemma BareLinkConverted(name: string, text: string)
    requires Lower(name) == "url" && '[' !in text
    ensures Converted("[" + name + "]" + text + "[/" + name + "]") == "<a href=\"" + EscapeAttr(text) + "\">" + text + "</a>"
  {
    hide Converted, Shown, HrefAttr, EscapeAttr;
    PlainTag(name, text);
    LinkShownAs(TagOf(name, [], text), text, text);
  }

  lemma ColourStyle(v: string)
    requires ':' !in v && Ordinary(v)
    ensures EscapeAttr("color: " + v + ";") == "color: " + v + ";"
  {
    hide EscapeAttr;
    var b := " " + v + ";";
    assert "color" + ":" + b == "color: " + v + ";";
    PlainStyle("color", b);
  }

  /** [color=value]text[/color], with the value as it is written; without a colon and the five HTML characters it is
      written as it is. */
  lemma ColourConverted(name: string, v: string, text: string)
    requires Lower(name) == "color" && v != "" && ' ' !in v && '"' !in v && BracketFree(v) && '[' !in text
    ensures Converted("[" + (name + "=" + v) + "]" + text + "[/" + name + "]") == Span(EscapeAttr("color: " + v + ";"), text)
    ensures ':' !in v && Ordinary(v) ==> EscapeAttr("color: " + v + ";") == "color: " + v + ";"
  {
    hide Converted, Shown, StyleAttr, EscapeAttr, Span, Ordinary;
    ValueTag(name, v, text);
    SpanShown(TagOf(name, [(v, v)], text), "color: " + v + ";", text);
    if ':' !in v && Ordinary(v) {
      ColourStyle(v);
    }
  }

  /** Without a value the colour is the word null. */
  lemma NoColourConverted(name: string, text: string)
    requires Lower(name) == "color" && '[' !in text
    ensures Converted("[" + name + "]" + text + "[/" + name + "]") == Span("color: " + "null" + ";", text)
  {
    hide Converted, Shown, StyleAttr, EscapeAttr, Span;
    PlainTag(name, text);
    ColourStyle("null");
    SpanShown(TagOf(name, [], text), "color: " + "null" + ";", text);
  }

  // ---------------------------------------------------------------- styles

  /** A tag with a list of attributes. */
  lemma ListTag(name: string, items: seq<Item>, text: string)
    requires name != "" && (forall c | c in Lower(name) :: 'a' <= c <= 'z') && Lower(name) != "list" && '[' !in text
    requires items != [] && AllValid(items) && '=' in Written(items) && BracketFree(Written(items)) && Keyed(items)
    requires DistinctNames(items)
    ensures Converted("[" + (name + Written(items)) + "]" + text + "[/" + name + "]") == TagHtml(TagOf(name, Pairs(items), text), text, text)
  {
    hide Converted, TagHtml, TagOf, Reads, Lower, Gathered, Written, AllValid, Keyed, DistinctNames;
    LettersAreName(name);
    ListReads(name, items);
    GatheredInOrder([], items);
    assert [] + Pairs(items) == Pairs(items);
    TagConverted(name + Written(items), name, items, text);
  }

  lemma TwoWritten(c: string, z: string)
    ensures Written([Named("color", c), Named("size", z)]) == " " + ("color=" + c + (" " + ("size=" + z)))
  {
    var items := [Named("color", c), Named("size", z)];
    assert items[1..] == [Named("size", z)];
    OneItem(Named("size", z));
    FirstWritten(items);
    assert "size" + "=" + z == "size=" + z;
    assert "color" + "=" + c == "color=" + c;
  }

  lemma TwoValid(c: string, z: string)
    requires Bare(c) && Bare(z) && BracketFree(c) && BracketFree(z)
    ensures var items := [Named("color", c), Named("size", z)];
            AllValid(items) && BracketFree(Written(items)) && Keyed(items)
  {
    hide Bare, Written;
    var items := [Named("color", c), Named("size", z)];
    assert items[0].Valid() && items[1].Valid();
    WrittenBracketFree(items);
  }

  lemma TwoPairs(c: string, z: string)
    ensures var items := [Named("color", c), Named("size", z)];
            DistinctNames(items) && Pairs(items) == [("color", c), ("size", z)]
  {
    var items := [Named("color", c), Named("size", z)];
    assert items[1..] == [Named("size", z)] && items[1..][1..] == [];
    assert "color"[0] != "size"[0];
    assert Pairs(items[1..]) == [("size", z)] + Pairs(items[1..][1..]) == [("size", z)];
    assert Pairs(items) == [("color", c)] + Pairs(items[1..]);
    forall i, j | 0 <= i < j < |items|
      ensures items[i].Pair().0 != items[j].Pair().0
    {
      assert i == 0 && j == 1;
    }
  }

  lemma TwoDeclarations(c: string, z: string)
    ensures Declarations([("color", c), ("size", z)]) == "color:" + c + ";" + " " + ("font-size:" + z + ";")
  {
    var attrs := [("color", c), ("size", z)];
    assert attrs[1..] == [("size", z)] && attrs[1..][1..] == [];
    assert Declarations([("size", z)]) == "font-size:" + z + ";";
  }

  /** [style color=c size=z]text[/style]: both declarations, one blank apart, as they are written; without colons and the
      five HTML characters they are written as they are. */
  lemma StyleConverted(name: string, c: string, z: string, text: string)
    requires Lower(name) == "style" && Bare(c) && Bare(z) && BracketFree(c) && BracketFree(z) && '[' !in text
    ensures var style := "color:" + c + ";" + " " + ("font-size:" + z + ";");
            Converted("[" + (name + (" " + ("color=" + c + (" " + ("size=" + z))))) + "]" + text + "[/" + name + "]")
            == Span(EscapeAttr(style), text)
            && (':' !in c && ':' !in z && Ordinary(c) && Ordinary(z) ==> EscapeAttr(style) == style)
  {
    hide Converted, Shown, StyleAttr, EscapeAttr, Span, Bare, BracketFree, Written, AllValid, Keyed, DistinctNames, Pairs, Declarations, Ordinary;
    var items := [Named("color", c), Named("size", z)];
    TwoWritten(c, z);
    TwoValid(c, z);
    TwoPairs(c, z);
    assert '=' in Written(items) by {
      assert Written(items)[6] == '=';
    }
    ListTag(name, items, text);
    TwoDeclarations(c, z);
    SpanShown(TagOf(name, Pairs(items), text), "color:" + c + ";" + " " + ("font-size:" + z + ";"), text);
    if ':' !in c && ':' !in z && Ordinary(c) && Ordinary(z) {
      TwoDeclarationsWritten(c, z);
    }
  }

  lemma TwoDeclarationsWritten(c: string, z: string)
    requires ':' !in c && ':' !in z && Ordinary(c) && Ordinary(z)
    ensures var s := "color:" + c + ";" + " " + ("font-size:" + z + ";"); EscapeAttr(s) == s
  {
    hide EscapeAttr, Calm, SchemeFree, CalmAt, Ordinary;
    var s := "color:" + c + ";" + " " + ("font-size:" + z + ";");
    var a, b := c + "; font-size", z + ";";
    assert s == "color" + ":" + (a + ":" + b);
    TwoOrdinary(c, z);
    CalmEnds(c);
    NoColon(b);
    OneMoreColon(a, b);
    OneMoreColon("color", a + ":" + b);
    CalmIsFree(s);
    OrdinaryWritten(s);
  }

  lemma OrdinaryWritten(s: string)
    requires Ordinary(s) && SchemeFree(s)
    ensures EscapeAttr(s) == s
  {
    hide EscapeAttr, SchemeFree;
    WrittenAsItIs(s);
  }

  lemma Joined(a: string, b: string)
    requires Ordinary(a) && Ordinary(b)
    ensures Ordinary(a + b)
  {
  }

  lemma TwoOrdinary(c: string, z: string)
    requires Ordinary(c) && Ordinary(z)
    ensures Ordinary("color" + ":" + (c + "; font-size" + ":" + (z + ";")))
  {
    assert Ordinary("color:") && Ordinary("; font-size:") && Ordinary(";");
    hide Ordinary;
    Joined(z, ";");
    Joined(c, "; font-size:");
    Joined(c + "; font-size:", z + ";");
    Joined("color:", c + "; font-size:" + (z + ";"));
    assert "color:" + (c + "; font-size:" + (z + ";")) == "color" + ":" + (c + "; font-size" + ":" + (z + ";"));
  }

  lemma CalmEnds(c: string)
    ensures CalmAt("color", 5) && CalmAt(c + "; font-size", |c + "; font-size"|)
  {
  }
}
