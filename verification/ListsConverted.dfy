/** Lists and unclosed tags from the text that is typed to the HTML that is shown. */
module ListsConverted {
  import opened Strings
  import opened LexerSpec
  import opened TagNodes
  import opened ParserSpec
  import opened PrintedForm
  import opened RoundTrip
  import opened RoundTripExact
  import opened BareAttrs
  import opened OneTag
  import opened Html
  import opened Convert
  import opened TagsConverted

  // ---------------------------------------------------------------- stars

  /** A star stands only inside a word, never at its beginning. */
  predicate InnerStars(s: string) {
    forall i | 0 <= i < |s| && s[i] == '*' :: i > 0 && s[i - 1] != ' ' && s[i - 1] != '\t' && s[i - 1] != '\n'
  }

  /** Behind a run there is no star: blanks do not stand in front of one, and a word would have gone on. */
  lemma NoStarBehindRun(s: string)
    requires s != "" && InnerStars(s) && |FirstRun(s).value| < |s|
    ensures s[|FirstRun(s).value|] != '*'
  {
    var run := FirstRun(s).value;
    var last := run[|run| - 1];
    assert last == s[|run| - 1] && last in run;
    if s[0] != '\n' && !IsWhiteSpace(s[0]) {
      assert !IsInk(s[|run|]);
    } else {
      assert last == '\n' || IsWhiteSpace(last);
    }
  }

  lemma RestInnerStars(s: string)
    requires s != "" && InnerStars(s)
    ensures FirstRun(s).value[0] != '*' && InnerStars(s[|FirstRun(s).value|..])
  {
    var n := |FirstRun(s).value|;
    var rest := s[n..];
    assert FirstRun(s).value[0] == s[0];
    if n < |s| {
      NoStarBehindRun(s);
      assert rest[0] == s[n];
    }
    forall i | 0 <= i < |rest| && rest[i] == '*'
      ensures i > 0 && rest[i - 1] != ' ' && rest[i - 1] != '\t' && rest[i - 1] != '\n'
    {
      assert s[n + i] == '*';
      if i > 0 {
        assert s[n + i - 1] == rest[i - 1];
      }
    }
  }

  predicate NoStarLeaves(f: seq<Tree>) { forall t | t in f :: t.Leaf? && !IsStar(t) }

  /** None of its words opens an item. */
  lemma {:induction false} RunsHaveNoStars(s: string)
    requires InnerStars(s)
    ensures NoStarLeaves(TextLeaves(TextTokens(s)))
    decreases |s|
  {
    hide FirstRun, InnerStars;
    if s != "" {
      RestInnerStars(s);
      RunsHaveNoStars(s[|FirstRun(s).value|..]);
      var more := TextTokens(s[|FirstRun(s).value|..]);
      assert TextTokens(s) == [FirstRun(s)] + more && ([FirstRun(s)] + more)[1..] == more;
    }
  }

  // ---------------------------------------------------------------- the tree of a list

  /** [*]text[*]text ... */
  function Bullets(texts: seq<string>): string {
    if texts == [] then "" else "[*]" + (texts[0] + Bullets(texts[1..]))
  }

  function BulletTree(texts: seq<string>): seq<Tree> {
    if texts == [] then [] else [Elem("*", [], []), Leaf(texts[0])] + BulletTree(texts[1..])
  }

  /** A text, then bullets: the content of a list. */
  function ListTree(lead: string, texts: seq<string>): seq<Tree> { [Leaf(lead)] + BulletTree(texts) }

  predicate ListText(s: string) { '[' !in s && InnerStars(s) }

  predicate ListTexts(texts: seq<string>) { forall s | s in texts :: ListText(s) }

  function Runs(s: string): seq<Tree> { TextLeaves(TextTokens(s)) }

  /** The content as it is parsed. */
  function Parsed(lead: string, texts: seq<string>): seq<Tree>
    decreases |texts|
  {
    Runs(lead) + if texts == [] then [] else [Elem("*", [], [])] + Parsed(texts[0], texts[1..])
  }

  lemma StarIsValid()
    ensures ValidTag("*", []) && TagStart("*", []) == "[*]"
  {
    assert Lower("*") == "*";
    assert AttrsToString([]) == "";
  }

  lemma {:induction false} BulletsPrinted(texts: seq<string>)
    requires ListTexts(texts)
    ensures Print(BulletTree(texts)) == Bullets(texts) && Printable(BulletTree(texts))
    ensures ClosedTags(BulletTree(texts)) == [] && forall x | x in UnclosedTags(BulletTree(texts)) :: x == "*"
  {
    hide InnerStars, Print, Printable, UnclosedTags, ClosedTags;
    if texts == [] {
      NothingPrinted();
    } else {
      assert texts[0] in texts && ListText(texts[0]);
      assert forall s | s in texts[1..] :: s in texts;
      BulletsPrinted(texts[1..]);
      BulletPrinted(texts[0], BulletTree(texts[1..]));
    }
  }

  lemma NothingPrinted()
    ensures Print([]) == "" && Printable([]) && ClosedTags([]) == [] && UnclosedTags([]) == []
  {
  }

  lemma BulletPrinted(text: string, more: seq<Tree>)
    ensures var f := [Elem("*", [], []), Leaf(text)] + more;
            Print(f) == "[*]" + (text + Print(more)) && ClosedTags(f) == ClosedTags(more) && UnclosedTags(f) == ["*"] + UnclosedTags(more)
            && ('[' !in text && Printable(more) ==> Printable(f))
  {
    hide Print, ClosedTags, UnclosedTags, Printable;
    var star := Elem("*", [], []);
    var f := [star, Leaf(text)] + more;
    assert f[0] == star && f[1..] == [Leaf(text)] + more && f[1..][0] == Leaf(text) && f[1..][1..] == more;
    StarFirst(f);
    TextNext(f[1..]);
  }

  lemma StarFirst(f: seq<Tree>)
    requires f != [] && f[0] == Elem("*", [], [])
    ensures Print(f) == "[*]" + Print(f[1..]) && ClosedTags(f) == ClosedTags(f[1..]) && UnclosedTags(f) == ["*"] + UnclosedTags(f[1..])
    ensures Printable(f[1..]) ==> Printable(f)
  {
    hide TagStart, ValidTag;
    StarIsValid();
  }

  lemma TextNext(f: seq<Tree>)
    requires f != [] && f[0].Leaf?
    ensures Print(f) == f[0].text + Print(f[1..]) && ClosedTags(f) == ClosedTags(f[1..]) && UnclosedTags(f) == UnclosedTags(f[1..])
    ensures '[' !in f[0].text && Printable(f[1..]) ==> Printable(f)
  {
  }

  lemma ListPrinted(lead: string, texts: seq<string>)
    requires ListText(lead) && ListTexts(texts)
    ensures var f := ListTree(lead, texts);
            Print(f) == lead + Bullets(texts) && Printable(f) && ClosedTags(f) == [] && forall x | x in UnclosedTags(f) :: x == "*"
  {
    hide Bullets, BulletTree, InnerStars;
    BulletsPrinted(texts);
    var f := ListTree(lead, texts);
    assert f[1..] == BulletTree(texts);
  }

  lemma NoReadBack()
    ensures ReadBack([]) == []
  {
  }

  lemma {:induction false} ListRead(lead: string, texts: seq<string>)
    ensures NormalRead(lead, BulletTree(texts)) == Parsed(lead, texts)
    decreases |texts|
  {
    hide TextTokens, TextLeaves, NormalRead;
    var f := BulletTree(texts);
    NormalReadFirst(lead, f);
    if texts == [] {
      assert Runs(lead) + [] == Runs(lead);
    } else {
      var star, more := Elem("*", [], []), BulletTree(texts[1..]);
      assert f[0] == star && f[1..] == [Leaf(texts[0])] + more && f[1..][1..] == more;
      NoReadBack();
      NormalReadFirst("", f[1..]);
      assert "" + texts[0] == texts[0];
      ListRead(texts[0], texts[1..]);
      assert NormalTag(star) == star;
      assert Runs(lead) + [star] + Parsed(texts[0], texts[1..]) == Runs(lead) + ([star] + Parsed(texts[0], texts[1..]));
    }
  }

  // ---------------------------------------------------------------- its HTML

  function Entries(texts: seq<string>): string {
    if texts == [] then "" else "<li>" + texts[0] + "</li>" + Entries(texts[1..])
  }

  function Entry(text: string): Tree { Elem("li", [], Runs(text)) }

  function EntryTrees(texts: seq<string>): seq<Tree> {
    if texts == [] then [] else [Entry(texts[0])] + EntryTrees(texts[1..])
  }

  lemma {:induction false} NoStarAhead(f: seq<Tree>, more: seq<Tree>)
    requires NoStarLeaves(f) && (more == [] || IsStar(more[0]))
    ensures Leading(f + more) == |f|
  {
    hide IsStar;
    if f == [] {
      assert f + more == more;
    } else {
      assert f[0] in f && (f + more)[1..] == f[1..] + more;
      assert forall t | t in f[1..] :: t in f;
      NoStarAhead(f[1..], more);
    }
  }

  lemma {:induction false} LeavesLead(f: seq<Tree>)
    requires NoStarLeaves(f)
    ensures Lead(f) == f
  {
    hide IsStar;
    if f != [] {
      assert f[0] in f;
      assert forall t | t in f[1..] :: t in f;
      LeavesLead(f[1..]);
      assert f == [f[0]] + f[1..];
    }
  }

  /** The stars of the parsed content become its entries. */
  lemma {:induction false} ItemsOfBullets(texts: seq<string>)
    requires ListTexts(texts) && texts != []
    ensures Items([Elem("*", [], [])] + Parsed(texts[0], texts[1..])) == EntryTrees(texts)
    decreases |texts|
  {
    hide TextTokens, TextLeaves, InnerStars;
    var star, text := Elem("*", [], []), texts[0];
    assert texts[0] in texts && ListText(text);
    RunsHaveNoStars(text);
    var behind := if texts[1..] == [] then [] else [star] + Parsed(texts[1], texts[2..]);
    assert texts[1..] != [] ==> texts[1..][0] == texts[1] && texts[1..][1..] == texts[2..];
    assert Parsed(text, texts[1..]) == Runs(text) + behind;
    NoStarAhead(Runs(text), behind);
    FirstItemOf(star, Runs(text), behind);
    if texts[1..] != [] {
      assert forall s | s in texts[1..] :: s in texts;
      ItemsOfBullets(texts[1..]);
    }
  }

  lemma FirstItemOf(star: Tree, runs: seq<Tree>, behind: seq<Tree>)
    requires star == Elem("*", [], []) && Leading(runs + behind) == |runs|
    ensures Items([star] + (runs + behind)) == [Elem("li", [], runs)] + Items(behind)
  {
    hide Leading;
    var content := [star] + (runs + behind);
    assert content[1..] == runs + behind && content[1..|runs| + 1] == runs && content[|runs| + 1..] == behind;
    assert [] + runs == runs;
  }

  lemma ListGrouped(lead: string, texts: seq<string>)
    requires ListText(lead) && ListTexts(texts)
    ensures Grouped(Parsed(lead, texts)) == Runs(lead) + EntryTrees(texts)
  {
    hide TextTokens, TextLeaves, InnerStars, Items, Lead, Leading;
    var behind := if texts == [] then [] else [Elem("*", [], [])] + Parsed(texts[0], texts[1..]);
    var content := Parsed(lead, texts);
    assert content == Runs(lead) + behind;
    RunsHaveNoStars(lead);
    NoStarAhead(Runs(lead), behind);
    LeavesLead(Runs(lead));
    assert content[..|Runs(lead)|] == Runs(lead) && content[|Runs(lead)|..] == behind;
    if texts == [] {
      NoItem();
    } else {
      ItemsOfBullets(texts);
    }
  }

  lemma NoItem()
    ensures Items([]) == []
  {
  }

  lemma {:induction false} ShownAppend(a: seq<Tree>, b: seq<Tree>)
    ensures HtmlOf(a + b) == HtmlOf(a) + HtmlOf(b)
    decreases |a|
  {
    hide HtmlNode;
    if a == [] {
      assert a + b == b;
    } else {
      assert (a + b)[1..] == a[1..] + b;
      ShownAppend(a[1..], b);
    }
  }

  lemma EntryShown(text: string)
    ensures HtmlNode(Entry(text)) == "<li>" + text + "</li>"
  {
    hide TextTokens, TextLeaves, HtmlOf, Raw;
    TextShown(text);
    NoAttr();
    BareShown(Entry(text), "li", text, "<li>", "</li>");
  }

  lemma {:induction false} EntriesShown(texts: seq<string>)
    ensures HtmlOf(EntryTrees(texts)) == Entries(texts)
  {
    hide HtmlNode, Entry;
    if texts != [] {
      EntryShown(texts[0]);
      EntriesShown(texts[1..]);
      var f := EntryTrees(texts);
      assert f[0] == Entry(texts[0]) && f[1..] == EntryTrees(texts[1..]);
    }
  }

  lemma ListInnerShown(lead: string, texts: seq<string>)
    requires ListText(lead) && ListTexts(texts)
    ensures HtmlOf(Grouped(Parsed(lead, texts))) == lead + Entries(texts)
  {
    hide TextTokens, TextLeaves, HtmlOf, Parsed, Grouped, EntryTrees, Entries;
    ListGrouped(lead, texts);
    ShownAppend(Runs(lead), EntryTrees(texts));
    TextShown(lead);
    EntriesShown(texts);
  }

  /** A list with any attributes: its text, then one entry for each bullet. */
  lemma ListConverted(body: string, name: string, items: seq<Item>, lead: string, texts: seq<string>)
    requires Reads(body, name, items) && Lower(name) == "list" && ListText(lead) && ListTexts(texts)
    ensures var t := Elem("list", Gathered([], items), Parsed(lead, texts));
            Converted("[" + body + "]" + (lead + Bullets(texts)) + ("[/" + name + "]")) == TagHtml(t, lead + Entries(texts), "")
  {
    hide Parse, Print, Printable, Reads, NormalRead, Lower, Gathered, UnclosedTags, ClosedTags, HtmlOf, TagHtml, Converted, Grouped;
    hide Parsed, Bullets, BulletTree, Entries, ListText, ListTexts;
    var f := ListTree(lead, texts);
    ListPrinted(lead, texts);
    NoListAllowsAll(DefaultOptions.RulesFor(Around(body, f, name)), f);
    StarBeginsNoName(name);
    TagAroundParses(DefaultOptions, body, name, items, f);
    NormalReadFirst("", f);
    assert f[1..] == BulletTree(texts) && "" + lead == lead;
    ListRead(lead, texts);
    ConvertedIsHtml(Around(body, f, name));
    OneShown(Elem("list", Gathered([], items), Parsed(lead, texts)));
    ListInnerShown(lead, texts);
  }

  lemma StarBeginsNoName(name: string)
    requires Lower(name) == "list"
    ensures !("*" <= name)
  {
    assert Lower(name)[0] == 'l' && LowerChar('*') == '*';
  }

  /** [list]text[*]one[*]two[/list] is an unordered list. */
  lemma UnorderedListConverted(name: string, lead: string, texts: seq<string>)
    requires Lower(name) == "list" && ListText(lead) && ListTexts(texts)
    ensures Converted("[" + name + "]" + (lead + Bullets(texts)) + ("[/" + name + "]")) == "<ul>" + (lead + Entries(texts)) + "</ul>"
  {
    hide Converted, Reads, Shown, Bullets, Entries, ListText, ListTexts, Parsed;
    LettersAreName(name);
    PlainReads(name);
    NothingGathered();
    ListConverted(name, name, [], lead, texts);
    BareShown(Elem("list", [], Parsed(lead, texts)), "ul", lead + Entries(texts), "<ul>", "</ul>");
  }

  /** [list=kind] is an ordered one of that kind. */
  lemma OrderedListConverted(name: string, kind: string, lead: string, texts: seq<string>)
    requires Lower(name) == "list" && ListText(lead) && ListTexts(texts)
    requires kind != "" && ' ' !in kind && '"' !in kind && BracketFree(kind)
    ensures Converted("[" + (name + "=" + kind) + "]" + (lead + Bullets(texts)) + ("[/" + name + "]"))
         == "<ol type=\"" + EscapeAttr(kind) + "\">" + (lead + Entries(texts)) + "</ol>"
  {
    hide Converted, Reads, Shown, Bullets, Entries, ListText, ListTexts, Parsed, Gathered, EscapeAttr;
    LettersAreName(name);
    ValueReads(name, kind);
    ValueGathered(kind);
    ListConverted(name + "=" + kind, name, [Lone(kind)], lead, texts);
    OrderedShown(Elem("list", [(kind, kind)], Parsed(lead, texts)), kind, lead + Entries(texts));
  }

  lemma OrderedShown(t: Tree, kind: string, inner: string)
    requires t.Elem?
    ensures Shown(t, "ol", TypeAttr(kind), inner) == "<ol type=\"" + EscapeAttr(kind) + "\">" + inner + "</ol>"
  {
    hide EscapeAttr;
    var x := EscapeAttr(kind);
    assert "<" + "ol" + (" type=\"" + x + "\"") + ">" == "<ol type=\"" + x + "\">";
    assert "</" + "ol" + ">" == "</ol>";
  }

  // ---------------------------------------------------------------- tags that are not closed

  /** A tag without a closing tag is shown empty, in front of the text. */
  lemma UnclosedConverted(name: string, text: string)
    requires name != "" && (forall c | c in Lower(name) :: 'a' <= c <= 'z') && Lower(name) != "list" && '[' !in text
    ensures Converted("[" + name + "]" + text) == TagHtml(Elem(Lower(name), [], []), "", "") + text
  {
    hide Parse, Print, Printable, Reads, NormalRead, Lower, UnclosedTags, ClosedTags, HtmlOf, TagHtml, Converted, TextTokens, TextLeaves;
    LettersAreName(name);
    PlainReads(name);
    NothingGathered();
    var f := [Leaf(text)];
    TextIsPrinted(text);
    NoListAllowsAll(DefaultOptions.RulesFor("[" + name + "]" + Print(f)), f);
    TagBeforeParses(DefaultOptions, name, name, [], f);
    ConvertedIsHtml("[" + name + "]" + text);
    var t := Elem(Lower(name), [], []);
    ShownAppend([t], TextLeaves(TextTokens(text)));
    OneShown(t);
    TextShown(text);
    NothingShown();
  }

  // ---------------------------------------------------------------- whole trees

  /** Whatever is printed unambiguously is shown as its tree is. */
  lemma PrintedConverted(f: seq<Tree>)
    requires Printable(f) && Unambiguous(f)
    ensures Converted(Print(f)) == HtmlOf(NormalRead("", f))
  {
    hide Parse, Print, Printable, Unambiguous, NormalRead, WellNested, HtmlOf, Converted;
    var rules := DefaultOptions.RulesFor(Print(f));
    NoListAllowsAll(rules, f);
    WellNestedIffUnambiguous(rules, f);
    ParseWellNested(DefaultOptions, f);
    ConvertedIsHtml(Print(f));
  }
}
