/** Attribute values written without quotes are read exactly as they stand. */
module BareAttrs {
  import opened Strings
  import opened LexerSpec
  import opened TagNodes
  import opened PrintedForm

  /** A name ends at an equals sign or a blank. */
  predicate Unbroken(s: string) { '=' !in s && ' ' !in s && '\t' !in s }

  /** A word that may stand alone among attributes. */
  predicate LoneWord(w: string) { w != "" && Unbroken(w) && '"' !in w }

  /** A value that may stand behind a name; it may hold equals signs. */
  predicate Bare(v: string) { v != "" && ' ' !in v && '\t' !in v && '"' !in v }

  /** What may stand behind a tag's name, one blank apart. */
  datatype Item = Lone(word: string) | Named(key: string, value: string) | Quoted(key: string, value: string)
  {
    predicate Valid() {
      match this
      case Lone(w) => LoneWord(w)
      case Named(k, v) => k != "" && Unbroken(k) && '[' !in k && ']' !in k && Bare(v)
      case Quoted(k, v) => k != "" && Unbroken(k) && '[' !in k && ']' !in k && PlainValue(v)
    }

    function Text(): string {
      match this
      case Lone(w) => w
      case Named(k, v) => k + "=" + v
      case Quoted(k, v) => k + "=\"" + v + "\""
    }

    function Tokens(): seq<Token> {
      match this
      case Lone(w) => [Token(AttrValue, w)]
      case Named(k, v) => [Token(AttrName, k), Token(AttrValue, v)]
      case Quoted(k, v) => [Token(AttrName, k), Token(AttrValue, v)]
    }

    /** The attribute it becomes. */
    function Pair(): (string, string) { if Lone? then (word, word) else (key, value) }
  }

  predicate AllValid(items: seq<Item>) { forall i | i in items :: i.Valid() }

  /** Each item behind a blank. */
  function Written(items: seq<Item>): string {
    if items == [] then "" else " " + (items[0].Text() + Written(items[1..]))
  }

  function ItemTokens(items: seq<Item>): seq<Token> {
    if items == [] then [] else items[0].Tokens() + ItemTokens(items[1..])
  }

  // ---------------------------------------------------------------- one value

  /** An unquoted value ends at the first blank, or with the text when the tag holds no other blank. */
  lemma {:induction false} BareEnd(s: string, p: nat, e: nat, single: bool)
    requires p <= e <= |s| && forall i | p <= i < e :: s[i] != '"' && (single || (s[i] != ' ' && s[i] != '\t'))
    requires e < |s| ==> !single && s[e] == ' '
    ensures ValueEnd(s, p, false, single) == e
    decreases e - p
  {
    if p < e {
      BareEnd(s, p + 1, e, single);
    } else if e < |s| {
      assert TakeValueChar(s, e, false, single) == (false, false);
    }
  }

  lemma UnquoteBare(v: string)
    requires '"' !in v
    ensures Unquote(v) == v
  {
    if v != "" {
      assert v[0] in v && v[|v| - 1] in v;
    }
    assert TrimChar(v, QUOTEMARK) == v;
    NoQuoteNoReplacement(v);
  }

  /** The name of a tag in front of an equals sign or a blank. */
  lemma NameStep(name: string, rest: string, s: string, single: bool)
    requires s == name + rest && Unbroken(name) && rest != "" && (rest[0] == '=' || rest[0] == ' ')
    ensures TagStep(s, 0, NameMode, single)
         == (Token(Tag, name), |name| + 1, if single || '=' !in rest[1..] then ValueMode else AttrMode)
    ensures s[|name| + 1..] == rest[1..] && s[|name|] == rest[0]
  {
    assert s[0..] == s;
    TakeWhileUnique(name, rest, c => !IsSpecial(c));
    assert s[|name| + 1..] == rest[1..];
  }

  /** A lone value behind the name is read as it stands: every character that is no quote and no blank, equals signs
      included, up to the closing bracket. */
  lemma BareValueTokens(name: string, v: string)
    requires Unbroken(name) && v != "" && ' ' !in v && '"' !in v
    ensures AttrTokens(name + "=" + v) == [Token(Tag, name), Token(AttrValue, v)]
  {
    hide TagStep, TagSteps;
    var s := name + "=" + v;
    assert s == name + ("=" + v) && ("=" + v)[1..] == v;
    NameStep(name, "=" + v, s, true);
    LastValueRead(s, |name| + 1, v);
    assert SPACE !in s;
    StepOnce(s, 0, NameMode, true);
  }

  lemma LastValueRead(s: string, q: nat, v: string)
    requires q < |s| && s[q..] == v && '"' !in v
    ensures TagSteps(s, q, ValueMode, true) == [Token(AttrValue, v)]
  {
    hide Unquote, ValueEnd, TagSteps, TakeValueChar;
    assert forall i | q <= i < |s| :: s[i] == v[i - q] && v[i - q] in v;
    BareEnd(s, q, |s|, true);
    UnquoteBare(v);
    ValueTokens(s, q, true);
    assert s[q..|s|] == v;
  }

  // ---------------------------------------------------------------- where any value ends

  predicate OpenQuoteAt(s: string, i: nat)
    requires i < |s|
  {
    s[i] == '"' && (i == 0 || s[i - 1] != '\\')
  }

  /** How many quotes without a backslash stand between two places. */
  function Quotes(s: string, p: nat, i: nat): nat
    requires p <= i <= |s|
  {
    if p == i then 0 else Quotes(s, p, i - 1) + if OpenQuoteAt(s, i - 1) then 1 else 0
  }

  /** The value that starts at p stops at i: at a quote that closes one, unless a blank or an equals sign follows; or, when
      the tag holds several values, at a blank outside quotes. */
  predicate StopsAt(s: string, p: nat, i: nat, single: bool)
    requires p <= i < |s|
  {
    if OpenQuoteAt(s, i) then
      Quotes(s, p, i) % 2 == 1 && !(i + 1 < |s| && (s[i + 1] == '=' || s[i + 1] == ' ' || s[i + 1] == '\t'))
    else !single && (s[i] == ' ' || s[i] == '\t') && Quotes(s, p, i) % 2 == 0
  }

  lemma {:induction false} ReadsOn(s: string, p: nat, i: nat, single: bool)
    requires p <= i <= |s|
    ensures var e := ValueEnd(s, i, Quotes(s, p, i) % 2 == 1, single);
            i <= e && (forall j | i <= j < e :: !StopsAt(s, p, j, single)) && (e < |s| ==> StopsAt(s, p, e, single))
    decreases |s| - i
  {
    if i < |s| {
      var quoted := Quotes(s, p, i) % 2 == 1;
      var (take, quoted') := TakeValueChar(s, i, quoted, single);
      assert take <==> !StopsAt(s, p, i, single);
      if take {
        assert quoted' == (Quotes(s, p, i + 1) % 2 == 1);
        ReadsOn(s, p, i + 1, single);
      }
    }
  }

  /** Every value ends at the first such place, or with the text. */
  lemma ValueEndsAtFirstStop(s: string, p: nat, single: bool)
    requires p <= |s|
    ensures var e := ValueEnd(s, p, false, single);
            p <= e <= |s| && (forall j | p <= j < e :: !StopsAt(s, p, j, single)) && (e < |s| ==> StopsAt(s, p, e, single))
  {
    hide ValueEnd, StopsAt;
    ReadsOn(s, p, p, single);
  }

  // ---------------------------------------------------------------- lists of attributes

  lemma LoneStep(s: string, p: nat, w: string, more: string)
    requires p < |s| && s[p..] == w + more && LoneWord(w) && (more == "" || more[0] == ' ')
    ensures TagStep(s, p, AttrMode, false)
         == (Token(AttrValue, w), p + |w| + 1, if more == "" then NameMode else AttrMode)
  {
    hide Unquote;
    TakeWhileUnique(w, more, c => !IsSpecial(c));
    UnquoteBare(w);
    assert |s| == p + |w| + |more|;
    if more != "" {
      assert s[p + |w|] == s[p..][|w|];
    }
  }

  lemma WordRead(s: string, p: nat, w: string, more: string)
    requires p < |s| && s[p..] == w + more && LoneWord(w) && (more == "" || more[0] == ' ')
    ensures TagSteps(s, p, AttrMode, false)
         == [Token(AttrValue, w)] + if more == "" then [] else TagSteps(s, |s| - |more| + 1, AttrMode, false)
    ensures more != "" ==> s[|s| - |more|..] == more
  {
    hide TagStep, TagSteps, LoneWord;
    LoneStep(s, p, w, more);
    var q := p + |w|;
    assert |s| == q + |more|;
    StepOnce(s, p, AttrMode, false);
    if more != "" {
      assert s[q..] == s[p..][|w|..] == more;
    } else {
      StepsDone(s, q + 1, NameMode, false);
    }
  }

  lemma BareValueRead(s: string, q: nat, v: string, more: string)
    requires q < |s| && s[q..] == v + more && Bare(v) && (more == "" || more[0] == ' ')
    ensures TagSteps(s, q, ValueMode, false)
         == [Token(AttrValue, v)] + if more == "" then [] else TagSteps(s, |s| - |more| + 1, AttrMode, false)
    ensures more != "" ==> s[|s| - |more|..] == more
  {
    hide Unquote, ValueEnd, TagSteps;
    var e := q + |v|;
    assert |s| == e + |more|;
    assert forall i | q <= i < e :: s[i] == s[q..][i - q] == v[i - q] && v[i - q] in v;
    assert s[q..e] == s[q..][..|v|] == v;
    if more != "" {
      assert s[e] == s[q..][|v|] == ' ';
      assert s[e..] == s[q..][|v|..] == more;
      if |more| == 1 {
        StepsDone(s, |s|, AttrMode, false);
      }
    }
    BareEnd(s, q, e, false);
    UnquoteBare(v);
    ValueTokens(s, q, false);
  }

  lemma BarePairRead(s: string, p: nat, key: string, v: string, more: string)
    requires 0 < p <= |s| && s[p..] == key + ("=" + v + more) && Named(key, v).Valid() && (more == "" || more[0] == ' ')
    ensures TagSteps(s, p, AttrMode, false)
         == [Token(AttrName, key), Token(AttrValue, v)] + if more == "" then [] else TagSteps(s, |s| - |more| + 1, AttrMode, false)
    ensures more != "" ==> s[|s| - |more|..] == more
  {
    hide TagStep, TagSteps;
    var rest := "=" + v + more;
    NamedStep(s, p, key, rest);
    assert rest[1..] == v + more;
    BareValueRead(s, p + |key| + 1, v, more);
    StepOnce(s, p, AttrMode, false);
  }

  lemma ItemRead(s: string, p: nat, item: Item, more: string)
    requires 0 < p < |s| && s[p..] == item.Text() + more && item.Valid() && (more == "" || more[0] == ' ')
    ensures TagSteps(s, p, AttrMode, false)
         == item.Tokens() + if more == "" then [] else TagSteps(s, |s| - |more| + 1, AttrMode, false)
    ensures more != "" ==> s[|s| - |more|..] == more
  {
    hide TagSteps, PlainValue, LoneWord, Bare, Unbroken;
    match item
    case Lone(w) => WordRead(s, p, w, more);
    case Named(k, v) =>
      Regrouped(k, "=", v + more, v, more);
      BarePairRead(s, p, k, v, more);
    case Quoted(k, v) => QuotedRead(s, p, k, v, more);
  }

  lemma Regrouped(a: string, b: string, cd: string, c: string, d: string)
    requires cd == c + d
    ensures a + b + c + d == a + (b + c + d)
  {
  }

  lemma QuotedRead(s: string, p: nat, k: string, v: string, more: string)
    requires 0 < p < |s| && s[p..] == Quoted(k, v).Text() + more && Quoted(k, v).Valid() && (more == "" || more[0] == ' ')
    ensures TagSteps(s, p, AttrMode, false)
         == [Token(AttrName, k), Token(AttrValue, v)] + if more == "" then [] else TagSteps(s, |s| - |more| + 1, AttrMode, false)
    ensures more != "" ==> s[|s| - |more|..] == more
  {
    hide TagSteps, PlainValue;
    assert s[p..] == k + ("=\"" + v + "\"" + more);
    NamedPair(s, p, k, v, more);
  }

  lemma FirstValid(items: seq<Item>)
    requires items != [] && AllValid(items)
    ensures items[0].Valid() && items[0].Text() != "" && AllValid(items[1..])
  {
    hide Item.Valid, Item.Text;
    assert items[0] in items;
    assert forall i | i in items[1..] :: i in items;
    ItemNotEmpty(items[0]);
  }

  lemma FirstWritten(items: seq<Item>)
    requires items != []
    ensures Written(items) == " " + (items[0].Text() + Written(items[1..]))
    ensures ItemTokens(items) == items[0].Tokens() + ItemTokens(items[1..])
  {
    hide Item.Text, Item.Tokens;
  }

  lemma FirstItem(items: seq<Item>)
    requires items != [] && AllValid(items)
    ensures Written(items)[1..] == items[0].Text() + Written(items[1..]) && ItemTokens(items) == items[0].Tokens() + ItemTokens(items[1..])
    ensures items[0].Valid() && items[0].Text() != "" && AllValid(items[1..]) && |Written(items)| > 1 && Written(items)[0] == ' '
  {
    hide Item.Valid, Item.Text, Item.Tokens, Written, ItemTokens, AllValid;
    FirstValid(items);
    FirstWritten(items);
  }

  lemma {:induction false} ItemsRead(s: string, p: nat, items: seq<Item>)
    requires items != [] && AllValid(items) && 0 < p < |s| && s[p..] == Written(items)[1..]
    ensures TagSteps(s, p, AttrMode, false) == ItemTokens(items)
    decreases |items|
  {
    hide TagSteps, Item.Valid, Item.Text, Item.Tokens, Written, ItemTokens, AllValid;
    var more := Written(items[1..]);
    FirstItem(items);
    if items[1..] == [] {
      NoItems();
      ItemRead(s, p, items[0], "");
      assert items[0].Tokens() + [] == items[0].Tokens();
    } else {
      FirstItem(items[1..]);
      ItemRead(s, p, items[0], more);
      var p' := |s| - |more| + 1;
      assert s[p'..] == s[p' - 1..][1..] == more[1..];
      ItemsRead(s, p', items[1..]);
    }
  }

  lemma NoItems()
    ensures Written([]) == "" && ItemTokens([]) == []
  {
  }

  lemma ItemNotEmpty(item: Item)
    ensures item.Valid() ==> item.Text() != ""
  {
  }

  /** A list of attributes, each a lone word, a bare value with its name or a quoted one: all read in order. */
  lemma ListTokens(name: string, items: seq<Item>)
    requires Unbroken(name) && items != [] && AllValid(items) && '=' in Written(items)
    ensures AttrTokens(name + Written(items)) == [Token(Tag, name)] + ItemTokens(items)
  {
    hide TagStep, TagSteps, Item.Valid, Item.Text, Item.Tokens, Written, ItemTokens, AllValid;
    var rest := Written(items);
    var s := name + rest;
    FirstItem(items);
    assert '=' in rest[1..] by {
      assert rest == [' '] + rest[1..];
    }
    NameStep(name, rest, s, false);
    assert SPACE in s;
    ItemsRead(s, |name| + 1, items);
    StepOnce(s, 0, NameMode, false);
  }

  lemma FirstLone(w: string, items: seq<Item>)
    requires LoneWord(w)
    ensures Written([Lone(w)] + items)[1..] == w + Written(items)
    ensures ItemTokens([Lone(w)] + items) == [Token(AttrValue, w)] + ItemTokens(items)
    ensures AllValid(items) ==> AllValid([Lone(w)] + items)
  {
    hide LoneWord;
    var all := [Lone(w)] + items;
    assert all[1..] == items && all[0] == Lone(w);
    assert Written(all) == " " + (w + Written(items));
    assert Lone(w).Valid();
  }

  /** The same when a lone word stands directly behind the name and an equals sign. */
  lemma WordAndListTokens(name: string, w: string, items: seq<Item>)
    requires Unbroken(name) && LoneWord(w) && items != [] && AllValid(items)
    ensures AttrTokens(name + ("=" + w) + Written(items)) == [Token(Tag, name), Token(AttrValue, w)] + ItemTokens(items)
  {
    hide TagStep, TagSteps, Item.Valid, Item.Text, Item.Tokens, Written, ItemTokens, AllValid, LoneWord, Unbroken;
    var more := Written(items);
    var s := name + ("=" + w) + more;
    FirstItem(items);
    WordHead(name, w, more, s);
    if '=' in w + more {
      FirstLone(w, items);
      ItemsRead(s, |name| + 1, [Lone(w)] + items);
    } else {
      AfterWord(s, |name| + 1, w, items);
    }
    StepOnce(s, 0, NameMode, false);
    assert [Token(Tag, name)] + ([Token(AttrValue, w)] + ItemTokens(items)) == [Token(Tag, name), Token(AttrValue, w)] + ItemTokens(items);
  }

  lemma WordHead(name: string, w: string, more: string, s: string)
    requires s == name + ("=" + w) + more && Unbroken(name) && more != "" && more[0] == ' '
    ensures TagStep(s, 0, NameMode, false) == (Token(Tag, name), |name| + 1, if '=' !in w + more then ValueMode else AttrMode)
    ensures |name| + 1 < |s| && s[|name| + 1..] == w + more && SPACE in s
  {
    hide TagStep, Unbroken;
    var rest := "=" + w + more;
    assert s == name + rest && rest[1..] == w + more;
    NameStep(name, rest, s, false);
    assert s[|s| - |more|] == ' ';
  }

  lemma AfterWord(s: string, q: nat, w: string, items: seq<Item>)
    requires q < |s| && s[q..] == w + Written(items) && LoneWord(w) && items != [] && AllValid(items)
    ensures TagSteps(s, q, ValueMode, false) == [Token(AttrValue, w)] + ItemTokens(items)
  {
    hide TagStep, TagSteps, Item.Valid, Item.Text, Item.Tokens, Written, ItemTokens, AllValid;
    var more := Written(items);
    FirstItem(items);
    BareValueRead(s, q, w, more);
    var p := |s| - |more| + 1;
    assert s[p..] == s[p - 1..][1..] == more[1..];
    ItemsRead(s, p, items);
  }

  // ---------------------------------------------------------------- escaped quotes

  /** Every quote inside is escaped, and the last character takes no part in the closing one. */
  predicate Guarded(v: string) {
    v != "" && v[|v| - 1] != '"' && v[|v| - 1] != '\\' && forall i | 0 <= i < |v| && v[i] == '"' :: i > 0 && v[i - 1] == '\\'
  }

  lemma {:induction false} GuardedEnd(s: string, p: nat, e: nat, single: bool)
    requires 0 < p <= e == |s| - 1 && s[e] == '"' && s[e - 1] != '\\'
    requires forall i | p <= i < e && s[i] == '"' :: s[i - 1] == '\\'
    ensures ValueEnd(s, p, true, single) == e
    decreases e - p
  {
    if p < e {
      GuardedEnd(s, p + 1, e, single);
    }
  }

  lemma {:induction false} FirstReplaced(a: string, b: string)
    requires '"' !in a
    ensures ReplaceFirst(a + "\\\"" + b, [BACKSLASH, QUOTEMARK], [QUOTEMARK]) == a + "\"" + b
  {
    var s := a + "\\\"" + b;
    if a == "" {
      assert s[2..] == b;
    } else {
      assert s[1..] == a[1..] + "\\\"" + b;
      assert s[1] == if |a| > 1 then a[1] else '\\';
      assert forall c | c in a[1..] :: c in a;
      FirstReplaced(a[1..], b);
      assert [a[0]] + (a[1..] + "\"" + b) == a + "\"" + b;
    }
  }

  lemma UnquoteGuarded(a: string, b: string)
    requires '"' !in a && Guarded(a + "\\\"" + b)
    ensures Unquote("\"" + (a + "\\\"" + b)) == a + "\"" + b
  {
    hide ReplaceFirst;
    var v := a + "\\\"" + b;
    assert ("\"" + v)[1..] == v;
    assert v[0] != '"' && TrimChar(v, QUOTEMARK) == v;
    FirstReplaced(a, b);
  }

  /** In a quoted value the first escaped quote is read as a quote, whatever else is escaped behind it. */
  lemma EscapedQuoteTokens(name: string, a: string, b: string)
    requires Unbroken(name) && '"' !in a && Guarded(a + "\\\"" + b) && (' ' in a + b ==> '=' !in a + b)
    ensures AttrTokens(name + ("=\"" + (a + "\\\"" + b) + "\"")) == [Token(Tag, name), Token(AttrValue, a + "\"" + b)]
  {
    hide TagStep, TagSteps, Guarded, Unbroken;
    var v := a + "\\\"" + b;
    var rest := "=\"" + v + "\"";
    var s := name + rest;
    var single := SPACE !in s;
    assert rest[1..] == "\"" + v + "\"";
    NameStep(name, rest, s, single);
    assert SPACE in s ==> ' ' in a + b by { NoBlank(name); }
    GuardedRead(s, |name| + 1, a, b, single);
    StepOnce(s, 0, NameMode, single);
  }

  lemma NoBlank(name: string)
    requires Unbroken(name)
    ensures ' ' !in name
  {
  }

  lemma GuardedRead(s: string, q: nat, a: string, b: string, single: bool)
    requires 0 < q < |s| && s[q - 1] == '=' && s[q..] == "\"" + (a + "\\\"" + b) + "\"" && '"' !in a && Guarded(a + "\\\"" + b)
    ensures TagSteps(s, q, ValueMode, single) == [Token(AttrValue, a + "\"" + b)]
  {
    hide ValueEnd, Unquote, TagSteps, TakeValueChar;
    var v := a + "\\\"" + b;
    var e := |s| - 1;
    assert forall i | q < i < e :: s[i] == s[q..][i - q] == v[i - q - 1];
    assert s[q] == s[q..][0] && s[e] == s[q..][e - q] && s[e - 1] == v[|v| - 1];
    OpenQuote(s, q, single);
    GuardedEnd(s, q + 1, e, single);
    ValueTokens(s, q, single);
    assert s[q..e] == s[q..][..|v| + 1] == "\"" + v;
    UnquoteGuarded(a, b);
  }
}
