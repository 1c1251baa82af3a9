/** BBCode trees and their printed form. */
module TagNodes {
  import opened Strings

  /** An attribute object: keys in insertion order, each once. */
  type Attrs = seq<(string, string)>

  /** A tag node whose content is null is a Void; one with a content array is an Elem. */
  datatype Tree =
    | Leaf(text: string)
    | Elem(tag: string, attrs: Attrs, content: seq<Tree>)
    | Void(tag: string, attrs: Attrs)

  function Content(t: Tree): seq<Tree> { if t.Elem? then t.content else [] }

  /** attrs[name] = value */
  function SetAttr(attrs: Attrs, name: string, value: string): Attrs {
    if attrs == [] then [(name, value)]
    else if attrs[0].0 == name then [(name, value)] + attrs[1..]
    else [attrs[0]] + SetAttr(attrs[1..], name, value)
  }

  // ---------------------------------------------------------------- printing

  function EscapeChar(c: char): string {
    if c == '&' then "&amp;" else if c == '<' then "&lt;" else if c == '>' then "&gt;"
    else if c == '"' then "&quot;" else if c == '\'' then "&#039;" else [c]
  }

  function EscapeChars(s: string): string {
    if s == [] then [] else EscapeChar(s[0]) + EscapeChars(s[1..])
  }

  /** Length of the script scheme s starts with, letter case ignored; 0 when there is none. */
  function SchemeLength(s: string): (n: nat)
    ensures n < |s| || n == 0
  {
    var l := Lower(s);
    if "javascript:" <= l then 10 else if "data:" <= l then 4 else if "vbscript:" <= l then 8 else 0
  }

  function DefuseSchemes(s: string): string
    decreases |s|
  {
    if s == [] then [] else
    var n := SchemeLength(s);
    if n > 0 then s[..n] + "%3A" + DefuseSchemes(s[n + 1..]) else [s[0]] + DefuseSchemes(s[1..])
  }

  function EscapeAttr(value: string): string { DefuseSchemes(EscapeChars(value)) }

  function AttrValue(name: string, value: string): string { name + "=\"" + EscapeAttr(value) + "\"" }

  function AttrsToString(attrs: Attrs): string {
    if attrs == [] then [] else " " + AttrValue(attrs[0].0, attrs[0].1) + AttrsToString(attrs[1..])
  }

  /** getUniqAttr: the last attribute, when its value repeats its name. */
  function UniqueAttr(attrs: Attrs): Option<string> {
    if attrs != [] && attrs[|attrs| - 1].0 == attrs[|attrs| - 1].1 then Some(attrs[|attrs| - 1].1) else None
  }

  /** getTagAttrs */
  function TagBody(tag: string, attrs: Attrs): string {
    var unique := UniqueAttr(attrs);
    if unique.Some? && unique.value != "" then AttrValue(tag, unique.value) + AttrsToString(attrs[..|attrs| - 1])
    else tag + AttrsToString(attrs)
  }

  function TagStart(tag: string, attrs: Attrs): string { "[" + TagBody(tag, attrs) + "]" }

  function TagEnd(tag: string): string { "[/" + tag + "]" }

  /** TagNode.toString on a list of nodes. */
  function Print(f: seq<Tree>): string {
    if f == [] then [] else
    (match f[0]
     case Leaf(s) => s
     case Void(tag, attrs) => TagStart(tag, attrs)
     case Elem(tag, attrs, content) =>
       TagStart(tag, attrs) + if content == [] then "" else Print(content) + TagEnd(tag)) + Print(f[1..])
  }

  /** The text of the leaves, left to right. */
  function TextOf(f: seq<Tree>): string {
    if f == [] then [] else
    (match f[0]
     case Leaf(s) => s
     case Void(_, _) => ""
     case Elem(_, _, content) => TextOf(content)) + TextOf(f[1..])
  }

  /** The texts of the leaves, left to right. */
  function Leaves(f: seq<Tree>): seq<string> {
    if f == [] then [] else
    (match f[0]
     case Leaf(s) => [s]
     case Void(_, _) => []
     case Elem(_, _, content) => Leaves(content)) + Leaves(f[1..])
  }

  lemma {:induction false} LeavesAppend(a: seq<Tree>, b: seq<Tree>)
    ensures Leaves(a + b) == Leaves(a) + Leaves(b)
    decreases |a|
  {
    if a == [] {
      assert a + b == b;
    } else {
      assert (a + b)[1..] == a[1..] + b;
      LeavesAppend(a[1..], b);
    }
  }

  function TagCount(f: seq<Tree>): nat {
    if f == [] then 0 else
    (match f[0]
     case Leaf(_) => 0
     case Void(_, _) => 1
     case Elem(_, _, content) => 1 + TagCount(content)) + TagCount(f[1..])
  }
}
