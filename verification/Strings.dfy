/** String helpers standing for the JavaScript string methods the BBCode engine calls. */
module Strings {

  datatype Option<+T> = None | Some(value: T)

  /** The longest prefix of s whose characters all satisfy p. */
  function TakeWhile(s: string, p: char -> bool): (r: string)
    ensures r <= s
    ensures forall c | c in r :: p(c)
    ensures |r| < |s| ==> !p(s[|r|])
  {
    if s == [] || !p(s[0]) then [] else
    var t := TakeWhile(s[1..], p);
    assert s == [s[0]] + s[1..];
    [s[0]] + t
  }

  /** TakeWhile is the only split of a string at its first character refused by p. */
  lemma {:induction false} TakeWhileUnique(w: string, rest: string, p: char -> bool)
    requires forall c | c in w :: p(c)
    requires rest == [] || !p(rest[0])
    ensures TakeWhile(w + rest, p) == w
  {
    if w == [] {
      assert w + rest == rest;
    } else {
      assert (w + rest)[1..] == w[1..] + rest;
      assert p(w[0]);
      forall c | c in w[1..] ensures p(c) { assert c in w; }
      TakeWhileUnique(w[1..], rest, p);
    }
  }

  /** The part of s before the first c; all of s when c does not occur. */
  function UpTo(s: string, c: char): (r: string)
    ensures r <= s && c !in r
    ensures |r| < |s| ==> s[|r|] == c
    ensures c in s <==> |r| < |s|
  {
    var r := TakeWhile(s, x => x != c);
    assert |r| == |s| ==> r == s;
    r
  }

  lemma UpToUnique(w: string, c: char, rest: string)
    requires c !in w
    ensures UpTo(w + [c] + rest, c) == w
  {
    assert w + [c] + rest == w + ([c] + rest);
    TakeWhileUnique(w, [c] + rest, x => x != c);
  }

  predicate OccursAt(s: string, sub: string, i: nat) {
    i + |sub| <= |s| && s[i..i + |sub|] == sub
  }

  /** s.indexOf(sub) > -1 */
  predicate Occurs(s: string, sub: string) {
    exists i | 0 <= i <= |s| :: OccursAt(s, sub, i)
  }

  function LowerChar(c: char): char {
    if 'A' <= c <= 'Z' then c - 'A' + 'a' else c
  }

  /** toLowerCase, on the ASCII letters. */
  function Lower(s: string): (r: string)
    ensures |r| == |s|
    ensures forall i | 0 <= i < |s| :: r[i] == LowerChar(s[i])
  {
    if s == [] then [] else [LowerChar(s[0])] + Lower(s[1..])
  }

  /** The same letter, or one the capital of the other: 32 places apart, the capital between 65 and 90. */
  predicate SameLetter(c: char, d: char) {
    c == d || (65 <= c as int <= 90 && d as int == c as int + 32) || (65 <= d as int <= 90 && c as int == d as int + 32)
  }

  lemma LowerCharMeaning(c: char, d: char)
    ensures LowerChar(c) == LowerChar(d) <==> SameLetter(c, d)
    ensures !(65 <= LowerChar(c) as int <= 90)
  {
    LowerCharCode(c);
    LowerCharCode(d);
  }

  lemma LowerCharCode(c: char)
    ensures LowerChar(c) as int == if 65 <= c as int <= 90 then c as int + 32 else c as int
  {
  }

  /** Two texts have the same lower-case form exactly when they are as long and the same letter by letter; and that form
      holds no capital. */
  lemma LowerIsCaseBlind(a: string, b: string)
    ensures Lower(a) == Lower(b) <==> |a| == |b| && forall i | 0 <= i < |a| :: SameLetter(a[i], b[i])
    ensures forall c | c in Lower(a) :: !(65 <= c as int <= 90)
  {
    hide LowerChar, SameLetter, Lower;
    forall i | 0 <= i < |a| && i < |b|
      ensures Lower(a)[i] == Lower(b)[i] <==> SameLetter(a[i], b[i])
    {
      LowerCharMeaning(a[i], b[i]);
    }
    forall c | c in Lower(a)
      ensures !(65 <= c as int <= 90)
    {
      var i :| 0 <= i < |Lower(a)| && Lower(a)[i] == c;
      LowerCharMeaning(a[i], a[i]);
    }
  }

  /** trimChar: drops every leading and then every trailing c. */
  function TrimChar(s: string, c: char): string
    decreases |s|
  {
    if s != [] && s[0] == c then TrimChar(s[1..], c)
    else if s != [] && s[|s| - 1] == c then TrimChar(s[..|s| - 1], c)
    else s
  }

  /** str.replace(a, b) with a string pattern: only the first occurrence is replaced. */
  function ReplaceFirst(s: string, a: string, b: string): string {
    if a <= s then b + s[|a|..]
    else if s == [] then []
    else [s[0]] + ReplaceFirst(s[1..], a, b)
  }
}
