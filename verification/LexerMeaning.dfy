/** What is read next, told from the characters themselves: for every input with the default brackets. */
module LexerMeaning {
  import opened Strings
  import opened LexerSpec

  predicate DefaultBrackets(cfg: Config) { cfg.openTag == '[' && cfg.closeTag == ']' }

  /** A tag's text starts behind the bracket in front and ends before place k. */
  predicate TagUpTo(rest: string, k: int) {
    1 < k < |rest| && rest[k] == ']' && (forall i | 1 <= i < k :: rest[i] != '[' && rest[i] != ']')
    && rest[1] != '"' && rest[1] != '\\' && rest[1] != ' ' && rest[1] != '\t' && rest[1] != '=' && rest[1] != '\n' && rest[1] != '!'
  }

  lemma OnlyOneEnd(rest: string, k: int, m: int)
    requires TagUpTo(rest, k) && TagUpTo(rest, m)
    ensures k == m
  {
  }

  lemma BodyEnd(rest: string, k: int)
    requires TagUpTo(rest, k)
    ensures UpTo(rest[1..], ']') == rest[1..k] && '[' !in rest[1..k] && rest[1..k] != "" && ']' in rest
  {
    assert rest[1..] == rest[1..k] + [']'] + rest[k + 1..];
    UpToUnique(rest[1..k], ']', rest[k + 1..]);
    assert rest[k] in rest;
  }

  /** Outside context-free mode, an opening bracket starts a tag exactly when a closing one follows before the next
      opening one, something stands between them, and it starts with no quote, backslash, blank, equals sign, newline or
      exclamation mark. The text between is the tag; with an equals sign in it, and no slash in front, it has attributes. */
  lemma TagIsRead(cfg: Config, rest: string)
    requires DefaultBrackets(cfg) && rest != "" && rest[0] == '['
    ensures forall k | TagUpTo(rest, k) ::
              NextSegment(cfg, rest, "").0 == if '=' in rest[1..k] && rest[1] != '/' then TagWithAttrs(rest[1..k])
                                              else Plain(Token(Tag, rest[1..k]))
    ensures (forall k :: !TagUpTo(rest, k)) ==> NextSegment(cfg, rest, "") == (Plain(Token(LexerSpec.Word, "[")), "")
  {
    hide Config.NextContext;
    forall k | TagUpTo(rest, k)
      ensures NextSegment(cfg, rest, "").0 == if '=' in rest[1..k] && rest[1] != '/' then TagWithAttrs(rest[1..k])
                                              else Plain(Token(Tag, rest[1..k]))
    {
      TagRead(cfg, rest, k);
    }
    if forall k :: !TagUpTo(rest, k) {
      NoTagRead(cfg, rest);
    }
  }

  lemma TagRead(cfg: Config, rest: string, k: int)
    requires DefaultBrackets(cfg) && rest != "" && rest[0] == '[' && TagUpTo(rest, k)
    ensures NextSegment(cfg, rest, "").0 == if '=' in rest[1..k] && rest[1] != '/' then TagWithAttrs(rest[1..k])
                                            else Plain(Token(Tag, rest[1..k]))
  {
    hide Config.NextContext, UpTo;
    BodyEnd(rest, k);
    assert StartsTag(cfg, rest, "");
    assert rest[1..k][0] == rest[1] && |rest[1..k]| < |rest| - 1;
  }

  lemma NoTagRead(cfg: Config, rest: string)
    requires DefaultBrackets(cfg) && rest != "" && rest[0] == '[' && forall k :: !TagUpTo(rest, k)
    ensures NextSegment(cfg, rest, "") == (Plain(Token(LexerSpec.Word, "[")), "")
  {
    hide Config.NextContext;
    var body := UpTo(rest[1..], ']');
    var k := |body| + 1;
    if k < |rest| {
      assert rest[k] == ']' && body == rest[1..k];
      assert forall i | 1 <= i < k :: rest[i] == body[i - 1] && body[i - 1] in body;
      assert !TagUpTo(rest, k);
      assert k == 1 || (exists i | 1 <= i < k :: rest[i] == '[') || cfg.IsReserved(rest[1]);
    }
  }

  /** With escapes on, a backslash protects a bracket or a backslash behind it and is dropped; otherwise it is a word. */
  lemma EscapeIsRead(cfg: Config, rest: string, context: string)
    requires DefaultBrackets(cfg) && cfg.escapeTags && rest != "" && rest[0] == '\\'
    ensures NextSegment(cfg, rest, context) ==
            (if |rest| > 1 && (rest[1] == '[' || rest[1] == ']' || rest[1] == '\\') then Escaped(Token(LexerSpec.Word, [rest[1]]))
             else Plain(Token(LexerSpec.Word, "\\")), context)
  {
  }

  /** Where a stretch ends that is read as one token. */
  ghost predicate EndsAt(rest: string, n: nat, p: char -> bool) {
    0 < n <= |rest| && (forall i | 0 <= i < n :: p(rest[i])) && (n < |rest| ==> !p(rest[n]))
  }

  function WordChar(escapes: bool): char -> bool {
    (c: char) => c != '[' && c != ' ' && c != '\t' && c != '\n' && !(escapes && c == '\\')
  }

  lemma StretchIsRead(rest: string, n: nat, p: char -> bool, q: char -> bool)
    requires EndsAt(rest, n, p) && forall c | c in rest :: p(c) == q(c)
    ensures TakeWhile(rest, q) == rest[..n]
  {
    assert rest == rest[..n] + rest[n..];
    assert forall i | 0 <= i < |rest| :: rest[i] in rest;
    TakeWhileUnique(rest[..n], rest[n..], q);
  }

  /** Anything else is read in the longest stretches: single newlines, blanks, and words up to a blank, a newline, an
      opening bracket or, with escapes on, a backslash. */
  lemma TextIsRead(cfg: Config, rest: string, context: string, n: nat)
    requires DefaultBrackets(cfg) && rest != ""
    ensures rest[0] == '\n' ==> NextSegment(cfg, rest, context) == (Plain(Token(NewLine, "\n")), context)
    ensures EndsAt(rest, n, c => c == ' ' || c == '\t')
            ==> NextSegment(cfg, rest, context) == (Plain(Token(Space, rest[..n])), context)
    ensures EndsAt(rest, n, WordChar(cfg.escapeTags))
            ==> NextSegment(cfg, rest, context) == (Plain(Token(LexerSpec.Word, rest[..n])), context)
  {
    hide Config.NextContext, TagSegment;
    if EndsAt(rest, n, c => c == ' ' || c == '\t') {
      StretchIsRead(rest, n, c => c == ' ' || c == '\t', IsWhiteSpace);
    }
    if EndsAt(rest, n, WordChar(cfg.escapeTags)) {
      StretchIsRead(rest, n, WordChar(cfg.escapeTags), cfg.IsWordChar);
    }
  }
}
