# Kyber models

Dafny models of the self-contained engines of the Kyber repository and proofs about them. Each class method is proved
against a function that says what it computes; the theorems are about those functions, for all inputs and all runs.

- **BBCode** (`Strings`, `LexerSpec`, `LexerMeaning`, `ContextFree`, `Lexer`, `TagNodes`, `ParserSpec`, `Parser`,
  `ParserSafety`, `PendingNames`, `PrintedForm`, `BareAttrs`, `RoundTrip`, `RoundTripExact`, `OneTag`, `Escaping`, `Preset`,
  `PresetLeaves`, `Html`, `Convert`, `TagsConverted`, `ListsConverted`, `HtmlReader`). The lexer is a class with a cursor,
  three modes and a token array allocated up front; it hands each token to the tree builder as soon as it is emitted.
  Specification of the lexer: the input is cut into segments. Specification of the tree builder: a state machine on
  tokens whose nodes share attribute objects through a store. Main results: nothing of the input is lost, the allow list
  only flattens one parse, parsing undoes printing exactly for unambiguous trees, unquoted attributes are read as they stand,
  the preset's rewriting ends and keeps text under an exact condition, and each tag is followed from the text that is typed
  to the HTML that is shown, whose tags are all closed in their places.
- **Admission** (`Documents`, `Admission`, `AdmissionRuns`, `AdmissionAnswers`, `TokenRace`, `TokenAlone`). Join tokens, bans
  and kicks over the document store, first one request at a time with a clock that never goes back, then with requests split
  into their single reads, checks and deletes and interleaved at will; a request whose steps nothing interrupts does what the
  request served at once does. When each request succeeds is told from the stored documents.
- **Aggregation pipelines** (`Pipeline`, `ModeratedServers`, `GroupedReports`). The stages as functions on lists of
  documents; each pipeline is proved equal to what it is meant to compute.
- **Reports** (`Reports`, `ReportRuns`, `ReportAnswers`). When each request succeeds, what becomes of every single report, and
  quotas and status changes over whole runs.
- **Game module** (`LevelGate`, `Scheduler`, `TeamShuffle`). The level-load gate with its mutex as ghost state, the tick
  scheduler with its in-place compaction, the team shuffle.
- **Smaller pieces** (`IpHistory`, `Messages`). The login address list against the login history, the tagged messages.

Time, random draws, new ids and the outcome of message-queue and kick calls are parameters.

## Where the code differs from what it is for

- `isTokenNested` searches the text for `[/name` without the closing bracket (Launcher/assets/js/bundle.js:700-709), so
  an unclosed tag before a tag with a longer name is taken as open. `RoundTripExact.ParseUndoesPrint` gives the exact
  condition, `RoundTripExact.SwallowedExample` an input.
- `IN_PROGRESS` is a declared report status (Module/Proto/kyber_api.proto:214-219) that the conversion turns into NEW
  (API/pkg/models/report.go:56-67), and `UpdateStatus` refuses NEW only. So a closed report can become NEW again, and
  because this is not checked like a new report the quotas can be exceeded. `ReportRuns.ClosedStaysClosedUnlessReopened`
  and `ReportRuns.RunKeepsQuotas` give the exact conditions, `ReportRuns.InProgressBreaksQuota` an input.
- A ban's duration, an unsigned 64-bit number of seconds, is counted in nanoseconds in a signed 64-bit number
  (API/internal/rpc/server_management.go:292), so a ban of more than 9223372036 seconds ends too early, and one of
  10000000000 seconds before it begins (`AdmissionRuns.HugeBanIsOver`). `AdmissionRuns.BanLastsAsAsked` gives the exact
  condition.
- An official-server moderator is listed the official servers only, his own others not
  (`ModeratedServers.OfficialModeratorMissesOwnServer`). `ModeratedServers.RequestIsCanManageExactly` gives the exact
  condition.
- An unnamed attribute beside named ones is printed first and so read first, where it is no longer found as one
  (`RoundTripExact.MixedIsMoved`).
- `OnLevelLoaded` is called from two places (Module/Source/Core/Server.cpp:542 and Module/Source/Core/Program.cpp:397).
  `LevelGate.LoadsNeverOverlap` says exactly which calls keep loads apart, `LevelGate.SecondNotificationOverlaps` shows a
  run with two calls for one load that does not.
- Constructing a player search gives it the tag of a command (`Messages.SearchRequestIsSentAsCommand`).
- A list puts text that follows an image into that image, which drops it (`Preset.ImageInListLosesText`).

## Model

| member | source | states |
|---|---|---|
| RoundTripExact.ParseUndoesPrint | Launcher/assets/js/bundle.js:744-934 | For every printable tree and every option setting without escapes and context-free tags, parsing the printed text gives the tree back, its text cut into maximal runs and its attributes as they are written, if and only if no unclosed tag's name begins the name of a closed one; otherwise strictly fewer tags come back. The attributes come back unchanged as well if and only if writing changes no value and no unnamed value stands beside named ones |
| RoundTripExact.NormalReadIsNormal | Launcher/assets/js/bundle.js:45-47 | What comes back differs from the tree exactly in values that writing escapes and in unnamed values beside named ones |
| RoundTripExact.MixedIsMoved | Launcher/assets/js/bundle.js:81-93 | An unnamed value beside named attributes never comes back in its place |
| RoundTripExact.ParseWellNested | Launcher/assets/js/bundle.js:744-934 | The tree comes back whenever the nesting test answers as the tree is built |
| RoundTripExact.ParseSwallows | Launcher/assets/js/bundle.js:825-864 | When the nesting test errs on some tag, at least one tag is lost |
| RoundTripExact.StepsTags | Launcher/assets/js/bundle.js:825-864 | No run of tokens makes more tag nodes than it has closing tags and not-nested opening tags |
| RoundTripExact.MadeByPrinted | Launcher/assets/js/bundle.js:825-864 | A printed tree makes all its tags but those whose names look nested |
| RoundTripExact.SwallowedExample | Launcher/assets/js/bundle.js:700-709 | `[b]` before `[big]x[/big]` does not come back: the nesting test finds `[/b` inside `[/big]` |
| RoundTrip.PrintedGrows | Launcher/assets/js/bundle.js:825-909 | From any state of the tree builder, the tokens of a printed tree append exactly that tree's nodes and attribute objects, leaving the stacks as they were |
| RoundTrip.BuiltResolves | Launcher/assets/js/bundle.js:150-159 | The nodes built, read through the attribute objects they share, are the tree with its text cut into runs |
| RoundTrip.AttributesWritten | Launcher/assets/js/bundle.js:875-894 | The attribute tokens after an opening tag leave its attribute object equal to the printed one, names in order, values as they are written |
| RoundTrip.NestedTagOpens | Launcher/assets/js/bundle.js:825-839 | An opening tag with a matching closing tag waits on the stack with its attributes |
| RoundTrip.NestedTagCloses | Launcher/assets/js/bundle.js:841-853 | Its closing tag moves it with its content into its parent |
| RoundTrip.ClosedTagOccurs | Launcher/assets/js/bundle.js:161-174 | Every tag with content puts its closing tag into the printed text |
| RoundTrip.ClosingIsClosed | Launcher/assets/js/bundle.js:700-709 | Whatever the nesting test finds in a printed text is the closing tag of a tag with content whose name begins with the name asked for |
| RoundTrip.WellNestedIffUnambiguous | Launcher/assets/js/bundle.js:756-764 | On a tree's own printed text the nesting test is right about every tag if and only if the tree is unambiguous |
| PrintedForm.LexPrinted | Launcher/assets/js/bundle.js:161-174 | Lexing undoes printing: the tokens of a printed tree are those of its tags, attributes and text runs, whatever follows |
| PrintedForm.LexText | Launcher/assets/js/bundle.js:626-678 | Text free of opening brackets is read as its runs |
| PrintedForm.TextTokensAreMaximal | Launcher/assets/js/bundle.js:626-678 | These runs are maximal words, maximal stretches of blanks and single newlines, and together are the text |
| PrintedForm.LexOpen | Launcher/assets/js/bundle.js:141-144 | A printed opening tag is read as its name and attribute tokens |
| PrintedForm.LexClose | Launcher/assets/js/bundle.js:146-148 | A printed closing tag is read as one tag token |
| PrintedForm.EscapedIsPlain | Launcher/assets/js/bundle.js:45-47 | Escaping makes every value free of quotes and adds neither blanks, brackets nor equals signs |
| PrintedForm.NamedTagTokens | Launcher/assets/js/bundle.js:517-584 | A printed list of named attributes is read back name by name and written value by written value, quotes off |
| PrintedForm.UnnamedTagTokens | Launcher/assets/js/bundle.js:81-93 | A tag printed with its unnamed attribute is read back as its name and that value |
| PrintedForm.MixedTagTokens | Launcher/assets/js/bundle.js:81-93 | An unnamed word beside named attributes is read first, then the names and values |
| PrintedForm.QuotedValue | Launcher/assets/js/bundle.js:537-563 | A quoted plain value is cut exactly at its closing quote, blanks and equals signs inside included |
| BareAttrs.ValueEndsAtFirstStop | Launcher/assets/js/bundle.js:537-561 | For every text and every place in it, an attribute value ends at the first quote that closes one and has neither a blank nor an equals sign behind it, or, when the tag holds a space, at the first blank outside quotes; otherwise with the text. Counted in quotes that have no backslash in front |
| BareAttrs.BareValueTokens | Launcher/assets/js/bundle.js:563-571 | `name=value` gives the name and exactly that value, for every value without quotes and blanks, equals signs included |
| BareAttrs.ListTokens | Launcher/assets/js/bundle.js:517-584 | A name and attributes one blank apart, each a lone word, a bare value with its name or a quoted one, are read in order and exactly |
| BareAttrs.WordAndListTokens | Launcher/assets/js/bundle.js:572-583 | The same when a lone word stands behind the name and an equals sign, whether or not another equals sign follows |
| BareAttrs.EscapedQuoteTokens | Launcher/assets/js/bundle.js:456-456 | In a quoted value the first escaped quote is read as a quote, and no other |
| OneTag.ValueTagParses | Launcher/assets/js/bundle.js:744-934 | `[name=value]text[/name]` is one node with the lower-case name and the value under itself, for every value without quotes, blanks and brackets |
| OneTag.ListTagParses | Launcher/assets/js/bundle.js:744-934 | With a list of differently named attributes it is one node with just these, in their order |
| OneTag.TagAroundParses | Launcher/assets/js/bundle.js:744-934 | A tag around any printed tree, its name in any letter case and its attributes in any form that is read so, is one node around the parse of that tree, when no unclosed tag inside begins the name of a closed one |
| OneTag.TagBeforeParses | Launcher/assets/js/bundle.js:825-839 | A tag that nothing closes is an empty node in front of the parse of what follows |
| OneTag.SetAttrMeaning | Launcher/assets/js/bundle.js:118-123 | Writing an attribute changes what is found under its name and nothing else; a new name comes last |
| PendingNames.NamesDoNotLeak | Launcher/assets/js/bundle.js:777-781 | For every input and option setting, at most one attribute name waits for a value, for the active tag, and the next tag forgets it |
| PendingNames.ValueIsItsOwn | Launcher/assets/js/bundle.js:875-894 | Behind any beginning of a text, a tag with one value gets it under itself and changes no earlier tag |
| PendingNames.NamesAreWritten | Launcher/assets/js/bundle.js:881-893 | A name is written with the empty value at once; without a name nothing is written, and the value behind it goes under itself |
| Escaping.EntitiesComeBack | Launcher/assets/js/bundle.js:45-47 | The entities in a written value are read back as the value |
| Escaping.DefusedIsFree | Launcher/assets/js/bundle.js:45-47 | No script scheme with its colon is left, in any letter case, at any place |
| Escaping.DefusedIsSame | Launcher/assets/js/bundle.js:45-47 | A text is left as it is if and only if no such scheme stands in it |
| Escaping.FirstDefused | Launcher/assets/js/bundle.js:45-47 | The first scheme keeps its letters and loses its colon, and what follows is treated the same way |
| Escaping.WrittenAsItIs | Launcher/assets/js/bundle.js:45-47 | A value is written unchanged if and only if it holds none of the five HTML characters and no such scheme |
| Escaping.WrittenIsHarmless | Launcher/assets/js/bundle.js:45-47 | A written value holds no quote, no angle bracket and no such scheme |
| LexerSpec.LexKeepsSource | Launcher/assets/js/bundle.js:586-698 | For every input and option setting, the stretches the lexer takes are the input, each character once and in order, and there is at most one token per character |
| LexerSpec.LexIsLossless | Launcher/assets/js/bundle.js:248-253 | With default brackets, the tokens' own text is the input if and only if no escape was resolved and no tag with attributes was read |
| LexerSpec.PlainInput | Launcher/assets/js/bundle.js:586-608 | An input without equals sign and, with escapes on, without backslash has neither |
| LexerSpec.SegmentIsPrefix | Launcher/assets/js/bundle.js:586-678 | Each step takes a non-empty prefix of what is left and emits no more tokens than characters |
| LexerSpec.NamesHoldNoBracket | Launcher/assets/js/bundle.js:875-878 | No tag's name holds an opening bracket, so the test of a text in brackets against the nested names never succeeds |
| LexerSpec.TagStepsShorten | Launcher/assets/js/bundle.js:518-571 | Behind a tag's name, the values read are shorter than what they are read from |
| LexerSpec.TagTokensShorten | Launcher/assets/js/bundle.js:610-624 | The text of the tokens of a tag with attributes is shorter than the tag with its brackets |
| LexerSpec.TagStep | Launcher/assets/js/bundle.js:517-584 | Each attribute step moves the tag's cursor forward, at most one past its end, and goes back to the name mode only at the end |
| LexerSpec.TagSteps | Launcher/assets/js/bundle.js:619-621 | The attribute loop ends and emits at most one token per character of the tag |
| LexerMeaning.TagIsRead | Launcher/assets/js/bundle.js:586-608 | Outside context-free mode an opening bracket starts a tag if and only if a closing one follows before the next opening one, the text between is not empty and starts with none of the reserved characters; it has attributes if and only if it holds an equals sign and starts with no slash |
| LexerMeaning.EscapeIsRead | Launcher/assets/js/bundle.js:657-669 | With escapes on, a backslash in front of a bracket or a backslash protects it, and is a word otherwise |
| LexerMeaning.TextIsRead | Launcher/assets/js/bundle.js:626-678 | Anything else is read in the longest stretches: single newlines, blanks, and words up to a blank, a newline, an opening bracket or, with escapes on, a backslash |
| ContextFree.ContextFreeTagHoldsText | Launcher/assets/js/bundle.js:640-656 | With and without escapes: around any body that holds no start of its closing tag and, with escapes on, leaves no backslash to protect it, a context-free tag, with attributes or without, is read as its opening tag, the body as text and nothing but text, its closing tag, and then the rest as usual |
| ContextFree.BodyIsText | Launcher/assets/js/bundle.js:640-656 | Inside a context-free tag everything up to its closing tag is text, character for character where nothing is escaped, whatever follows |
| ContextFree.RestIsBody | Launcher/assets/js/bundle.js:657-678 | What one step leaves of such a body is such a body |
| ContextFree.Opened | Launcher/assets/js/bundle.js:572-577 | A listed tag, with attributes or without, enters the context-free mode |
| ContextFree.Closed | Launcher/assets/js/bundle.js:641-648 | Its closing tag leaves it |
| Lexer.Tokenizer.Tokenize | Launcher/assets/js/bundle.js:680-698 | On every input and option setting the loop ends between tags with exactly the specified tokens emitted, the array never overflows, the cursor never passes the end, and the tree builder has received every token in order |
| Lexer.Tokenizer.constructor | Launcher/assets/js/bundle.js:458-507 | The token array has one place per input character |
| Lexer.Tokenizer.StateWord | Launcher/assets/js/bundle.js:626-678 | Emits the next word, blanks, newline or escape and moves on, or leaves the cursor at a bracket to be tried as a tag |
| Lexer.Tokenizer.StateTag | Launcher/assets/js/bundle.js:586-608 | Emits a word or a whole tag and moves on, or enters the attribute mode with a closing bracket ahead; what is still to come is unchanged |
| Lexer.Tokenizer.StateAttrs | Launcher/assets/js/bundle.js:610-624 | Reads a tag with attributes up to and past its closing bracket |
| Lexer.Tokenizer.ReadAttributes | Launcher/assets/js/bundle.js:616-621 | Emits the specified tokens of the text between the brackets, at most one per character |
| Lexer.Tokenizer.NextTagState | Launcher/assets/js/bundle.js:517-584 | One attribute step: its token, the new cursor, the next mode and the context-free tag |
| Lexer.Tokenizer.TagNameState | Launcher/assets/js/bundle.js:572-583 | The step that reads the tag's name |
| Lexer.Tokenizer.TagAttrState | Launcher/assets/js/bundle.js:518-536 | The step that reads an attribute's name or a lone value |
| Lexer.Tokenizer.TagValueState | Launcher/assets/js/bundle.js:537-571 | The step that reads an attribute's value |
| Lexer.Tokenizer.GrabValue | Launcher/assets/js/bundle.js:538-561 | The value loop with its quote flag stops where the specification says |
| Lexer.Tokenizer.EmitPlainTag | Launcher/assets/js/bundle.js:596-606 | A tag without attributes or a closing tag is emitted and its brackets passed |
| Lexer.Tokenizer.PassBracket | Launcher/assets/js/bundle.js:587-591 | Passes the opening bracket and finds the text up to the closing one |
| Lexer.Tokenizer.GrabToClose | Launcher/assets/js/bundle.js:613-613 | Grabs the text up to the closing bracket |
| Lexer.Tokenizer.GrabPastClose | Launcher/assets/js/bundle.js:600-602 | The same, and passes the bracket |
| Lexer.Tokenizer.EmitChar | Launcher/assets/js/bundle.js:652-655 | The character under the cursor becomes a token |
| Lexer.Tokenizer.EmitRun | Launcher/assets/js/bundle.js:635-638 | The longest run of matching characters becomes a token |
| Lexer.Tokenizer.EmitEscape | Launcher/assets/js/bundle.js:657-669 | A backslash protects a bracket or backslash and stands for itself otherwise |
| Lexer.Tokenizer.EmitToken | Launcher/assets/js/bundle.js:509-515 | The token goes to the tree builder and to the next place of the array, which exists |
| Lexer.Tokenizer.CheckContextFreeMode | Launcher/assets/js/bundle.js:497-504 | A closing tag leaves the context-free mode, a listed name enters it when outside |
| Lexer.CharGrabber.GrabWhile | Launcher/assets/js/bundle.js:384-393 | Grabs the longest run that satisfies the condition; at the end of the text it returns all the text before the cursor |
| Lexer.RunParse | Launcher/assets/js/bundle.js:919-933 | Lexer and tree builder together, run token by token, compute the specified parse |
| Parser.TreeBuilder.IsTokenNested | Launcher/assets/js/bundle.js:756-764 | The two caches answer as a search of the text does |
| Parser.TreeBuilder.FlushTagNodes | Launcher/assets/js/bundle.js:777-781 | Drops the active tag and a pending attribute name |
| Parser.TreeBuilder.PushNodes | Launcher/assets/js/bundle.js:783-789 | Nodes go to the innermost open tag, or to the top level |
| Parser.TreeBuilder.AppendAsString | Launcher/assets/js/bundle.js:791-809 | A tag becomes its opening text, its children in order and, when closed, its closing text |
| Parser.TreeBuilder.AppendTag | Launcher/assets/js/bundle.js:811-823 | An allowed tag becomes a lower-cased node, any other its text around its children |
| Parser.TreeBuilder.HandleTagStart | Launcher/assets/js/bundle.js:825-839 | State after an opening tag |
| Parser.TreeBuilder.HandleTagEnd | Launcher/assets/js/bundle.js:841-864 | State after a closing tag, an unmatched one included |
| Parser.TreeBuilder.WriteAttribute | Launcher/assets/js/bundle.js:118-123 | The attribute object of the active tag, shared with the copy already in the tree, is updated |
| Parser.TreeBuilder.HandleNode | Launcher/assets/js/bundle.js:875-909 | State after an attribute or text token |
| Parser.TreeBuilder.OnToken | Launcher/assets/js/bundle.js:911-917 | State after any token |
| Parser.TreeBuilder.Flush | Launcher/assets/js/bundle.js:928-933 | The innermost open tag is written out as text; outer open tags are dropped |
| ParserSafety.ParseFlattens | Launcher/assets/js/bundle.js:770-934 | For every input and every allow list, the tree is one parse that does not depend on the list, flattened by it: an allowed tag is a lower-cased node, any other tag its opening text, its children in order and its closing text |
| ParserSafety.StepFlattens | Launcher/assets/js/bundle.js:825-909 | Every token keeps this, in the tree and on the stack |
| ParserSafety.ParseAllowsOnlyListed | Launcher/assets/js/bundle.js:770-864 | For every input, however malformed, and every option setting, with a non-empty allow list every tag node at any depth has an allowed lower-cased name |
| ParserSafety.AllowedMeaning | Launcher/assets/js/bundle.js:770-775 | A tag is allowed if and only if the list holds its name in some letter case, or holds nothing but empty names |
| Strings.LowerIsCaseBlind | Launcher/assets/js/bundle.js:151-151 | Two ASCII texts have one lower-case form if and only if they agree letter by letter up to case, and that form holds no capital |
| ParserSafety.ParseKeepsText | Launcher/assets/js/bundle.js:777-934 | For every input and every allow list, the text leaves are the kept texts and, between them, the opening and closing texts of disallowed tags and nothing else; the kept texts are the text tokens in order if and only if no tag is left open, or more than one is and no text follows the last point at which none was |
| ParserSafety.ParseWithoutList | Launcher/assets/js/bundle.js:770-775 | Without a list the text leaves are the kept texts alone |
| ParserSafety.KeptIsPieces | Launcher/assets/js/bundle.js:791-809 | No list takes text away or moves it |
| ParserSafety.ClosedTexts | Launcher/assets/js/bundle.js:928-933 | The kept texts of every input: all text tokens when no tag is left open; with one open tag its opening text among them where it was opened; with several, only those before the outermost |
| ParserSafety.StepTexts | Launcher/assets/js/bundle.js:875-917 | Every token adds its text at the end and changes the number of open tags as specified; while a tag is open nothing is placed outside it |
| ParserSafety.BuiltTexts | Launcher/assets/js/bundle.js:783-789 | At every point the placed texts are those up to the last point at which no tag was open, and the open tags hold the rest |
| Preset.PresetKeepsText | Launcher/assets/js/bundle.js:1117-1128 | Rewriting never adds text, and keeps it, character for character, if and only if no image holds text and no list has stars, neither as parsed nor once list items are grouped |
| Preset.KeepsRewritten | Launcher/assets/js/bundle.js:1200-1226 | This condition on the tree is the same as the one on each replacement the walk makes |
| PresetLeaves.PresetKeepsLeaves | Launcher/assets/js/bundle.js:1117-1128 | Rewriting leaves the sequence of text leaves as it is if and only if no image holds a leaf and no list has stars, neither as parsed nor once grouped |
| PresetLeaves.ListLeaves | Launcher/assets/js/bundle.js:1165-1193 | Grouping list items keeps the sequence of leaves if and only if there are no stars |
| PresetLeaves.RewriteLeaves | Launcher/assets/js/bundle.js:1200-1226 | What each tag's rewriting does to its leaves |
| Preset.SimpleTreesKeepText | Launcher/assets/js/bundle.js:1165-1226 | A test on the parsed tree that is enough: images hold no text, lists no stars, and no image or list stands directly in a list |
| Preset.PlainTreesKeepText | Launcher/assets/js/bundle.js:1200-1226 | A tree without lists and images keeps its text, character for character |
| PresetLeaves.PlainTreesKeepLeaves | Launcher/assets/js/bundle.js:1200-1226 | A tree without lists and images keeps its sequence of text leaves |
| Preset.ImageInListLosesText | Launcher/assets/js/bundle.js:1165-1193 | In a list, text behind an empty image is put into the image and lost |
| Preset.ListText | Launcher/assets/js/bundle.js:1165-1193 | Grouping list items keeps the text if and only if there are no stars, and loses some otherwise |
| Preset.RewriteText | Launcher/assets/js/bundle.js:1200-1226 | What each tag's rewriting does to its text |
| Preset.RewriteShrinks | Launcher/assets/js/bundle.js:1200-1226 | The content of the replacement weighs less than the node, so the walk, which re-enters what it has just made, ends |
| Preset.Iterate | Launcher/assets/js/bundle.js:940-945 | The in-place walk over an array leaves the specified tree in every place |
| Preset.IterateNode | Launcher/assets/js/bundle.js:946-949 | The same for the content array of a node |
| Convert.ConvertBBCode | Launcher/assets/js/bundle.js:1233-1235 | Parse, rewrite and render: the HTML of the parsed tree, tag by tag |
| Html.WalkIsHtml | Launcher/assets/js/bundle.js:1200-1226 | For every tree, what the preset and the renderer produce is the HTML that is spelled out for each tag |
| Html.ListMeaning | Launcher/assets/js/bundle.js:1165-1193 | For every content of a list: in front of the first star texts stay and the first tag takes all that follows it; each star opens an item with its own text and all that follows up to the next star |
| TagsConverted.BoldConverted | Launcher/assets/js/bundle.js:1202-1202 | `[b]text[/b]`, the name in any letter case, becomes a span with `font-weight: bold;` around the text, for every text without an opening bracket |
| TagsConverted.ItalicConverted | Launcher/assets/js/bundle.js:1203-1203 | `[i]`, with `font-style: italic;` |
| TagsConverted.UnderlineConverted | Launcher/assets/js/bundle.js:1204-1204 | `[u]`, with `text-decoration: underline;` |
| TagsConverted.StrikeConverted | Launcher/assets/js/bundle.js:1205-1205 | `[s]`, with `text-decoration: line-through;` |
| TagsConverted.LinkConverted | Launcher/assets/js/bundle.js:1206-1208 | `[url=address]text[/url]` becomes a link to the written address around the text |
| TagsConverted.BareLinkConverted | Launcher/assets/js/bundle.js:1194-1194 | `[url]address[/url]` links to what it shows |
| TagsConverted.ImageConverted | Launcher/assets/js/bundle.js:1209-1211 | `[img]address[/img]` becomes a void image with the written address as its source |
| TagsConverted.QuoteConverted | Launcher/assets/js/bundle.js:1212-1214 | `[quote]` becomes a paragraph in a block quote |
| TagsConverted.CodeConverted | Launcher/assets/js/bundle.js:1215-1215 | `[code]` becomes preformatted text |
| TagsConverted.StyleConverted | Launcher/assets/js/bundle.js:1150-1164 | `[style color=c size=z]` becomes a span with both declarations, one blank apart, as they are written |
| TagsConverted.ColourConverted | Launcher/assets/js/bundle.js:1223-1223 | `[color=value]` becomes a span with that colour as it is written |
| TagsConverted.NoColourConverted | Launcher/assets/js/bundle.js:1223-1223 | `[color]` without a value has the colour `null` |
| TagsConverted.UnknownConverted | Launcher/assets/js/bundle.js:1117-1128 | A name the preset does not know becomes a tag of its own, in lower case |
| ListsConverted.UnorderedListConverted | Launcher/assets/js/bundle.js:1217-1222 | `[list]text[*]one[*]two[/list]`, with any number of items, becomes the text and one list item each, character for character |
| ListsConverted.OrderedListConverted | Launcher/assets/js/bundle.js:1217-1222 | `[list=kind]` becomes an ordered list of that type |
| ListsConverted.UnclosedConverted | Launcher/assets/js/bundle.js:825-839 | A tag that nothing closes is shown empty in front of the text |
| ListsConverted.PrintedConverted | Launcher/assets/js/bundle.js:1233-1235 | Every unambiguous printed tree, however nested, is shown as the HTML of that tree |
| HtmlReader.HtmlReads | Launcher/assets/js/bundle.js:1073-1105 | For every tree whose names and texts hold no angle brackets, every opening tag of its HTML has its closing tag in place, and between the tags stands the text of the tree |
| HtmlReader.ConvertedReads | Launcher/assets/js/bundle.js:1233-1235 | From the input: when the parsed tree is such a tree, so is the HTML, and its text is that of the parsed tree if and only if the preset keeps it |
| Convert.ConvertKeepsText | Launcher/assets/js/bundle.js:1233-1235 | For every input, the kept texts of the parse all arrive in the rewritten tree, in order, if and only if the preset keeps the text, and each as a leaf of its own if and only if it keeps the leaves; when no tag is left open they are all words, blanks and newlines of the input |
| AdmissionRuns.BanSafety | API/internal/rpc/server_management.go:258-313 | From a successful ban on, in every run with a clock that never goes back, every request of that user for a token of or entry to any server of that host fails, until the asked duration is over or that host's moderators lift it, for every duration up to 9223372036 seconds and for bans without end |
| AdmissionRuns.BanLastsAsAsked | API/internal/rpc/server_management.go:289-293 | The lookup finds the user banned all the time asked for if and only if the duration is at most 9223372036 seconds |
| AdmissionRuns.HugeBanIsOver | API/internal/rpc/server_management.go:289-293 | A ban of 10000000000 seconds succeeds and is never found |
| AdmissionRuns.BanUntilExpiry | API/internal/rpc/server_management.go:258-313 | For every duration the refusals last until the stored expiry |
| Documents.AfterIsExact | API/internal/rpc/server_management.go:292-292 | The stored expiry is the one asked for if and only if the duration is at most 9223372036 seconds, and never later |
| AdmissionRuns.BanHolds | API/internal/rpc/client_server.go:66-74 | The same from any state that holds such a ban |
| AdmissionRuns.RunKeepsInv | API/internal/rpc/server_management.go:217-313 | In every reachable state ids are unique, each host has at most one active ban per user and no host-issued punishment is about its issuer |
| AdmissionRuns.ServeKeepsInv | API/internal/rpc/server_management.go:217-313 | Every request keeps this |
| AdmissionRuns.UnbanClears | API/internal/rpc/server_management.go:35-59 | One successful unban leaves no active ban of that host on that user, now or later |
| AdmissionRuns.GlobalBanHolds | API/internal/rpc/client_server.go:179-187 | Whatever is requested, no token lets a globally banned user in anywhere until his ban runs out; no request of a host lifts it |
| AdmissionRuns.OnlyThatBan | API/pkg/repository/punishment_repository.go:151-176 | While a ban stands, the lookup at any later time finds it if it is still active and nothing otherwise |
| AdmissionRuns.OthersUnaffected | API/internal/rpc/server_management.go:217-313 | A kick changes no ban lookup, and a ban or unban only that of its own host and user |
| AdmissionRuns.CreatedTokenIsOnlyOne | API/internal/rpc/client_server.go:76-90 | After a token is created it is the only one of its user, and the tokens of others are as before |
| AdmissionRuns.JoinsAreCounted | API/internal/rpc/client_server.go:225-229 | Over every run the joined-servers counter of a user grows by the number of times he was let in |
| AdmissionAnswers.CreateAnswer | API/internal/rpc/client_server.go:53-145 | A join token is given if and only if the server and its host are stored, no stored punishment is an active ban of that host on the caller, no other user holds the new id, and the caller is the host, a listed moderator, a global moderator or an admin, or there is room and the password is absent or equal; each refusal has its own exact condition |
| AdmissionAnswers.CreateStores | API/internal/rpc/client_server.go:79-99 | Nothing but tokens is stored: the old ones of the caller go as soon as the server is found and he is not banned, whatever the answer, and a new one comes last |
| AdmissionAnswers.ConsumeAnswer | API/internal/rpc/client_server.go:157-236 | A user is let in if and only if the first document with the text is his, he is stored and not globally banned, its server is stored and is the one asked for, and its host has not banned him |
| AdmissionAnswers.ConsumeRefusal | API/internal/rpc/client_server.go:157-223 | Which answer each other case gets |
| AdmissionAnswers.ConsumeStores | API/internal/rpc/client_server.go:196-229 | A success deletes the document and adds one to the counter of the user, a missing server deletes the document, and nothing else changes |
| AdmissionAnswers.KickAnswer | API/internal/rpc/server_management.go:217-256 | A kick is stored if and only if the caller is the host, a listed or a global moderator, the target is known and not the host, and the id is new; it is the last punishment then, of that kind, host and user |
| AdmissionAnswers.BanAnswer | API/internal/rpc/server_management.go:258-313 | The same for a ban, which also needs that none by that host is active, with the expiry asked for |
| AdmissionAnswers.UnbanAnswer | API/internal/rpc/server_management.go:35-59 | An unban succeeds if and only if the caller may manage the server and its host has an active ban on the target; that ban is then marked with the caller and no other punishment changes |
| AdmissionAnswers.PunishmentRefusals | API/internal/rpc/server_management.go:362-389 | Which refusals are for something unknown and which for missing rights |
| AdmissionAnswers.BanEnds | API/internal/rpc/server_management.go:289-293 | A ban for some seconds is found at every time before its expiry and at none from then on |
| AdmissionAnswers.TokensAreEarned | API/internal/rpc/client_server.go:53-145 | In every run, every token stored at the end was stored at the start or was made in the run by a request of its own user that met all these conditions at its time |
| AdmissionAnswers.NoEntryWithoutPassword | API/internal/rpc/client_server.go:108-110 | So whoever is let in after any run holds such a token: for a locked server he gave its password or has rights over it |
| Admission.Service.CreateJoinTokenRequest | API/internal/rpc/client_server.go:53-145 | State and answer of the request, all branches, earlier tokens deleted one by one |
| Admission.Service.ConsumeJoinTokenRequest | API/internal/rpc/client_server.go:157-236 | State and answer of the request, all branches |
| Admission.Service.DeleteTokensOf | API/internal/rpc/client_server.go:82-90 | The deletion loop removes all tokens of the user, keeps the order of the rest and never misses a document |
| Admission.Service.DeleteByToken | API/pkg/repository/join_token_repository.go:103-105 | Removes the document of that id and tells whether there was one |
| Admission.Service.GetByUserId | API/pkg/repository/join_token_repository.go:54-78 | The user's tokens in stored order |
| Admission.Service.GetByToken | API/pkg/repository/join_token_repository.go:89-101 | The first document with that token text |
| Admission.Service.GetBan | API/pkg/repository/punishment_repository.go:151-203 | The first active ban by that issuer, or the first global one |
| Admission.FindBan | API/pkg/repository/punishment_repository.go:151-203 | What is found is an active ban of that issuer and user; nothing is found only if there is none |
| Admission.Service.BanPlayerRequest | API/internal/rpc/server_management.go:258-313 | State and answer of the request, all branches |
| Admission.Service.KickPlayerRequest | API/internal/rpc/server_management.go:217-256 | State and answer of the request, all branches |
| Admission.Service.UnbanPlayerRequest | API/internal/rpc/server_management.go:35-59 | State and answer of the request, all branches |
| TokenRace.TokensAreSingleUse | API/internal/rpc/client_server.go:157-236 | Under every interleaving of any number of create and consume requests, split into their reads, checks and deletes, each document is consumed by at most one request, and every request that succeeds consumed exactly one issued document |
| TokenRace.DocumentsAreConserved | API/pkg/repository/join_token_repository.go:80-105 | After every interleaving the documents ever issued are those stored and those deleted, and none is both |
| TokenRace.DeleteStepNeedsDocument | API/internal/rpc/client_server.go:219-223 | A consuming request passes its delete step if and only if the document is there, and no request finds it afterwards |
| TokenRace.ActKeepsInv | API/internal/rpc/client_server.go:53-236 | Every step of every request, and every change around them, keeps the account of documents |
| TokenRace.ReachKeepsInv | API/internal/rpc/client_server.go:53-236 | So does every interleaving |
| TokenRace.SuccessHasChecked | API/internal/rpc/client_server.go:157-236 | In every interleaving, a request that lets its user in has at four steps of the run, in this order, looked up global bans and found none, read the token's server, looked up that host's bans and found none, and deleted the document it found |
| TokenRace.LateBanDoesNotStop | API/internal/rpc/client_server.go:209-223 | From every initial world in which a request served alone would let its user in, there is a run in which it does so although any bans at all are stored before its delete step: ban safety is a property of requests served one at a time |
| TokenRace.LateBanExample | API/internal/rpc/client_server.go:209-223 | Such a world, and a ban with which the same request served alone is refused |
| TokenAlone.AloneIsAtOnce | API/internal/rpc/client_server.go:53-236 | From every world, a request that takes its single steps one after the other is a possible run, and ends with the answer and the store of the same request served at once |
| TokenAlone.ConsumeAlone | API/internal/rpc/client_server.go:157-236 | Seven steps of a consuming request are the whole request |
| TokenAlone.CreateAlone | API/internal/rpc/client_server.go:53-145 | Five steps of a creating request, and one more for each old token, are the whole request |
| ModeratedServers.PipelineIsCanManage | API/pkg/repository/user_repository.go:139-190 | For every database and every user who is not a global moderator, the pipeline returns, without duplicates, exactly the ids of the servers he may manage |
| ModeratedServers.PipelineMeaning | API/pkg/repository/user_repository.go:140-172 | An id is returned if and only if it is that of a server whose host is the user or lists him |
| ModeratedServers.RequestIsCanManage | API/internal/rpc/server_management.go:315-360 | The request lists exactly the servers the user may manage, unless he is an official-server moderator only |
| ModeratedServers.RequestIsCanManageExactly | API/internal/rpc/server_management.go:315-360 | For every user, the list is what he may manage if and only if he is a global moderator, or no official-server moderator, or may manage exactly the official servers |
| ModeratedServers.OfficialModeratorsSeeOfficialServers | API/internal/rpc/server_management.go:326-335 | Such a user is listed exactly the official servers |
| ModeratedServers.OfficialModeratorMissesOwnServer | API/internal/rpc/server_management.go:326-335 | So his own unofficial server, which he may manage, is missing |
| Pipeline.JoinMembers | API/pkg/repository/user_repository.go:145-151 | A lookup followed by an unwind yields exactly the matching pairs |
| Pipeline.SetUnion | API/pkg/repository/user_repository.go:170-170 | The union has the members of both lists, each once |
| ReportRuns.ClosedStaysClosedUnlessReopened | API/internal/rpc/report.go:317-374 | A request makes a closed report NEW again if and only if it is a staff status change to a wire value other than NEW, RESOLVED and REJECTED, such as IN_PROGRESS |
| ReportRuns.RunKeepsQuotas | API/internal/rpc/report.go:419-445 | In every run, each reporter has at most six NEW reports and at most two about one player all the way through, if and only if every reopening in it would have passed the check made on new reports |
| ReportRuns.RunOnlyCloses | API/internal/rpc/report.go:287-374 | In every run without reopenings no closed report returns to NEW |
| ReportRuns.ServeKeepsQuotas | API/internal/rpc/report.go:317-374 | Every request keeps the quotas, but a status change that reopens a report keeps them if and only if its reporter has less than six NEW reports and less than two about that player |
| ReportRuns.ServeKeepsReports | API/pkg/repository/report_repository.go:35-57 | No request removes a report or changes its id, reporter or player |
| ReportRuns.InProgressBreaksQuota | Module/Proto/kyber_api.proto:214-219 | One IN_PROGRESS request gives a reporter three NEW reports about one player |
| ReportRuns.ApprovalClosesWhatItLists | API/internal/rpc/report.go:200-264 | After a successful approval the player has no NEW report, and the ban lists exactly the reports that call closed; no other report changes |
| ReportAnswers.RejectAnswer | API/internal/rpc/report.go:287-315 | A rejection succeeds if and only if the caller is staff and the report is stored and NEW; then exactly this report is rejected, with that moderator and time, and no other changes |
| ReportAnswers.StatusAnswer | API/internal/rpc/report.go:317-374 | A status change succeeds if and only if the caller is staff, the id is not empty and known, and the wire value is not 0; place by place: 2 resolves and 3 rejects, both with the other NEW reports about the player and their moderator, any other value makes the report NEW, and a note is appended |
| ReportAnswers.CreateAnswer | API/internal/rpc/report.go:419-494 | A report is stored if and only if its reporter has less than six NEW ones and less than two about that player, counted one by one, the links are valid, the player is known and the id is new; it is the last, NEW, and with the reason of its wire value |
| ReportAnswers.ApproveAnswer | API/internal/rpc/report.go:183-285 | An approval bans if and only if the caller is staff, the player is known and has a NEW report, and the id is new; the ban names player and moderator, every NEW report about him with an id is resolved by that moderator, and no other changes |
| Reports.ReportService.CreateReportRequest | API/internal/rpc/report.go:419-494 | State and answer of the request, all branches |
| Reports.ReportService.RejectReportRequest | API/internal/rpc/report.go:287-315 | State and answer of the request, all branches |
| Reports.ReportService.UpdateStatusRequest | API/internal/rpc/report.go:317-374 | State and answer of the request, all branches |
| Reports.ReportService.ApproveReportsRequest | API/internal/rpc/report.go:183-285 | State and answer of the request, all branches |
| Reports.ReportService.CollectIds | API/internal/rpc/report.go:210-217 | The loop collects the non-empty ids in order |
| Reports.Update | API/pkg/repository/report_repository.go:35-44 | Exactly the matching documents are changed, in place |
| GroupedReports.TotalsAreConserved | API/pkg/repository/report_repository.go:344-458 | The totals of all rows add up to the number of stored reports if and only if no reported player has two user documents, and never to less |
| GroupedReports.RowsAreConsistent | API/pkg/repository/report_repository.go:379-452 | Every row counts the stored reports of its player and status; under 0, 1, 2 and 3 stand those for hacking, toxic behaviour, griefing and other reasons, each if and only if there is one; they add up to its total, its time is the latest, and its name is one of a user document of its player, or absent if and only if there is none |
| GroupedReports.OneRowPerKey | API/pkg/repository/report_repository.go:351-378 | With one document per user there is one row per player and status that occurs |
| LevelGate.LoadsNeverOverlap | Module/Source/Core/Server.cpp:58-85 | In every run, at most one load is under way at every point, the one posted last, and none exactly when the gate is open, if and only if every notification ends a load under way or finds the gate open |
| LevelGate.IllTimedOverlaps | Module/Source/Core/Server.cpp:259-270 | After the first notification that does neither, the next request at the latest is posted into a running load |
| LevelGate.IdleMeansServed | Module/Source/Core/Server.cpp:244-270 | In every run of named requests, whenever a level is loaded nothing waits and the load posted last is the one requested last; what waits is the last request |
| LevelGate.RunLatestWins | Module/Source/Core/Server.cpp:58-98 | The invariant behind it, the recorded current level and mode included |
| LevelGate.PostsTheLatest | Module/Source/Core/Server.cpp:244-270 | An event posts at most one load, and that is the latest request so far |
| LevelGate.SecondNotificationOverlaps | Module/Source/Core/Program.cpp:393-398 | A second notification for one load, after the next load has begun, lets two loads overlap |
| LevelGate.EmptyNameDropsWaiting | Module/Source/Core/Server.cpp:264-270 | A request without a level name made while a level loads drops the one that waited |
| LevelGate.Server.LoadLevelMessagePost | Module/Source/Core/Server.cpp:58-85 | Posts and closes the gate, or replaces the waiting request under the mutex, which must then be free |
| LevelGate.Server.LoadNextLevel | Module/Source/Core/Server.cpp:244-257 | Records the load and hands it to the hook |
| LevelGate.Server.OnLevelLoaded | Module/Source/Core/Server.cpp:259-270 | Calls back into the gate while it holds the mutex and never locks it twice |
| Scheduler.CallsAreExact | Module/Source/Core/ThreadExecutor.cpp:11-34 | In every run below 2^64 ticks, the calls made are those meant for each tick that has passed, tick by tick and in queueing order, and what is left is what is meant for later |
| Scheduler.EachCallOnce | Module/Source/Core/ThreadExecutor.cpp:17-34 | A function queued for a tick is called at that tick as often as it was queued for it, once that tick has been processed, and never before |
| Scheduler.CalledAtOnce | Module/Source/Core/ThreadExecutor.cpp:14-14 | A function is due at the tick it is queued if and only if its delay is 0 or the sum overflows 64 bits |
| Scheduler.ThreadData.RemoveDue | Module/Source/Core/ThreadExecutor.cpp:22-31 | The in-place compaction asks each function once, in order, runs the due ones and leaves the others in order |
| Scheduler.ThreadData.QueueDelayTicks | Module/Source/Core/ThreadExecutor.cpp:11-15 | Appends the function with its wrapped target tick, growing the storage when it is full |
| Scheduler.ThreadData.ProcessTick | Module/Source/Core/ThreadExecutor.cpp:17-34 | One tick: due functions called and removed, tick count advanced |
| IpHistory.StoredIsRecent | API/internal/rpc/authentication.go:503-505 | After any logins at increasing times the stored list is the up to six addresses used last, the latest first, none twice, each with its true last use |
| IpHistory.RecentIsTheHistory | API/pkg/models/user.go:139-163 | The uncut list holds exactly the last use of every address of the history, in order, each once |
| IpHistory.CutCommutes | API/pkg/models/user.go:160-162 | Forgetting all but six addresses at every login loses nothing that a later login would need |
| IpHistory.SortUpsert | API/pkg/models/user.go:139-158 | Update and sort move the address to the front and keep the others in order |
| IpHistory.User.UpsertIP | API/pkg/models/user.go:139-153 | The address's time is set in place, or the address appended |
| IpHistory.SortSorts | API/pkg/models/user.go:155-158 | The sort keeps the entries and puts the latest first |
| IpHistory.SortIsUnique | API/pkg/models/user.go:155-158 | While times differ there is only one way to sort, so every sort returns the same list |
| IpHistory.AnySortWillDo | API/internal/rpc/authentication.go:503-505 | Whatever sort a login uses, it stores the same list |
| IpHistory.User.PruneIPs | API/pkg/models/user.go:155-163 | The list becomes the first entries of the sorted one, and of any sorted one while times differ |
| IpHistory.User.Login | API/internal/rpc/authentication.go:503-505 | Both, as a login does them |
| IpHistory.FirstSeenIsSince | API/pkg/models/user.go:139-153 | The first time kept beside an address is that of the login since which it has been in the list without a break |
| TeamShuffle.ShuffleTeams | Module/Source/Core/Console.cpp:324-367 | Whatever is drawn, the humans get the shuffled half-and-half list, place by place: of n humans, n - n/2 get team 1 and n/2 team 2; AI players and empty places stay as they are |
| TeamShuffle.TeamsAreBalanced | Module/Source/Core/Console.cpp:342-358 | For every sequence of draws team 1 gets the larger half, team 2 the other, and nobody a third |
| TeamShuffle.EveryArrangementCanComeUp | Module/Source/Core/Console.cpp:353-358 | Every rearrangement of the list is the outcome of some draws |
| TeamShuffle.ShuffledKeeps | Module/Source/Core/Console.cpp:353-358 | Shuffling keeps the elements |
| TeamShuffle.HumansDistinct | Module/Source/Core/Console.cpp:330-338 | No human is collected twice |
| TeamShuffle.ShuffleInPlace | Module/Source/Core/Console.cpp:353-358 | The swap loop stays in range and computes the specified shuffle in place |
| TeamShuffle.CollectHumans | Module/Source/Core/Console.cpp:326-338 | The non-empty places that hold no AI, in order |
| TeamShuffle.FillHalves | Module/Source/Core/Console.cpp:342-351 | The list before the shuffle |
| Messages.MessageComesBack | API/pkg/ws/messages.go:218-265 | Decoding gives an encoded message back if and only if its server id needs no escaping and it is a lone stale, player-list, console, run-command, kick or player-list-request message |
| Messages.StatusComesBack | API/pkg/ws/messages.go:58-117 | The same for status messages alone |
| Messages.RequestComesBack | API/pkg/ws/messages.go:153-209 | The same for requests alone |
| Messages.IdComesBack | API/pkg/ws/messages.go:243-243 | The id cut out of its own text is the escaped id, so it is the id if and only if no character of it is escaped |
| Messages.PlayersComeBack | API/pkg/ws/messages.go:64-67 | Player lists come back |
| Messages.SearchRequestIsSentAsCommand | API/pkg/ws/messages.go:145-147 | A search request as it is constructed is sent, and read back, as an empty command |
| Messages.ConstructedComeBack | API/pkg/ws/messages.go:42-56 | Of the messages that can be constructed, exactly those are readable that search for nothing and hold no nil list |
| Messages.EncodeCrashes | API/pkg/ws/messages.go:58-177 | Encoding dereferences nil if and only if the field that the tag means is missing |
| Messages.DecodeCrashes | API/pkg/ws/messages.go:176-265 | Decoding indexes out of range if and only if a message of a known kind has less than two parts or an id text of less than two characters, or kicks with less than two strings |
| Messages.KeysOnTheWire | API/pkg/ws/messages.go:58-175 | Each message goes out under one key, the one of its tag |
| Messages.FirstKeyDecides | API/pkg/ws/messages.go:81-216 | When several keys are there, which one decides; a search is always an error |

## Left out

- Token rows, columns and offsets, node start and end, and the `onError` callback: not part of any tree.
- Custom brackets in the tree builder: the lexer keeps them as parameters, the tree builder and printer use the default
  ones. With these, the test `isTagNested(token.toString())` is never true (`LexerSpec.NamesHoldNoBracket`).
- RoundTripExact.ParseUndoesPrint: is stated for trees that their printed form determines: lower-case names without
  brackets or equals sign that do not begin with a slash or a reserved character, texts without `[`, and attributes that
  are absent, one unnamed value without both a blank and an equals sign, distinct names with values, or such names and an
  unnamed value without blanks and equals signs, where values hold no bracket and do not end in a backslash. Printing
  escapes none of these. Other attributes are not covered.
- BareAttrs.ListTokens: is stated for attributes one space apart; several blanks in a row are read as empty values.
- HtmlReader.HtmlReads: is stated for trees without angle brackets in names and texts, because text is shown as it is.
- ListsConverted.UnorderedListConverted: is stated for texts in which no word begins with a star; `Html.ListMeaning` says
  what such words become, in every list.
- ContextFree.ContextFreeTagHoldsText: is stated for tag lists that do not name the closing tag itself, and for brackets
  that are neither blanks, slashes nor backslashes.
- `toLowerCase` on characters outside ASCII, and strings as UTF-16 units.
- Attribute objects are lists of names in insertion order: integer-like names, which JavaScript lists first, and
  `__proto__` are not told apart.
- Aliasing of content arrays: nodes under construction are values with an index for their attribute object. The node a
  `toTagNode` copy shares its content with is not written to any more.
- The `createTokenizer`, `skipParse`, `data` and `stripTags` options and further plugins: `convertBBCode` uses none.
- Database, queue and signing errors, and all logging. A duplicate id is the one insertion error.
- Stored times are exact here; the database keeps milliseconds.
- `FindOne` answers with the oldest match; for bans the invariant makes the choice irrelevant.
- User, server and moderator changes are one arbitrary change of these collections, and server-registration proxy
  tokens are not part of this model.
- TokenRace.TokensAreSingleUse: takes ids of new documents as never used before; the source draws long random ones.
- The nil check of the report in `CreateReport` and the text fields of reports: free text, links' contents, device ids.
- Row order and sort stages of the grouped report list, and its set of reporters, which is not returned.
- IpHistory.StoredIsRecent: takes login times as strictly increasing, because `sort.Slice` may order equal times either
  way. A login over a local network changes the list in memory only and stores the time and the name
  (API/internal/rpc/authentication.go:437-445), so it is not part of the history.
- Scheduler.ThreadData.QueueDelayTicks: models the vector's growth as doubling; callbacks that queue on their own thread
  while it is processed are not modelled, and neither is `QueueDelaySecs`, whose conversion is floating point.
- A forced `Server::Start`, which opens the gate without clearing the waiting request, start points and sub-levels.
- JSON numbers other than naturals, duplicate and differently-cased keys, and the text of anything but a server id.
- The uniformity of `rand()`: the draws of the shuffle are arbitrary.
- Proxy connections, hooks and memory patches, mod loading, the launcher's interface, OAuth and other foreign services.
