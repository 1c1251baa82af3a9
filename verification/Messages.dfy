/** The management messages between API and servers: nested, tagged by their JSON keys. */
module Messages {
  import opened Strings

  /** JSON values. An element of a raw array keeps its text beside its value, because one decoder reads the text. */
  datatype Json = JNull | JBool(b: bool) | JNum(n: nat) | JStr(s: string) | JArr(items: seq<Json>) | JObj(fields: map<string, Json>)

  datatype Raw = Raw(text: string, value: Json)

  datatype Wire = Wire(key: string, items: seq<Raw>)

  datatype Result<+T> = Ok(value: T) | Err | Crash

  // ---------------------------------------------------------------- the text of a string

  function HexDigit(n: nat): char
    requires n < 16
  {
    "0123456789abcdef"[n]
  }

  /** How encoding/json writes a character inside a string. */
  function EscapeChar(c: char): (r: string)
    ensures r != [] && (r == [c] <==> Plain(c))
  {
    if c == '"' then "\\\"" else if c == '\\' then "\\\\"
    else if c == '\n' then "\\n" else if c == '\r' then "\\r" else if c == '\t' then "\\t"
    else if c as int == 8 then "\\b" else if c as int == 12 then "\\f"
    else if c < ' ' || c == '<' || c == '>' || c == '&' then "\\u00" + [HexDigit(c as int / 16), HexDigit(c as int % 16)]
    else if c as int == 0x2028 then "\\u2028" else if c as int == 0x2029 then "\\u2029"
    else [c]
  }

  /** A character written as itself. */
  predicate Plain(c: char) {
    c >= ' ' && c != '"' && c != '\\' && c != '<' && c != '>' && c != '&' && c as int != 0x2028 && c as int != 0x2029
  }

  function Escape(s: string): string {
    if s == [] then [] else EscapeChar(s[0]) + Escape(s[1..])
  }

  function Quoted(s: string): string { "\"" + Escape(s) + "\"" }

  function HexValue(c: char): nat { if '0' <= c <= '9' then (c - '0') as nat else if 'a' <= c <= 'f' then (c - 'a') as nat + 10 else 0 }

  /** What a backslash and this character stand for. */
  function Short(c: char): char {
    if c == 'n' then '\n' else if c == 'r' then '\r' else if c == 't' then '\t'
    else if c == 'b' then 8 as char else if c == 'f' then 12 as char else c
  }

  /** Four hexadecimal digits; the codes of half pairs do not come up. */
  function Coded(a: char, b: char, c: char, d: char): char {
    var code := ((HexValue(a) * 16 + HexValue(b)) * 16 + HexValue(c)) * 16 + HexValue(d);
    if code < 0xD800 then code as char else '?'
  }

  /** Reading the inside of a string. */
  function Unescape(s: string): string
    decreases |s|
  {
    if s == "" then ""
    else if s[0] != '\\' || |s| < 2 then [s[0]] + Unescape(s[1..])
    else if s[1] == 'u' && |s| >= 6 then [Coded(s[2], s[3], s[4], s[5])] + Unescape(s[6..])
    else [Short(s[1])] + Unescape(s[2..])
  }

  lemma DigitValue(n: nat)
    requires n < 16
    ensures HexValue(HexDigit(n)) == n
  {
  }

  lemma LongRead(a: char, b: char, c: char, d: char, rest: string)
    ensures Unescape("\\u" + [a, b, c, d] + rest) == [Coded(a, b, c, d)] + Unescape(rest)
  {
    var s := "\\u" + [a, b, c, d] + rest;
    assert s[6..] == rest && s[0] == '\\' && s[1] == 'u';
  }

  lemma ShortRead(c: char, rest: string)
    requires c != 'u'
    ensures Unescape(['\\', c] + rest) == [Short(c)] + Unescape(rest)
  {
    assert (['\\', c] + rest)[2..] == rest;
  }

  lemma PlainRead(c: char, rest: string)
    requires c != '\\'
    ensures Unescape([c] + rest) == [c] + Unescape(rest)
  {
    assert ([c] + rest)[1..] == rest;
  }

  lemma CharRead(c: char, rest: string)
    ensures Unescape(EscapeChar(c) + rest) == [c] + Unescape(rest)
  {
    hide Unescape;
    var e := EscapeChar(c);
    if Plain(c) {
      PlainRead(c, rest);
    } else if |e| == 2 {
      ShortRead(e[1], rest);
      assert e == ['\\', e[1]];
    } else if c as int < 0x2000 {
      var hi, lo := c as int / 16, c as int % 16;
      DigitValue(hi);
      DigitValue(lo);
      LongRead('0', '0', HexDigit(hi), HexDigit(lo), rest);
      assert e == "\\u" + ['0', '0', HexDigit(hi), HexDigit(lo)];
    } else {
      LongRead('2', '0', '2', e[5], rest);
      assert e == "\\u" + ['2', '0', '2', e[5]];
    }
  }

  /** The text of a string is read back as the string. */
  lemma {:induction false} EscapeComesBack(s: string)
    ensures Unescape(Escape(s)) == s
  {
    hide Unescape, EscapeChar;
    if s == "" {
      NothingRead();
    } else {
      CharRead(s[0], Escape(s[1..]));
      EscapeComesBack(s[1..]);
      assert s == [s[0]] + s[1..];
    }
  }

  lemma NothingRead()
    ensures Unescape("") == ""
  {
  }

  lemma {:induction false} EscapeGrows(s: string)
    ensures |Escape(s)| >= |s|
  {
    if s != [] {
      EscapeGrows(s[1..]);
    }
  }

  /** A string is its own text exactly when each character is. */
  lemma {:induction false} EscapeIsIdentity(s: string)
    ensures Escape(s) == s <==> forall c | c in s :: Plain(c)
  {
    if s != [] {
      EscapeIsIdentity(s[1..]);
      EscapeGrows(s[1..]);
      var first, rest := EscapeChar(s[0]), Escape(s[1..]);
      assert s == [s[0]] + s[1..];
      if Escape(s) == s {
        assert |first| == 1 && first[0] == s[0];
        assert first == [s[0]];
        assert rest == (first + rest)[1..] == s[1..];
      }
      assert s[0] in s && forall c | c in s[1..] :: c in s;
      assert forall c | c in s :: c == s[0] || c in s[1..];
    }
  }

  // ---------------------------------------------------------------- messages

  datatype Player = Player(id: string, name: string, teamId: nat)

  datatype Console = Console(message: string, isPublic: bool)

  datatype Search = Search(serverId: string, playerId: string)

  datatype StatusTag = PlayerListTag | ConsoleTag | SearchTag | StaleTag

  /** A slice of players: a nil one is told apart from an empty one. */
  datatype Players = Nil | List(items: seq<Player>)

  /** A status message: one field is meant by the tag. */
  datatype Status = Status(players: Option<Players>, console: Option<Console>, search: Option<Search>, stale: bool, tag: StatusTag)

  datatype RequestTag = RunCommandTag | KickPlayerTag | ListPlayersTag | SearchPlayerTag

  datatype Kick = Kick(userId: string, reason: string)

  datatype Request = Request(runCommand: string, kick: Option<Kick>, playerList: bool, searchPlayer: string, tag: RequestTag)

  datatype Message = Message(serverId: string, status: Option<Status>, request: Option<Request>)

  // ---------------------------------------------------------------- encoding

  function EncodePlayer(p: Player): Json { JObj(map["id" := JStr(p.id), "name" := JStr(p.name), "team_id" := JNum(p.teamId)]) }

  function EncodePlayers(ps: seq<Player>): seq<Json> {
    if ps == [] then [] else [EncodePlayer(ps[0])] + EncodePlayers(ps[1..])
  }

  function EncodeList(ps: Players): Json { if ps.Nil? then JNull else JArr(EncodePlayers(ps.items)) }

  /** A nil field behind the tag is a nil dereference. */
  function EncodeStatus(m: Status): Result<Json> {
    match m.tag
    case StaleTag => Ok(JObj(map["STALE" := JBool(m.stale)]))
    case PlayerListTag => if m.players.None? then Crash else Ok(JObj(map["PLAYER_LIST" := EncodeList(m.players.value)]))
    case ConsoleTag =>
      if m.console.None? then Crash else
      Ok(JObj(map["CONSOLE_MESSAGE" :=
                    JObj(map["message" := JStr(m.console.value.message), "is_public" := JBool(m.console.value.isPublic)])]))
    case SearchTag =>
      if m.search.None? then Crash else
      Ok(JObj(map["SEARCH_SERVER" :=
                    JObj(map["server_id" := JStr(m.search.value.serverId), "player_id" := JStr(m.search.value.playerId)])]))
  }

  function EncodeRequest(m: Request): Result<Json> {
    match m.tag
    case RunCommandTag => Ok(JObj(map["RUN_COMMAND" := JStr(m.runCommand)]))
    case KickPlayerTag =>
      if m.kick.None? then Crash else Ok(JObj(map["KICK_PLAYER" := JArr([JStr(m.kick.value.userId), JStr(m.kick.value.reason)])]))
    case ListPlayersTag => Ok(JObj(map["PLAYER_LIST" := JArr([])]))
    case SearchPlayerTag => Ok(JObj(map["SEARCH_PLAYER" := JStr(m.searchPlayer)]))
  }

  /** The text of the body is not looked at by any decoder, so none is modelled. */
  function Encode(m: Message): Result<Wire> {
    if m.status.Some? then
      match EncodeStatus(m.status.value)
      case Ok(j) => Ok(Wire("SERVER_STATUS", [Raw(Quoted(m.serverId), JStr(m.serverId)), Raw("", j)]))
      case Err => Err
      case Crash => Crash
    else if m.request.Some? then
      match EncodeRequest(m.request.value)
      case Ok(j) => Ok(Wire("SERVER_REQUEST", [Raw(Quoted(m.serverId), JStr(m.serverId)), Raw("", j)]))
      case Err => Err
      case Crash => Crash
    else Err
  }

  // ---------------------------------------------------------------- decoding

  /** A string field: absent or null leaves it empty. */
  function StringField(fields: map<string, Json>, key: string): Result<string> {
    if key !in fields || fields[key].JNull? then Ok("") else if fields[key].JStr? then Ok(fields[key].s) else Err
  }

  function DecodePlayer(j: Json): Result<Player> {
    if j.JNull? then Ok(Player("", "", 0)) else if !j.JObj? then Err else
    var id, name := StringField(j.fields, "id"), StringField(j.fields, "name");
    if !id.Ok? || !name.Ok? then Err
    else if "team_id" !in j.fields || j.fields["team_id"].JNull? then Ok(Player(id.value, name.value, 0))
    else if j.fields["team_id"].JNum? then Ok(Player(id.value, name.value, j.fields["team_id"].n))
    else Err
  }

  function DecodePlayers(js: seq<Json>): Result<seq<Player>> {
    if js == [] then Ok([]) else
    var p, more := DecodePlayer(js[0]), DecodePlayers(js[1..]);
    if p.Ok? && more.Ok? then Ok([p.value] + more.value) else Err
  }

  function DecodeConsole(j: Json): Result<Console> {
    if j.JNull? then Ok(Console("", false)) else if !j.JObj? then Err else
    var message := StringField(j.fields, "message");
    if !message.Ok? then Err
    else if "is_public" !in j.fields || j.fields["is_public"].JNull? then Ok(Console(message.value, false))
    else if j.fields["is_public"].JBool? then Ok(Console(message.value, j.fields["is_public"].b))
    else Err
  }

  const EmptyStatus := Status(None, None, None, false, PlayerListTag)

  /** The search branch sets its field and then falls through to the error; a null list leaves no list. */
  function DecodeStatus(j: Json): Result<Status> {
    if !j.JObj? then Err
    else if "STALE" in j.fields then Ok(EmptyStatus.(stale := true, tag := StaleTag))
    else if "PLAYER_LIST" in j.fields then
      var v := j.fields["PLAYER_LIST"];
      if v.JNull? then Ok(EmptyStatus) else if !v.JArr? then Err else
      var ps := DecodePlayers(v.items);
      if ps.Ok? then Ok(EmptyStatus.(players := Some(List(ps.value)))) else Err
    else if "CONSOLE_MESSAGE" in j.fields then
      var c := DecodeConsole(j.fields["CONSOLE_MESSAGE"]);
      if c.Ok? then Ok(EmptyStatus.(console := Some(c.value), tag := ConsoleTag)) else Err
    else Err
  }

  const EmptyRequest := Request("", None, false, "", RunCommandTag)

  function StringItem(j: Json): Result<string> {
    if j.JStr? then Ok(j.s) else if j.JNull? then Ok("") else Err
  }

  /** Fewer than two strings in a kick make the index expression panic. */
  function DecodeKick(j: Json): Result<Kick> {
    if j.JNull? then Crash
    else if !j.JArr? || exists i | i in j.items :: StringItem(i).Err? then Err
    else if |j.items| < 2 then Crash
    else Ok(Kick(StringItem(j.items[0]).value, StringItem(j.items[1]).value))
  }

  function DecodeRequest(j: Json): Result<Request> {
    if !j.JObj? then Err
    else if "RUN_COMMAND" in j.fields then
      var s := StringField(j.fields, "RUN_COMMAND");
      if s.Ok? then Ok(EmptyRequest.(runCommand := s.value)) else Err
    else if "KICK_PLAYER" in j.fields then
      match DecodeKick(j.fields["KICK_PLAYER"])
      case Ok(k) => Ok(EmptyRequest.(kick := Some(k), tag := KickPlayerTag))
      case Err => Err
      case Crash => Crash
    else if "PLAYER_LIST" in j.fields then Ok(EmptyRequest.(playerList := true, tag := ListPlayersTag))
    else Err
  }

  /** The id is cut out of its own text: everything between the first and the last character. */
  function DecodeId(text: string): Result<string> {
    if |text| < 2 then Crash else Ok(text[1..|text| - 1])
  }

  function Decode(w: Wire): Result<Message> {
    if w.key != "SERVER_STATUS" && w.key != "SERVER_REQUEST" then Err
    else if |w.items| < 2 then Crash else
    var id := DecodeId(w.items[0].text);
    if id.Crash? then Crash
    else if w.key == "SERVER_STATUS" then
      var s := DecodeStatus(w.items[1].value);
      if s.Ok? then Ok(Message(id.value, Some(s.value), None)) else Err
    else
      match DecodeRequest(w.items[1].value)
      case Ok(r) => Ok(Message(id.value, None, Some(r)))
      case Err => Err
      case Crash => Crash
  }

  // ---------------------------------------------------------------- round trip

  /** Only the field the tag means is set, and the tag is one that can be read. A nil slice of players is written as null,
      which is read as no slice at all. */
  predicate ReadableStatus(m: Status) {
    match m.tag
    case StaleTag => m == EmptyStatus.(stale := true, tag := StaleTag)
    case PlayerListTag => m.players.Some? && m.players.value.List? && m == EmptyStatus.(players := m.players)
    case ConsoleTag => m.console.Some? && m == EmptyStatus.(console := m.console, tag := ConsoleTag)
    case SearchTag => false
  }

  predicate ReadableRequest(m: Request) {
    match m.tag
    case RunCommandTag => m == EmptyRequest.(runCommand := m.runCommand)
    case KickPlayerTag => m.kick.Some? && m == EmptyRequest.(kick := m.kick, tag := KickPlayerTag)
    case ListPlayersTag => m == EmptyRequest.(playerList := true, tag := ListPlayersTag)
    case SearchPlayerTag => false
  }

  predicate Readable(m: Message) {
    (forall c | c in m.serverId :: Plain(c))
    && ((m.status.Some? && m.request.None? && ReadableStatus(m.status.value))
        || (m.status.None? && m.request.Some? && ReadableRequest(m.request.value)))
  }

  lemma {:induction false} PlayersComeBack(ps: seq<Player>)
    ensures DecodePlayers(EncodePlayers(ps)) == Ok(ps)
  {
    if ps != [] {
      PlayersComeBack(ps[1..]);
      var js := EncodePlayers(ps);
      assert js[0] == EncodePlayer(ps[0]) && js[1..] == EncodePlayers(ps[1..]);
      PlayerComesBack(ps[0]);
      assert ps == [ps[0]] + ps[1..];
    }
  }

  lemma PlayerComesBack(p: Player)
    ensures DecodePlayer(EncodePlayer(p)) == Ok(p)
  {
  }

  lemma StatusComesBack(m: Status)
    ensures var e := EncodeStatus(m);
            (e.Ok? && DecodeStatus(e.value) == Ok(m)) <==> ReadableStatus(m)
  {
    if m.tag.PlayerListTag? && m.players.Some? && m.players.value.List? {
      PlayersComeBack(m.players.value.items);
    }
  }

  lemma RequestComesBack(m: Request)
    ensures var e := EncodeRequest(m);
            (e.Ok? && DecodeRequest(e.value) == Ok(m)) <==> ReadableRequest(m)
  {
  }

  lemma IdComesBack(id: string)
    ensures DecodeId(Quoted(id)) == Ok(Escape(id))
    ensures DecodeId(Quoted(id)) == Ok(id) <==> forall c | c in id :: Plain(c)
  {
    assert Quoted(id)[1..|Quoted(id)| - 1] == Escape(id);
    EscapeIsIdentity(id);
  }

  /** Decoding gives an encoded message back exactly when its server id needs no escaping and it is a lone stale,
      player-list, console, run-command, kick or player-list-request message with no other field set. */
  lemma MessageComesBack(m: Message)
    ensures (Encode(m).Ok? && Decode(Encode(m).value) == Ok(m)) <==> Readable(m)
  {
    hide EncodeStatus, EncodeRequest, DecodeStatus, DecodeRequest, ReadableStatus, ReadableRequest, Quoted, DecodeId;
    IdComesBack(m.serverId);
    if m.status.Some? {
      StatusComesBack(m.status.value);
    } else if m.request.Some? {
      RequestComesBack(m.request.value);
    }
  }

  // ---------------------------------------------------------------- constructors

  function NewStatusStaleServer(): Status { EmptyStatus.(stale := true, tag := StaleTag) }

  function NewStatusPlayerList(players: Players): Status { EmptyStatus.(players := Some(players), tag := PlayerListTag) }

  function NewStatusConsole(message: Console): Status { EmptyStatus.(console := Some(message), tag := ConsoleTag) }

  function NewStatusSearchServerID(serverId: string, playerId: string): Status {
    EmptyStatus.(search := Some(Search(serverId, playerId)), tag := SearchTag)
  }

  function NewReqRunCommand(command: string): Request { EmptyRequest.(runCommand := command, tag := RunCommandTag) }

  function NewReqKickPlayer(userId: string, reason: string): Request {
    EmptyRequest.(kick := Some(Kick(userId, reason)), tag := KickPlayerTag)
  }

  function NewReqSearchPlayer(id: string): Request { EmptyRequest.(searchPlayer := id, tag := RunCommandTag) }

  function NewReqPlayerList(): Request { EmptyRequest.(playerList := true, tag := ListPlayersTag) }

  /** Of the messages that can be constructed, to a server with a plain id, exactly those come back that search for
      nothing and hold no nil list. */
  lemma ConstructedComeBack(status: Status, request: Request, players: Players, console: Console, a: string, b: string)
    requires status in {NewStatusStaleServer(), NewStatusPlayerList(players), NewStatusConsole(console), NewStatusSearchServerID(a, b)}
    requires request in {NewReqRunCommand(a), NewReqKickPlayer(a, b), NewReqSearchPlayer(a), NewReqPlayerList()}
    ensures ReadableStatus(status) <==> status != NewStatusSearchServerID(a, b) && status != NewStatusPlayerList(Nil)
    ensures ReadableRequest(request) <==> request != NewReqSearchPlayer(a) || a == ""
  {
  }

  /** NewReqSearchPlayer carries the tag of a command, so what is sent, and read back, is an empty command. */
  lemma SearchRequestIsSentAsCommand(serverId: string, player: string)
    requires forall c | c in serverId :: Plain(c)
    ensures var m := Message(serverId, None, Some(NewReqSearchPlayer(player)));
            Encode(m).Ok? && Decode(Encode(m).value) == Ok(Message(serverId, None, Some(NewReqRunCommand(""))))
  {
    IdComesBack(serverId);
  }

  // ---------------------------------------------------------------- on the wire

  /** Each message goes out under one key, and that key is looked for when it is read. */
  lemma KeysOnTheWire(status: Status, request: Request)
    ensures EncodeStatus(status).Ok? ==>
              var key := match status.tag case StaleTag => "STALE" case PlayerListTag => "PLAYER_LIST"
                                          case ConsoleTag => "CONSOLE_MESSAGE" case SearchTag => "SEARCH_SERVER";
              EncodeStatus(status).value.JObj? && EncodeStatus(status).value.fields.Keys == {key}
    ensures EncodeRequest(request).Ok? ==>
              var key := match request.tag case RunCommandTag => "RUN_COMMAND" case KickPlayerTag => "KICK_PLAYER"
                                           case ListPlayersTag => "PLAYER_LIST" case SearchPlayerTag => "SEARCH_PLAYER";
              EncodeRequest(request).value.JObj? && EncodeRequest(request).value.fields.Keys == {key}
  {
  }

  /** Encoding dereferences nil exactly when the field that the tag means is missing. */
  lemma EncodeCrashes(m: Message)
    ensures Encode(m) == Crash <==>
            if m.status.Some? then
              (m.status.value.tag == PlayerListTag && m.status.value.players == None)
              || (m.status.value.tag == ConsoleTag && m.status.value.console == None)
              || (m.status.value.tag == SearchTag && m.status.value.search == None)
            else m.request.Some? && m.request.value.tag == KickPlayerTag && m.request.value.kick == None
  {
  }

  /** The strings of a kick, where null counts as one. */
  predicate ShortKick(j: Json) {
    j == JNull || (j.JArr? && |j.items| < 2 && forall i | i in j.items :: i.JStr? || i == JNull)
  }

  /** Decoding indexes out of range exactly in a message of a known kind that has less than two parts, or an id of less than
      two characters, or that kicks with less than two strings. */
  lemma DecodeCrashes(w: Wire)
    ensures Decode(w) == Crash <==>
            (w.key == "SERVER_STATUS" || w.key == "SERVER_REQUEST")
            && (|w.items| < 2 || |w.items[0].text| < 2
                || (w.key == "SERVER_REQUEST" && w.items[1].value.JObj? && "RUN_COMMAND" !in w.items[1].value.fields
                    && "KICK_PLAYER" in w.items[1].value.fields && ShortKick(w.items[1].value.fields["KICK_PLAYER"])))
  {
    hide DecodeStatus, ShortKick;
    if |w.items| >= 2 {
      RequestCrashes(w.items[1].value);
    }
  }

  lemma RequestCrashes(j: Json)
    ensures DecodeRequest(j) == Crash <==>
            j.JObj? && "RUN_COMMAND" !in j.fields && "KICK_PLAYER" in j.fields && ShortKick(j.fields["KICK_PLAYER"])
  {
    if j.JObj? && "KICK_PLAYER" in j.fields {
      KickCrashes(j.fields["KICK_PLAYER"]);
    }
  }

  lemma KickCrashes(j: Json)
    ensures DecodeKick(j) == Crash <==> ShortKick(j)
  {
    if j.JArr? {
      assert forall i | i in j.items :: StringItem(i) == Err <==> !(i.JStr? || i == JNull);
    }
  }

  /** When several keys are there, the first of stale, player list and console message decides, and of command, kick and
      player list; a search is an error. */
  lemma FirstKeyDecides(fields: map<string, Json>)
    ensures var j := JObj(fields);
            ("STALE" in fields ==> DecodeStatus(j) == Ok(NewStatusStaleServer()))
            && ("STALE" !in fields && "PLAYER_LIST" in fields && DecodeStatus(j).Ok? ==>
                  DecodeStatus(j).value.tag == PlayerListTag && DecodeStatus(j).value.console == None)
            && ("STALE" !in fields && "PLAYER_LIST" !in fields && "CONSOLE_MESSAGE" in fields && DecodeStatus(j).Ok? ==>
                  DecodeStatus(j).value.tag == ConsoleTag)
            && ("STALE" !in fields && "PLAYER_LIST" !in fields && "CONSOLE_MESSAGE" !in fields ==> DecodeStatus(j) == Err)
            && ("RUN_COMMAND" in fields && DecodeRequest(j).Ok? ==> DecodeRequest(j).value.tag == RunCommandTag)
            && ("RUN_COMMAND" !in fields && "KICK_PLAYER" in fields && DecodeRequest(j).Ok? ==>
                  DecodeRequest(j).value.tag == KickPlayerTag)
            && ("RUN_COMMAND" !in fields && "KICK_PLAYER" !in fields && "PLAYER_LIST" in fields ==>
                  DecodeRequest(j) == Ok(NewReqPlayerList()))
            && ("RUN_COMMAND" !in fields && "KICK_PLAYER" !in fields && "PLAYER_LIST" !in fields ==> DecodeRequest(j) == Err)
  {
    hide DecodePlayers, DecodeConsole, DecodeKick;
  }
}
