/** Join tokens and bans, one request at a time: what each request does to the store. */
module Admission {
  import opened Strings
  import opened Documents
  import opened Pipeline

  datatype Code = NotFound | PermissionDenied | ResourceExhausted | Unauthenticated | Internal

  datatype Response = Done | Token(text: string) | Joined(user: string) | Failed(code: Code)

  datatype Db = Db(
    users: map<string, User>,
    servers: map<string, Server>,
    tokens: seq<JoinToken>,
    punishments: seq<Punishment>,
    joins: map<string, nat>)

  // ---------------------------------------------------------------- queries

  /** The filter of GetBanForServer (with a host) and of GetGlobalBan (without). */
  predicate IsBan(p: Punishment, issuer: Option<string>, user: string, now: int) {
    p.user == user && p.kind.Ban? && p.issuer == issuer && p.IsActive(now)
  }

  function FindBan(ps: seq<Punishment>, issuer: Option<string>, user: string, now: int): (r: Option<Punishment>)
    ensures r.Some? ==> r.value in ps && IsBan(r.value, issuer, user, now)
    ensures r.None? ==> forall p | p in ps :: !IsBan(p, issuer, user, now)
  {
    if ps == [] then None
    else if IsBan(ps[0], issuer, user, now) then Some(ps[0])
    else FindBan(ps[1..], issuer, user, now)
  }

  function FindToken(ts: seq<JoinToken>, text: string): (r: Option<JoinToken>)
    ensures r.Some? ==> r.value in ts && r.value.token == text
    ensures r.None? ==> forall t | t in ts :: t.token != text
  {
    if ts == [] then None else if ts[0].token == text then Some(ts[0]) else FindToken(ts[1..], text)
  }

  function WithoutId(ts: seq<JoinToken>, id: string): (r: seq<JoinToken>)
    ensures forall t :: t in r <==> t in ts && t.id != id
  {
    Match(ts, (t: JoinToken) => t.id != id)
  }

  lemma WithoutIdFirst(ts: seq<JoinToken>, id: string)
    ensures WithoutId([], id) == []
    ensures ts != [] ==> WithoutId(ts, id) == (if ts[0].id == id then [] else [ts[0]]) + WithoutId(ts[1..], id)
  {
  }

  function TokensOf(ts: seq<JoinToken>, user: string): (r: seq<JoinToken>)
    ensures forall t :: t in r <==> t in ts && t.user == user
  {
    Match(ts, (t: JoinToken) => t.user == user)
  }

  lemma TokensOfFirst(ts: seq<JoinToken>, user: string)
    ensures TokensOf([], user) == []
    ensures ts != [] ==> TokensOf(ts, user) == (if ts[0].user == user then [ts[0]] else []) + TokensOf(ts[1..], user)
  {
  }

  function WithoutUser(ts: seq<JoinToken>, user: string): (r: seq<JoinToken>)
    ensures forall t :: t in r <==> t in ts && t.user != user
  {
    Match(ts, (t: JoinToken) => t.user != user)
  }

  predicate HasTokenId(ts: seq<JoinToken>, id: string) { exists t | t in ts :: t.id == id }

  predicate HasPunishmentId(ps: seq<Punishment>, id: string) { exists p | p in ps :: p.id == id }

  /** Update of one punishment: the document with this id is replaced. */
  function Replace(ps: seq<Punishment>, p: Punishment): (r: seq<Punishment>)
    ensures |r| == |ps|
    ensures forall i | 0 <= i < |ps| :: r[i] == if ps[i].id == p.id then p else ps[i]
  {
    if ps == [] then [] else [if ps[0].id == p.id then p else ps[0]] + Replace(ps[1..], p)
  }

  // ---------------------------------------------------------------- requests

  function CreateJoinToken(db: Db, now: int, caller: User, serverId: string, password: string, id: string, text: string): (Db, Response) {
    if serverId !in db.servers then (db, Failed(NotFound)) else
    var server := db.servers[serverId];
    if FindBan(db.punishments, Some(server.hostId), caller.id, now).Some? then (db, Failed(PermissionDenied)) else
    var db1 := db.(tokens := WithoutUser(db.tokens, caller.id));
    if server.hostId !in db.users then (db1, Failed(NotFound)) else
    var isModerator := server.CanManage(db.users[server.hostId], caller) || caller.Entitled(Admin);
    if !isModerator && server.playerCount >= server.maxPlayerCount then (db1, Failed(ResourceExhausted))
    else if server.password.Some? && !isModerator && server.password.value != password then (db1, Failed(PermissionDenied))
    else if HasTokenId(db1.tokens, id) then (db1, Failed(Internal))
    else (db1.(tokens := db1.tokens + [JoinToken(id, text, caller.id, server.id)]), Token(text))
  }

  function ConsumeJoinToken(db: Db, now: int, text: string, serverId: string): (Db, Response) {
    var found := FindToken(db.tokens, text);
    if found.None? then (db, Failed(NotFound)) else
    var t := found.value;
    if t.user !in db.users then (db, Failed(Unauthenticated))
    else if FindBan(db.punishments, None, t.user, now).Some? then (db, Failed(PermissionDenied))
    else if t.server !in db.servers then (db.(tokens := WithoutId(db.tokens, t.id)), Failed(NotFound)) else
    var server := db.servers[t.server];
    if server.id != serverId then (db, Failed(PermissionDenied))
    else if FindBan(db.punishments, Some(server.hostId), t.user, now).Some? then (db, Failed(PermissionDenied))
    else
      var joined := if t.user in db.joins then db.joins[t.user] else 0;
      (db.(tokens := WithoutId(db.tokens, t.id), joins := db.joins[t.user := joined + 1]), Joined(t.user))
  }

  /** isModerator: the server, when the caller may manage it. */
  function Managed(db: Db, caller: User, serverId: string): Option<Server> {
    if serverId in db.servers && db.servers[serverId].hostId in db.users
       && db.servers[serverId].CanManage(db.users[db.servers[serverId].hostId], caller)
    then Some(db.servers[serverId]) else None
  }

  function ManagedFailure(db: Db, serverId: string): Code {
    if serverId in db.servers && db.servers[serverId].hostId in db.users then PermissionDenied else NotFound
  }

  function Insert(db: Db, p: Punishment): (Db, Response) {
    if HasPunishmentId(db.punishments, p.id) then (db, Failed(Internal))
    else (db.(punishments := db.punishments + [p]), Done)
  }

  function KickPlayer(db: Db, caller: User, serverId: string, userId: string, id: string): (Db, Response) {
    var server := Managed(db, caller, serverId);
    if server.None? then (db, Failed(ManagedFailure(db, serverId)))
    else if userId !in db.users then (db, Failed(NotFound))
    else if userId == server.value.hostId then (db, Failed(PermissionDenied))
    else Insert(db, Punishment(id, Kick, Some(server.value.hostId), userId, None, None))
  }

  function BanPlayer(db: Db, now: int, caller: User, serverId: string, userId: string, duration: Option<Uint64>, id: string): (Db, Response) {
    var server := Managed(db, caller, serverId);
    if server.None? then (db, Failed(ManagedFailure(db, serverId)))
    else if userId !in db.users then (db, Failed(NotFound))
    else if userId == server.value.hostId then (db, Failed(PermissionDenied))
    else if FindBan(db.punishments, Some(server.value.hostId), userId, now).Some? then (db, Failed(PermissionDenied))
    else
      var expiresAt := match duration case Some(d) => Some(Documents.After(now, d)) case None => None;
      Insert(db, Punishment(id, Ban, Some(server.value.hostId), userId, expiresAt, None))
  }

  function UnbanPlayer(db: Db, now: int, caller: User, serverId: string, userId: string): (Db, Response) {
    var server := Managed(db, caller, serverId);
    if server.None? then (db, Failed(ManagedFailure(db, serverId))) else
    var found := FindBan(db.punishments, Some(server.value.hostId), userId, now);
    if found.None? then (db, Failed(NotFound))
    else (db.(punishments := Replace(db.punishments, found.value.(overturnedBy := Some(caller.id)))), Done)
  }

  // ---------------------------------------------------------------- the service

  /** The request handlers on their shared collections. */
  class Service {
    var users: map<string, User>
    var servers: map<string, Server>
    var tokens: seq<JoinToken>
    var punishments: seq<Punishment>
    var joins: map<string, nat>

    function State(): Db
      reads this
    {
      Db(users, servers, tokens, punishments, joins)
    }

    ghost predicate Valid()
      reads this
    {
      DistinctTokens(tokens)
    }

    method GetBan(issuer: Option<string>, user: string, now: int) returns (r: Option<Punishment>)
      ensures r == FindBan(punishments, issuer, user, now)
    {
      for i := 0 to |punishments|
        invariant FindBan(punishments[i..], issuer, user, now) == FindBan(punishments, issuer, user, now)
      {
        if IsBan(punishments[i], issuer, user, now) {
          return Some(punishments[i]);
        }
      }
      return None;
    }

    method GetByToken(text: string) returns (r: Option<JoinToken>)
      ensures r == FindToken(tokens, text)
    {
      for i := 0 to |tokens|
        invariant FindToken(tokens[i..], text) == FindToken(tokens, text)
      {
        if tokens[i].token == text {
          return Some(tokens[i]);
        }
      }
      return None;
    }

    method GetByUserId(user: string) returns (r: seq<JoinToken>)
      ensures r == TokensOf(tokens, user)
    {
      hide TokensOf;
      r := [];
      for i := 0 to |tokens|
        invariant r + TokensOf(tokens[i..], user) == TokensOf(tokens, user)
      {
        TokensOfFirst(tokens[i..], user);
        assert tokens[i..][1..] == tokens[i + 1..];
        if tokens[i].user == user {
          r := r + [tokens[i]];
        }
      }
      TokensOfFirst(tokens[|tokens|..], user);
    }

    /** FindOneAndDelete: false, and nothing done, when no document has this id. */
    method DeleteByToken(id: string) returns (ok: bool)
      requires Valid()
      modifies this`tokens
      ensures Valid() && ok == HasTokenId(old(tokens), id) && tokens == WithoutId(old(tokens), id)
    {
      ok := HasTokenId(tokens, id);
      WithoutIdDistinct(tokens, id);
      if ok {
        tokens := WithoutId(tokens, id);
      } else {
        NothingRemoved(tokens, id);
      }
    }

    /** The loop over the caller's earlier tokens removes them all and never misses one. */
    method DeleteTokensOf(user: string) returns (ok: bool)
      requires Valid()
      modifies this`tokens
      ensures Valid() && ok && tokens == WithoutUser(old(tokens), user)
    {
      var existing := GetByUserId(user);
      TokensOfDistinct(tokens, user);
      WithoutIdsStart(tokens);
      for i := 0 to |existing|
        invariant Valid() && tokens == WithoutIds(old(tokens), existing[..i])
      {
        assert existing[i] in existing;
        StillThere(old(tokens), existing, i);
        WithoutIdsNext(old(tokens), existing, i);
        var found := DeleteByToken(existing[i].id);
        assert found;
      }
      assert existing[..|existing|] == existing;
      WithoutIdsAll(old(tokens), user);
      ok := true;
    }

    method CreateJoinTokenRequest(now: int, caller: User, serverId: string, password: string, id: string, text: string)
      returns (r: Response)
      requires Valid()
      modifies this`tokens
      ensures Valid() && (State(), r) == CreateJoinToken(old(State()), now, caller, serverId, password, id, text)
    {
      if serverId !in servers {
        return Failed(NotFound);
      }
      var server := servers[serverId];
      var ban := GetBan(Some(server.hostId), caller.id, now);
      if ban.Some? {
        return Failed(PermissionDenied);
      }
      var deleted := DeleteTokensOf(caller.id);
      if !deleted {
        return Failed(Internal);
      }
      if server.hostId !in users {
        return Failed(NotFound);
      }
      var isModerator := server.CanManage(users[server.hostId], caller) || caller.Entitled(Admin);
      if !isModerator && server.playerCount >= server.maxPlayerCount {
        return Failed(ResourceExhausted);
      }
      if server.password.Some? && !isModerator && server.password.value != password {
        return Failed(PermissionDenied);
      }
      if HasTokenId(tokens, id) {
        return Failed(Internal);
      }
      tokens := tokens + [JoinToken(id, text, caller.id, server.id)];
      return Token(text);
    }

    method ConsumeJoinTokenRequest(now: int, text: string, serverId: string) returns (r: Response)
      requires Valid()
      modifies this`tokens, this`joins
      ensures Valid() && (State(), r) == ConsumeJoinToken(old(State()), now, text, serverId)
    {
      var found := GetByToken(text);
      if found.None? {
        return Failed(NotFound);
      }
      var t := found.value;
      if t.user !in users {
        return Failed(Unauthenticated);
      }
      var globalBan := GetBan(None, t.user, now);
      if globalBan.Some? {
        return Failed(PermissionDenied);
      }
      if t.server !in servers {
        var stale := DeleteByToken(t.id);
        return Failed(if stale then NotFound else Internal);
      }
      var server := servers[t.server];
      if server.id != serverId {
        return Failed(PermissionDenied);
      }
      var ban := GetBan(Some(server.hostId), t.user, now);
      if ban.Some? {
        return Failed(PermissionDenied);
      }
      var deleted := DeleteByToken(t.id);
      if !deleted {
        return Failed(Internal);
      }
      joins := joins[t.user := (if t.user in joins then joins[t.user] else 0) + 1];
      return Joined(t.user);
    }

    method BanPlayerRequest(now: int, caller: User, serverId: string, userId: string, duration: Option<Uint64>, id: string)
      returns (r: Response)
      modifies this`punishments
      ensures (State(), r) == BanPlayer(old(State()), now, caller, serverId, userId, duration, id)
    {
      var server := Managed(State(), caller, serverId);
      if server.None? {
        return Failed(ManagedFailure(State(), serverId));
      }
      if userId !in users {
        return Failed(NotFound);
      }
      if userId == server.value.hostId {
        return Failed(PermissionDenied);
      }
      var activeBan := GetBan(Some(server.value.hostId), userId, now);
      if activeBan.Some? {
        return Failed(PermissionDenied);
      }
      if HasPunishmentId(punishments, id) {
        return Failed(Internal);
      }
      var expiresAt := match duration case Some(d) => Some(Documents.After(now, d)) case None => None;
      punishments := punishments + [Punishment(id, Ban, Some(server.value.hostId), userId, expiresAt, None)];
      return Done;
    }

    method KickPlayerRequest(caller: User, serverId: string, userId: string, id: string) returns (r: Response)
      modifies this`punishments
      ensures (State(), r) == KickPlayer(old(State()), caller, serverId, userId, id)
    {
      var server := Managed(State(), caller, serverId);
      if server.None? {
        return Failed(ManagedFailure(State(), serverId));
      }
      if userId !in users {
        return Failed(NotFound);
      }
      if userId == server.value.hostId {
        return Failed(PermissionDenied);
      }
      if HasPunishmentId(punishments, id) {
        return Failed(Internal);
      }
      punishments := punishments + [Punishment(id, Kick, Some(server.value.hostId), userId, None, None)];
      return Done;
    }

    method UnbanPlayerRequest(now: int, caller: User, serverId: string, userId: string) returns (r: Response)
      modifies this`punishments
      ensures (State(), r) == UnbanPlayer(old(State()), now, caller, serverId, userId)
    {
      var server := Managed(State(), caller, serverId);
      if server.None? {
        return Failed(ManagedFailure(State(), serverId));
      }
      var found := GetBan(Some(server.value.hostId), userId, now);
      if found.None? {
        return Failed(NotFound);
      }
      punishments := Replace(punishments, found.value.(overturnedBy := Some(caller.id)));
      return Done;
    }
  }

  // ---------------------------------------------------------------- token ids

  ghost predicate DistinctTokens(ts: seq<JoinToken>) {
    forall i, j | 0 <= i < j < |ts| :: ts[i].id != ts[j].id
  }

  function WithoutIds(ts: seq<JoinToken>, gone: seq<JoinToken>): (r: seq<JoinToken>)
    decreases |gone|
  {
    if gone == [] then ts else WithoutId(WithoutIds(ts, gone[..|gone| - 1]), gone[|gone| - 1].id)
  }

  lemma WithoutIdsStart(ts: seq<JoinToken>)
    ensures WithoutIds(ts, []) == ts
  {
  }

  lemma WithoutIdsNext(ts: seq<JoinToken>, gone: seq<JoinToken>, i: nat)
    requires i < |gone|
    ensures WithoutIds(ts, gone[..i + 1]) == WithoutId(WithoutIds(ts, gone[..i]), gone[i].id)
  {
    assert gone[..i + 1][..i] == gone[..i];
  }

  lemma {:induction false} WithoutIdDistinct(ts: seq<JoinToken>, id: string)
    requires DistinctTokens(ts)
    ensures DistinctTokens(WithoutId(ts, id))
  {
    if ts != [] {
      WithoutIdDistinct(ts[1..], id);
      var rest := WithoutId(ts[1..], id);
      forall t | t in rest
        ensures t.id != ts[0].id
      {
        assert t in ts[1..];
      }
    }
  }

  lemma {:induction false} NothingRemoved(ts: seq<JoinToken>, id: string)
    requires !HasTokenId(ts, id)
    ensures WithoutId(ts, id) == ts
  {
    if ts != [] {
      assert ts[0] in ts;
      assert forall t | t in ts[1..] :: t in ts;
      NothingRemoved(ts[1..], id);
    }
  }

  lemma {:induction false} TokensOfDistinct(ts: seq<JoinToken>, user: string)
    requires DistinctTokens(ts)
    ensures DistinctTokens(TokensOf(ts, user))
  {
    if ts != [] {
      TokensOfDistinct(ts[1..], user);
      var rest := TokensOf(ts[1..], user);
      forall t | t in rest
        ensures t.id != ts[0].id
      {
        assert t in ts[1..];
      }
    }
  }

  lemma {:induction false} WithoutIdsMembers(ts: seq<JoinToken>, gone: seq<JoinToken>, t: JoinToken)
    ensures t in WithoutIds(ts, gone) <==> t in ts && forall g | g in gone :: g.id != t.id
    decreases |gone|
  {
    if gone != [] {
      var n := |gone| - 1;
      WithoutIdsMembers(ts, gone[..n], t);
      assert gone == gone[..n] + [gone[n]];
    }
  }

  lemma StillThere(ts: seq<JoinToken>, existing: seq<JoinToken>, i: nat)
    requires i < |existing| && DistinctTokens(existing) && forall e | e in existing :: e in ts
    ensures HasTokenId(WithoutIds(ts, existing[..i]), existing[i].id)
  {
    WithoutIdsMembers(ts, existing[..i], existing[i]);
    forall g | g in existing[..i]
      ensures g.id != existing[i].id
    {
      var k :| 0 <= k < i && existing[k] == g;
    }
    assert existing[i] in existing;
  }

  /** Order is kept: what is left is what the user did not own. */
  lemma {:induction false} FilteredAlike(ts: seq<JoinToken>, gone: seq<JoinToken>, user: string)
    requires forall t | t in ts :: HasTokenId(gone, t.id) <==> t.user == user
    ensures WithoutIds(ts, gone) == WithoutUser(ts, user)
    decreases |ts|
  {
    if ts == [] {
      WithoutIdsOfNone(gone);
    } else {
      WithoutIdsFirst(ts, gone);
      assert ts[0] in ts;
      assert forall t | t in ts[1..] :: t in ts;
      FilteredAlike(ts[1..], gone, user);
    }
  }

  lemma {:induction false} WithoutIdsOfNone(gone: seq<JoinToken>)
    ensures WithoutIds([], gone) == []
    decreases |gone|
  {
    if gone != [] {
      WithoutIdsOfNone(gone[..|gone| - 1]);
    }
  }

  lemma {:induction false} WithoutIdAppend(a: seq<JoinToken>, b: seq<JoinToken>, id: string)
    ensures WithoutId(a + b, id) == WithoutId(a, id) + WithoutId(b, id)
  {
    if a == [] {
      assert a + b == b;
    } else {
      assert (a + b)[1..] == a[1..] + b;
      WithoutIdAppend(a[1..], b, id);
    }
  }

  lemma HasTokenIdLast(gone: seq<JoinToken>, id: string)
    requires gone != []
    ensures HasTokenId(gone, id) <==> HasTokenId(gone[..|gone| - 1], id) || gone[|gone| - 1].id == id
  {
    assert gone == gone[..|gone| - 1] + [gone[|gone| - 1]];
  }

  lemma WithoutIdOfOne(t: JoinToken, id: string)
    ensures WithoutId([t], id) == (if t.id == id then [] else [t]) && WithoutId([], id) == []
  {
    assert [t][1..] == [];
    WithoutIdFirst([t], id);
  }

  lemma {:induction false} WithoutIdsFirst(ts: seq<JoinToken>, gone: seq<JoinToken>)
    requires ts != []
    ensures WithoutIds(ts, gone) == (if HasTokenId(gone, ts[0].id) then [] else [ts[0]]) + WithoutIds(ts[1..], gone)
    decreases |gone|
  {
    if gone == [] {
      assert ts == [ts[0]] + ts[1..];
    } else {
      hide WithoutId, HasTokenId;
      var n := |gone| - 1;
      WithoutIdsFirst(ts, gone[..n]);
      HasTokenIdLast(gone, ts[0].id);
      var first := if HasTokenId(gone[..n], ts[0].id) then [] else [ts[0]];
      WithoutIdAppend(first, WithoutIds(ts[1..], gone[..n]), gone[n].id);
      WithoutIdOfOne(ts[0], gone[n].id);
    }
  }

  lemma WithoutIdsAll(ts: seq<JoinToken>, user: string)
    requires DistinctTokens(ts)
    ensures WithoutIds(ts, TokensOf(ts, user)) == WithoutUser(ts, user)
  {
    var gone := TokensOf(ts, user);
    forall t | t in ts
      ensures HasTokenId(gone, t.id) <==> t.user == user
    {
      if t.user == user {
        assert t in gone;
      }
      if HasTokenId(gone, t.id) {
        var g :| g in gone && g.id == t.id;
        var i :| 0 <= i < |ts| && ts[i] == t;
        var j :| 0 <= j < |ts| && ts[j] == g;
        assert i == j;
      }
    }
    FilteredAlike(ts, gone, user);
  }
}
