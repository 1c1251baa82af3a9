/** When each request on tokens and punishments succeeds, and what is stored then, told from the stored documents. */
module AdmissionAnswers {
  import opened Strings
  import opened Documents
  import opened Pipeline
  import opened Admission
  import opened AdmissionRuns

  // ---------------------------------------------------------------- the conditions

  /** A stored punishment keeps this user from the servers of this host, or from all when no host is given. */
  predicate Banned(db: Db, host: Option<string>, user: string, now: int) {
    exists p | p in db.punishments ::
      p.kind == Ban && p.issuer == host && p.user == user && p.overturnedBy == None
      && (p.expiresAt == None || p.expiresAt.value > now)
  }

  /** The host himself, one of the moderators he lists, or a global moderator. */
  predicate MayManage(db: Db, host: string, caller: User) {
    host in db.users
    && (caller.id == host || caller.id in db.users[host].moderatorIds || GlobalServerModerator in caller.entitlements)
  }

  /** He gets past the limits of the server: he may manage it or is an admin, or there is room and he has the password. */
  predicate GetsPast(db: Db, server: Server, caller: User, password: string) {
    MayManage(db, server.hostId, caller) || Admin in caller.entitlements
    || (server.playerCount < server.maxPlayerCount && (server.password == None || server.password == Some(password)))
  }

  lemma FoundIsBanned(db: Db, host: Option<string>, user: string, now: int)
    ensures FindBan(db.punishments, host, user, now).Some? <==> Banned(db, host, user, now)
  {
    hide FindBan;
    var found := FindBan(db.punishments, host, user, now);
    if Banned(db, host, user, now) {
      var p :| p in db.punishments && p.kind == Ban && p.issuer == host && p.user == user && p.overturnedBy == None
               && (p.expiresAt == None || p.expiresAt.value > now);
      assert IsBan(p, host, user, now);
    }
    if found.Some? {
      assert found.value in db.punishments && IsBan(found.value, host, user, now);
    }
  }

  // ---------------------------------------------------------------- a join token

  /** Nobody else's document has this id. */
  predicate Unused(db: Db, caller: User, id: string) {
    forall t | t in db.tokens && t.id == id :: t.user == caller.id
  }

  lemma UnusedMeaning(db: Db, caller: User, id: string)
    ensures HasTokenId(WithoutUser(db.tokens, caller.id), id) <==> !Unused(db, caller, id)
  {
    hide WithoutUser;
    if !Unused(db, caller, id) {
      var t :| t in db.tokens && t.id == id && t.user != caller.id;
      assert t in WithoutUser(db.tokens, caller.id);
    }
  }

  /** The server is there, and so is its host, who has not banned the caller. */
  predicate ServerOpen(db: Db, now: int, caller: User, serverId: string) {
    serverId in db.servers
    && (var server := db.servers[serverId]; server.hostId in db.users && !Banned(db, Some(server.hostId), caller.id, now))
  }

  /** A token is given exactly when the server and its host are there, the host has not banned the caller, no other user's
      document has the new id, and the caller may manage the server or is an admin, or there is room and the password is
      right or none is asked for. Each refusal has its own condition. */
  lemma CreateAnswer(db: Db, now: int, caller: User, serverId: string, password: string, id: string, text: string)
    ensures var r := CreateJoinToken(db, now, caller, serverId, password, id, text).1;
            (r == Token(text) <==> ServerOpen(db, now, caller, serverId) && GetsPast(db, db.servers[serverId], caller, password)
                                   && Unused(db, caller, id))
            && (r.Token? ==> r.text == text)
            && (r == Failed(ResourceExhausted) <==>
                  ServerOpen(db, now, caller, serverId) && !MayManage(db, db.servers[serverId].hostId, caller)
                  && Admin !in caller.entitlements && db.servers[serverId].playerCount >= db.servers[serverId].maxPlayerCount)
            && (r == Failed(Internal) <==>
                  ServerOpen(db, now, caller, serverId) && GetsPast(db, db.servers[serverId], caller, password)
                  && !Unused(db, caller, id))
            && (r == Failed(NotFound) <==>
                  serverId !in db.servers
                  || (!Banned(db, Some(db.servers[serverId].hostId), caller.id, now) && db.servers[serverId].hostId !in db.users))
            && (r.Failed? ==> r.code != Unauthenticated)
  {
    hide FindBan, WithoutUser, HasTokenId, Banned, Unused;
    if serverId in db.servers {
      FoundIsBanned(db, Some(db.servers[serverId].hostId), caller.id, now);
      UnusedMeaning(db, caller, id);
    }
  }

  /** What is left of a list of tokens, in its order. */
  function Others(ts: seq<JoinToken>, user: string): (r: seq<JoinToken>) {
    if ts == [] then [] else if ts[0].user == user then Others(ts[1..], user) else [ts[0]] + Others(ts[1..], user)
  }

  lemma {:induction false} OthersAreLeft(ts: seq<JoinToken>, user: string)
    ensures WithoutUser(ts, user) == Others(ts, user)
  {
    if ts != [] {
      OthersAreLeft(ts[1..], user);
      assert [] + Others(ts[1..], user) == Others(ts[1..], user);
    }
  }

  /** Nothing is stored but tokens. The caller's old ones are gone as soon as the server is there and he is not banned from
      it, whatever the answer; with a success the new one comes last. */
  lemma CreateStores(db: Db, now: int, caller: User, serverId: string, password: string, id: string, text: string)
    ensures var (db', r) := CreateJoinToken(db, now, caller, serverId, password, id, text);
            db' == db.(tokens := db'.tokens)
            && db'.tokens == (if serverId in db.servers && !Banned(db, Some(db.servers[serverId].hostId), caller.id, now)
                              then Others(db.tokens, caller.id) else db.tokens)
                             + if r.Token? then [JoinToken(id, text, caller.id, db.servers[serverId].id)] else []
  {
    hide FindBan, WithoutUser, HasTokenId, Banned, Others;
    OthersAreLeft(db.tokens, caller.id);
    assert Others(db.tokens, caller.id) + [] == Others(db.tokens, caller.id) && db.tokens + [] == db.tokens;
    if serverId in db.servers {
      FoundIsBanned(db, Some(db.servers[serverId].hostId), caller.id, now);
    }
  }

  // ---------------------------------------------------------------- using it

  /** The first stored document with this text. */
  predicate FirstWith(ts: seq<JoinToken>, text: string, i: nat) {
    i < |ts| && ts[i].token == text && forall j | 0 <= j < i :: ts[j].token != text
  }

  lemma {:induction false} FoundIsFirst(ts: seq<JoinToken>, text: string, i: nat)
    requires FirstWith(ts, text, i)
    ensures FindToken(ts, text) == Some(ts[i])
  {
    if i > 0 {
      FoundIsFirst(ts[1..], text, i - 1);
    }
  }

  lemma {:induction false} FirstExists(ts: seq<JoinToken>, text: string) returns (i: nat)
    requires FindToken(ts, text).Some?
    ensures FirstWith(ts, text, i)
  {
    if ts[0].token == text {
      i := 0;
    } else {
      i := FirstExists(ts[1..], text);
      i := i + 1;
    }
  }

  /** The holder of this document gets in: he is known and not banned, neither everywhere nor by the server's host, and the
      server is there and is the one asked for. */
  predicate LetsIn(db: Db, now: int, t: JoinToken, serverId: string) {
    t.user in db.users && !Banned(db, None, t.user, now)
    && t.server in db.servers && db.servers[t.server].id == serverId
    && !Banned(db, Some(db.servers[t.server].hostId), t.user, now)
  }

  /** A user is let in exactly when the first document with the text is his and lets him in; it is then deleted and his
      counter goes up by one. When its server is gone it is deleted and he is refused. Otherwise nothing changes. */
  lemma ConsumeAnswer(db: Db, now: int, text: string, serverId: string, user: string)
    ensures var r := ConsumeJoinToken(db, now, text, serverId).1;
            r == Joined(user) <==> exists i | 0 <= i < |db.tokens| ::
                                   FirstWith(db.tokens, text, i) && db.tokens[i].user == user && LetsIn(db, now, db.tokens[i], serverId)
    ensures var r := ConsumeJoinToken(db, now, text, serverId).1; r.Joined? || r.Failed?
  {
    hide FindBan, FindToken, Banned;
    var r := ConsumeJoinToken(db, now, text, serverId).1;
    if FindToken(db.tokens, text).Some? {
      var i := FirstExists(db.tokens, text);
      FoundIsFirst(db.tokens, text, i);
      AnswerFor(db, now, text, serverId);
      if r == Joined(user) {
        assert FirstWith(db.tokens, text, i) && db.tokens[i].user == user && LetsIn(db, now, db.tokens[i], serverId);
      }
    }
    if exists i | 0 <= i < |db.tokens| :: FirstWith(db.tokens, text, i) && db.tokens[i].user == user && LetsIn(db, now, db.tokens[i], serverId) {
      var i :| 0 <= i < |db.tokens| && FirstWith(db.tokens, text, i) && db.tokens[i].user == user && LetsIn(db, now, db.tokens[i], serverId);
      FoundIsFirst(db.tokens, text, i);
      AnswerFor(db, now, text, serverId);
    }
  }

  lemma AnswerFor(db: Db, now: int, text: string, serverId: string)
    requires FindToken(db.tokens, text).Some?
    ensures var t := FindToken(db.tokens, text).value;
            var r := ConsumeJoinToken(db, now, text, serverId).1;
            if LetsIn(db, now, t, serverId) then r == Joined(t.user) else r.Failed?
  {
    hide FindBan, FindToken, Banned, WithoutId;
    var t := FindToken(db.tokens, text).value;
    FoundIsBanned(db, None, t.user, now);
    if t.server in db.servers {
      FoundIsBanned(db, Some(db.servers[t.server].hostId), t.user, now);
    }
  }

  /** The refusals of a document that is found, in the order in which they are made. */
  lemma ConsumeRefusal(db: Db, now: int, text: string, serverId: string, i: nat)
    requires FirstWith(db.tokens, text, i)
    ensures var t := db.tokens[i];
            ConsumeJoinToken(db, now, text, serverId).1 ==
            if t.user !in db.users then Failed(Unauthenticated)
            else if Banned(db, None, t.user, now) then Failed(PermissionDenied)
            else if t.server !in db.servers then Failed(NotFound)
            else if LetsIn(db, now, t, serverId) then Joined(t.user) else Failed(PermissionDenied)
  {
    hide FindBan, FindToken, Banned, WithoutId;
    FoundIsFirst(db.tokens, text, i);
    var t := db.tokens[i];
    FoundIsBanned(db, None, t.user, now);
    if t.server in db.servers {
      FoundIsBanned(db, Some(db.servers[t.server].hostId), t.user, now);
    }
  }

  /** What is stored after it. */
  lemma ConsumeStores(db: Db, now: int, text: string, serverId: string, i: nat)
    requires FirstWith(db.tokens, text, i)
    ensures var t := db.tokens[i];
            var (db', r) := ConsumeJoinToken(db, now, text, serverId);
            db' == if r.Joined? then db.(tokens := WithoutId(db.tokens, t.id), joins := db.joins[t.user := JoinsOf(db, t.user) + 1])
                   else if t.user in db.users && !Banned(db, None, t.user, now) && t.server !in db.servers
                     then db.(tokens := WithoutId(db.tokens, t.id))
                   else db
  {
    hide FindBan, FindToken, Banned, WithoutId;
    FoundIsFirst(db.tokens, text, i);
    var t := db.tokens[i];
    FoundIsBanned(db, None, t.user, now);
  }

  // ---------------------------------------------------------------- punishments

  predicate ManagesServer(db: Db, serverId: string, caller: User) {
    serverId in db.servers && MayManage(db, db.servers[serverId].hostId, caller)
  }

  predicate NewPunishmentId(db: Db, id: string) { forall p | p in db.punishments :: p.id != id }

  /** A kick is stored exactly when the caller may manage the server, the target is known and is not its host, and the id is
      new; it is then the last punishment. */
  lemma KickAnswer(db: Db, caller: User, serverId: string, userId: string, id: string)
    ensures var (db', r) := KickPlayer(db, caller, serverId, userId, id);
            (r == Done <==> ManagesServer(db, serverId, caller) && userId in db.users && userId != db.servers[serverId].hostId
                            && NewPunishmentId(db, id))
            && db' == if r == Done then
                        db.(punishments := db.punishments
                                           + [Punishment(id, Kick, Some(db.servers[serverId].hostId), userId, None, None)])
                      else db
  {
  }

  /** A ban is stored exactly when the same holds and the host's servers are not closed to the target already. */
  lemma BanAnswer(db: Db, now: int, caller: User, serverId: string, userId: string, duration: Option<Uint64>, id: string)
    ensures var (db', r) := BanPlayer(db, now, caller, serverId, userId, duration, id);
            (r == Done <==> ManagesServer(db, serverId, caller) && userId in db.users && userId != db.servers[serverId].hostId
                            && !Banned(db, Some(db.servers[serverId].hostId), userId, now) && NewPunishmentId(db, id))
            && db' == if r == Done then
                        db.(punishments := db.punishments
                                           + [Punishment(id, Ban, Some(db.servers[serverId].hostId), userId,
                                                         if duration == None then None
                                                         else Some(now + Signed(duration.value * 1_000_000_000)), None)])
                      else db
  {
    hide FindBan, Banned;
    if serverId in db.servers {
      FoundIsBanned(db, Some(db.servers[serverId].hostId), userId, now);
    }
  }

  /** An unban succeeds exactly when the caller may manage the server and its host has an active ban on the target; that ban
      is then marked with the caller, and nothing else changes. */
  lemma UnbanAnswer(db: Db, now: int, caller: User, serverId: string, userId: string)
    requires DistinctPunishments(db.punishments)
    ensures var (db', r) := UnbanPlayer(db, now, caller, serverId, userId);
            (r == Done <==> ManagesServer(db, serverId, caller) && Banned(db, Some(db.servers[serverId].hostId), userId, now))
            && (r != Done ==> db' == db)
            && (r == Done ==> db' == db.(punishments := db'.punishments) && OneLifted(db, db'.punishments, now, caller, serverId, userId))
  {
    hide FindBan, Banned, Replace, OneLifted;
    var (db', r) := UnbanPlayer(db, now, caller, serverId, userId);
    if serverId in db.servers {
      var host := db.servers[serverId].hostId;
      FoundIsBanned(db, Some(host), userId, now);
      if r == Done {
        var p := FindBan(db.punishments, Some(host), userId, now).value;
        LiftedAlone(db, now, caller, serverId, userId, p);
      }
    }
  }

  /** One active ban of that host on that user was marked, and no other punishment touched. */
  ghost predicate OneLifted(db: Db, ps: seq<Punishment>, now: int, caller: User, serverId: string, userId: string) {
    serverId in db.servers && |ps| == |db.punishments| && exists i | 0 <= i < |ps| ::
      IsBan(db.punishments[i], Some(db.servers[serverId].hostId), userId, now)
      && ps[i] == db.punishments[i].(overturnedBy := Some(caller.id))
      && forall j | 0 <= j < |ps| && j != i :: ps[j] == db.punishments[j]
  }

  lemma LiftedAlone(db: Db, now: int, caller: User, serverId: string, userId: string, p: Punishment)
    requires DistinctPunishments(db.punishments) && serverId in db.servers && p in db.punishments
    requires IsBan(p, Some(db.servers[serverId].hostId), userId, now)
    ensures OneLifted(db, Replace(db.punishments, p.(overturnedBy := Some(caller.id))), now, caller, serverId, userId)
  {
    var ps := Replace(db.punishments, p.(overturnedBy := Some(caller.id)));
    var i :| 0 <= i < |db.punishments| && db.punishments[i] == p;
    assert ps[i] == p.(overturnedBy := Some(caller.id));
  }

  /** A ban is found up to its expiry and not from then on, when it is the only one. */
  lemma BanEnds(db: Db, now: int, caller: User, serverId: string, userId: string, seconds: Uint64, id: string, t: int)
    requires BanPlayer(db, now, caller, serverId, userId, Some(seconds), id).1 == Done && now <= t
    ensures var db' := BanPlayer(db, now, caller, serverId, userId, Some(seconds), id).0;
            Banned(db', Some(db.servers[serverId].hostId), userId, t) <==> t < now + Signed(seconds * 1_000_000_000)
  {
    hide BanPlayer, FindBan, Banned;
    var db' := BanPlayer(db, now, caller, serverId, userId, Some(seconds), id).0;
    BanAnswer(db, now, caller, serverId, userId, Some(seconds), id);
    var host := Some(db.servers[serverId].hostId);
    var p := Punishment(id, Ban, host, userId, Some(now + Signed(seconds * 1_000_000_000)), None);
    FoundIsBanned(db', host, userId, t);
    FoundIsBanned(db, host, userId, now);
    if p.IsActive(t) {
      BanFound(db'.punishments, host, userId, t, p);
    } else {
      EndedBan(db.punishments, now, t, host, userId, p);
    }
  }

  /** What the refusals say: an unknown server, host or target, or in an unban a missing ban, is not found; an id in use is
      an internal error; in all other cases the permission is denied. */
  lemma PunishmentRefusals(db: Db, now: int, caller: User, serverId: string, userId: string, duration: Option<Uint64>, id: string)
    ensures var kick := KickPlayer(db, caller, serverId, userId, id).1;
            var ban := BanPlayer(db, now, caller, serverId, userId, duration, id).1;
            var unban := UnbanPlayer(db, now, caller, serverId, userId).1;
            var unknown := serverId !in db.servers || db.servers[serverId].hostId !in db.users;
            var manages := ManagesServer(db, serverId, caller);
            (kick == Failed(NotFound) <==> unknown || (manages && userId !in db.users))
            && (kick == Failed(PermissionDenied) <==>
                  !unknown && (!manages || (userId in db.users && userId == db.servers[serverId].hostId)))
            && (ban == Failed(NotFound) <==> unknown || (manages && userId !in db.users))
            && (ban == Failed(PermissionDenied) <==>
                  !unknown && (!manages || (userId in db.users && (userId == db.servers[serverId].hostId
                                                                   || Banned(db, Some(db.servers[serverId].hostId), userId, now)))))
            && (unban == Failed(NotFound) <==>
                  unknown || (manages && !Banned(db, Some(db.servers[serverId].hostId), userId, now)))
            && (unban == Failed(PermissionDenied) <==> !unknown && !manages)
  {
    hide FindBan, Banned, HasPunishmentId, Replace;
    if serverId in db.servers {
      FoundIsBanned(db, Some(db.servers[serverId].hostId), userId, now);
    }
  }

  // ---------------------------------------------------------------- over whole runs

  /** The request of this event made this token: its user was not banned by the host then, and got past the limits of the
      server, which includes the password of a locked one. */
  predicate Earns(db: Db, e: Event, t: JoinToken) {
    e.request.CreateTokenRequest? && e.request.caller.id == t.user && e.request.id == t.id && e.request.text == t.token
    && ServerOpen(db, e.now, e.request.caller, e.request.server) && db.servers[e.request.server].id == t.server
    && GetsPast(db, db.servers[e.request.server], e.request.caller, e.request.password)
  }

  /** Somewhere in the run. */
  predicate EarnedIn(db: Db, events: seq<Event>, t: JoinToken)
    decreases |events|
  {
    events != [] && (Earns(db, events[0], t) || EarnedIn(Serve(db, events[0].now, events[0].request).0, events[1..], t))
  }

  /** One request stores no token but one that it earns. */
  lemma StepEarns(db: Db, e: Event, t: JoinToken)
    requires t in Serve(db, e.now, e.request).0.tokens && t !in db.tokens
    ensures Earns(db, e, t)
  {
    hide FindBan, FindToken, Banned, Others, Replace;
    var db' := Serve(db, e.now, e.request).0;
    match e.request
    case CreateTokenRequest(caller, server, password, id, text) =>
      CreateAnswer(db, e.now, caller, server, password, id, text);
      CreateStores(db, e.now, caller, server, password, id, text);
      OthersAreLeft(db.tokens, caller.id);
    case _ =>
  }

  /** Every token that is stored after a run was there before it or was earned in it. */
  lemma {:induction false} TokensAreEarned(db: Db, events: seq<Event>, t: JoinToken)
    requires t in AdmissionRuns.After(db, events).tokens
    ensures t in db.tokens || EarnedIn(db, events, t)
    decreases |events|
  {
    hide Serve, Earns;
    if events != [] {
      var db' := Serve(db, events[0].now, events[0].request).0;
      TokensAreEarned(db', events[1..], t);
      if t in db'.tokens && t !in db.tokens {
        StepEarns(db, events[0], t);
      }
    }
  }

  /** In every run: whoever is let in at its end comes with a token that was stored at its start or that he earned in it,
      with the password of the server if it was locked then and he had no rights over it. */
  lemma NoEntryWithoutPassword(db: Db, events: seq<Event>, now: int, text: string, serverId: string, user: string)
    requires ConsumeJoinToken(AdmissionRuns.After(db, events), now, text, serverId).1 == Joined(user)
    ensures exists t: JoinToken :: t.user == user && t.token == text && (t in db.tokens || EarnedIn(db, events, t))
  {
    hide ConsumeJoinToken, AdmissionRuns.After, LetsIn, EarnedIn;
    var db' := AdmissionRuns.After(db, events);
    ConsumeAnswer(db', now, text, serverId, user);
    var i :| 0 <= i < |db'.tokens| && FirstWith(db'.tokens, text, i) && db'.tokens[i].user == user && LetsIn(db', now, db'.tokens[i], serverId);
    TokensAreEarned(db, events, db'.tokens[i]);
  }
}
