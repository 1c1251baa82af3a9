/** Bans and join tokens over whole runs of requests, served one at a time with a clock that never goes back. */
module AdmissionRuns {
  import opened Strings
  import opened Documents
  import opened Admission

  datatype Request =
    | CreateTokenRequest(caller: User, server: string, password: string, id: string, text: string)
    | ConsumeTokenRequest(text: string, server: string)
    | BanRequest(caller: User, server: string, user: string, duration: Option<Uint64>, id: string)
    | KickRequest(caller: User, server: string, user: string, id: string)
    | UnbanRequest(caller: User, server: string, user: string)
    | GlobalBanRequest(user: string, expiresAt: Option<int>, id: string)
    | OtherRequest(users: map<string, User>, servers: map<string, Server>)  // anything else done to users and servers

  function Serve(db: Db, now: int, req: Request): (Db, Response) {
    match req
    case CreateTokenRequest(caller, server, password, id, text) => CreateJoinToken(db, now, caller, server, password, id, text)
    case ConsumeTokenRequest(text, server) => ConsumeJoinToken(db, now, text, server)
    case BanRequest(caller, server, user, duration, id) => BanPlayer(db, now, caller, server, user, duration, id)
    case KickRequest(caller, server, user, id) => KickPlayer(db, caller, server, user, id)
    case UnbanRequest(caller, server, user) => UnbanPlayer(db, now, caller, server, user)
    case GlobalBanRequest(user, expiresAt, id) => Insert(db, Punishment(id, Ban, None, user, expiresAt, None))
    case OtherRequest(users, servers) => (db.(users := users, servers := servers), Done)
  }

  datatype Event = Event(now: int, request: Request)

  predicate Monotone(from: int, events: seq<Event>)
    decreases |events|
  {
    events == [] || (from <= events[0].now && Monotone(events[0].now, events[1..]))
  }

  function After(db: Db, events: seq<Event>): Db
    decreases |events|
  {
    if events == [] then db else After(Serve(db, events[0].now, events[0].request).0, events[1..])
  }

  function LastTime(from: int, events: seq<Event>): int
    decreases |events|
  {
    if events == [] then from else LastTime(events[0].now, events[1..])
  }

  // ---------------------------------------------------------------- one active ban per host and user

  ghost predicate DistinctPunishments(ps: seq<Punishment>) {
    forall i, j | 0 <= i < j < |ps| :: ps[i].id != ps[j].id
  }

  /** Two bans by the same host on the same user are never active together, now or later. */
  ghost predicate OneActiveBan(ps: seq<Punishment>, now: int) {
    forall i, j | 0 <= i < j < |ps| && ps[i].issuer.Some? ::
      !(IsBan(ps[i], ps[i].issuer, ps[i].user, now) && IsBan(ps[j], ps[i].issuer, ps[i].user, now))
  }

  predicate NoneAgainstIssuer(ps: seq<Punishment>) {
    forall p | p in ps :: p.issuer != Some(p.user)
  }

  ghost predicate Inv(db: Db, now: int) {
    DistinctPunishments(db.punishments) && OneActiveBan(db.punishments, now) && NoneAgainstIssuer(db.punishments)
  }

  /** Waiting can only end bans. */
  lemma InvLater(db: Db, now: int, later: int)
    requires Inv(db, now) && now <= later
    ensures Inv(db, later)
  {
  }

  lemma AddedKeepsInv(db: Db, now: int, p: Punishment)
    requires Inv(db, now) && !HasPunishmentId(db.punishments, p.id) && p.issuer != Some(p.user)
    requires p.kind.Ban? && p.issuer.Some? ==> FindBan(db.punishments, p.issuer, p.user, now).None?
    ensures Inv(db.(punishments := db.punishments + [p]), now)
  {
    var ps, ps' := db.punishments, db.punishments + [p];
    forall i, j | 0 <= i < j < |ps'|
      ensures ps'[i].id != ps'[j].id
      ensures ps'[i].issuer.Some? ==>
                !(IsBan(ps'[i], ps'[i].issuer, ps'[i].user, now) && IsBan(ps'[j], ps'[i].issuer, ps'[i].user, now))
    {
      if j == |ps| {
        assert ps[i] in ps;
      }
    }
  }

  /** One punishment at place k was overturned. */
  ghost predicate OverturnedAt(ps: seq<Punishment>, ps': seq<Punishment>, k: nat) {
    k < |ps| == |ps'| && (forall i | 0 <= i < |ps| && i != k :: ps'[i] == ps[i])
    && ps'[k].id == ps[k].id && ps'[k].issuer == ps[k].issuer && ps'[k].user == ps[k].user && ps'[k].overturnedBy.Some?
  }

  lemma OverturnedPlace(ps: seq<Punishment>, p: Punishment, moderator: string) returns (k: nat)
    requires DistinctPunishments(ps) && p in ps
    ensures OverturnedAt(ps, Replace(ps, p.(overturnedBy := Some(moderator))), k)
  {
    k :| 0 <= k < |ps| && ps[k] == p;
  }

  lemma OverturnedKeepsBans(ps: seq<Punishment>, ps': seq<Punishment>, k: nat, now: int)
    requires OverturnedAt(ps, ps', k) && OneActiveBan(ps, now)
    ensures OneActiveBan(ps', now)
  {
    forall i, j | 0 <= i < j < |ps'| && ps'[i].issuer.Some?
      ensures !(IsBan(ps'[i], ps'[i].issuer, ps'[i].user, now) && IsBan(ps'[j], ps'[i].issuer, ps'[i].user, now))
    {
      if i != k && j != k {
        assert ps'[i] == ps[i] && ps'[j] == ps[j];
      }
    }
  }

  lemma OverturnedKeepsIds(ps: seq<Punishment>, ps': seq<Punishment>, k: nat)
    requires OverturnedAt(ps, ps', k) && DistinctPunishments(ps) && NoneAgainstIssuer(ps)
    ensures DistinctPunishments(ps') && NoneAgainstIssuer(ps')
  {
    forall i, j | 0 <= i < j < |ps'|
      ensures ps'[i].id != ps'[j].id
    {
      assert ps[i].id != ps[j].id;
    }
    forall q | q in ps'
      ensures q.issuer != Some(q.user)
    {
      var i :| 0 <= i < |ps'| && ps'[i] == q;
      assert ps[i] in ps;
    }
  }

  lemma OverturnedKeepsInv(db: Db, now: int, p: Punishment, moderator: string)
    requires Inv(db, now) && p in db.punishments
    ensures Inv(db.(punishments := Replace(db.punishments, p.(overturnedBy := Some(moderator)))), now)
  {
    hide OverturnedAt, DistinctPunishments, OneActiveBan, NoneAgainstIssuer, Replace;
    var ps' := Replace(db.punishments, p.(overturnedBy := Some(moderator)));
    var k := OverturnedPlace(db.punishments, p, moderator);
    OverturnedKeepsBans(db.punishments, ps', k, now);
    OverturnedKeepsIds(db.punishments, ps', k);
  }

  /** Every request keeps: ids are unique, a host has at most one active ban per user, nobody punishes himself. */
  lemma ServeKeepsInv(db: Db, now: int, later: int, req: Request)
    requires Inv(db, now) && now <= later
    ensures Inv(Serve(db, later, req).0, later)
  {
    hide Inv, FindBan, FindToken, WithoutId, WithoutUser, Replace, HasPunishmentId;
    InvLater(db, now, later);
    match req
    case BanRequest(caller, server, user, duration, id) =>
      if BanPlayer(db, later, caller, server, user, duration, id).1.Done? {
        var host := db.servers[server].hostId;
        var expiresAt := match duration case Some(d) => Some(Documents.After(later, d)) case None => None;
        AddedKeepsInv(db, later, Punishment(id, Ban, Some(host), user, expiresAt, None));
      }
    case KickRequest(caller, server, user, id) =>
      if KickPlayer(db, caller, server, user, id).1.Done? {
        AddedKeepsInv(db, later, Punishment(id, Kick, Some(db.servers[server].hostId), user, None, None));
      }
    case UnbanRequest(caller, server, user) =>
      if UnbanPlayer(db, later, caller, server, user).1.Done? {
        var found := FindBan(db.punishments, Some(db.servers[server].hostId), user, later);
        OverturnedKeepsInv(db, later, found.value, caller.id);
      }
    case GlobalBanRequest(user, expiresAt, id) =>
      if !HasPunishmentId(db.punishments, id) {
        AddedKeepsInv(db, later, Punishment(id, Ban, None, user, expiresAt, None));
      }
    case _ => SamePunishmentsKeepInv(db, Serve(db, later, req).0, later);
  }

  lemma SamePunishmentsKeepInv(db: Db, db': Db, now: int)
    requires Inv(db, now) && db'.punishments == db.punishments
    ensures Inv(db', now)
  {
  }

  /** The same for every run. */
  lemma {:induction false} RunKeepsInv(db: Db, from: int, events: seq<Event>)
    requires Inv(db, from) && Monotone(from, events)
    ensures Inv(After(db, events), LastTime(from, events))
    decreases |events|
  {
    if events != [] {
      ServeKeepsInv(db, from, events[0].now, events[0].request);
      RunKeepsInv(Serve(db, events[0].now, events[0].request).0, events[0].now, events[1..]);
    }
  }

  // ---------------------------------------------------------------- a ban keeps out until it ends

  /** The request, if it would let this user onto a server of this host, fails. */
  predicate Refused(db: Db, now: int, req: Request, host: string, user: string) {
    match req
    case CreateTokenRequest(caller, server, _, _, _) =>
      caller.id == user && server in db.servers && db.servers[server].hostId == host ==> Serve(db, now, req).1.Failed?
    case ConsumeTokenRequest(text, _) =>
      var t := FindToken(db.tokens, text);
      t.Some? && t.value.user == user && t.value.server in db.servers && db.servers[t.value.server].hostId == host
      ==> Serve(db, now, req).1.Failed?
    case _ => true
  }

  /** The request is a successful unban of this user by this host's moderators. */
  predicate Unbans(db: Db, now: int, req: Request, host: string, user: string) {
    req.UnbanRequest? && req.user == user && Serve(db, now, req).1.Done? && db.servers[req.server].hostId == host
  }

  predicate RefusedUntilUnban(db: Db, events: seq<Event>, host: string, user: string)
    decreases |events|
  {
    events == [] ||
    (Refused(db, events[0].now, events[0].request, host, user)
     && (Unbans(db, events[0].now, events[0].request, host, user)
         || RefusedUntilUnban(Serve(db, events[0].now, events[0].request).0, events[1..], host, user)))
  }

  predicate LastsThrough(p: Punishment, events: seq<Event>) {
    forall e | e in events :: p.IsActive(e.now)
  }

  lemma BanRefuses(db: Db, now: int, req: Request, host: string, user: string, p: Punishment)
    requires p in db.punishments && IsBan(p, Some(host), user, now)
    ensures Refused(db, now, req, host, user)
  {
  }

  /** Only an unban of its own host and user touches a ban. */
  lemma BanStays(db: Db, now: int, req: Request, p: Punishment, host: string, user: string)
    requires DistinctPunishments(db.punishments) && p in db.punishments && p.kind.Ban? && p.issuer == Some(host) && p.user == user
    requires !Unbans(db, now, req, host, user)
    ensures p in Serve(db, now, req).0.punishments
  {
    if req.UnbanRequest? && Serve(db, now, req).1.Done? {
      var found := FindBan(db.punishments, Some(db.servers[req.server].hostId), req.user, now).value;
      var i :| 0 <= i < |db.punishments| && db.punishments[i] == p;
      var j :| 0 <= j < |db.punishments| && db.punishments[j] == found;
      assert Replace(db.punishments, found.(overturnedBy := Some(req.caller.id)))[i] == p;
    }
  }

  lemma {:induction false} BanHolds(db: Db, from: int, events: seq<Event>, host: string, user: string, p: Punishment)
    requires Inv(db, from) && Monotone(from, events)
    requires p in db.punishments && p.kind.Ban? && p.issuer == Some(host) && p.user == user && LastsThrough(p, events)
    ensures RefusedUntilUnban(db, events, host, user)
    decreases |events|
  {
    if events != [] {
      var now, req := events[0].now, events[0].request;
      assert events[0] in events;
      BanRefuses(db, now, req, host, user, p);
      if !Unbans(db, now, req, host, user) {
        BanStays(db, now, req, p, host, user);
        ServeKeepsInv(db, from, now, req);
        assert forall e | e in events[1..] :: e in events;
        BanHolds(Serve(db, now, req).0, now, events[1..], host, user, p);
      }
    }
  }

  /** The ban that a successful request stores. */
  lemma BanStored(db: Db, now: int, caller: User, server: string, user: string, duration: Option<Uint64>, id: string) returns (p: Punishment)
    requires BanPlayer(db, now, caller, server, user, duration, id).1.Done?
    ensures server in db.servers && FindBan(db.punishments, Some(db.servers[server].hostId), user, now).None?
    ensures BanPlayer(db, now, caller, server, user, duration, id).0.punishments == db.punishments + [p]
    ensures p.kind.Ban? && p.issuer == Some(db.servers[server].hostId) && p.user == user && p.overturnedBy.None?
    ensures p.expiresAt == match duration case Some(d) => Some(Documents.After(now, d)) case None => None
  {
    hide FindBan;
    var expiresAt := match duration case Some(d) => Some(Documents.After(now, d)) case None => None;
    p := Punishment(id, Ban, Some(db.servers[server].hostId), user, expiresAt, None);
  }

  /** From a successful ban on, whatever else is requested, the user gets no token for and no entry to any server
      of that host, until the stored expiry has passed or that host's moderators lift the ban. */
  lemma BanUntilExpiry(db: Db, from: int, now: int, caller: User, server: string, user: string, duration: Option<Uint64>, id: string,
                       events: seq<Event>)
    requires Inv(db, from) && from <= now && Monotone(now, events)
    requires var r := Serve(db, now, BanRequest(caller, server, user, duration, id)); r.1.Done?
    requires forall e | e in events :: duration.Some? ==> e.now < Documents.After(now, duration.value)
    ensures RefusedUntilUnban(Serve(db, now, BanRequest(caller, server, user, duration, id)).0, events, db.servers[server].hostId, user)
  {
    hide Inv, RefusedUntilUnban, Monotone, BanPlayer;
    var req := BanRequest(caller, server, user, duration, id);
    var p := BanStored(db, now, caller, server, user, duration, id);
    ServeKeepsInv(db, from, now, req);
    BanHolds(Serve(db, now, req).0, now, events, db.servers[server].hostId, user, p);
  }

  /** A ban that is not asked for longer than can be counted lasts all the time it was asked for. */
  lemma BanSafety(db: Db, from: int, now: int, caller: User, server: string, user: string, duration: Option<Uint64>, id: string,
                  events: seq<Event>)
    requires Inv(db, from) && from <= now && Monotone(now, events)
    requires var r := Serve(db, now, BanRequest(caller, server, user, duration, id)); r.1.Done?
    requires duration.Some? ==> duration.value <= MAX_SECONDS
    requires forall e | e in events :: duration.Some? ==> e.now < now + duration.value * SECOND
    ensures RefusedUntilUnban(Serve(db, now, BanRequest(caller, server, user, duration, id)).0, events, db.servers[server].hostId, user)
  {
    hide Inv, RefusedUntilUnban, Monotone, Serve;
    if duration.Some? {
      AfterIsExact(now, duration.value);
    }
    BanUntilExpiry(db, from, now, caller, server, user, duration, id, events);
  }

  /** And only such a ban does: the lookup finds the user banned all the time asked for exactly when the duration can be
      counted in nanoseconds. */
  lemma BanLastsAsAsked(db: Db, now: int, caller: User, server: string, user: string, seconds: Uint64, id: string)
    requires BanPlayer(db, now, caller, server, user, Some(seconds), id).1.Done?
    ensures var ps := BanPlayer(db, now, caller, server, user, Some(seconds), id).0.punishments;
            (forall t | now <= t < now + seconds * SECOND :: FindBan(ps, Some(db.servers[server].hostId), user, t).Some?)
            <==> seconds <= MAX_SECONDS
  {
    hide BanPlayer, FindBan;
    var db' := BanPlayer(db, now, caller, server, user, Some(seconds), id).0;
    var p := BanStored(db, now, caller, server, user, Some(seconds), id);
    var host := db.servers[server].hostId;
    AfterIsExact(now, seconds);
    if seconds <= MAX_SECONDS {
      forall t | now <= t < now + seconds * SECOND
        ensures FindBan(db'.punishments, Some(host), user, t).Some?
      {
        BanFound(db'.punishments, Some(host), user, t, p);
      }
    } else {
      var t := if Documents.After(now, seconds) > now then Documents.After(now, seconds) else now;
      assert now <= t < now + seconds * SECOND;
      EndedBan(db.punishments, now, t, Some(host), user, p);
    }
  }

  lemma BanFound(ps: seq<Punishment>, issuer: Option<string>, user: string, t: int, p: Punishment)
    requires p in ps && IsBan(p, issuer, user, t)
    ensures FindBan(ps, issuer, user, t).Some?
  {
  }

  /** Behind the expiry of the only ban there is none. */
  lemma EndedBan(ps: seq<Punishment>, now: int, t: int, issuer: Option<string>, user: string, p: Punishment)
    requires now <= t && !p.IsActive(t) && FindBan(ps, issuer, user, now).None?
    ensures FindBan(ps + [p], issuer, user, t).None?
  {
    forall q | q in ps + [p]
      ensures !IsBan(q, issuer, user, t)
    {
      assert q in ps || q == p;
      assert q in ps ==> !IsBan(q, issuer, user, now);
    }
  }

  const HUGE: Uint64 := 10_000_000_000

  /** A ban of ten thousand million seconds, over three hundred years, is over before it begins. */
  lemma HugeBanIsOver(db: Db, now: int, caller: User, server: string, user: string, id: string, t: int)
    requires BanPlayer(db, now, caller, server, user, Some(HUGE), id).1.Done? && now <= t
    ensures FindBan(BanPlayer(db, now, caller, server, user, Some(HUGE), id).0.punishments, Some(db.servers[server].hostId), user, t).None?
  {
    hide BanPlayer, FindBan;
    var p := BanStored(db, now, caller, server, user, Some(HUGE), id);
    assert Signed(HUGE * SECOND) == 10_000_000_000_000_000_000 - WORD < 0;
    EndedBan(db.punishments, now, t, Some(db.servers[server].hostId), user, p);
  }

  // ---------------------------------------------------------------- a global ban

  /** No token of this user lets him in anywhere. */
  predicate NotAdmitted(db: Db, now: int, req: Request, user: string) {
    req.ConsumeTokenRequest? && FindToken(db.tokens, req.text).Some? && FindToken(db.tokens, req.text).value.user == user
    ==> Serve(db, now, req).1.Failed?
  }

  predicate NeverAdmitted(db: Db, events: seq<Event>, user: string)
    decreases |events|
  {
    events == [] ||
    (NotAdmitted(db, events[0].now, events[0].request, user)
     && NeverAdmitted(Serve(db, events[0].now, events[0].request).0, events[1..], user))
  }

  /** No request lifts a global ban: hosts unban only what hosts have banned. */
  lemma GlobalBanStays(db: Db, now: int, req: Request, p: Punishment)
    requires DistinctPunishments(db.punishments) && p in db.punishments && p.issuer.None?
    ensures p in Serve(db, now, req).0.punishments
  {
    if req.UnbanRequest? && Serve(db, now, req).1.Done? {
      var found := FindBan(db.punishments, Some(db.servers[req.server].hostId), req.user, now).value;
      var i :| 0 <= i < |db.punishments| && db.punishments[i] == p;
      var j :| 0 <= j < |db.punishments| && db.punishments[j] == found;
      assert Replace(db.punishments, found.(overturnedBy := Some(req.caller.id)))[i] == p;
    }
  }

  /** Whatever is requested, a globally banned user is let in nowhere until his ban runs out. */
  lemma {:induction false} GlobalBanHolds(db: Db, from: int, events: seq<Event>, user: string, p: Punishment)
    requires Inv(db, from) && Monotone(from, events)
    requires p in db.punishments && p.kind.Ban? && p.issuer.None? && p.user == user && LastsThrough(p, events)
    ensures NeverAdmitted(db, events, user)
    decreases |events|
  {
    if events != [] {
      var now, req := events[0].now, events[0].request;
      assert events[0] in events && IsBan(p, None, user, now);
      GlobalBanStays(db, now, req, p);
      ServeKeepsInv(db, from, now, req);
      assert forall e | e in events[1..] :: e in events;
      GlobalBanHolds(Serve(db, now, req).0, now, events[1..], user, p);
    }
  }

  // ---------------------------------------------------------------- which ban it is

  /** Nothing but that ban keeps the user out: the answer at any later time is whether that ban is still active. */
  lemma OnlyThatBan(db: Db, now: int, later: int, host: string, user: string, p: Punishment)
    requires Inv(db, now) && now <= later && p in db.punishments && IsBan(p, Some(host), user, now)
    ensures FindBan(db.punishments, Some(host), user, later).Some? <==> p.IsActive(later)
    ensures p.IsActive(later) ==> FindBan(db.punishments, Some(host), user, later) == Some(p)
  {
    var found := FindBan(db.punishments, Some(host), user, later);
    if found.Some? {
      var i :| 0 <= i < |db.punishments| && db.punishments[i] == p;
      var j :| 0 <= j < |db.punishments| && db.punishments[j] == found.value;
      assert IsBan(found.value, Some(host), user, now);
      assert i == j;
    }
  }

  /** One successful unban leaves no active ban of that host on that user, at any later time. */
  lemma UnbanClears(db: Db, from: int, now: int, caller: User, server: string, user: string, later: int)
    requires Inv(db, from) && from <= now <= later && UnbanPlayer(db, now, caller, server, user).1.Done?
    ensures FindBan(UnbanPlayer(db, now, caller, server, user).0.punishments, Some(db.servers[server].hostId), user, later).None?
  {
    InvLater(db, from, now);
    var host := db.servers[server].hostId;
    var p := FindBan(db.punishments, Some(host), user, now).value;
    OverturnedClears(db.punishments, p, now, later, host, user, caller.id);
  }

  lemma OverturnedClears(ps: seq<Punishment>, p: Punishment, now: int, later: int, host: string, user: string, moderator: string)
    requires DistinctPunishments(ps) && OneActiveBan(ps, now) && p in ps && IsBan(p, Some(host), user, now) && now <= later
    ensures FindBan(Replace(ps, p.(overturnedBy := Some(moderator))), Some(host), user, later).None?
  {
    hide FindBan, Replace;
    var ps' := Replace(ps, p.(overturnedBy := Some(moderator)));
    var k :| 0 <= k < |ps| && ps[k] == p;
    forall q | q in ps'
      ensures !IsBan(q, Some(host), user, later)
    {
      var j :| 0 <= j < |ps'| && ps'[j] == q;
      assert j != k ==> !IsBan(ps[j], Some(host), user, now);
    }
  }

  /** Kicks never count as bans, and a ban or unban changes the answer for its own host and user only. */
  lemma {:induction false} OthersUnaffected(db: Db, now: int, req: Request, issuer: Option<string>, user: string, t: int)
    requires DistinctPunishments(db.punishments)
    requires req.KickRequest? ||
             ((req.BanRequest? || req.UnbanRequest?) && req.server in db.servers
              && (issuer != Some(db.servers[req.server].hostId) || user != req.user))
    ensures FindBan(Serve(db, now, req).0.punishments, issuer, user, t) == FindBan(db.punishments, issuer, user, t)
  {
    var db' := Serve(db, now, req).0;
    if req.UnbanRequest? && Serve(db, now, req).1.Done? {
      var found := FindBan(db.punishments, Some(db.servers[req.server].hostId), req.user, now).value;
      ReplacedElsewhere(db.punishments, found, found.(overturnedBy := Some(req.caller.id)), issuer, user, t);
    } else if db' != db {
      AddedElsewhere(db.punishments, db'.punishments[|db.punishments|], issuer, user, t);
    }
  }

  lemma {:induction false} AddedElsewhere(ps: seq<Punishment>, p: Punishment, issuer: Option<string>, user: string, t: int)
    requires !IsBan(p, issuer, user, t)
    ensures FindBan(ps + [p], issuer, user, t) == FindBan(ps, issuer, user, t)
  {
    if ps == [] {
      assert [p][1..] == [];
      assert ps + [p] == [p];
    } else {
      assert (ps + [p])[1..] == ps[1..] + [p];
      AddedElsewhere(ps[1..], p, issuer, user, t);
    }
  }

  lemma {:induction false} ReplacedElsewhere(ps: seq<Punishment>, p: Punishment, p': Punishment, issuer: Option<string>, user: string, t: int)
    requires p'.id == p.id && !IsBan(p', issuer, user, t)
    requires forall q | q in ps && q.id == p.id :: !IsBan(q, issuer, user, t)
    ensures FindBan(Replace(ps, p'), issuer, user, t) == FindBan(ps, issuer, user, t)
  {
    if ps != [] {
      assert ps[0] in ps;
      assert forall q | q in ps[1..] :: q in ps;
      ReplacedElsewhere(ps[1..], p, p', issuer, user, t);
    }
  }

  // ---------------------------------------------------------------- tokens

  lemma {:induction false} WithoutUserHasNone(ts: seq<JoinToken>, user: string)
    ensures Admission.TokensOf(WithoutUser(ts, user), user) == []
  {
    if ts != [] {
      WithoutUserHasNone(ts[1..], user);
      var rest := WithoutUser(ts[1..], user);
      assert ([ts[0]] + rest)[1..] == rest;
      assert [] + rest == rest;
    }
  }

  lemma {:induction false} TokensOfAppend(a: seq<JoinToken>, b: seq<JoinToken>, user: string)
    ensures Admission.TokensOf(a + b, user) == Admission.TokensOf(a, user) + Admission.TokensOf(b, user)
  {
    if a == [] {
      assert a + b == b;
    } else {
      assert (a + b)[1..] == a[1..] + b;
      TokensOfAppend(a[1..], b, user);
    }
  }

  /** A new token is the only one its user holds. */
  lemma CreatedTokenIsOnlyOne(db: Db, now: int, caller: User, server: string, password: string, id: string, text: string)
    requires CreateJoinToken(db, now, caller, server, password, id, text).1.Token?
    ensures var db' := CreateJoinToken(db, now, caller, server, password, id, text).0;
            Admission.TokensOf(db'.tokens, caller.id) == [JoinToken(id, text, caller.id, db.servers[server].id)]
            && WithoutUser(db'.tokens, caller.id) == WithoutUser(db.tokens, caller.id)
  {
    hide FindBan, WithoutUser, Admission.TokensOf;
    var kept := WithoutUser(db.tokens, caller.id);
    var t := JoinToken(id, text, caller.id, db.servers[server].id);
    WithoutUserHasNone(db.tokens, caller.id);
    TokensOfAppend(kept, [t], caller.id);
    OnlyToken(t);
    WithoutUserTwice(db.tokens, caller.id, [t]);
  }

  lemma OnlyToken(t: JoinToken)
    ensures Admission.TokensOf([t], t.user) == [t]
  {
    assert [t][1..] == [];
    TokensOfFirst([t], t.user);
  }

  lemma {:induction false} WithoutUserTwice(ts: seq<JoinToken>, user: string, own: seq<JoinToken>)
    requires |own| == 1 && own[0].user == user
    ensures WithoutUser(WithoutUser(ts, user) + own, user) == WithoutUser(ts, user)
  {
    if ts == [] {
      assert WithoutUser(ts, user) + own == own && own[1..] == [];
    } else {
      WithoutUserTwice(ts[1..], user, own);
      var rest := WithoutUser(ts[1..], user);
      assert [ts[0]] + rest + own == [ts[0]] + (rest + own);
      assert ([ts[0]] + (rest + own))[1..] == rest + own;
      assert [] + rest == rest;
    }
  }

  function JoinsOf(db: Db, user: string): nat { if user in db.joins then db.joins[user] else 0 }

  /** How often a run let the user in. */
  function Admitted(db: Db, events: seq<Event>, user: string): nat
    decreases |events|
  {
    if events == [] then 0 else
    var (db', r) := Serve(db, events[0].now, events[0].request);
    (if r == Joined(user) then 1 else 0) + Admitted(db', events[1..], user)
  }

  lemma JoinStep(db: Db, now: int, req: Request, user: string)
    ensures JoinsOf(Serve(db, now, req).0, user) == JoinsOf(db, user) + if Serve(db, now, req).1 == Joined(user) then 1 else 0
  {
    hide FindBan, FindToken, WithoutId, WithoutUser, Replace;
  }

  /** The joined-servers counter of a user grows by exactly the number of times he was let in. */
  lemma {:induction false} JoinsAreCounted(db: Db, events: seq<Event>, user: string)
    ensures JoinsOf(After(db, events), user) == JoinsOf(db, user) + Admitted(db, events, user)
    decreases |events|
  {
    hide Serve, JoinsOf;
    if events != [] {
      JoinStep(db, events[0].now, events[0].request, user);
      JoinsAreCounted(Serve(db, events[0].now, events[0].request).0, events[1..], user);
    }
  }
}
