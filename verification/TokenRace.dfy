/**
 Join tokens under interleaving: any number of requests run at once, each split into its separate reads, checks
 and deletes. The one atomic operation is FindOneAndDelete.
 */
module TokenRace {
  import opened Strings
  import opened Documents
  import opened Admission

  /** Where a request stands. The text after each name says what has been done already. */
  datatype Proc =
    // ConsumeJoinToken
    | ConsumeStart(text: string, serverId: string)
    | ConsumeRead(t: JoinToken, serverId: string)                 // the token document was read
    | ConsumeUser(t: JoinToken, serverId: string)                 // its user exists
    | ConsumeGlobal(t: JoinToken, serverId: string)               // no global ban was found
    | ConsumeStale(t: JoinToken)                                // its server is gone: delete and refuse
    | ConsumeServer(t: JoinToken, host: string)                 // its server is the right one
    | ConsumeCleared(t: JoinToken)                              // no ban on that host's servers was found
    | ConsumeDeleted(t: JoinToken)                              // the document was deleted
    // CreateJoinToken
    | CreateStart(caller: User, serverId: string, password: string, id: string, text: string)
    | CreateRead(caller: User, server: Server, password: string, id: string, text: string)     // the server was read
    | CreateChecked(caller: User, server: Server, password: string, id: string, text: string)  // no ban was found
    | CreateDeleting(caller: User, server: Server, password: string, id: string, text: string, left: seq<JoinToken>)
    | CreateAllowed(token: JoinToken)                           // host, room and password were checked
    | Finished(response: Response)

  datatype World = World(db: Db, procs: map<nat, Proc>, log: seq<Deletion>, issued: set<string>)

  /** A document that a request found and deleted. The log and the ids issued so far are history, not data. */
  datatype Deletion = Deletion(pid: nat, id: string)

  datatype Action =
    | Spawn(pid: nat, proc: Proc)
    | Run(pid: nat)
    /** Everything else: punishments, users and servers may change at any moment; the tokens only by requests. */
    | Environment(users: map<string, User>, servers: map<string, Server>, punishments: seq<Punishment>)

  predicate IsStart(p: Proc) { p.ConsumeStart? || p.CreateStart? }

  /** FindOneAndDelete on the tokens, by one request: the document, if it is there, is removed in the same step. */
  function Delete(w: World, pid: nat, id: string): World {
    if HasTokenId(w.db.tokens, id) then
      w.(db := w.db.(tokens := WithoutId(w.db.tokens, id)), log := w.log + [Deletion(pid, id)])
    else w
  }

  /** One step of a request, with at most one access to the store, and where the request stands then. */
  function RunProc(w: World, pid: nat, p: Proc, now: int): (World, Proc) {
    var db := w.db;
    match p
    case ConsumeStart(text, serverId) =>
      var t := FindToken(db.tokens, text);
      (w, if t.None? then Finished(Failed(NotFound)) else ConsumeRead(t.value, serverId))
    case ConsumeRead(t, serverId) =>
      (w, if t.user in db.users then ConsumeUser(t, serverId) else Finished(Failed(Unauthenticated)))
    case ConsumeUser(t, serverId) =>
      (w, if FindBan(db.punishments, None, t.user, now).Some? then Finished(Failed(PermissionDenied)) else ConsumeGlobal(t, serverId))
    case ConsumeGlobal(t, serverId) =>
      (w, if t.server !in db.servers then ConsumeStale(t)
          else if db.servers[t.server].id != serverId then Finished(Failed(PermissionDenied))
          else ConsumeServer(t, db.servers[t.server].hostId))
    case ConsumeStale(t) =>
      (Delete(w, pid, t.id), Finished(Failed(if HasTokenId(db.tokens, t.id) then NotFound else Internal)))
    case ConsumeServer(t, host) =>
      (w, if FindBan(db.punishments, Some(host), t.user, now).Some? then Finished(Failed(PermissionDenied)) else ConsumeCleared(t))
    case ConsumeCleared(t) =>
      (Delete(w, pid, t.id), if HasTokenId(db.tokens, t.id) then ConsumeDeleted(t) else Finished(Failed(Internal)))
    case ConsumeDeleted(t) =>
      var joined := if t.user in db.joins then db.joins[t.user] else 0;
      (w.(db := db.(joins := db.joins[t.user := joined + 1])), Finished(Joined(t.user)))
    case CreateStart(caller, serverId, password, id, text) =>
      (w, if serverId !in db.servers then Finished(Failed(NotFound))
          else CreateRead(caller, db.servers[serverId], password, id, text))
    case CreateRead(caller, server, password, id, text) =>
      (w, if FindBan(db.punishments, Some(server.hostId), caller.id, now).Some? then Finished(Failed(PermissionDenied))
          else CreateChecked(caller, server, password, id, text))
    case CreateChecked(caller, server, password, id, text) =>
      (w, CreateDeleting(caller, server, password, id, text, Admission.TokensOf(db.tokens, caller.id)))
    case CreateDeleting(caller, server, password, id, text, left) =>
      if left != [] then
        (Delete(w, pid, left[0].id),
         if HasTokenId(db.tokens, left[0].id) then CreateDeleting(caller, server, password, id, text, left[1..])
         else Finished(Failed(Internal)))
      else
        (w, if server.hostId !in db.users then Finished(Failed(NotFound)) else
            var isModerator := server.CanManage(db.users[server.hostId], caller) || caller.Entitled(Admin);
            if !isModerator && server.playerCount >= server.maxPlayerCount then Finished(Failed(ResourceExhausted))
            else if server.password.Some? && !isModerator && server.password.value != password then
              Finished(Failed(PermissionDenied))
            else CreateAllowed(JoinToken(id, text, caller.id, server.id)))
    case CreateAllowed(token) =>
      if HasTokenId(db.tokens, token.id) then (w, Finished(Failed(Internal)))
      else (w.(db := db.(tokens := db.tokens + [token]), issued := w.issued + {token.id}), Finished(Token(token.token)))
    case Finished(_) => (w, p)
  }

  /** Which actions may happen next. A new document's id is one that was never used: ids are long random strings. */
  predicate Enabled(w: World, a: Action) {
    match a
    case Spawn(pid, proc) => pid !in w.procs && IsStart(proc)
    case Run(pid) => pid in w.procs && !w.procs[pid].Finished?
                     && (w.procs[pid].CreateAllowed? ==> w.procs[pid].token.id !in w.issued)
    case Environment(_, _, _) => true
  }

  function Act(w: World, a: Action, now: int): World
    requires Enabled(w, a)
  {
    match a
    case Spawn(pid, proc) => w.(procs := w.procs[pid := proc])
    case Run(pid) =>
      var (w', p) := RunProc(w, pid, w.procs[pid], now);
      w'.(procs := w'.procs[pid := p])
    case Environment(users, servers, punishments) =>
      w.(db := w.db.(users := users, servers := servers, punishments := punishments))
  }

  // ---------------------------------------------------------------- what every step keeps

  function DeletedBy(log: seq<Deletion>, pid: nat): seq<string> {
    if log == [] then [] else (if log[0].pid == pid then [log[0].id] else []) + DeletedBy(log[1..], pid)
  }

  ghost predicate DistinctLog(log: seq<Deletion>) {
    forall i, j | 0 <= i < j < |log| :: log[i].id != log[j].id
  }

  predicate Logged(log: seq<Deletion>, id: string) { exists d | d in log :: d.id == id }

  /** Each issued document is in the store or in the log, never in both, and in the log at most once. */
  ghost predicate Accounted(w: World) {
    DistinctTokens(w.db.tokens) && DistinctLog(w.log)
    && forall id :: id in w.issued <==> (HasTokenId(w.db.tokens, id) || Logged(w.log, id))
  }

  ghost predicate Exclusive(w: World) {
    forall id | Logged(w.log, id) :: !HasTokenId(w.db.tokens, id)
  }

  /** A consuming request has deleted nothing before its delete step and one document after it. */
  predicate OwnLog(p: Proc, deleted: seq<string>) {
    match p
    case ConsumeStart(_, _) => deleted == []
    case ConsumeRead(_, _) => deleted == []
    case ConsumeUser(_, _) => deleted == []
    case ConsumeGlobal(_, _) => deleted == []
    case ConsumeStale(_) => deleted == []
    case ConsumeServer(_, _) => deleted == []
    case ConsumeCleared(_) => deleted == []
    case ConsumeDeleted(t) => deleted == [t.id]
    case Finished(r) => r.Joined? ==> |deleted| == 1
    case _ => true
  }

  ghost predicate OwnLogs(w: World) {
    (forall pid | pid in w.procs :: OwnLog(w.procs[pid], DeletedBy(w.log, pid)))
    && (forall d | d in w.log :: d.pid in w.procs)
  }

  ghost predicate Inv(w: World) { Accounted(w) && Exclusive(w) && OwnLogs(w) }

  ghost predicate IsInitial(w: World) {
    DistinctTokens(w.db.tokens) && w.log == [] && w.procs == map[] && forall id :: id in w.issued <==> HasTokenId(w.db.tokens, id)
  }

  lemma {:induction false} DeletedByAppend(log: seq<Deletion>, d: Deletion, pid: nat)
    ensures DeletedBy(log + [d], pid) == DeletedBy(log, pid) + if d.pid == pid then [d.id] else []
  {
    if log == [] {
      assert log + [d] == [d] && [d][1..] == [];
      assert DeletedBy([], pid) == [];
    } else {
      var more := DeletedBy(log[1..], pid);
      assert (log + [d])[1..] == log[1..] + [d];
      DeletedByAppend(log[1..], d, pid);
      assert forall one, last: seq<string> :: one + more + last == one + (more + last);
    }
  }

  lemma {:induction false} NothingDeletedBy(log: seq<Deletion>, pid: nat)
    requires forall d | d in log :: d.pid != pid
    ensures DeletedBy(log, pid) == []
  {
    if log != [] {
      assert log[0] in log;
      assert forall d | d in log[1..] :: d in log;
      NothingDeletedBy(log[1..], pid);
    }
  }

  /** The delete step: found means gone from now on, and logged once. */
  lemma DeleteKeeps(w: World, pid: nat, id: string)
    requires Accounted(w) && Exclusive(w)
    ensures var w' := Delete(w, pid, id); Accounted(w') && Exclusive(w') && !HasTokenId(w'.db.tokens, id)
  {
    var w' := Delete(w, pid, id);
    if HasTokenId(w.db.tokens, id) {
      WithoutIdDistinct(w.db.tokens, id);
      forall x
        ensures Logged(w'.log, x) <==> Logged(w.log, x) || x == id
      {
        var d := Deletion(pid, id);
        assert d in w'.log;
        assert forall e | e in w.log :: e in w'.log;
      }
      forall x
        ensures HasTokenId(w'.db.tokens, x) <==> HasTokenId(w.db.tokens, x) && x != id
      {
        if HasTokenId(w.db.tokens, x) && x != id {
          var t :| t in w.db.tokens && t.id == x;
          assert t in w'.db.tokens;
        }
      }
      forall i, j | 0 <= i < j < |w'.log|
        ensures w'.log[i].id != w'.log[j].id
      {
        assert w.log[i] in w.log;
      }
    }
  }

  lemma InsertKeeps(w: World, t: JoinToken)
    requires Accounted(w) && Exclusive(w) && t.id !in w.issued
    ensures var w' := w.(db := w.db.(tokens := w.db.tokens + [t]), issued := w.issued + {t.id});
            Accounted(w') && Exclusive(w')
  {
    var ts := w.db.tokens + [t];
    assert t in ts;
    forall x
      ensures HasTokenId(ts, x) <==> HasTokenId(w.db.tokens, x) || x == t.id
    {
      assert forall u | u in w.db.tokens :: u in ts;
    }
    forall i, j | 0 <= i < j < |ts|
      ensures ts[i].id != ts[j].id
    {
      assert ts[i] in w.db.tokens;
      assert HasTokenId(w.db.tokens, ts[i].id);
    }
  }

  lemma RunKeepsTokens(w: World, pid: nat, p: Proc, now: int)
    requires Accounted(w) && Exclusive(w) && (p.CreateAllowed? ==> p.token.id !in w.issued)
    ensures var w' := RunProc(w, pid, p, now).0; Accounted(w') && Exclusive(w')
  {
    hide FindBan, FindToken, Admission.TokensOf, Accounted, Exclusive, Delete;
    match p
    case ConsumeStale(t) => DeleteKeeps(w, pid, t.id);
    case ConsumeCleared(t) => DeleteKeeps(w, pid, t.id);
    case ConsumeDeleted(t) => JoinsDoNotMatter(w, RunProc(w, pid, p, now).0);
    case CreateDeleting(_, _, _, _, _, left) =>
      if left != [] {
        DeleteKeeps(w, pid, left[0].id);
      }
    case CreateAllowed(token) => InsertKeeps(w, token);
    case _ =>
  }

  lemma JoinsDoNotMatter(w: World, w': World)
    requires w'.db.tokens == w.db.tokens && w'.log == w.log && w'.issued == w.issued
    ensures Accounted(w) && Exclusive(w) ==> Accounted(w') && Exclusive(w')
  {
  }

  lemma RunKeepsOwnLog(w: World, pid: nat, p: Proc, now: int)
    requires OwnLog(p, DeletedBy(w.log, pid))
    ensures var (w', p') := RunProc(w, pid, p, now); OwnLog(p', DeletedBy(w'.log, pid))
  {
    hide FindBan, FindToken, Admission.TokensOf, WithoutId, HasTokenId, DeletedBy;
    match p
    case ConsumeStale(t) => DeletedByAppend(w.log, Deletion(pid, t.id), pid);
    case ConsumeCleared(t) => DeletedByAppend(w.log, Deletion(pid, t.id), pid);
    case CreateDeleting(_, _, _, _, _, left) =>
    case _ =>
  }

  /** A request logs only in its own name. */
  lemma RunLogsOwn(w: World, pid: nat, p: Proc, now: int, other: nat)
    requires other != pid
    ensures DeletedBy(RunProc(w, pid, p, now).0.log, other) == DeletedBy(w.log, other)
    ensures forall d | d in RunProc(w, pid, p, now).0.log :: d in w.log || d.pid == pid
    ensures RunProc(w, pid, p, now).0.procs == w.procs
  {
    hide FindBan, FindToken, Admission.TokensOf, WithoutId, HasTokenId, DeletedBy;
    var log' := RunProc(w, pid, p, now).0.log;
    if log' != w.log {
      DeletedByAppend(w.log, log'[|w.log|], other);
    }
  }

  lemma RunKeepsOwnLogs(w: World, pid: nat, now: int)
    requires OwnLogs(w) && pid in w.procs
    ensures var (w', p) := RunProc(w, pid, w.procs[pid], now); OwnLogs(w'.(procs := w'.procs[pid := p]))
  {
    hide RunProc, OwnLog, DeletedBy;
    var (w', p) := RunProc(w, pid, w.procs[pid], now);
    RunKeepsOwnLog(w, pid, w.procs[pid], now);
    RunLogsOwn(w, pid, w.procs[pid], now, pid + 1);
    var procs' := w'.procs[pid := p];
    forall other | other in procs'
      ensures OwnLog(procs'[other], DeletedBy(w'.log, other))
    {
      if other != pid {
        RunLogsOwn(w, pid, w.procs[pid], now, other);
      }
    }
  }

  lemma ActKeepsInv(w: World, a: Action, now: int)
    requires Inv(w) && Enabled(w, a)
    ensures Inv(Act(w, a, now))
  {
    match a
    case Spawn(pid, proc) =>
      NothingDeletedBy(w.log, pid);
    case Run(pid) =>
      hide RunProc, Accounted, Exclusive, OwnLogs;
      RunKeepsTokens(w, pid, w.procs[pid], now);
      RunKeepsOwnLogs(w, pid, now);
      var (w', p) := RunProc(w, pid, w.procs[pid], now);
      ProcsDoNotMatter(w', w'.(procs := w'.procs[pid := p]));
    case Environment(_, _, _) =>
  }

  lemma ProcsDoNotMatter(w: World, w': World)
    requires w'.db == w.db && w'.log == w.log && w'.issued == w.issued
    ensures Accounted(w) && Exclusive(w) ==> Accounted(w') && Exclusive(w')
  {
  }

  // ---------------------------------------------------------------- every interleaving

  /** An interleaving: actions with the clock at each. */
  predicate Possible(w: World, run: seq<(Action, int)>)
    decreases |run|
  {
    run == [] || (Enabled(w, run[0].0) && Possible(Act(w, run[0].0, run[0].1), run[1..]))
  }

  function Reach(w: World, run: seq<(Action, int)>): World
    requires Possible(w, run)
    decreases |run|
  {
    if run == [] then w else Reach(Act(w, run[0].0, run[0].1), run[1..])
  }

  lemma {:induction false} ReachKeepsInv(w: World, run: seq<(Action, int)>)
    requires Inv(w) && Possible(w, run)
    ensures Inv(Reach(w, run))
    decreases |run|
  {
    if run != [] {
      ActKeepsInv(w, run[0].0, run[0].1);
      ReachKeepsInv(Act(w, run[0].0, run[0].1), run[1..]);
    }
  }

  lemma InitialInv(w: World)
    requires IsInitial(w)
    ensures Inv(w)
  {
  }

  /** The request let its user in, or is past the delete that allows it to. */
  predicate HasConsumed(w: World, pid: nat, id: string) {
    pid in w.procs && (w.procs[pid].ConsumeDeleted? || (w.procs[pid].Finished? && w.procs[pid].response.Joined?))
    && DeletedBy(w.log, pid) == [id]
  }

  lemma {:induction false} DeletedIsLogged(log: seq<Deletion>, pid: nat, id: string)
    requires id in DeletedBy(log, pid)
    ensures exists k | 0 <= k < |log| :: log[k] == Deletion(pid, id)
  {
    if log[0] != Deletion(pid, id) {
      DeletedIsLogged(log[1..], pid, id);
      var k :| 0 <= k < |log[1..]| && log[1..][k] == Deletion(pid, id);
      assert log[k + 1] == Deletion(pid, id);
    }
  }

  lemma ConsumedOnce(w: World, p: nat, q: nat, id: string)
    requires Inv(w) && HasConsumed(w, p, id) && HasConsumed(w, q, id)
    ensures p == q
  {
    DeletedIsLogged(w.log, p, id);
    DeletedIsLogged(w.log, q, id);
    var i :| 0 <= i < |w.log| && w.log[i] == Deletion(p, id);
    var j :| 0 <= j < |w.log| && w.log[j] == Deletion(q, id);
    assert i == j;
  }

  lemma ConsumedWasIssued(w: World, p: nat, id: string)
    requires Inv(w) && HasConsumed(w, p, id)
    ensures id in w.issued && !HasTokenId(w.db.tokens, id)
  {
    DeletedIsLogged(w.log, p, id);
    var k :| 0 <= k < |w.log| && w.log[k] == Deletion(p, id);
    assert w.log[k] in w.log;
    assert Logged(w.log, id);
  }

  predicate HasSucceeded(w: World, pid: nat) {
    pid in w.procs && w.procs[pid].Finished? && w.procs[pid].response.Joined?
  }

  lemma SuccessConsumed(w: World, p: nat)
    requires Inv(w) && HasSucceeded(w, p)
    ensures exists id | id in w.issued :: HasConsumed(w, p, id)
  {
    assert OwnLog(w.procs[p], DeletedBy(w.log, p));
    var id := DeletedBy(w.log, p)[0];
    assert DeletedBy(w.log, p) == [id];
    ConsumedWasIssued(w, p, id);
  }

  /** In every interleaving each document is consumed by at most one request, every request that succeeds has
      consumed exactly one document, which was issued, and no consumed document is in the store. */
  lemma TokensAreSingleUse(w0: World, run: seq<(Action, int)>, p: nat, q: nat, id: string)
    requires IsInitial(w0) && Possible(w0, run)
    ensures var w := Reach(w0, run);
            (HasConsumed(w, p, id) && HasConsumed(w, q, id) ==> p == q)
            && (HasSucceeded(w, p) ==> exists x | x in w.issued :: HasConsumed(w, p, x))
            && (HasConsumed(w, p, id) ==> id in w.issued && !HasTokenId(w.db.tokens, id))
  {
    hide Inv, Reach, HasConsumed, HasSucceeded;
    InitialInv(w0);
    ReachKeepsInv(w0, run);
    var w := Reach(w0, run);
    if HasConsumed(w, p, id) {
      ConsumedWasIssued(w, p, id);
      if HasConsumed(w, q, id) {
        ConsumedOnce(w, p, q, id);
      }
    }
    if HasSucceeded(w, p) {
      SuccessConsumed(w, p);
    }
  }

  /** Conservation: after every interleaving the documents ever issued are those stored and those deleted, apart. */
  lemma DocumentsAreConserved(w0: World, run: seq<(Action, int)>, id: string)
    requires IsInitial(w0) && Possible(w0, run)
    ensures var w := Reach(w0, run);
            (id in w.issued <==> HasTokenId(w.db.tokens, id) || Logged(w.log, id))
            && !(HasTokenId(w.db.tokens, id) && Logged(w.log, id))
  {
    InitialInv(w0);
    ReachKeepsInv(w0, run);
  }

  /** A request passes its delete step only when the document is there, and takes it away with that very step. */
  lemma DeleteStepNeedsDocument(w: World, pid: nat, now: int)
    requires Inv(w) && Enabled(w, Run(pid)) && w.procs[pid].ConsumeCleared?
    ensures var w' := Act(w, Run(pid), now);
            (w'.procs[pid].ConsumeDeleted? <==> HasTokenId(w.db.tokens, w.procs[pid].t.id))
            && !HasTokenId(w'.db.tokens, w.procs[pid].t.id)
  {
    DeleteKeeps(w, pid, w.procs[pid].t.id);
  }

  // ---------------------------------------------------------------- what a success has seen

  /** The world before step i of a run. */
  function WorldAt(w: World, run: seq<(Action, int)>, i: nat): World
    requires Possible(w, run) && i <= |run|
    decreases i
  {
    if i == 0 then w else WorldAt(Act(w, run[0].0, run[0].1), run[1..], i - 1)
  }

  lemma {:induction false} WorldNext(w: World, run: seq<(Action, int)>, i: nat)
    requires Possible(w, run) && i < |run|
    ensures Enabled(WorldAt(w, run, i), run[i].0)
    ensures WorldAt(w, run, i + 1) == Act(WorldAt(w, run, i), run[i].0, run[i].1)
    decreases i
  {
    hide Act, Enabled;
    if i > 0 {
      WorldNext(Act(w, run[0].0, run[0].1), run[1..], i - 1);
    }
  }

  lemma {:induction false} WorldAtEnd(w: World, run: seq<(Action, int)>)
    requires Possible(w, run)
    ensures WorldAt(w, run, |run|) == Reach(w, run)
    decreases |run|
  {
    hide Act, Enabled;
    if run != [] {
      WorldAtEnd(Act(w, run[0].0, run[0].1), run[1..]);
    }
  }

  /** Four steps of one run, for one token document and one host. */
  datatype Trail = Trail(t: JoinToken, host: string, global: nat, server: nat, ban: nat, delete: nat)

  /** Step i is one of request p, which stands there before it. */
  predicate Takes(w0: World, run: seq<(Action, int)>, p: nat, i: nat, at: Proc)
    requires Possible(w0, run)
  {
    i < |run| && run[i].0 == Run(p) && p in WorldAt(w0, run, i).procs && WorldAt(w0, run, i).procs[p] == at
  }

  /** A lookup of global bans on the token's user that found none. */
  predicate GlobalClear(w0: World, run: seq<(Action, int)>, p: nat, serverId: string, tr: Trail)
    requires Possible(w0, run)
  {
    Takes(w0, run, p, tr.global, ConsumeUser(tr.t, serverId))
    && FindBan(WorldAt(w0, run, tr.global).db.punishments, None, tr.t.user, run[tr.global].1).None?
  }

  /** A read of the token's server: it is the one asked for and its host is this one. */
  predicate ServerRead(w0: World, run: seq<(Action, int)>, p: nat, serverId: string, tr: Trail)
    requires Possible(w0, run)
  {
    Takes(w0, run, p, tr.server, ConsumeGlobal(tr.t, serverId))
    && (var servers := WorldAt(w0, run, tr.server).db.servers;
        tr.t.server in servers && servers[tr.t.server].id == serverId && servers[tr.t.server].hostId == tr.host)
  }

  /** A lookup of that host's bans on the token's user that found none. */
  predicate HostClear(w0: World, run: seq<(Action, int)>, p: nat, tr: Trail)
    requires Possible(w0, run)
  {
    Takes(w0, run, p, tr.ban, ConsumeServer(tr.t, tr.host))
    && FindBan(WorldAt(w0, run, tr.ban).db.punishments, Some(tr.host), tr.t.user, run[tr.ban].1).None?
  }

  /** A delete that found the document. */
  predicate DeleteFound(w0: World, run: seq<(Action, int)>, p: nat, tr: Trail)
    requires Possible(w0, run)
  {
    Takes(w0, run, p, tr.delete, ConsumeCleared(tr.t)) && HasTokenId(WorldAt(w0, run, tr.delete).db.tokens, tr.t.id)
  }

  /** What the first n steps must hold for a consuming request to stand where it does. */
  ghost predicate Follows(w0: World, run: seq<(Action, int)>, n: nat, p: nat, at: Proc, tr: Trail)
    requires Possible(w0, run)
  {
    match at
    case ConsumeGlobal(t, serverId) => tr.t == t && tr.global < n && GlobalClear(w0, run, p, serverId, tr)
    case ConsumeServer(t, host) => tr.t == t && tr.host == host && tr.server < n && HasChecked(w0, run, p, tr)
    case ConsumeCleared(t) =>
      tr.t == t && tr.server < tr.ban < n && HasChecked(w0, run, p, tr) && HostClear(w0, run, p, tr)
    case ConsumeDeleted(t) => tr.t == t && tr.delete < n && HasPassed(w0, run, p, tr)
    case Finished(r) => r.Joined? ==> r.user == tr.t.user && tr.delete < n && HasPassed(w0, run, p, tr)
    case _ => true
  }

  /** First the global bans, then the server. */
  ghost predicate HasChecked(w0: World, run: seq<(Action, int)>, p: nat, tr: Trail)
    requires Possible(w0, run)
  {
    tr.global < tr.server
    && exists serverId :: GlobalClear(w0, run, p, serverId, tr) && ServerRead(w0, run, p, serverId, tr)
  }

  /** Then the host's bans, and last the delete. */
  ghost predicate HasPassed(w0: World, run: seq<(Action, int)>, p: nat, tr: Trail)
    requires Possible(w0, run)
  {
    tr.server < tr.ban < tr.delete
    && HasChecked(w0, run, p, tr) && HostClear(w0, run, p, tr) && DeleteFound(w0, run, p, tr)
  }

  lemma GlobalStep(w0: World, run: seq<(Action, int)>, n: nat, p: nat, t: JoinToken, serverId: string, tr: Trail) returns (tr': Trail)
    requires Possible(w0, run) && Takes(w0, run, p, n, ConsumeGlobal(t, serverId))
    requires tr.t == t && tr.global < n && GlobalClear(w0, run, p, serverId, tr)
    ensures Follows(w0, run, n + 1, p, RunProc(WorldAt(w0, run, n), p, ConsumeGlobal(t, serverId), run[n].1).1, tr')
  {
    hide WorldAt, Possible, FindBan;
    var w := WorldAt(w0, run, n);
    tr' := tr;
    if t.server in w.db.servers && w.db.servers[t.server].id == serverId {
      tr' := tr.(host := w.db.servers[t.server].hostId, server := n);
      assert GlobalClear(w0, run, p, serverId, tr') && ServerRead(w0, run, p, serverId, tr');
    }
  }

  lemma ServerStep(w0: World, run: seq<(Action, int)>, n: nat, p: nat, t: JoinToken, host: string, tr: Trail) returns (tr': Trail)
    requires Possible(w0, run) && Takes(w0, run, p, n, ConsumeServer(t, host))
    requires tr.t == t && tr.host == host && tr.server < n && HasChecked(w0, run, p, tr)
    ensures Follows(w0, run, n + 1, p, RunProc(WorldAt(w0, run, n), p, ConsumeServer(t, host), run[n].1).1, tr')
  {
    hide WorldAt, Possible, FindBan, HasChecked;
    tr' := tr.(ban := n);
    SameTrail(w0, run, p, tr, tr');
  }

  lemma ClearedStep(w0: World, run: seq<(Action, int)>, n: nat, p: nat, t: JoinToken, tr: Trail) returns (tr': Trail)
    requires Possible(w0, run) && Takes(w0, run, p, n, ConsumeCleared(t))
    requires tr.t == t && tr.server < tr.ban < n && HasChecked(w0, run, p, tr) && HostClear(w0, run, p, tr)
    ensures Follows(w0, run, n + 1, p, RunProc(WorldAt(w0, run, n), p, ConsumeCleared(t), run[n].1).1, tr')
  {
    hide WorldAt, Possible, FindBan, HasTokenId, HasChecked;
    tr' := tr.(delete := n);
    SameTrail(w0, run, p, tr, tr');
  }

  /** One step of a consuming request lengthens its trail. */
  lemma StepFollows(w0: World, run: seq<(Action, int)>, n: nat, p: nat, tr: Trail) returns (tr': Trail)
    requires Possible(w0, run) && n < |run| && run[n].0 == Run(p) && p in WorldAt(w0, run, n).procs
    requires Follows(w0, run, n, p, WorldAt(w0, run, n).procs[p], tr)
    ensures Follows(w0, run, n + 1, p, RunProc(WorldAt(w0, run, n), p, WorldAt(w0, run, n).procs[p], run[n].1).1, tr')
  {
    hide WorldAt, Possible, FindBan, FindToken, HasTokenId, WithoutId, Admission.TokensOf, HasChecked, HasPassed, HostClear, ServerRead;
    var w := WorldAt(w0, run, n);
    tr' := tr;
    match w.procs[p]
    case ConsumeUser(t, serverId) =>
      tr' := tr.(t := t, global := n);
      assert Takes(w0, run, p, n, ConsumeUser(t, serverId));
    case ConsumeGlobal(t, serverId) => tr' := GlobalStep(w0, run, n, p, t, serverId, tr);
    case ConsumeServer(t, host) => tr' := ServerStep(w0, run, n, p, t, host, tr);
    case ConsumeCleared(t) => tr' := ClearedStep(w0, run, n, p, t, tr);
    case _ =>
  }

  lemma SameTrail(w0: World, run: seq<(Action, int)>, p: nat, tr: Trail, tr': Trail)
    requires Possible(w0, run) && tr'.t == tr.t && tr'.host == tr.host && tr'.global == tr.global && tr'.server == tr.server
    ensures HasChecked(w0, run, p, tr) ==> HasChecked(w0, run, p, tr')
  {
    if HasChecked(w0, run, p, tr) {
      var serverId :| GlobalClear(w0, run, p, serverId, tr) && ServerRead(w0, run, p, serverId, tr);
      assert GlobalClear(w0, run, p, serverId, tr') && ServerRead(w0, run, p, serverId, tr');
    }
  }

  lemma {:induction false} TrailAt(w0: World, run: seq<(Action, int)>, n: nat, p: nat) returns (tr: Trail)
    requires IsInitial(w0) && Possible(w0, run) && n <= |run|
    ensures p in WorldAt(w0, run, n).procs ==> Follows(w0, run, n, p, WorldAt(w0, run, n).procs[p], tr)
    decreases n
  {
    if n == 0 {
      tr := Trail(JoinToken("", "", "", ""), "", 0, 0, 0, 0);
    } else {
      hide WorldAt, Possible, RunProc, HasChecked, HasPassed, GlobalClear, HostClear;
      tr := TrailAt(w0, run, n - 1, p);
      WorldNext(w0, run, n - 1);
      var w := WorldAt(w0, run, n - 1);
      if run[n - 1].0 == Run(p) {
        tr := StepFollows(w0, run, n - 1, p, tr);
      } else {
        OthersDoNotMove(w, run[n - 1].0, run[n - 1].1, p);
      }
    }
  }

  lemma OthersDoNotMove(w: World, a: Action, now: int, p: nat)
    requires Enabled(w, a) && a != Run(p)
    ensures var procs := Act(w, a, now).procs;
            p in procs ==> IsStart(procs[p]) || (p in w.procs && procs[p] == w.procs[p])
  {
    if a.Run? {
      RunLogsOwn(w, a.pid, w.procs[a.pid], now, a.pid + 1);
    }
  }

  /** In every interleaving, a request that lets its user in has, in this order, looked up global bans and found none,
      read the token's server, looked up that host's bans and found none, and deleted the document. */
  lemma SuccessHasChecked(w0: World, run: seq<(Action, int)>, p: nat)
    requires IsInitial(w0) && Possible(w0, run) && HasSucceeded(Reach(w0, run), p)
    ensures exists tr: Trail :: Reach(w0, run).procs[p] == Finished(Joined(tr.t.user)) && HasPassed(w0, run, p, tr)
  {
    hide HasPassed, Reach, WorldAt;
    WorldAtEnd(w0, run);
    var tr := TrailAt(w0, run, |run|, p);
    assert HasPassed(w0, run, p, tr);
  }

  // ---------------------------------------------------------------- the gap between check and delete

  lemma {:induction false} OneMore(w: World, run: seq<(Action, int)>, a: Action, now: int)
    requires Possible(w, run) && Enabled(Reach(w, run), a)
    ensures var run' := run + [(a, now)]; Possible(w, run') && Reach(w, run') == Act(Reach(w, run), a, now)
    decreases |run|
  {
    hide Act, Enabled;
    var run' := run + [(a, now)];
    if run == [] {
      assert run' == [(a, now)] && run'[1..] == [];
      assert Reach(Act(w, a, now), []) == Act(w, a, now);
    } else {
      assert run'[1..] == run[1..] + [(a, now)] && run'[0] == run[0];
      OneMore(Act(w, run[0].0, run[0].1), run[1..], a, now);
    }
  }

  /** What a request that lets its user in finds on its way. */
  lemma TokenThere(db: Db, now: int, text: string, serverId: string)
    requires ConsumeJoinToken(db, now, text, serverId).1.Joined?
    ensures FindToken(db.tokens, text).Some?
    ensures var t := FindToken(db.tokens, text).value;
            HasTokenId(db.tokens, t.id) && t.user in db.users && FindBan(db.punishments, None, t.user, now).None?
            && t.server in db.servers && db.servers[t.server].id == serverId
            && FindBan(db.punishments, Some(db.servers[t.server].hostId), t.user, now).None?
  {
  }

  /** Where a consuming request stands after its start, its reads and its checks. */
  function Stage(db: Db, text: string, serverId: string, k: nat): Proc
    requires FindToken(db.tokens, text).Some? && FindToken(db.tokens, text).value.server in db.servers
  {
    var t := FindToken(db.tokens, text).value;
    if k == 0 then ConsumeStart(text, serverId) else if k == 1 then ConsumeRead(t, serverId)
    else if k == 2 then ConsumeUser(t, serverId) else if k == 3 then ConsumeGlobal(t, serverId)
    else if k == 4 then ConsumeServer(t, db.servers[t.server].hostId) else ConsumeCleared(t)
  }

  lemma StageStep(w: World, pid: nat, text: string, serverId: string, now: int, k: nat)
    requires ConsumeJoinToken(w.db, now, text, serverId).1.Joined? && k < 5
    ensures FindToken(w.db.tokens, text).Some? && FindToken(w.db.tokens, text).value.server in w.db.servers
    ensures RunProc(w, pid, Stage(w.db, text, serverId, k), now) == (w, Stage(w.db, text, serverId, k + 1))
  {
    hide FindBan, FindToken;
  }

  /** Its start and its first k steps. */
  function FirstSteps(pid: nat, text: string, serverId: string, now: int, k: nat): seq<(Action, int)> {
    if k == 0 then [(Spawn(pid, ConsumeStart(text, serverId)), now)]
    else FirstSteps(pid, text, serverId, now, k - 1) + [(Run(pid), now)]
  }

  lemma {:induction false} ReachesStage(w0: World, pid: nat, text: string, serverId: string, now: int, k: nat)
    requires IsInitial(w0) && ConsumeJoinToken(w0.db, now, text, serverId).1.Joined? && k <= 5
    ensures FindToken(w0.db.tokens, text).Some? && FindToken(w0.db.tokens, text).value.server in w0.db.servers
    ensures var run := FirstSteps(pid, text, serverId, now, k);
            Possible(w0, run) && pid in Reach(w0, run).procs && Reach(w0, run).db == w0.db
            && Reach(w0, run).procs[pid] == Stage(w0.db, text, serverId, k)
    decreases k
  {
    hide Possible, Reach, RunProc, ConsumeJoinToken, IsInitial;
    TokenThere(w0.db, now, text, serverId);
    if k == 0 {
      Nobody(w0, pid);
      OneMore(w0, [], Spawn(pid, ConsumeStart(text, serverId)), now);
      assert [] + FirstSteps(pid, text, serverId, now, 0) == FirstSteps(pid, text, serverId, now, 0);
    } else {
      ReachesStage(w0, pid, text, serverId, now, k - 1);
      var run := FirstSteps(pid, text, serverId, now, k - 1);
      StageStep(Reach(w0, run), pid, text, serverId, now, k - 1);
      OneMore(w0, run, Run(pid), now);
    }
  }

  lemma Nobody(w: World, pid: nat)
    requires IsInitial(w)
    ensures Possible(w, []) && Reach(w, []) == w && pid !in w.procs
  {
  }

  /** Wherever a request served alone would let its user in, there is a run in which it does so although any bans at all
      are stored before its delete step. The ban safety of one request at a time does not hold for overlapping ones. */
  lemma LateBanDoesNotStop(w0: World, pid: nat, text: string, serverId: string, now: int, bans: seq<Punishment>)
    requires IsInitial(w0) && ConsumeJoinToken(w0.db, now, text, serverId).1.Joined?
    ensures var run := FirstSteps(pid, text, serverId, now, 5)
                       + [(Environment(w0.db.users, w0.db.servers, bans), now)] + [(Run(pid), now)] + [(Run(pid), now)];
            Possible(w0, run) && HasSucceeded(Reach(w0, run), pid) && Reach(w0, run).db.punishments == bans
  {
    hide Possible, Reach, WithoutId, FindBan, ConsumeJoinToken, FirstSteps;
    TokenThere(w0.db, now, text, serverId);
    ReachesStage(w0, pid, text, serverId, now, 5);
    var r6 := FirstSteps(pid, text, serverId, now, 5);
    OneMore(w0, r6, Environment(w0.db.users, w0.db.servers, bans), now);
    var r7 := r6 + [(Environment(w0.db.users, w0.db.servers, bans), now)];
    OneMore(w0, r7, Run(pid), now);
    var r8 := r7 + [(Run(pid), now)];
    OneMore(w0, r8, Run(pid), now);
  }

  const Guest := JoinToken("id", "token", "guest", "server")

  /** Such a world: one user with one token for one server, and no bans. */
  const Before := World(
    Db(map["guest" := User("guest", [], [])], map["server" := Server("server", "host", false, None, 0, 8)], [Guest], [], map[]),
    map[], [], {"id"})

  const LateBan := Punishment("ban", Ban, Some("host"), "guest", None, None)

  /** In it the host's ban is in force when the guest is let in, and alone the same request would be refused. */
  lemma LateBanExample()
    ensures IsInitial(Before) && ConsumeJoinToken(Before.db, 0, "token", "server").1 == Joined("guest")
    ensures ConsumeJoinToken(Before.db.(punishments := [LateBan]), 0, "token", "server").1 == Failed(PermissionDenied)
  {
    var ts := Before.db.tokens;
    assert ts[0] == Guest && Guest in ts;
    assert FindToken(ts, "token") == Some(Guest);
    assert FindBan([LateBan], Some("host"), "guest", 0) == Some(LateBan);
    assert [LateBan][1..] == [];
    assert FindBan([LateBan], None, "guest", 0) == FindBan([], None, "guest", 0) == None;
  }
}
