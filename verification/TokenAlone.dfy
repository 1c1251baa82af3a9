/** A request that runs alone, step by step, does what the request served at once does. */
module TokenAlone {
  import opened Strings
  import opened Documents
  import opened Admission
  import opened TokenRace

  /** The first n steps of one request with nothing in between. */
  function Alone(w: World, pid: nat, p: Proc, now: int, n: nat): (World, Proc)
    decreases n
  {
    if n == 0 then (w, p) else
    var (w', p') := RunProc(w, pid, p, now);
    Alone(w', pid, p', now, n - 1)
  }

  lemma OneStepAlone(w: World, pid: nat, p: Proc, now: int, n: nat)
    requires n > 0
    ensures Alone(w, pid, p, now, n) == Alone(RunProc(w, pid, p, now).0, pid, RunProc(w, pid, p, now).1, now, n - 1)
  {
    hide RunProc;
  }

  lemma {:induction false} DoneAlone(w: World, pid: nat, r: Response, now: int, n: nat)
    ensures Alone(w, pid, Finished(r), now, n) == (w, Finished(r))
    decreases n
  {
    if n > 0 {
      DoneAlone(w, pid, r, now, n - 1);
    }
  }

  // ---------------------------------------------------------------- consuming

  /** From the point where the user is known. */
  lemma RestOfConsume(w: World, pid: nat, t: JoinToken, serverId: string, now: int)
    requires HasTokenId(w.db.tokens, t.id) && t.user in w.db.users
    requires FindBan(w.db.punishments, None, t.user, now).None?
    ensures var (w', p) := Alone(w, pid, ConsumeGlobal(t, serverId), now, 4);
            p.Finished? && (w'.db, p.response) ==
            if t.server !in w.db.servers then (w.db.(tokens := WithoutId(w.db.tokens, t.id)), Failed(NotFound))
            else if w.db.servers[t.server].id != serverId then (w.db, Failed(PermissionDenied))
            else if FindBan(w.db.punishments, Some(w.db.servers[t.server].hostId), t.user, now).Some? then
              (w.db, Failed(PermissionDenied))
            else
              (w.db.(tokens := WithoutId(w.db.tokens, t.id),
                     joins := w.db.joins[t.user := (if t.user in w.db.joins then w.db.joins[t.user] else 0) + 1]),
               Joined(t.user))
  {
    hide Alone, FindBan, HasTokenId, WithoutId;
    var p := ConsumeGlobal(t, serverId);
    OneStepAlone(w, pid, p, now, 4);
    var p1 := RunProc(w, pid, p, now).1;
    if t.server !in w.db.servers {
      OneStepAlone(w, pid, p1, now, 3);
      DoneAlone(Delete(w, pid, t.id), pid, Failed(NotFound), now, 2);
    } else if w.db.servers[t.server].id != serverId {
      DoneAlone(w, pid, Failed(PermissionDenied), now, 3);
    } else {
      OneStepAlone(w, pid, p1, now, 3);
      if FindBan(w.db.punishments, Some(w.db.servers[t.server].hostId), t.user, now).Some? {
        DoneAlone(w, pid, Failed(PermissionDenied), now, 2);
      } else {
        OneStepAlone(w, pid, ConsumeCleared(t), now, 2);
        OneStepAlone(Delete(w, pid, t.id), pid, ConsumeDeleted(t), now, 1);
        NoStepAlone(RunProc(Delete(w, pid, t.id), pid, ConsumeDeleted(t), now).0, pid, Finished(Joined(t.user)), now);
      }
    }
  }

  lemma NoStepAlone(w: World, pid: nat, p: Proc, now: int)
    ensures Alone(w, pid, p, now, 0) == (w, p)
  {
  }

  /** Seven steps with nothing in between are the whole request. */
  lemma ConsumeAlone(w: World, pid: nat, text: string, serverId: string, now: int)
    ensures var (w', p) := Alone(w, pid, ConsumeStart(text, serverId), now, 7);
            p.Finished? && (w'.db, p.response) == ConsumeJoinToken(w.db, now, text, serverId)
  {
    hide Alone, FindBan, FindToken, WithoutId;
    var p := ConsumeStart(text, serverId);
    OneStepAlone(w, pid, p, now, 7);
    var found := FindToken(w.db.tokens, text);
    if found.None? {
      DoneAlone(w, pid, Failed(NotFound), now, 6);
    } else {
      var t := found.value;
      OneStepAlone(w, pid, ConsumeRead(t, serverId), now, 6);
      if t.user !in w.db.users {
        DoneAlone(w, pid, Failed(Unauthenticated), now, 5);
      } else {
        OneStepAlone(w, pid, ConsumeUser(t, serverId), now, 5);
        if FindBan(w.db.punishments, None, t.user, now).Some? {
          DoneAlone(w, pid, Failed(PermissionDenied), now, 4);
        } else {
          RestOfConsume(w, pid, t, serverId, now);
        }
      }
    }
  }

  // ---------------------------------------------------------------- creating

  /** The loop over the caller's old tokens. */
  lemma {:induction false} DeletesAlone(w: World, pid: nat, p: Proc, now: int, ts: seq<JoinToken>, existing: seq<JoinToken>, i: nat, n: nat)
    requires p.CreateDeleting? && i <= |existing| && p.left == existing[i..] && w.db.tokens == WithoutIds(ts, existing[..i])
    requires DistinctTokens(existing) && forall e | e in existing :: e in ts
    ensures exists w': World ::
              w'.db == w.db.(tokens := WithoutIds(ts, existing)) && w'.issued == w.issued
              && Alone(w, pid, p, now, |existing| - i + n) == Alone(w', pid, p.(left := []), now, n)
    decreases |existing| - i
  {
    hide WithoutIds, HasTokenId, WithoutId, DistinctTokens;
    if i == |existing| {
      assert existing[..i] == existing && p.left == [];
      assert w.db == w.db.(tokens := WithoutIds(ts, existing));
    } else {
      StillThere(ts, existing, i);
      WithoutIdsNext(ts, existing, i);
      OneStepAlone(w, pid, p, now, |existing| - i + n);
      var (w1, p1) := RunProc(w, pid, p, now);
      assert p1 == p.(left := existing[i + 1..]);
      DeletesAlone(w1, pid, p1, now, ts, existing, i + 1, n);
    }
  }

  /** Five steps, one more for each old token, are the whole request. */
  lemma CreateAlone(w: World, pid: nat, caller: User, serverId: string, password: string, id: string, text: string, now: int)
    requires DistinctTokens(w.db.tokens)
    ensures var (w', p) := Alone(w, pid, CreateStart(caller, serverId, password, id, text), now,
                                 5 + |Admission.TokensOf(w.db.tokens, caller.id)|);
            p.Finished? && (w'.db, p.response) == CreateJoinToken(w.db, now, caller, serverId, password, id, text)
  {
    hide Alone, FindBan, WithoutUser, Admission.TokensOf, HasTokenId, WithoutIds, DistinctTokens;
    var ts := w.db.tokens;
    var existing := Admission.TokensOf(ts, caller.id);
    var n := |existing|;
    OneStepAlone(w, pid, CreateStart(caller, serverId, password, id, text), now, 5 + n);
    if serverId !in w.db.servers {
      DoneAlone(w, pid, Failed(NotFound), now, 4 + n);
    } else {
      var server := w.db.servers[serverId];
      OneStepAlone(w, pid, CreateRead(caller, server, password, id, text), now, 4 + n);
      if FindBan(w.db.punishments, Some(server.hostId), caller.id, now).Some? {
        DoneAlone(w, pid, Failed(PermissionDenied), now, 3 + n);
      } else {
        OneStepAlone(w, pid, CreateChecked(caller, server, password, id, text), now, 3 + n);
        var p := CreateDeleting(caller, server, password, id, text, existing);
        TokensOfDistinct(ts, caller.id);
        WithoutIdsStart(ts);
        assert existing[..0] == [] && existing[0..] == existing;
        DeletesAlone(w, pid, p, now, ts, existing, 0, 2);
        WithoutIdsAll(ts, caller.id);
        var w1: World :| w1.db == w.db.(tokens := WithoutIds(ts, existing)) && w1.issued == w.issued
                         && Alone(w, pid, p, now, n + 2) == Alone(w1, pid, p.(left := []), now, 2);
        RestOfCreate(w1, pid, caller, server, password, id, text, now);
      }
    }
  }

  /** The checks that come last. */
  lemma RestOfCreate(w: World, pid: nat, caller: User, server: Server, password: string, id: string, text: string, now: int)
    ensures var (w', p) := Alone(w, pid, CreateDeleting(caller, server, password, id, text, []), now, 2);
            p.Finished? && (w'.db, p.response) ==
            if server.hostId !in w.db.users then (w.db, Failed(NotFound)) else
            var isModerator := server.CanManage(w.db.users[server.hostId], caller) || caller.Entitled(Admin);
            if !isModerator && server.playerCount >= server.maxPlayerCount then (w.db, Failed(ResourceExhausted))
            else if server.password.Some? && !isModerator && server.password.value != password then (w.db, Failed(PermissionDenied))
            else if HasTokenId(w.db.tokens, id) then (w.db, Failed(Internal))
            else (w.db.(tokens := w.db.tokens + [JoinToken(id, text, caller.id, server.id)]), Token(text))
  {
    hide Alone, HasTokenId;
    var p := CreateDeleting(caller, server, password, id, text, []);
    OneStepAlone(w, pid, p, now, 2);
    var p1 := RunProc(w, pid, p, now).1;
    if p1.Finished? {
      DoneAlone(w, pid, p1.response, now, 1);
    } else {
      OneStepAlone(w, pid, p1, now, 1);
      NoStepAlone(RunProc(w, pid, p1, now).0, pid, RunProc(w, pid, p1, now).1, now);
    }
  }

  // ---------------------------------------------------------------- as a run

  lemma OthersDoNotMatter(w: World, procs: map<nat, Proc>, pid: nat, p: Proc, now: int)
    ensures var (w', p') := RunProc(w, pid, p, now); RunProc(w.(procs := procs), pid, p, now) == (w'.(procs := procs), p')
  {
    hide FindBan, FindToken, HasTokenId, WithoutId, Admission.TokensOf;
  }

  lemma {:induction false} LastStepAlone(w: World, pid: nat, p: Proc, now: int, n: nat)
    ensures var (w', p') := Alone(w, pid, p, now, n); Alone(w, pid, p, now, n + 1) == RunProc(w', pid, p', now)
    decreases n
  {
    hide RunProc;
    OneStepAlone(w, pid, p, now, n + 1);
    if n == 0 {
      NoStepAlone(RunProc(w, pid, p, now).0, pid, RunProc(w, pid, p, now).1, now);
    } else {
      LastStepAlone(RunProc(w, pid, p, now).0, pid, RunProc(w, pid, p, now).1, now, n - 1);
    }
  }

  /** Only these two actions: the request's start and its own steps. */
  predicate OwnSteps(run: seq<(Action, int)>, pid: nat, start: Proc, now: int) {
    run != [] && run[0] == (Spawn(pid, start), now) && forall i | 1 <= i < |run| :: run[i] == (Run(pid), now)
  }

  /** The new document's id is the one the request was made with, and nothing has been issued before it is stored. */
  predicate SameId(w: World, p: Proc, issued: set<string>, id: string) {
    match p
    case CreateStart(_, _, _, i, _) => i == id && w.issued == issued
    case CreateRead(_, _, _, i, _) => i == id && w.issued == issued
    case CreateChecked(_, _, _, i, _) => i == id && w.issued == issued
    case CreateDeleting(_, _, _, i, _, _) => i == id && w.issued == issued
    case CreateAllowed(token) => token.id == id && w.issued == issued
    case _ => true
  }

  lemma StepKeepsId(w: World, pid: nat, p: Proc, now: int, issued: set<string>, id: string)
    requires SameId(w, p, issued, id)
    ensures SameId(RunProc(w, pid, p, now).0, RunProc(w, pid, p, now).1, issued, id)
  {
    hide FindBan, FindToken, HasTokenId, WithoutId, Admission.TokensOf;
  }

  /** Any number of its steps is a possible run, unless it is done before. */
  lemma {:induction false} AloneIsRun(w0: World, pid: nat, start: Proc, now: int, n: nat, id: string) returns (run: seq<(Action, int)>)
    requires IsStart(start) && pid !in w0.procs && (start.CreateStart? ==> start.id == id) && id !in w0.issued
    ensures Possible(w0, run) && OwnSteps(run, pid, start, now)
    ensures var (w, p) := Alone(w0, pid, start, now, n); Reach(w0, run) == w.(procs := w0.procs[pid := p]) && SameId(w, p, w0.issued, id)
    decreases n
  {
    hide RunProc, Alone;
    if n == 0 {
      Nothing(w0);
      OneMore(w0, [], Spawn(pid, start), now);
      run := [] + [(Spawn(pid, start), now)];
      NoStepAlone(w0, pid, start, now);
    } else {
      hide Possible, Reach, SameId;
      run := AloneIsRun(w0, pid, start, now, n - 1, id);
      var (w, p) := Alone(w0, pid, start, now, n - 1);
      LastStepAlone(w0, pid, start, now, n - 1);
      StepKeepsId(w, pid, p, now, w0.issued, id);
      if p.Finished? {
        DoneAlone(w, pid, p.response, now, 1);
        OneStepAlone(w, pid, p, now, 1);
        NoStepAlone(RunProc(w, pid, p, now).0, pid, RunProc(w, pid, p, now).1, now);
      } else {
        IdIsNew(w, p, w0.issued, id);
        OneMore(w0, run, Run(pid), now);
        OthersDoNotMatter(w, w0.procs[pid := p], pid, p, now);
        run := run + [(Run(pid), now)];
        RunKeepsProcs(w, pid, p, now);
      }
    }
  }

  lemma IdIsNew(w: World, p: Proc, issued: set<string>, id: string)
    requires SameId(w, p, issued, id) && id !in issued
    ensures p.CreateAllowed? ==> p.token.id !in w.issued
  {
  }

  lemma RunKeepsProcs(w: World, pid: nat, p: Proc, now: int)
    ensures RunProc(w, pid, p, now).0.procs == w.procs
  {
    hide FindBan, FindToken, HasTokenId, WithoutId, Admission.TokensOf;
  }

  lemma Nothing(w: World)
    ensures Possible(w, []) && Reach(w, []) == w
  {
  }

  /** From every world, a request that takes its steps one after the other ends with the answer and the store of the same
      request served at once. */
  lemma AloneIsAtOnce(w0: World, pid: nat, start: Proc, now: int, id: string) returns (run: seq<(Action, int)>)
    requires IsStart(start) && pid !in w0.procs && (start.CreateStart? ==> start.id == id) && id !in w0.issued
    requires DistinctTokens(w0.db.tokens)
    ensures Possible(w0, run) && OwnSteps(run, pid, start, now)
    ensures var w := Reach(w0, run);
            pid in w.procs && w.procs[pid].Finished?
            && (w.db, w.procs[pid].response) ==
               if start.ConsumeStart? then ConsumeJoinToken(w0.db, now, start.text, start.serverId)
               else CreateJoinToken(w0.db, now, start.caller, start.serverId, start.password, id, start.text)
  {
    hide Possible, Reach, Alone, ConsumeJoinToken, CreateJoinToken, Admission.TokensOf, DistinctTokens;
    match start
    case ConsumeStart(text, serverId) =>
      ConsumeAlone(w0, pid, text, serverId, now);
      run := AloneIsRun(w0, pid, start, now, 7, id);
    case CreateStart(caller, serverId, password, _, text) =>
      CreateAlone(w0, pid, caller, serverId, password, id, text, now);
      run := AloneIsRun(w0, pid, start, now, 5 + |Admission.TokensOf(w0.db.tokens, caller.id)|, id);
  }
}
