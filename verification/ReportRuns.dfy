/** Report quotas and the one way in which a closed report comes back. */
module ReportRuns {
  import opened Strings
  import opened Reports

  datatype Request =
    | CreateRequest(caller: Caller, player: string, reason: int, linksValid: bool, id: string, published: bool)
    | RejectRequest(caller: Caller, id: string)
    | StatusRequest(caller: Caller, id: string, code: int, note: string)
    | ApproveRequest(caller: Caller, player: string, banId: string, kicked: bool)

  function Serve(db: Db, now: int, req: Request): (Db, Response) {
    match req
    case CreateRequest(caller, player, reason, linksValid, id, published) =>
      CreateReport(db, caller, player, reason, linksValid, id, now, published)
    case RejectRequest(caller, id) => RejectReport(db, caller, id, now)
    case StatusRequest(caller, id, code, note) => UpdateStatus(db, caller, id, code, note, now)
    case ApproveRequest(caller, player, banId, kicked) => ApproveReports(db, caller, player, banId, now, kicked)
  }

  // ---------------------------------------------------------------- ids

  ghost predicate DistinctIds(rs: seq<Report>) {
    forall i, j | 0 <= i < j < |rs| :: rs[i].id != rs[j].id
  }

  /** The same reports in the same places, apart from status, notes, moderator and time. */
  predicate SameReports(rs: seq<Report>, rs': seq<Report>) {
    |rs| <= |rs'| && forall i | 0 <= i < |rs| ::
                       rs'[i].id == rs[i].id && rs'[i].reporter == rs[i].reporter && rs'[i].player == rs[i].player
  }

  lemma ServeKeepsReports(db: Db, now: int, req: Request)
    requires DistinctIds(db.reports)
    ensures SameReports(db.reports, Serve(db, now, req).0.reports) && DistinctIds(Serve(db, now, req).0.reports)
  {
    hide CloseAbout, ResolveIds, Reject, SetStatus, DistinctIds, SameReports, Ids, NewBy, NewAbout, CountAbout;
    var rs, rs' := db.reports, Serve(db, now, req).0.reports;
    match req
    case CreateRequest(_, _, _, _, _, _) => AppendKeepsReports(rs, rs');
    case RejectRequest(caller, id) => RejectSame(rs, id, caller.id, now);
                                      UnchangedSame(rs);
    case StatusRequest(caller, id, code, note) =>
      UnchangedSame(rs);
      if Serve(db, now, req).1.Done? {
        var r := Find(rs, id).value;
        var closed := if code == RESOLVED || code == REJECTED then CloseAbout(rs, r.player, StatusFromProto(code), caller.id, now) else rs;
        CloseAboutSame(rs, r.player, StatusFromProto(code), caller.id, now);
        SetStatusSame(closed, id, StatusFromProto(code), r.notes + if note != "" then [note] else [], now);
        SameTwice(rs, closed, rs');
      }
    case ApproveRequest(caller, player, _, _) => ResolveIdsSame(rs, Ids(NewAbout(rs, player)), caller.id, now);
                                                 UnchangedSame(rs);
  }

  lemma UnchangedSame(rs: seq<Report>)
    requires DistinctIds(rs)
    ensures SameReports(rs, rs)
  {
  }

  lemma SameTwice(rs: seq<Report>, rs1: seq<Report>, rs2: seq<Report>)
    requires SameReports(rs, rs1) && SameReports(rs1, rs2)
    ensures SameReports(rs, rs2)
  {
  }

  lemma RejectSame(rs: seq<Report>, id: string, moderator: string, now: int)
    requires DistinctIds(rs)
    ensures SameReports(rs, Reject(rs, id, moderator, now)) && DistinctIds(Reject(rs, id, moderator, now))
  {
    UpdateKeepsReports(rs, Reject(rs, id, moderator, now));
  }

  lemma CloseAboutSame(rs: seq<Report>, player: string, status: Status, moderator: string, now: int)
    requires DistinctIds(rs)
    ensures var rs' := CloseAbout(rs, player, status, moderator, now); SameReports(rs, rs') && DistinctIds(rs')
  {
    UpdateKeepsReports(rs, CloseAbout(rs, player, status, moderator, now));
  }

  lemma SetStatusSame(rs: seq<Report>, id: string, status: Status, notes: seq<string>, now: int)
    requires DistinctIds(rs)
    ensures SameReports(rs, SetStatus(rs, id, status, notes, now)) && DistinctIds(SetStatus(rs, id, status, notes, now))
  {
    UpdateKeepsReports(rs, SetStatus(rs, id, status, notes, now));
  }

  lemma ResolveIdsSame(rs: seq<Report>, ids: seq<string>, moderator: string, now: int)
    requires DistinctIds(rs)
    ensures SameReports(rs, ResolveIds(rs, ids, moderator, now)) && DistinctIds(ResolveIds(rs, ids, moderator, now))
  {
    UpdateKeepsReports(rs, ResolveIds(rs, ids, moderator, now));
  }

  lemma AppendKeepsReports(rs: seq<Report>, rs': seq<Report>)
    requires DistinctIds(rs)
    requires rs' == rs || (|rs'| == |rs| + 1 && rs' == rs + [rs'[|rs|]] && Find(rs, rs'[|rs|].id).None?)
    ensures SameReports(rs, rs') && DistinctIds(rs')
  {
    forall i, j | 0 <= i < j < |rs'|
      ensures rs'[i].id != rs'[j].id
    {
      if j == |rs| {
        assert rs[i] in rs;
      }
    }
  }

  lemma UpdateKeepsReports(rs: seq<Report>, rs': seq<Report>)
    requires DistinctIds(rs) && SameReports(rs, rs') && |rs'| == |rs|
    ensures DistinctIds(rs')
  {
    forall i, j | 0 <= i < j < |rs'|
      ensures rs'[i].id != rs'[j].id
    {
      assert rs[i].id != rs[j].id;
    }
  }

  // ---------------------------------------------------------------- no report comes back

  /** No closed report is NEW afterwards. */
  predicate OnlyCloses(rs: seq<Report>, rs': seq<Report>) {
    |rs| <= |rs'| && forall i | 0 <= i < |rs| :: rs'[i].status.New? ==> rs[i].status.New?
  }

  /** The call that brings a closed report back: a status change by staff to a wire value other than the three that
      are handled. IN_PROGRESS is such a value. */
  predicate Reopens(db: Db, req: Request) {
    req.StatusRequest? && req.caller.isStaff && req.id != ""
    && req.code != NEW && req.code != RESOLVED && req.code != REJECTED
    && Find(db.reports, req.id).Some? && !Find(db.reports, req.id).value.status.New?
  }

  lemma FoundAt(rs: seq<Report>, id: string, i: nat)
    requires DistinctIds(rs) && i < |rs| && rs[i].id == id
    ensures Find(rs, id) == Some(rs[i])
  {
    var r := Find(rs, id);
    assert rs[i] in rs;
    var j :| 0 <= j < |rs| && rs[j] == r.value;
    assert i == j;
  }

  lemma StatusOnlyCloses(db: Db, now: int, req: Request)
    requires DistinctIds(db.reports) && req.StatusRequest?
    ensures OnlyCloses(db.reports, Serve(db, now, req).0.reports) <==> !Reopens(db, req)
  {
    var rs, rs' := db.reports, Serve(db, now, req).0.reports;
    if Reopens(db, req) {
      var r := Find(rs, req.id).value;
      var i :| 0 <= i < |rs| && rs[i] == r;
      assert rs'[i].status.New? && !rs[i].status.New?;
    } else {
      forall i | 0 <= i < |rs| && rs'[i].status.New?
        ensures rs[i].status.New?
      {
        if rs[i].id == req.id {
          FoundAt(rs, req.id, i);
        }
      }
    }
  }

  /** A request turns a closed report NEW again exactly when it is such a status change; every other request, of any
      kind and with any arguments, only closes. */
  lemma ClosedStaysClosedUnlessReopened(db: Db, now: int, req: Request)
    requires DistinctIds(db.reports)
    ensures OnlyCloses(db.reports, Serve(db, now, req).0.reports) <==> !Reopens(db, req)
  {
    if req.StatusRequest? {
      StatusOnlyCloses(db, now, req);
    }
  }

  // ---------------------------------------------------------------- quotas

  function NewByAbout(rs: seq<Report>, reporter: string, player: string): nat { CountAbout(NewBy(rs, reporter), player) }

  /** Each reporter has at most six NEW reports, and at most two about one player. */
  ghost predicate Quotas(rs: seq<Report>) {
    forall reporter, player {:trigger NewByAbout(rs, reporter, player)} ::
      |NewBy(rs, reporter)| <= 6 && NewByAbout(rs, reporter, player) <= 2
  }

  lemma {:induction false} NewByAppend(rs: seq<Report>, r: Report, reporter: string)
    ensures NewBy(rs + [r], reporter) == NewBy(rs, reporter) + if r.reporter == reporter && r.status.New? then [r] else []
  {
    if rs == [] {
      assert rs + [r] == [r] && [r][1..] == [];
    } else {
      assert (rs + [r])[1..] == rs[1..] + [r];
      NewByAppend(rs[1..], r, reporter);
    }
  }

  lemma {:induction false} CountAppend(rs: seq<Report>, r: Report, player: string)
    ensures CountAbout(rs + [r], player) == CountAbout(rs, player) + if r.player == player then 1 else 0
  {
    if rs == [] {
      assert rs + [r] == [r] && [r][1..] == [];
    } else {
      assert (rs + [r])[1..] == rs[1..] + [r];
      CountAppend(rs[1..], r, player);
    }
  }

  lemma {:induction false} ClosingShrinks(rs: seq<Report>, rs': seq<Report>, reporter: string, player: string)
    requires SameReports(rs, rs') && OnlyCloses(rs, rs') && |rs| == |rs'|
    ensures |NewBy(rs', reporter)| <= |NewBy(rs, reporter)|
    ensures NewByAbout(rs', reporter, player) <= NewByAbout(rs, reporter, player)
  {
    if rs != [] {
      ClosingShrinks(rs[1..], rs'[1..], reporter, player);
      assert rs'[0].status.New? ==> rs[0].status.New?;
      NewByFirst(rs, reporter, player);
      NewByFirst(rs', reporter, player);
    }
  }

  lemma NewByFirst(rs: seq<Report>, reporter: string, player: string)
    requires rs != []
    ensures var one := if rs[0].reporter == reporter && rs[0].status.New? then 1 else 0;
            |NewBy(rs, reporter)| == one + |NewBy(rs[1..], reporter)|
            && NewByAbout(rs, reporter, player) == (if rs[0].player == player then one else 0) + NewByAbout(rs[1..], reporter, player)
  {
    var more := NewBy(rs[1..], reporter);
    assert ([rs[0]] + more)[1..] == more;
    assert [] + more == more;
  }

  /** The counts that a new report is checked against leave room for the report with this id. */
  predicate HasRoom(db: Db, id: string) {
    var r := Find(db.reports, id);
    r.Some? && |NewBy(db.reports, r.value.reporter)| < 6 && NewByAbout(db.reports, r.value.reporter, r.value.player) < 2
  }

  /** Every request keeps the quotas, but for a status change that reopens a report: that one keeps them exactly when
      the check made on new reports would have let the report through. */
  lemma ServeKeepsQuotas(db: Db, now: int, req: Request)
    requires DistinctIds(db.reports) && Quotas(db.reports)
    ensures Quotas(Serve(db, now, req).0.reports) <==> (Reopens(db, req) ==> HasRoom(db, req.id))
  {
    hide Quotas, NewBy, CountAbout, HasRoom;
    var rs, rs' := db.reports, Serve(db, now, req).0.reports;
    if Reopens(db, req) {
      ReopeningKeepsQuotas(db, now, req);
    } else {
      ServeKeepsReports(db, now, req);
      ClosedStaysClosedUnlessReopened(db, now, req);
      if |rs'| == |rs| {
        ClosingKeepsQuotas(rs, rs');
      } else {
        CreatingKeepsQuotas(rs, rs'[|rs|]);
        assert rs' == rs + [rs'[|rs|]];
      }
    }
  }

  /** One closed report becomes NEW and nothing else changes. */
  predicate OneReopened(rs: seq<Report>, rs': seq<Report>, i: nat) {
    i < |rs| == |rs'| && (forall j | 0 <= j < |rs| && j != i :: rs'[j] == rs[j])
    && !rs[i].status.New? && rs'[i].status.New? && rs'[i].reporter == rs[i].reporter && rs'[i].player == rs[i].player
  }

  /** It counts once more for its own reporter, and for its own player, and for nobody else. */
  lemma {:induction false} OneReopenedCounts(rs: seq<Report>, rs': seq<Report>, i: nat, reporter: string, player: string)
    requires OneReopened(rs, rs', i)
    ensures |NewBy(rs', reporter)| == |NewBy(rs, reporter)| + if rs[i].reporter == reporter then 1 else 0
    ensures NewByAbout(rs', reporter, player)
         == NewByAbout(rs, reporter, player) + if rs[i].reporter == reporter && rs[i].player == player then 1 else 0
    decreases |rs|
  {
    hide NewBy, NewByAbout;
    NewByFirst(rs, reporter, player);
    NewByFirst(rs', reporter, player);
    if i == 0 {
      assert rs'[1..] == rs[1..];
    } else {
      OneReopenedCounts(rs[1..], rs'[1..], i - 1, reporter, player);
    }
  }

  lemma ReopenedPlace(db: Db, now: int, req: Request) returns (i: nat)
    requires DistinctIds(db.reports) && Reopens(db, req)
    ensures OneReopened(db.reports, Serve(db, now, req).0.reports, i) && Find(db.reports, req.id) == Some(db.reports[i])
  {
    var rs, rs' := db.reports, Serve(db, now, req).0.reports;
    var r := Find(rs, req.id).value;
    i :| 0 <= i < |rs| && rs[i] == r;
    forall j | 0 <= j < |rs| && j != i
      ensures rs'[j] == rs[j]
    {
      assert rs[j].id != rs[i].id;
    }
  }

  lemma ReopeningKeepsQuotas(db: Db, now: int, req: Request)
    requires DistinctIds(db.reports) && Quotas(db.reports) && Reopens(db, req)
    ensures Quotas(Serve(db, now, req).0.reports) <==> HasRoom(db, req.id)
  {
    hide NewBy, NewByAbout, Serve;
    var rs, rs' := db.reports, Serve(db, now, req).0.reports;
    var i := ReopenedPlace(db, now, req);
    var r := rs[i];
    OneReopenedCounts(rs, rs', i, r.reporter, r.player);
    if HasRoom(db, req.id) {
      forall reporter, player
        ensures |NewBy(rs', reporter)| <= 6 && NewByAbout(rs', reporter, player) <= 2
      {
        OneReopenedCounts(rs, rs', i, reporter, player);
        assert NewByAbout(rs, reporter, player) <= 2;
      }
    } else {
      assert NewByAbout(rs', r.reporter, r.player) > 2 || |NewBy(rs', r.reporter)| > 6;
    }
  }

  lemma ClosingKeepsQuotas(rs: seq<Report>, rs': seq<Report>)
    requires Quotas(rs) && SameReports(rs, rs') && OnlyCloses(rs, rs') && |rs| == |rs'|
    ensures Quotas(rs')
  {
    forall reporter, player
      ensures |NewBy(rs', reporter)| <= 6 && NewByAbout(rs', reporter, player) <= 2
    {
      ClosingShrinks(rs, rs', reporter, player);
      assert NewByAbout(rs, reporter, player) <= 2;
    }
  }

  lemma CreatingKeepsQuotas(rs: seq<Report>, r: Report)
    requires Quotas(rs) && |NewBy(rs, r.reporter)| < 6 && CountAbout(NewBy(rs, r.reporter), r.player) < 2
    ensures Quotas(rs + [r])
  {
    forall reporter, player
      ensures |NewBy(rs + [r], reporter)| <= 6 && NewByAbout(rs + [r], reporter, player) <= 2
    {
      NewByAppend(rs, r, reporter);
      assert NewByAbout(rs, reporter, player) <= 2;
      CountAppend(NewBy(rs, reporter), r, player);
      assert NewBy(rs, reporter) + [] == NewBy(rs, reporter);
    }
  }

  datatype Event = Event(now: int, request: Request)

  /** A run in which no request reopens a report. */
  predicate NeverReopens(db: Db, run: seq<Event>)
    decreases |run|
  {
    run == [] || (!Reopens(db, run[0].request) && NeverReopens(Serve(db, run[0].now, run[0].request).0, run[1..]))
  }

  /** A run in which each reopening passes the check made on new reports. */
  predicate ReopensWithRoom(db: Db, run: seq<Event>)
    decreases |run|
  {
    run == [] || ((Reopens(db, run[0].request) ==> HasRoom(db, run[0].request.id))
                  && ReopensWithRoom(Serve(db, run[0].now, run[0].request).0, run[1..]))
  }

  /** The quotas hold at the start and after every request. */
  ghost predicate QuotasThroughout(db: Db, run: seq<Event>)
    decreases |run|
  {
    Quotas(db.reports) && (run == [] || QuotasThroughout(Serve(db, run[0].now, run[0].request).0, run[1..]))
  }

  function After(db: Db, run: seq<Event>): Db
    decreases |run|
  {
    if run == [] then db else After(Serve(db, run[0].now, run[0].request).0, run[1..])
  }

  /** The quotas hold all through a run exactly when each of its reopenings passes the check made on new reports. */
  lemma {:induction false} RunKeepsQuotas(db: Db, run: seq<Event>)
    requires DistinctIds(db.reports) && Quotas(db.reports)
    ensures QuotasThroughout(db, run) <==> ReopensWithRoom(db, run)
    decreases |run|
  {
    hide Serve, Quotas, Reopens, HasRoom;
    if run != [] {
      var db' := Serve(db, run[0].now, run[0].request).0;
      ServeKeepsReports(db, run[0].now, run[0].request);
      ServeKeepsQuotas(db, run[0].now, run[0].request);
      if Quotas(db'.reports) {
        RunKeepsQuotas(db', run[1..]);
      } else {
        assert !QuotasThroughout(db', run[1..]);
      }
    }
  }

  /** Over every run without reopenings the quotas hold to the end and closed reports stay closed. */
  lemma {:induction false} RunOnlyCloses(db: Db, run: seq<Event>)
    requires DistinctIds(db.reports) && Quotas(db.reports) && NeverReopens(db, run)
    ensures var db' := After(db, run);
            DistinctIds(db'.reports) && Quotas(db'.reports) && OnlyCloses(db.reports, db'.reports)
    decreases |run|
  {
    hide Serve, Quotas, Reopens, HasRoom;
    if run != [] {
      var (now, req) := (run[0].now, run[0].request);
      ServeKeepsReports(db, now, req);
      ServeKeepsQuotas(db, now, req);
      ClosedStaysClosedUnlessReopened(db, now, req);
      RunOnlyCloses(Serve(db, now, req).0, run[1..]);
    }
  }

  function Sample(id: string, status: Status): Report {
    Report(id, "r", "p", Other, status, [], None, 0, 0)
  }

  /** One IN_PROGRESS request breaks the quota: a resolved report joins two NEW ones about the same player. */
  lemma InProgressBreaksQuota()
    ensures var db := Db({"p"}, [Sample("a", Resolved), Sample("b", New), Sample("c", New)], []);
            var req := StatusRequest(Caller("m", true), "a", IN_PROGRESS, "");
            NewByAbout(db.reports, "r", "p") == 2
            && Serve(db, 1, req).1.Done? && NewByAbout(Serve(db, 1, req).0.reports, "r", "p") == 3
  {
    var a, b, c := Sample("a", Resolved), Sample("b", New), Sample("c", New);
    var rs := [a, b, c];
    var db := Db({"p"}, rs, []);
    var req := StatusRequest(Caller("m", true), "a", IN_PROGRESS, "");
    assert rs[1..] == [b, c] && [b, c][1..] == [c];
    assert Find(rs, "a") == Some(a);
    var rs' := Serve(db, 1, req).0.reports;
    var a' := rs'[0];
    assert rs' == [a', b, c] && a'.status.New? && a'.player == "p" && a'.reporter == "r";
    ThreeNew(a', b, c);
    TwoNew(a, b, c);
  }

  lemma TwoNew(a: Report, b: Report, c: Report)
    requires !a.status.New? && b.status.New? && c.status.New? && b.reporter == c.reporter == "r" && b.player == c.player == "p"
    ensures NewByAbout([a, b, c], "r", "p") == 2
  {
    NewByAppend([a, b], c, "r");
    NewByAppend([a], b, "r");
    NewByAppend([], a, "r");
    assert [] + [a] == [a] && [a] + [b] == [a, b] && [a, b] + [c] == [a, b, c];
    CountAppend([b], c, "p");
    CountAppend([], b, "p");
    assert [] + [b] == [b] && NewBy([], "r") == [];
  }

  lemma ThreeNew(a: Report, b: Report, c: Report)
    requires a.status.New? && b.status.New? && c.status.New?
    requires a.reporter == b.reporter == c.reporter == "r" && a.player == b.player == c.player == "p"
    ensures NewByAbout([a, b, c], "r", "p") == 3
  {
    NewByAppend([a, b], c, "r");
    NewByAppend([a], b, "r");
    NewByAppend([], a, "r");
    assert [] + [a] == [a] && [a] + [b] == [a, b] && [a, b] + [c] == [a, b, c];
    CountAppend([a, b], c, "p");
    CountAppend([a], b, "p");
    CountAppend([], a, "p");
    assert NewBy([], "r") == [];
  }

  // ---------------------------------------------------------------- what an approval closes

  predicate NonEmptyIds(rs: seq<Report>) {
    forall r | r in rs :: r.id != ""
  }

  /** A served approval leaves no NEW report about the player; its ban lists exactly the reports it closed, and it
      changes the status of no other. */
  lemma ApprovalClosesWhatItLists(db: Db, caller: Caller, player: string, banId: string, now: int, kicked: bool)
    requires DistinctIds(db.reports) && NonEmptyIds(db.reports)
    requires ApproveReports(db, caller, player, banId, now, kicked).1.Done?
    ensures var db' := ApproveReports(db, caller, player, banId, now, kicked).0;
            NewAbout(db'.reports, player) == [] && |db'.bans| == |db.bans| + 1
            && (var ban := db'.bans[|db.bans|];
                ban.user == player && ban.reportIds != []
                && forall i | 0 <= i < |db.reports| ::
                     (db.reports[i].id in ban.reportIds <==> db.reports[i].status.New? && db'.reports[i].status.Resolved?)
                     && (db.reports[i].id in ban.reportIds <==> db.reports[i].status.New? && db.reports[i].player == player)
                     && (db.reports[i].id !in ban.reportIds ==> db'.reports[i] == db.reports[i]))
  {
    var rs := db.reports;
    var db' := ApproveReports(db, caller, player, banId, now, kicked).0;
    var open := NewAbout(rs, player);
    var ids := Ids(open);
    var ban := db'.bans[|db.bans|];
    assert ban.reportIds == ids;
    assert open[0] in open && open[0] in rs;
    assert open[0].id in ids;
    forall i | 0 <= i < |rs|
      ensures rs[i].id in ids <==> rs[i].status.New? && rs[i].player == player
    {
      assert rs[i] in rs;
      if rs[i].id in ids {
        var r :| r in open && r.id == rs[i].id;
        var j :| 0 <= j < |rs| && rs[j] == r;
        assert i == j;
      }
      if rs[i].status.New? && rs[i].player == player {
        assert rs[i] in open;
      }
    }
    forall r | r in db'.reports
      ensures !(r.player == player && r.status.New?)
    {
      var i :| 0 <= i < |db'.reports| && db'.reports[i] == r;
      assert rs[i].id in ids <==> rs[i].status.New? && rs[i].player == player;
    }
    NoneSelected(db'.reports, player);
  }

  lemma {:induction false} NoneSelected(rs: seq<Report>, player: string)
    requires forall r | r in rs :: !(r.player == player && r.status.New?)
    ensures NewAbout(rs, player) == []
  {
    if rs != [] {
      assert rs[0] in rs;
      assert forall r | r in rs[1..] :: r in rs;
      NoneSelected(rs[1..], player);
    }
  }
}
