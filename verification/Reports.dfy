/** Player reports: quotas, status changes and the punishment that closes them. */
module Reports {
  import opened Pipeline
  import opened Strings

  datatype Status = New | Resolved | Rejected

  datatype Reason = Hacking | ToxicBehaviour | Griefing | Other

  /** Wire values of the report status: NEW, IN_PROGRESS, RESOLVED, REJECTED; others may be sent as well. */
  const NEW := 0
  const IN_PROGRESS := 1
  const RESOLVED := 2
  const REJECTED := 3

  /** GetReportStatusFromProto: what is not recognised becomes NEW. */
  function StatusFromProto(code: int): Status {
    if code == RESOLVED then Resolved else if code == REJECTED then Rejected else New
  }

  /** GetReportReasonFromProto */
  function ReasonFromProto(code: int): Reason {
    if code == 0 then Hacking else if code == 1 then ToxicBehaviour else if code == 2 then Griefing else Other
  }

  datatype Report = Report(
    id: string, reporter: string, player: string, reason: Reason, status: Status, notes: seq<string>,
    moderator: Option<string>, createdAt: int, updatedAt: int)

  datatype GlobalBan = GlobalBan(id: string, user: string, moderator: string, reportIds: seq<string>)

  datatype Code = PermissionDenied | NotFound | InvalidArgument | ResourceExhausted | Internal

  datatype Response = Done | Failed(code: Code)

  datatype Db = Db(users: set<string>, reports: seq<Report>, bans: seq<GlobalBan>)

  datatype Caller = Caller(id: string, isStaff: bool)

  // ---------------------------------------------------------------- queries and updates

  function NewBy(rs: seq<Report>, reporter: string): seq<Report> {
    Match(rs, (r: Report) => r.reporter == reporter && r.status.New?)
  }

  function NewAbout(rs: seq<Report>, player: string): seq<Report> {
    Match(rs, (r: Report) => r.player == player && r.status.New?)
  }

  function CountAbout(rs: seq<Report>, player: string): nat {
    if rs == [] then 0 else (if rs[0].player == player then 1 else 0) + CountAbout(rs[1..], player)
  }

  function Find(rs: seq<Report>, id: string): (r: Option<Report>)
    ensures r.Some? ==> r.value in rs && r.value.id == id
    ensures r.None? ==> forall x | x in rs :: x.id != id
  {
    if rs == [] then None else if rs[0].id == id then Some(rs[0]) else Find(rs[1..], id)
  }

  /** UpdateMany: f applied to the reports that satisfy p. */
  function Update(rs: seq<Report>, p: Report -> bool, f: Report -> Report): (out: seq<Report>)
    ensures |out| == |rs|
    ensures forall i | 0 <= i < |rs| :: out[i] == if p(rs[i]) then f(rs[i]) else rs[i]
  {
    if rs == [] then [] else [if p(rs[0]) then f(rs[0]) else rs[0]] + Update(rs[1..], p, f)
  }

  function Ids(rs: seq<Report>): (out: seq<string>)
    ensures forall id :: id in out <==> id != "" && exists r | r in rs :: r.id == id
  {
    if rs == [] then [] else (if rs[0].id == "" then [] else [rs[0].id]) + Ids(rs[1..])
  }

  function Close(status: Status, moderator: string, now: int): Report -> Report {
    (r: Report) => r.(status := status, moderator := Some(moderator), updatedAt := now)
  }

  /** The NEW reports about a player are closed. */
  function CloseAbout(rs: seq<Report>, player: string, status: Status, moderator: string, now: int): seq<Report> {
    Update(rs, (x: Report) => x.player == player && x.status.New?, Close(status, moderator, now))
  }

  /** The NEW reports among these are resolved. */
  function ResolveIds(rs: seq<Report>, ids: seq<string>, moderator: string, now: int): seq<Report> {
    Update(rs, (x: Report) => x.id in ids && x.status.New?, Close(Resolved, moderator, now))
  }

  function Reject(rs: seq<Report>, id: string, moderator: string, now: int): seq<Report> {
    Update(rs, (x: Report) => x.id == id, Close(Rejected, moderator, now))
  }

  function SetStatus(rs: seq<Report>, id: string, status: Status, notes: seq<string>, now: int): seq<Report> {
    Update(rs, (x: Report) => x.id == id, (x: Report) => x.(status := status, updatedAt := now, notes := notes))
  }

  // ---------------------------------------------------------------- requests

  /** published says whether the message about the new report could be sent; the report is stored either way. */
  function CreateReport(db: Db, caller: Caller, player: string, reason: int, linksValid: bool, id: string, now: int, published: bool)
    : (Db, Response)
  {
    var open := NewBy(db.reports, caller.id);
    if |open| >= 6 then (db, Failed(ResourceExhausted))
    else if CountAbout(open, player) >= 2 then (db, Failed(ResourceExhausted))
    else if !linksValid then (db, Failed(InvalidArgument))
    else if player !in db.users then (db, Failed(NotFound))
    else if Find(db.reports, id).Some? then (db, Failed(Internal))
    else
      var r := Report(id, caller.id, player, ReasonFromProto(reason), New, [], None, now, now);
      (db.(reports := db.reports + [r]), if published then Done else Failed(Internal))
  }

  function RejectReport(db: Db, caller: Caller, id: string, now: int): (Db, Response) {
    if !caller.isStaff then (db, Failed(PermissionDenied)) else
    var r := Find(db.reports, id);
    if r.None? then (db, Failed(NotFound))
    else if !r.value.status.New? then (db, Failed(InvalidArgument))
    else (db.(reports := Reject(db.reports, id, caller.id, now)), Done)
  }

  function UpdateStatus(db: Db, caller: Caller, id: string, code: int, note: string, now: int): (Db, Response) {
    if !caller.isStaff then (db, Failed(PermissionDenied))
    else if id == "" then (db, Failed(InvalidArgument)) else
    var r := Find(db.reports, id);
    if r.None? then (db, Failed(NotFound))
    else if code == NEW then (db, Failed(InvalidArgument))
    else
      var closed :=
        if code == RESOLVED || code == REJECTED then
          CloseAbout(db.reports, r.value.player, StatusFromProto(code), caller.id, now)
        else db.reports;
      var notes := r.value.notes + if note != "" then [note] else [];
      (db.(reports := SetStatus(closed, id, StatusFromProto(code), notes, now)), Done)
  }

  /** kicked says whether the player could be removed from his server; the ban and the reports change either way. */
  function ApproveReports(db: Db, caller: Caller, player: string, banId: string, now: int, kicked: bool): (Db, Response) {
    if !caller.isStaff then (db, Failed(PermissionDenied))
    else if player !in db.users then (db, Failed(NotFound)) else
    var reports := NewAbout(db.reports, player);
    if reports == [] then (db, Failed(NotFound)) else
    var ids := Ids(reports);
    if exists b | b in db.bans :: b.id == banId then (db, Failed(Internal))
    else
      (db.(bans := db.bans + [GlobalBan(banId, player, caller.id, ids)],
           reports := ResolveIds(db.reports, ids, caller.id, now)),
       if kicked then Done else Failed(Internal))
  }

  // ---------------------------------------------------------------- the service

  class ReportService {
    var users: set<string>
    var reports: seq<Report>
    var bans: seq<GlobalBan>

    function State(): Db
      reads this
    {
      Db(users, reports, bans)
    }

    method CreateReportRequest(caller: Caller, player: string, reason: int, linksValid: bool, id: string, now: int, published: bool)
      returns (r: Response)
      modifies this`reports
      ensures (State(), r) == CreateReport(old(State()), caller, player, reason, linksValid, id, now, published)
    {
      var openReports := NewBy(reports, caller.id);
      if |openReports| >= 6 {
        return Failed(ResourceExhausted);
      }
      var openReportsForTarget := 0;
      for i := 0 to |openReports|
        invariant openReportsForTarget + CountAbout(openReports[i..], player) == CountAbout(openReports, player)
      {
        if openReports[i].player == player {
          openReportsForTarget := openReportsForTarget + 1;
        }
      }
      if openReportsForTarget >= 2 {
        return Failed(ResourceExhausted);
      }
      if !linksValid {
        return Failed(InvalidArgument);
      }
      if player !in users {
        return Failed(NotFound);
      }
      if Find(reports, id).Some? {
        return Failed(Internal);
      }
      reports := reports + [Report(id, caller.id, player, ReasonFromProto(reason), New, [], None, now, now)];
      return if published then Done else Failed(Internal);
    }

    method RejectReportRequest(caller: Caller, id: string, now: int) returns (r: Response)
      modifies this`reports
      ensures (State(), r) == RejectReport(old(State()), caller, id, now)
    {
      if !caller.isStaff {
        return Failed(PermissionDenied);
      }
      var report := Find(reports, id);
      if report.None? {
        return Failed(NotFound);
      }
      if !report.value.status.New? {
        return Failed(InvalidArgument);
      }
      reports := Reject(reports, id, caller.id, now);
      return Done;
    }

    method UpdateStatusRequest(caller: Caller, id: string, code: int, note: string, now: int) returns (r: Response)
      modifies this`reports
      ensures (State(), r) == UpdateStatus(old(State()), caller, id, code, note, now)
    {
      if !caller.isStaff {
        return Failed(PermissionDenied);
      }
      if id == "" {
        return Failed(InvalidArgument);
      }
      var found := Find(reports, id);
      if found.None? {
        return Failed(NotFound);
      }
      var report := found.value;
      if code == NEW {
        return Failed(InvalidArgument);
      }
      if code == RESOLVED || code == REJECTED {
        reports := CloseAbout(reports, report.player, StatusFromProto(code), caller.id, now);
      }
      var notes := report.notes;
      if note != "" {
        notes := notes + [note];
      } else {
        assert notes + [] == notes;
      }
      reports := SetStatus(reports, id, StatusFromProto(code), notes, now);
      return Done;
    }

    method CollectIds(open: seq<Report>) returns (ids: seq<string>)
      ensures ids == Ids(open)
    {
      ids := [];
      for i := 0 to |open|
        invariant ids + Ids(open[i..]) == Ids(open)
      {
        assert open[i..][1..] == open[i + 1..];
        if open[i].id != "" {
          assert ids + ([open[i].id] + Ids(open[i + 1..])) == ids + [open[i].id] + Ids(open[i + 1..]);
          ids := ids + [open[i].id];
        } else {
          assert ids + ([] + Ids(open[i + 1..])) == ids + Ids(open[i + 1..]);
        }
      }
      assert ids == Ids(open);
    }

    method ApproveReportsRequest(caller: Caller, player: string, banId: string, now: int, kicked: bool) returns (r: Response)
      modifies this`reports, this`bans
      ensures (State(), r) == ApproveReports(old(State()), caller, player, banId, now, kicked)
    {
      if !caller.isStaff {
        return Failed(PermissionDenied);
      }
      if player !in users {
        return Failed(NotFound);
      }
      var open := NewAbout(reports, player);
      if open == [] {
        return Failed(NotFound);
      }
      var ids := CollectIds(open);
      if exists b | b in bans :: b.id == banId {
        return Failed(Internal);
      }
      bans := bans + [GlobalBan(banId, player, caller.id, ids)];
      reports := ResolveIds(reports, ids, caller.id, now);
      return if kicked then Done else Failed(Internal);
    }
  }
}
