/** When each request on reports succeeds, and what becomes of every single report, place by place. */
module ReportAnswers {
  import opened Strings
  import opened Reports
  import opened ReportRuns

  /** The first report with this id. */
  predicate FirstReport(rs: seq<Report>, id: string, i: nat) {
    i < |rs| && rs[i].id == id && forall j | 0 <= j < i :: rs[j].id != id
  }

  lemma {:induction false} FirstIsFound(rs: seq<Report>, id: string, i: nat)
    requires FirstReport(rs, id, i)
    ensures Find(rs, id) == Some(rs[i])
  {
    if i > 0 {
      FirstIsFound(rs[1..], id, i - 1);
    }
  }

  lemma {:induction false} FoundIsFirst(rs: seq<Report>, id: string) returns (i: nat)
    requires Find(rs, id).Some?
    ensures FirstReport(rs, id, i)
  {
    if rs[0].id == id {
      i := 0;
    } else {
      i := FoundIsFirst(rs[1..], id);
      i := i + 1;
    }
  }

  predicate Known(rs: seq<Report>, id: string) { exists r | r in rs :: r.id == id }

  lemma KnownIsFound(rs: seq<Report>, id: string)
    ensures Find(rs, id).Some? <==> Known(rs, id)
  {
  }

  // ---------------------------------------------------------------- rejecting

  /** The report of this id, at place i, is rejected by this moderator now; all others stay as they are. */
  ghost predicate OneRejected(rs: seq<Report>, rs': seq<Report>, i: nat, moderator: string, now: int) {
    i < |rs| == |rs'|
    && rs'[i] == Report(rs[i].id, rs[i].reporter, rs[i].player, rs[i].reason, Rejected, rs[i].notes, Some(moderator), rs[i].createdAt, now)
    && forall j | 0 <= j < |rs| && j != i :: rs'[j] == rs[j]
  }

  /** A rejection answers Done exactly when the caller is staff and the report is there and NEW. Then exactly that report is
      rejected, with this moderator and time; otherwise nothing is stored. */
  lemma RejectAnswer(db: Db, caller: Caller, id: string, now: int)
    requires DistinctIds(db.reports)
    ensures var (db', r) := RejectReport(db, caller, id, now);
            (r == Done <==> caller.isStaff && exists i | 0 <= i < |db.reports| :: db.reports[i].id == id && db.reports[i].status == New)
            && (r == Failed(PermissionDenied) <==> !caller.isStaff)
            && (r == Failed(NotFound) <==> caller.isStaff && !Known(db.reports, id))
            && (r == Done ==> db' == db.(reports := db'.reports)
                              && exists i | 0 <= i < |db.reports| ::
                                   db.reports[i].id == id && OneRejected(db.reports, db'.reports, i, caller.id, now))
            && (r != Done ==> db' == db && r.Failed?)
  {
    hide Find, DistinctIds, Reject;
    var rs := db.reports;
    var (db', r) := RejectReport(db, caller, id, now);
    KnownIsFound(rs, id);
    if Find(rs, id).Some? {
      var i := FoundIsFirst(rs, id);
      FirstIsFound(rs, id, i);
      OnlyPlace(rs, id, i);
      if r == Done {
        RejectedAt(rs, id, i, caller.id, now);
      }
    }
  }

  lemma OnlyPlace(rs: seq<Report>, id: string, i: nat)
    requires DistinctIds(rs) && i < |rs| && rs[i].id == id
    ensures forall j | 0 <= j < |rs| :: rs[j].id == id <==> j == i
  {
  }

  lemma RejectedAt(rs: seq<Report>, id: string, i: nat, moderator: string, now: int)
    requires i < |rs| && forall j | 0 <= j < |rs| :: rs[j].id == id <==> j == i
    ensures OneRejected(rs, Reject(rs, id, moderator, now), i, moderator, now)
  {
  }

  // ---------------------------------------------------------------- changing the status

  /** What a status change leaves of the report at place j: the one asked for gets the status, the time and the notes; the
      NEW ones about the same player get the status, the moderator and the time when reports are closed. */
  function Changed(r: Report, own: bool, player: string, status: Status, closes: bool, moderator: string, notes: seq<string>, now: int): Report {
    var closed := if closes && r.player == player && r.status == New then Some(moderator) else r.moderator;
    if own then Report(r.id, r.reporter, r.player, r.reason, status, notes, closed, r.createdAt, now)
    else if closes && r.player == player && r.status == New then
      Report(r.id, r.reporter, r.player, r.reason, status, r.notes, Some(moderator), r.createdAt, now)
    else r
  }

  /** A status change answers Done exactly when the caller is staff, the id is not empty and known, and the wire value is not
      0. On the wire 2 stands for resolved and 3 for rejected, and both close the other NEW reports about the player as well;
      every other value makes the report NEW. */
  lemma StatusAnswer(db: Db, caller: Caller, id: string, code: int, note: string, now: int)
    requires DistinctIds(db.reports)
    ensures var (db', r) := UpdateStatus(db, caller, id, code, note, now);
            (r == Done <==> caller.isStaff && id != "" && Known(db.reports, id) && code != 0)
            && (r != Done ==> db' == db && r.Failed?)
            && (r == Failed(PermissionDenied) <==> !caller.isStaff)
            && (r == Failed(NotFound) <==> caller.isStaff && id != "" && !Known(db.reports, id))
            && (r == Done ==> db' == db.(reports := db'.reports) && StatusChanged(db.reports, db'.reports, caller.id, id, code, note, now))
  {
    hide Find, DistinctIds, CloseAbout, SetStatus, StatusChanged;
    var rs := db.reports;
    var (db', r) := UpdateStatus(db, caller, id, code, note, now);
    KnownIsFound(rs, id);
    if r == Done {
      var i := FoundIsFirst(rs, id);
      FirstIsFound(rs, id, i);
      OnlyPlace(rs, id, i);
      ChangedPlaces(db, caller, id, code, note, now, i);
    }
  }

  ghost predicate StatusChanged(rs: seq<Report>, rs': seq<Report>, moderator: string, id: string, code: int, note: string, now: int) {
    |rs'| == |rs| && exists i | 0 <= i < |rs| :: rs[i].id == id && ChangedAlike(rs, rs', moderator, id, code, note, now, rs[i])
  }

  predicate ChangedAlike(rs: seq<Report>, rs': seq<Report>, moderator: string, id: string, code: int, note: string, now: int, r: Report) {
    |rs'| == |rs| && forall j | 0 <= j < |rs| ::
      rs'[j] == Changed(rs[j], rs[j].id == id, r.player, if code == 2 then Resolved else if code == 3 then Rejected else New,
                        code == 2 || code == 3, moderator, r.notes + if note == "" then [] else [note], now)
  }

  lemma ChangedPlaces(db: Db, caller: Caller, id: string, code: int, note: string, now: int, i: nat)
    requires i < |db.reports| && db.reports[i].id == id && Find(db.reports, id) == Some(db.reports[i])
    requires caller.isStaff && id != "" && code != 0
    ensures StatusChanged(db.reports, UpdateStatus(db, caller, id, code, note, now).0.reports, caller.id, id, code, note, now)
  {
    hide Find;
    var rs, rs' := db.reports, UpdateStatus(db, caller, id, code, note, now).0.reports;
    assert ChangedAlike(rs, rs', caller.id, id, code, note, now, rs[i]);
  }

  // ---------------------------------------------------------------- new reports

  /** How many NEW reports a reporter has, counted one by one; about one player, when he is given. */
  function OpenReports(rs: seq<Report>, reporter: string, player: Option<string>): nat {
    if rs == [] then 0 else
    (if rs[0].reporter == reporter && rs[0].status == New && (player == None || player == Some(rs[0].player)) then 1 else 0)
    + OpenReports(rs[1..], reporter, player)
  }

  lemma {:induction false} OpenReportsMeaning(rs: seq<Report>, reporter: string, player: string)
    ensures |NewBy(rs, reporter)| == OpenReports(rs, reporter, None)
    ensures NewByAbout(rs, reporter, player) == OpenReports(rs, reporter, Some(player))
  {
    if rs != [] {
      OpenReportsMeaning(rs[1..], reporter, player);
      NewByFirst(rs, reporter, player);
    }
  }

  /** A report is stored exactly when its reporter has less than six NEW ones and less than two about that player, the links
      are valid, the player is known and the id is new. It comes last, is NEW and has its wire reason: 0 hacking, 1 toxic
      behaviour, 2 griefing, anything else other. The answer also says whether it could be announced. */
  lemma CreateAnswer(db: Db, caller: Caller, player: string, reason: int, linksValid: bool, id: string, now: int, published: bool)
    ensures var (db', r) := CreateReport(db, caller, player, reason, linksValid, id, now, published);
            var stored := OpenReports(db.reports, caller.id, None) < 6 && OpenReports(db.reports, caller.id, Some(player)) < 2
                          && linksValid && player in db.users && !Known(db.reports, id);
            (r == Done <==> stored && published)
            && db' == if stored then
                        db.(reports := db.reports + [Report(id, caller.id, player,
                              if reason == 0 then Hacking else if reason == 1 then ToxicBehaviour
                              else if reason == 2 then Griefing else Other, New, [], None, now, now)])
                      else db
  {
    hide Find, NewBy, CountAbout, OpenReports;
    OpenReportsMeaning(db.reports, caller.id, player);
    KnownIsFound(db.reports, id);
  }

  // ---------------------------------------------------------------- approving

  /** An approval bans the player exactly when the caller is staff, the player is known and has a NEW report, and the ban's id
      is new; the answer also says whether he could be kicked. The ban names the player and the moderator, and every NEW report
      about him with an id is resolved by this moderator now; all other reports stay as they are. */
  lemma ApproveAnswer(db: Db, caller: Caller, player: string, banId: string, now: int, kicked: bool)
    requires DistinctIds(db.reports)
    ensures var (db', r) := ApproveReports(db, caller, player, banId, now, kicked);
            var banned := caller.isStaff && player in db.users
                          && (exists x | x in db.reports :: x.player == player && x.status == New)
                          && (forall b | b in db.bans :: b.id != banId);
            (r == Done <==> banned && kicked)
            && (!banned ==> db' == db && r.Failed?)
            && (banned ==> |db'.bans| == |db.bans| + 1 && db'.bans[..|db.bans|] == db.bans && db'.users == db.users
                           && db'.bans[|db.bans|].id == banId && db'.bans[|db.bans|].user == player
                           && db'.bans[|db.bans|].moderator == caller.id
                           && AllResolved(db.reports, db'.reports, player, caller.id, now))
  {
    hide Ids, ResolveIds, AllResolved, DistinctIds;
    var open := NewAbout(db.reports, player);
    if open != [] {
      assert open[0] in open;
    }
    if x :| x in db.reports && x.player == player && x.status == New {
      assert x in open;
    }
    ResolvedPlaces(db.reports, player, caller.id, now);
  }

  predicate AllResolved(rs: seq<Report>, rs': seq<Report>, player: string, moderator: string, now: int) {
    |rs'| == |rs| && forall j | 0 <= j < |rs| ::
      rs'[j] == var r := rs[j];
                if r.player == player && r.status == New && r.id != "" then
                  Report(r.id, r.reporter, r.player, r.reason, Resolved, r.notes, Some(moderator), r.createdAt, now)
                else r
  }

  lemma ResolvedPlaces(rs: seq<Report>, player: string, moderator: string, now: int)
    requires DistinctIds(rs)
    ensures AllResolved(rs, ResolveIds(rs, Ids(NewAbout(rs, player)), moderator, now), player, moderator, now)
  {
    hide DistinctIds, ResolveIds;
    var ids := Ids(NewAbout(rs, player));
    forall j | 0 <= j < |rs|
      ensures rs[j].id in ids <==> rs[j].player == player && rs[j].status == New && rs[j].id != ""
    {
      assert rs[j] in rs;
      if rs[j].id in ids {
        var r :| r in NewAbout(rs, player) && r.id == rs[j].id;
        var k :| 0 <= k < |rs| && rs[k] == r;
        OnlyPlace(rs, r.id, k);
      }
      if rs[j].player == player && rs[j].status == New && rs[j].id != "" {
        assert rs[j] in NewAbout(rs, player);
      }
    }
    ResolvedAlike(rs, ids, player, moderator, now);
  }

  lemma ResolvedAlike(rs: seq<Report>, ids: seq<string>, player: string, moderator: string, now: int)
    requires forall j | 0 <= j < |rs| :: rs[j].id in ids <==> rs[j].player == player && rs[j].status == New && rs[j].id != ""
    ensures AllResolved(rs, ResolveIds(rs, ids, moderator, now), player, moderator, now)
  {
  }
}
