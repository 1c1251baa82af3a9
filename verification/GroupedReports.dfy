/** The grouped report list: one pipeline, read as a program on the stored documents. */
module GroupedReports {
  import opened Strings
  import opened Pipeline
  import opened Reports

  datatype Named = Named(id: string, name: string)  // what the lookup keeps of a user

  datatype Key = Key(player: string, status: Status)

  datatype Group = Group(key: Key, members: seq<Report>)

  /** A row of the answer. Counts by reason go by the wire value of the reason. */
  datatype Row = Row(
    player: string, name: Option<string>, status: Status, total: nat, latest: int, byReason: map<int, nat>, isOpen: bool)

  function KeyOf(r: Report): Key { Key(r.player, r.status) }

  function MembersOf(rs: seq<Report>, k: Key): seq<Report> { Match(rs, (r: Report) => KeyOf(r) == k) }

  /** $group by player and status: one document per key that occurs, with all reports of that key. */
  function GroupBy(rs: seq<Report>): (groups: seq<Group>)
    ensures |groups| == |Keys(rs)|
    ensures forall i | 0 <= i < |groups| :: groups[i] == Group(Keys(rs)[i], MembersOf(rs, Keys(rs)[i]))
  {
    Project(Keys(rs), (k: Key) => Group(k, MembersOf(rs, k)))
  }

  function Keys(rs: seq<Report>): seq<Key> { Dedup(Project(rs, (r: Report) => KeyOf(r))) }

  function LatestOf(rs: seq<Report>): (m: int)
    requires rs != []
    ensures (forall r | r in rs :: r.createdAt <= m) && exists r | r in rs :: r.createdAt == m
  {
    if |rs| == 1 then rs[0].createdAt else
    var m := LatestOf(rs[1..]);
    assert rs[0] in rs && forall r | r in rs :: r == rs[0] || r in rs[1..];
    if rs[0].createdAt > m then rs[0].createdAt else m
  }

  function CountReason(rs: seq<Report>, reason: Reason): nat {
    if rs == [] then 0 else (if rs[0].reason == reason then 1 else 0) + CountReason(rs[1..], reason)
  }

  function ReasonToProto(r: Reason): int {
    match r case Hacking => 0 case ToxicBehaviour => 1 case Griefing => 2 case Other => 3
  }

  /** reports_by_reason: each reason that occurs, with the number of its occurrences. */
  function ReasonCounts(rs: seq<Report>, reasons: seq<Reason>): map<int, nat> {
    if reasons == [] then map[] else
    ReasonCounts(rs, reasons[1..])[ReasonToProto(reasons[0]) := CountReason(rs, reasons[0])]
  }

  function Reasons(rs: seq<Report>): seq<Reason> {
    SetUnion(Project(rs, (r: Report) => r.reason), [])
  }

  function ToRow(d: (Group, Option<Named>)): Row {
    var g := d.0;
    Row(g.key.player, match d.1 case Some(u) => Some(u.name) case None => None, g.key.status, |g.members|,
        if g.members == [] then 0 else LatestOf(g.members), ReasonCounts(g.members, Reasons(g.members)), g.key.status.New?)
  }

  function SameUser(): (Group, Named) -> bool { (g: Group, u: Named) => u.id == g.key.player }

  function WithUsers(rs: seq<Report>, users: seq<Named>): seq<(Group, seq<Named>)> {
    Lookup(GroupBy(rs), users, SameUser())
  }

  /** The whole pipeline; the order of its rows is not modelled. */
  function ListReportsGrouped(rs: seq<Report>, users: seq<Named>): seq<Row> {
    Project(UnwindKeeping(WithUsers(rs, users)), ToRow)
  }

  // ---------------------------------------------------------------- one row

  function CountOf(m: map<int, nat>, code: int): nat { if code in m then m[code] else 0 }

  lemma {:induction false} ReasonCountsMeaning(rs: seq<Report>, reasons: seq<Reason>, r: Reason)
    ensures ReasonToProto(r) in ReasonCounts(rs, reasons) <==> r in reasons
    ensures r in reasons ==> ReasonCounts(rs, reasons)[ReasonToProto(r)] == CountReason(rs, r)
    ensures forall code | code in ReasonCounts(rs, reasons) :: 0 <= code <= 3
  {
    if reasons != [] {
      ReasonCountsMeaning(rs, reasons[1..], r);
    }
  }

  lemma {:induction false} AbsentReason(rs: seq<Report>, r: Reason)
    requires forall x | x in rs :: x.reason != r
    ensures CountReason(rs, r) == 0
  {
    if rs != [] {
      assert rs[0] in rs;
      assert forall x | x in rs[1..] :: x in rs;
      AbsentReason(rs[1..], r);
    }
  }

  lemma CountedReason(rs: seq<Report>, r: Reason)
    ensures CountOf(ReasonCounts(rs, Reasons(rs)), ReasonToProto(r)) == CountReason(rs, r)
  {
    ReasonCountsMeaning(rs, Reasons(rs), r);
    if r !in Reasons(rs) {
      forall x | x in rs
        ensures x.reason != r
      {
        var i :| 0 <= i < |rs| && rs[i] == x;
        assert Project(rs, (r: Report) => r.reason)[i] == x.reason;
      }
      AbsentReason(rs, r);
    }
  }

  lemma {:induction false} AllReasons(rs: seq<Report>)
    ensures CountReason(rs, Hacking) + CountReason(rs, ToxicBehaviour) + CountReason(rs, Griefing) + CountReason(rs, Other) == |rs|
  {
    if rs != [] {
      AllReasons(rs[1..]);
    }
  }

  predicate ConsistentRow(row: Row, rs: seq<Report>) {
    var members := MembersOf(rs, Key(row.player, row.status));
    row.total == |members| > 0 && row.latest == LatestOf(members) && (row.isOpen <==> row.status.New?)
    && CountOf(row.byReason, 0) + CountOf(row.byReason, 1) + CountOf(row.byReason, 2) + CountOf(row.byReason, 3) == row.total
    && forall code | code in row.byReason :: 0 <= code <= 3
  }

  /** The stored reports about a player, with a status and a reason, counted one by one. */
  function Stored(rs: seq<Report>, player: string, status: Status, reason: Reason): nat {
    if rs == [] then 0 else
    (if rs[0].player == player && rs[0].status == status && rs[0].reason == reason then 1 else 0) + Stored(rs[1..], player, status, reason)
  }

  lemma {:induction false} CountedIsStored(rs: seq<Report>, k: Key, reason: Reason)
    ensures CountReason(MembersOf(rs, k), reason) == Stored(rs, k.player, k.status, reason)
  {
    if rs != [] {
      CountedIsStored(rs[1..], k, reason);
      var rest := MembersOf(rs[1..], k);
      assert MembersOf(rs, k) == (if KeyOf(rs[0]) == k then [rs[0]] else []) + rest;
      assert ([rs[0]] + rest)[1..] == rest && [] + rest == rest;
    }
  }

  /** Under 0 stands the number of stored reports of the row's player and status for hacking, under 1 for toxic behaviour,
      under 2 for griefing and under 3 for other reasons; a number that would be 0 is left out, and there are no others. */
  predicate CountsByReason(row: Row, rs: seq<Report>) {
    CountOf(row.byReason, 0) == Stored(rs, row.player, row.status, Hacking)
    && CountOf(row.byReason, 1) == Stored(rs, row.player, row.status, ToxicBehaviour)
    && CountOf(row.byReason, 2) == Stored(rs, row.player, row.status, Griefing)
    && CountOf(row.byReason, 3) == Stored(rs, row.player, row.status, Other)
    && forall code | code in row.byReason :: 0 <= code <= 3 && row.byReason[code] > 0
  }

  lemma {:induction false} PresentReason(rs: seq<Report>, r: Report)
    requires r in rs
    ensures CountReason(rs, r.reason) > 0
  {
    if rs[0] != r {
      PresentReason(rs[1..], r);
    }
  }

  lemma {:induction false} CodesHaveReasons(rs: seq<Report>, reasons: seq<Reason>, code: int)
    requires code in ReasonCounts(rs, reasons)
    ensures exists r | r in reasons :: ReasonToProto(r) == code && ReasonCounts(rs, reasons)[code] == CountReason(rs, r)
  {
    if code == ReasonToProto(reasons[0]) {
      assert reasons[0] in reasons;
    } else {
      CodesHaveReasons(rs, reasons[1..], code);
      assert forall r | r in reasons[1..] :: r in reasons;
    }
  }

  lemma RowCountsByReason(rs: seq<Report>, k: Key, u: Option<Named>)
    ensures CountsByReason(ToRow((Group(k, MembersOf(rs, k)), u)), rs)
  {
    hide LatestOf, ReasonCounts, CountReason, MembersOf, Stored;
    var members := MembersOf(rs, k);
    CountedReason(members, Hacking);
    CountedReason(members, ToxicBehaviour);
    CountedReason(members, Griefing);
    CountedReason(members, Other);
    CountedIsStored(rs, k, Hacking);
    CountedIsStored(rs, k, ToxicBehaviour);
    CountedIsStored(rs, k, Griefing);
    CountedIsStored(rs, k, Other);
    var counts := ReasonCounts(members, Reasons(members));
    forall code | code in counts
      ensures 0 <= code <= 3 && counts[code] > 0
    {
      CodesHaveReasons(members, Reasons(members), code);
      var r :| r in Reasons(members) && ReasonToProto(r) == code && counts[code] == CountReason(members, r);
      ProjectMembers(members, (x: Report) => x.reason, r);
      var x :| x in members && x.reason == r;
      PresentReason(members, x);
    }
  }

  lemma RowIsConsistent(rs: seq<Report>, k: Key, u: Option<Named>)
    requires MembersOf(rs, k) != []
    ensures ConsistentRow(ToRow((Group(k, MembersOf(rs, k)), u)), rs)
  {
    var members := MembersOf(rs, k);
    assert k == Key(k.player, k.status);
    CountedReason(members, Hacking);
    CountedReason(members, ToxicBehaviour);
    CountedReason(members, Griefing);
    CountedReason(members, Other);
    AllReasons(members);
    ReasonCountsMeaning(members, Reasons(members), Hacking);
  }

  // ---------------------------------------------------------------- all rows

  function Totals(rows: seq<Row>): nat { if rows == [] then 0 else rows[0].total + Totals(rows[1..]) }

  /** The number of rows one group becomes. */
  function Copies(d: (Group, seq<Named>)): nat { if d.1 == [] then 1 else |d.1| }

  function Weighted(ds: seq<(Group, seq<Named>)>): nat {
    if ds == [] then 0 else Copies(ds[0]) * |ds[0].0.members| + Weighted(ds[1..])
  }

  lemma {:induction false} ProjectAppend(a: seq<(Group, Option<Named>)>, b: seq<(Group, Option<Named>)>)
    ensures Project(a + b, ToRow) == Project(a, ToRow) + Project(b, ToRow)
  {
  }

  lemma {:induction false} TotalsAppend(a: seq<Row>, b: seq<Row>)
    ensures Totals(a + b) == Totals(a) + Totals(b)
  {
    if a == [] {
      assert a + b == b;
    } else {
      assert (a + b)[1..] == a[1..] + b;
      TotalsAppend(a[1..], b);
    }
  }

  lemma {:induction false} SameGroupTotals(g: Group, us: seq<Named>)
    ensures Totals(Project(PairSome(g, us), ToRow)) == |us| * |g.members|
  {
    hide ToRow, LatestOf, ReasonCounts;
    if us != [] {
      SameGroupTotals(g, us[1..]);
      ToRowTotal((g, Some(us[0])));
      assert |us| * |g.members| == |g.members| + |us[1..]| * |g.members|;
      var rows := Project(PairSome(g, us), ToRow);
      assert rows[1..] == Project(PairSome(g, us[1..]), ToRow);
    }
  }

  lemma ToRowTotal(d: (Group, Option<Named>))
    ensures ToRow(d).total == |d.0.members|
  {
  }

  lemma {:induction false} WeightedTotals(ds: seq<(Group, seq<Named>)>)
    ensures Totals(Project(UnwindKeeping(ds), ToRow)) == Weighted(ds)
  {
    hide ToRow;
    if ds != [] {
      WeightedTotals(ds[1..]);
      var head := if ds[0].1 == [] then [(ds[0].0, None)] else PairSome(ds[0].0, ds[0].1);
      ProjectAppend(head, UnwindKeeping(ds[1..]));
      TotalsAppend(Project(head, ToRow), Project(UnwindKeeping(ds[1..]), ToRow));
      if ds[0].1 == [] {
        ToRowTotal((ds[0].0, None));
        assert Project(head, ToRow)[1..] == [];
        assert Copies(ds[0]) * |ds[0].0.members| == |ds[0].0.members|;
      } else {
        SameGroupTotals(ds[0].0, ds[0].1);
      }
    }
  }

  function Sizes(rs: seq<Report>, keys: seq<Key>): nat {
    if keys == [] then 0 else |MembersOf(rs, keys[0])| + Sizes(rs, keys[1..])
  }

  function Ones(k: Key, keys: seq<Key>): nat {
    if keys == [] then 0 else (if keys[0] == k then 1 else 0) + Ones(k, keys[1..])
  }

  lemma {:induction false} DistinctOnes(k: Key, keys: seq<Key>)
    requires Distinct(keys)
    ensures Ones(k, keys) == if k in keys then 1 else 0
  {
    if keys != [] {
      DistinctOnes(k, keys[1..]);
    }
  }

  lemma {:induction false} SizesFirst(rs: seq<Report>, keys: seq<Key>)
    requires rs != []
    ensures Sizes(rs, keys) == Ones(KeyOf(rs[0]), keys) + Sizes(rs[1..], keys)
  {
    if keys != [] {
      SizesFirst(rs, keys[1..]);
    }
  }

  /** Every report is in exactly one group. */
  lemma {:induction false} SizesAddUp(rs: seq<Report>, keys: seq<Key>)
    requires Distinct(keys) && forall r | r in rs :: KeyOf(r) in keys
    ensures Sizes(rs, keys) == |rs|
  {
    if rs == [] {
      NoSizes(keys);
    } else {
      assert rs[0] in rs;
      assert forall r | r in rs[1..] :: r in rs;
      SizesFirst(rs, keys);
      DistinctOnes(KeyOf(rs[0]), keys);
      SizesAddUp(rs[1..], keys);
    }
  }

  lemma {:induction false} NoSizes(keys: seq<Key>)
    ensures Sizes([], keys) == 0
  {
    if keys != [] {
      NoSizes(keys[1..]);
    }
  }

  lemma KeysMeaning(rs: seq<Report>, k: Key)
    ensures k in Keys(rs) <==> MembersOf(rs, k) != []
    ensures k in Keys(rs) <==> exists r | r in rs :: KeyOf(r) == k
  {
    ProjectMembers(rs, (r: Report) => KeyOf(r), k);
    if k in Keys(rs) {
      var r :| r in rs && KeyOf(r) == k;
      assert r in MembersOf(rs, k);
    }
    if MembersOf(rs, k) != [] {
      assert MembersOf(rs, k)[0] in MembersOf(rs, k);
    }
  }

  /** The number of users a row's player is joined with. */
  function UsersOf(users: seq<Named>, player: string): seq<Named> { Match(users, (u: Named) => u.id == player) }

  lemma {:induction false} WeightedSizes(rs: seq<Report>, keys: seq<Key>, ds: seq<(Group, seq<Named>)>)
    requires |ds| == |keys| && forall i | 0 <= i < |ds| :: ds[i].0.members == MembersOf(rs, keys[i]) && ds[i].0.members != []
    ensures Weighted(ds) >= Sizes(rs, keys)
    ensures Weighted(ds) == Sizes(rs, keys) <==> forall d | d in ds :: |d.1| <= 1
  {
    if ds != [] {
      WeightedSizes(rs, keys[1..], ds[1..]);
      var size := |ds[0].0.members|;
      assert ds[0] in ds;
      assert forall d | d in ds :: d == ds[0] || d in ds[1..];
      assert forall d | d in ds[1..] :: d in ds;
      CopiesCount(Copies(ds[0]), size);
    }
  }

  lemma CopiesCount(copies: nat, size: nat)
    requires copies > 0 && size > 0
    ensures copies * size >= size && (copies * size == size <==> copies == 1)
  {
    if copies > 1 {
      assert copies * size == size + (copies - 1) * size;
    }
  }

  /** The totals of all rows add up to the number of reports exactly when no reported player has two user documents;
      otherwise reports are counted more than once. */
  lemma TotalsAreConserved(rs: seq<Report>, users: seq<Named>)
    ensures Totals(ListReportsGrouped(rs, users)) >= |rs|
    ensures Totals(ListReportsGrouped(rs, users)) == |rs| <==> forall r | r in rs :: |UsersOf(users, r.player)| <= 1
  {
    var ds, keys := WithUsers(rs, users), Keys(rs);
    WeightedTotals(ds);
    forall r | r in rs
      ensures KeyOf(r) in keys
    {
      KeysMeaning(rs, KeyOf(r));
    }
    SizesAddUp(rs, keys);
    forall i | 0 <= i < |ds|
      ensures ds[i].0 == Group(keys[i], MembersOf(rs, keys[i])) && ds[i].0.members != [] && ds[i].1 == UsersOf(users, keys[i].player)
    {
      KeysMeaning(rs, keys[i]);
      JoinedUsers(rs, users, i);
    }
    WeightedSizes(rs, keys, ds);
    JoinedOnce(rs, users);
  }

  lemma JoinedUsers(rs: seq<Report>, users: seq<Named>, i: nat)
    requires i < |Keys(rs)|
    ensures i < |WithUsers(rs, users)| && WithUsers(rs, users)[i].1 == UsersOf(users, Keys(rs)[i].player)
  {
    var player := Keys(rs)[i].player;
    LookupAt(GroupBy(rs), users, SameUser(), i, (u: Named) => u.id == player);
    MatchSame(users, (u: Named) => u.id == player, (u: Named) => u.id == Keys(rs)[i].player);
  }

  lemma JoinedOnce(rs: seq<Report>, users: seq<Named>)
    ensures (forall d | d in WithUsers(rs, users) :: |d.1| <= 1) <==> forall r | r in rs :: |UsersOf(users, r.player)| <= 1
  {
    var ds, keys := WithUsers(rs, users), Keys(rs);
    if forall r | r in rs :: |UsersOf(users, r.player)| <= 1 {
      forall d | d in ds
        ensures |d.1| <= 1
      {
        var i :| 0 <= i < |ds| && ds[i] == d;
        JoinedUsers(rs, users, i);
        KeysMeaning(rs, keys[i]);
        var r :| r in rs && KeyOf(r) == keys[i];
      }
    }
    if forall d | d in ds :: |d.1| <= 1 {
      forall r | r in rs
        ensures |UsersOf(users, r.player)| <= 1
      {
        KeysMeaning(rs, KeyOf(r));
        var i :| 0 <= i < |keys| && keys[i] == KeyOf(r);
        JoinedUsers(rs, users, i);
        assert ds[i] in ds;
      }
    }
  }

  lemma {:induction false} KeepingMembers(ds: seq<(Group, seq<Named>)>, g: Group, u: Option<Named>)
    ensures (g, u) in UnwindKeeping(ds) ==> exists d | d in ds :: d.0 == g
  {
    if ds != [] {
      KeepingMembers(ds[1..], g, u);
      assert forall d | d in ds[1..] :: d in ds;
      assert ds[0] in ds;
    }
  }

  /** The group and the user that a row was made of. */
  lemma RowSource(rs: seq<Report>, users: seq<Named>, row: Row) returns (k: Key, u: Option<Named>)
    requires row in ListReportsGrouped(rs, users)
    ensures MembersOf(rs, k) != [] && row == ToRow((Group(k, MembersOf(rs, k)), u))
    ensures (Group(k, MembersOf(rs, k)), u) in UnwindKeeping(WithUsers(rs, users))
  {
    hide ToRow, UnwindKeeping, MembersOf, Keys;
    var docs := UnwindKeeping(WithUsers(rs, users));
    var i :| 0 <= i < |docs| && ListReportsGrouped(rs, users)[i] == row;
    KeepingMembers(WithUsers(rs, users), docs[i].0, docs[i].1);
    assert docs[i] in docs;
    var d :| d in WithUsers(rs, users) && d.0 == docs[i].0;
    var j :| 0 <= j < |WithUsers(rs, users)| && WithUsers(rs, users)[j] == d;
    KeysMeaning(rs, Keys(rs)[j]);
    k, u := Keys(rs)[j], docs[i].1;
  }

  /** Every row tells the truth about its player and status, reason by reason, and its name is one its player has; it has
      none exactly when its player has no user document. */
  lemma RowsAreConsistent(rs: seq<Report>, users: seq<Named>, row: Row)
    requires row in ListReportsGrouped(rs, users)
    ensures ConsistentRow(row, rs) && CountsByReason(row, rs)
    ensures row.name.Some? ==> exists u | u in users :: u.id == row.player && u.name == row.name.value
    ensures row.name.None? <==> forall u | u in users :: u.id != row.player
  {
    hide ListReportsGrouped, WithUsers, UnwindKeeping, MembersOf, ConsistentRow, CountsByReason, ReasonCounts, LatestOf;
    var k, u := RowSource(rs, users, row);
    RowIsConsistent(rs, k, u);
    RowCountsByReason(rs, k, u);
    RowName(rs, users, (Group(k, MembersOf(rs, k)), u));
  }

  lemma {:induction false} KeepingPairs(ds: seq<(Group, seq<Named>)>, g: Group, u: Option<Named>)
    requires (g, u) in UnwindKeeping(ds)
    ensures exists d | d in ds :: d.0 == g && if u.Some? then u.value in d.1 else d.1 == []
  {
    if ds != [] {
      var head := if ds[0].1 == [] then [(ds[0].0, None)] else PairSome(ds[0].0, ds[0].1);
      assert ds[0] in ds && forall d | d in ds[1..] :: d in ds;
      if (g, u) in head {
        var i :| 0 <= i < |head| && head[i] == (g, u);
        assert if u.Some? then u.value in ds[0].1 else ds[0].1 == [];
      } else {
        KeepingPairs(ds[1..], g, u);
      }
    }
  }

  lemma RowName(rs: seq<Report>, users: seq<Named>, doc: (Group, Option<Named>))
    requires doc in UnwindKeeping(WithUsers(rs, users))
    ensures doc.1.Some? ==> doc.1.value in users && doc.1.value.id == doc.0.key.player
    ensures doc.1.None? <==> forall u | u in users :: u.id != doc.0.key.player
  {
    hide GroupBy, UnwindKeeping, Lookup, Keys;
    var ds := WithUsers(rs, users);
    KeepingPairs(ds, doc.0, doc.1);
    var d :| d in ds && d.0 == doc.0 && if doc.1.Some? then doc.1.value in d.1 else d.1 == [];
    var j :| 0 <= j < |ds| && ds[j] == d;
    JoinedUsers(rs, users, j);
    assert doc.0.key == Keys(rs)[j];
    UsersAre(users, doc.0.key.player);
  }

  lemma UsersAre(users: seq<Named>, player: string)
    ensures forall u :: u in UsersOf(users, player) <==> u in users && u.id == player
    ensures UsersOf(users, player) == [] <==> forall u | u in users :: u.id != player
  {
    var found := UsersOf(users, player);
    if found != [] {
      assert found[0] in found;
    }
  }

  /** With one document per user, every player and status that occurs has exactly one row. */
  lemma OneRowPerKey(rs: seq<Report>, users: seq<Named>)
    requires forall r | r in rs :: |UsersOf(users, r.player)| <= 1
    ensures var rows := ListReportsGrouped(rs, users);
            |rows| == |Keys(rs)| && forall i | 0 <= i < |rows| :: Key(rows[i].player, rows[i].status) == Keys(rs)[i]
  {
    JoinedOnce(rs, users);
    UnwoundOnce(WithUsers(rs, users));
  }

  lemma {:induction false} UnwoundOnce(ds: seq<(Group, seq<Named>)>)
    requires forall d | d in ds :: |d.1| <= 1
    ensures |UnwindKeeping(ds)| == |ds| && forall i | 0 <= i < |ds| :: UnwindKeeping(ds)[i].0 == ds[i].0
  {
    if ds != [] {
      assert ds[0] in ds;
      assert forall d | d in ds[1..] :: d in ds;
      UnwoundOnce(ds[1..]);
    }
  }
}
