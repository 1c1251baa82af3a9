/** The addresses a user logged in from: a list of at most six, kept by update, sort and cut. */
module IpHistory {

  datatype UserIP = UserIP(ip: string, firstSeen: int, lastSeen: int)

  const MAX_IPS: nat := 6

  // ---------------------------------------------------------------- the two operations

  function Upsert(ips: seq<UserIP>, ip: string, now: int): seq<UserIP> {
    if ips == [] then [UserIP(ip, now, now)]
    else if ips[0].ip == ip then [ips[0].(lastSeen := now)] + ips[1..]
    else [ips[0]] + Upsert(ips[1..], ip, now)
  }

  function Insert(x: UserIP, sorted: seq<UserIP>): seq<UserIP> {
    if sorted == [] || x.lastSeen > sorted[0].lastSeen then [x] + sorted else [sorted[0]] + Insert(x, sorted[1..])
  }

  /** sort.Slice, latest first. Which sort it is makes no difference while times differ: see SortIsUnique. */
  function Sort(ips: seq<UserIP>): seq<UserIP> {
    if ips == [] then [] else Insert(ips[0], Sort(ips[1..]))
  }

  function Take(ips: seq<UserIP>, max: nat): seq<UserIP> { if |ips| > max then ips[..max] else ips }

  class User {
    var ips: seq<UserIP>

    constructor (ip: string, now: int)
      ensures ips == [UserIP(ip, now, now)]
    {
      ips := [UserIP(ip, now, now)];
    }

    method UpsertIP(ip: string, now: int)
      modifies this
      ensures ips == Upsert(old(ips), ip, now)
    {
      for i := 0 to |ips|
        invariant ips == old(ips)
        invariant ips[..i] + Upsert(ips[i..], ip, now) == Upsert(ips, ip, now)
      {
        if ips[i].ip == ip {
          assert ips[..i] + ([ips[i].(lastSeen := now)] + ips[i..][1..]) == ips[i := ips[i].(lastSeen := now)];
          ips := ips[i := ips[i].(lastSeen := now)];
          return;
        }
        assert ips[..i] + ([ips[i]] + Upsert(ips[i + 1..], ip, now)) == ips[..i + 1] + Upsert(ips[i + 1..], ip, now);
        assert ips[i..][1..] == ips[i + 1..];
      }
      assert ips[..|ips|] == ips && ips[|ips|..] == [];
      ips := ips + [UserIP(ip, now, now)];
    }

    method PruneIPs(max: nat)
      modifies this
      ensures ips == Take(Sort(old(ips)), max)
      ensures TimesDiffer(old(ips)) ==> forall sorted | IsSorting(sorted, old(ips)) :: ips == Take(sorted, max)
    {
      forall sorted | TimesDiffer(ips) && IsSorting(sorted, ips)
        ensures sorted == Sort(ips)
      {
        SortIsUnique(ips, sorted);
      }
      ips := Sort(ips);
      if |ips| > max {
        ips := ips[..max];
      }
    }

    method Login(ip: string, now: int)
      modifies this
      ensures ips == AfterLogin(old(ips), ip, now)
    {
      UpsertIP(ip, now);
      PruneIPs(MAX_IPS);
    }
  }

  function AfterLogin(ips: seq<UserIP>, ip: string, now: int): seq<UserIP> {
    Take(Sort(Upsert(ips, ip, now)), MAX_IPS)
  }

  // ---------------------------------------------------------------- sorting

  predicate LatestFirst(ips: seq<UserIP>) {
    ips == [] || ((forall x | x in ips[1..] :: x.lastSeen <= ips[0].lastSeen) && LatestFirst(ips[1..]))
  }

  /** A list that a sort may return: the same entries, latest first. */
  ghost predicate IsSorting(sorted: seq<UserIP>, ips: seq<UserIP>) {
    multiset(sorted) == multiset(ips) && LatestFirst(sorted)
  }

  predicate TimesDiffer(ips: seq<UserIP>) {
    forall x, y | x in ips && y in ips && x.lastSeen == y.lastSeen :: x == y
  }

  lemma {:induction false} InsertKeeps(x: UserIP, sorted: seq<UserIP>)
    ensures multiset(Insert(x, sorted)) == multiset{x} + multiset(sorted)
    ensures forall y :: y in Insert(x, sorted) <==> y == x || y in sorted
  {
    if sorted != [] {
      InsertKeeps(x, sorted[1..]);
      assert sorted == [sorted[0]] + sorted[1..];
    }
  }

  lemma {:induction false} InsertOrders(x: UserIP, sorted: seq<UserIP>)
    requires LatestFirst(sorted)
    ensures LatestFirst(Insert(x, sorted))
  {
    if sorted == [] || x.lastSeen > sorted[0].lastSeen {
      assert ([x] + sorted)[1..] == sorted;
      assert forall y | y in sorted :: y == sorted[0] || y in sorted[1..];
    } else {
      InsertOrders(x, sorted[1..]);
      InsertKeeps(x, sorted[1..]);
      var more := Insert(x, sorted[1..]);
      assert ([sorted[0]] + more)[1..] == more;
    }
  }

  /** The sort keeps the entries and puts the latest first. */
  lemma {:induction false} SortSorts(ips: seq<UserIP>)
    ensures IsSorting(Sort(ips), ips)
  {
    if ips != [] {
      SortSorts(ips[1..]);
      InsertKeeps(ips[0], Sort(ips[1..]));
      InsertOrders(ips[0], Sort(ips[1..]));
      FirstAndRest(ips);
    }
  }

  lemma FirstAndRest(a: seq<UserIP>)
    requires a != []
    ensures multiset(a) == multiset{a[0]} + multiset(a[1..])
  {
    assert a == [a[0]] + a[1..];
  }

  lemma SameMembers(a: seq<UserIP>, b: seq<UserIP>)
    requires multiset(a) == multiset(b)
    ensures forall x :: x in a <==> x in b
  {
    forall x
      ensures x in a <==> x in b
    {
      assert x in a <==> x in multiset(a);
      assert x in b <==> x in multiset(b);
    }
  }

  lemma SameFirst(a: seq<UserIP>, b: seq<UserIP>)
    requires (forall x :: x in a <==> x in b) && LatestFirst(a) && LatestFirst(b) && TimesDiffer(a) && a != []
    ensures b != [] && a[0] == b[0]
  {
    assert a[0] in b && b[0] in a;
    assert forall x | x in a :: x == a[0] || x in a[1..];
    assert forall x | x in b :: x == b[0] || x in b[1..];
  }

  lemma NotEmptyToo(a: seq<UserIP>, b: seq<UserIP>)
    requires b != [] && forall x :: x in a <==> x in b
    ensures a != []
  {
    assert b[0] in a;
  }

  lemma RestSorted(a: seq<UserIP>)
    requires LatestFirst(a) && a != []
    ensures LatestFirst(a[1..]) && (TimesDiffer(a) ==> TimesDiffer(a[1..]))
  {
    assert forall x | x in a[1..] :: x in a;
  }

  lemma {:induction false} SortingsAgree(a: seq<UserIP>, b: seq<UserIP>)
    requires multiset(a) == multiset(b) && LatestFirst(a) && LatestFirst(b) && TimesDiffer(a)
    ensures a == b
    decreases |a|
  {
    hide LatestFirst, TimesDiffer;
    SameMembers(a, b);
    if b != [] {
      NotEmptyToo(a, b);
    }
    if a != [] {
      SameFirst(a, b);
      FirstAndRest(a);
      FirstAndRest(b);
      assert multiset(a[1..]) == multiset(a) - multiset{a[0]} == multiset(b[1..]);
      RestSorted(a);
      RestSorted(b);
      SortingsAgree(a[1..], b[1..]);
      assert a == [a[0]] + a[1..] && b == [b[0]] + b[1..];
    }
  }

  /** With different times there is only one way to sort, so every sort returns this one. */
  lemma SortIsUnique(ips: seq<UserIP>, sorted: seq<UserIP>)
    requires TimesDiffer(ips) && IsSorting(sorted, ips)
    ensures sorted == Sort(ips)
  {
    hide LatestFirst, Sort;
    SortSorts(ips);
    SameMembers(sorted, ips);
    SortingsAgree(sorted, Sort(ips));
  }

  // ---------------------------------------------------------------- the history itself

  datatype Use = Use(ip: string, time: int)

  predicate Increasing(h: seq<Use>) {
    forall i, j | 0 <= i < j < |h| :: h[i].time < h[j].time
  }

  /** A user is created with his first login; every later one updates the list. */
  function Stored(h: seq<Use>): seq<UserIP>
    requires h != []
  {
    var last := h[|h| - 1];
    if |h| == 1 then [UserIP(last.ip, last.time, last.time)] else AfterLogin(Stored(h[..|h| - 1]), last.ip, last.time)
  }

  function Without(us: seq<Use>, ip: string): (r: seq<Use>)
    ensures forall u :: u in r <==> u in us && u.ip != ip
  {
    if us == [] then [] else if us[0].ip == ip then Without(us[1..], ip) else [us[0]] + Without(us[1..], ip)
  }

  /** All addresses ever used, most recent first, each with its last use. */
  function Recent(h: seq<Use>): seq<Use> {
    if h == [] then [] else
    var last := h[|h| - 1];
    [last] + Without(Recent(h[..|h| - 1]), last.ip)
  }

  predicate IsLastUse(h: seq<Use>, u: Use) {
    u in h && forall v | v in h && v.ip == u.ip :: v.time <= u.time
  }

  /** Latest first, no address twice. */
  predicate Ranked(us: seq<Use>) {
    us == [] || ((forall u | u in us[1..] :: u.time < us[0].time && u.ip != us[0].ip) && Ranked(us[1..]))
  }

  lemma {:induction false} WithoutRanked(us: seq<Use>, ip: string)
    requires Ranked(us)
    ensures Ranked(Without(us, ip))
  {
    if us != [] {
      WithoutRanked(us[1..], ip);
      if us[0].ip != ip {
        assert Without(us, ip)[1..] == Without(us[1..], ip);
      }
    }
  }

  lemma {:induction false} NothingToRemove(us: seq<Use>, ip: string)
    requires forall u | u in us :: u.ip != ip
    ensures Without(us, ip) == us
  {
    if us != [] {
      assert us[0] in us;
      assert forall u | u in us[1..] :: u in us;
      NothingToRemove(us[1..], ip);
    }
  }

  lemma LastUseStep(init: seq<Use>, last: Use, u: Use)
    requires forall v | v in init :: v.time < last.time
    ensures IsLastUse(init + [last], u) <==> u == last || (u.ip != last.ip && IsLastUse(init, u))
  {
    var h := init + [last];
    assert last in h;
    assert forall v | v in h :: v == last || v in init;
    assert forall v | v in init :: v in h;
  }

  /** Recent holds exactly the last use of every address, in order, each once. */
  lemma {:induction false} RecentIsTheHistory(h: seq<Use>)
    requires Increasing(h)
    ensures Ranked(Recent(h)) && forall u :: u in Recent(h) <==> IsLastUse(h, u)
    decreases |h|
  {
    hide IsLastUse;
    if h == [] {
      NoUses();
    } else {
      var init, last := h[..|h| - 1], h[|h| - 1];
      RecentIsTheHistory(init);
      assert h == init + [last];
      WithoutRanked(Recent(init), last.ip);
      forall v | v in init
        ensures v.time < last.time
      {
        var i :| 0 <= i < |init| && init[i] == v;
        assert h[i] == v;
      }
      forall u
        ensures u in Recent(h) <==> IsLastUse(h, u)
      {
        LastUseStep(init, last, u);
      }
      assert Recent(h)[1..] == Without(Recent(init), last.ip);
      forall u | u in Recent(h)[1..]
        ensures u.time < last.time
      {
        LastUseIsUse(init, u);
      }
    }
  }

  lemma NoUses()
    ensures forall u :: !IsLastUse([], u)
  {
  }

  lemma LastUseIsUse(h: seq<Use>, u: Use)
    requires IsLastUse(h, u)
    ensures u in h
  {
  }

  // ---------------------------------------------------------------- the list is its beginning

  function UseOf(x: UserIP): Use { Use(x.ip, x.lastSeen) }

  function Uses(ips: seq<UserIP>): seq<Use> {
    if ips == [] then [] else [UseOf(ips[0])] + Uses(ips[1..])
  }

  lemma {:induction false} UsesMembers(ips: seq<UserIP>, x: UserIP)
    requires x in ips
    ensures UseOf(x) in Uses(ips)
  {
    if x != ips[0] {
      UsesMembers(ips[1..], x);
    }
  }

  /** The entry of an address after a login from it: new, or the old one with a new time. */
  function Entry(ips: seq<UserIP>, ip: string, now: int): UserIP {
    if ips == [] then UserIP(ip, now, now)
    else if ips[0].ip == ip then ips[0].(lastSeen := now)
    else Entry(ips[1..], ip, now)
  }

  function Others(ips: seq<UserIP>, ip: string): (r: seq<UserIP>)
    ensures forall x | x in r :: x in ips
  {
    if ips == [] then [] else if ips[0].ip == ip then Others(ips[1..], ip) else [ips[0]] + Others(ips[1..], ip)
  }

  lemma {:induction false} OthersUses(ips: seq<UserIP>, ip: string)
    ensures Uses(Others(ips, ip)) == Without(Uses(ips), ip)
  {
    if ips != [] {
      OthersUses(ips[1..], ip);
      assert Uses(ips)[1..] == Uses(ips[1..]);
      var rest := Others(ips[1..], ip);
      assert ([ips[0]] + rest)[1..] == rest;
    }
  }

  predicate RankedIps(ips: seq<UserIP>) {
    ips == [] || ((forall x | x in ips[1..] :: x.lastSeen < ips[0].lastSeen && x.ip != ips[0].ip) && RankedIps(ips[1..]))
  }

  lemma {:induction false} RankedUses(ips: seq<UserIP>)
    requires Ranked(Uses(ips))
    ensures RankedIps(ips)
  {
    if ips != [] {
      assert Uses(ips)[1..] == Uses(ips[1..]);
      RankedUses(ips[1..]);
      forall x | x in ips[1..]
        ensures x.lastSeen < ips[0].lastSeen && x.ip != ips[0].ip
      {
        UsesMembers(ips[1..], x);
      }
    }
  }

  lemma {:induction false} SortRanked(ips: seq<UserIP>)
    requires RankedIps(ips)
    ensures Sort(ips) == ips
  {
    if ips != [] {
      SortRanked(ips[1..]);
      assert ips[1..] != [] ==> ips[1..][0] in ips[1..];
      assert ips == [ips[0]] + ips[1..];
    }
  }

  lemma {:induction false} NoOthers(ips: seq<UserIP>, ip: string)
    requires forall x | x in ips :: x.ip != ip
    ensures Others(ips, ip) == ips
  {
    if ips != [] {
      assert ips[0] in ips;
      assert forall x | x in ips[1..] :: x in ips;
      NoOthers(ips[1..], ip);
      assert ips == [ips[0]] + ips[1..];
    }
  }

  /** Update and sort together move the entry of the address to the front and leave the others in order. */
  lemma {:induction false} SortUpsert(ips: seq<UserIP>, ip: string, now: int)
    requires RankedIps(ips) && forall x | x in ips :: x.lastSeen < now
    ensures Sort(Upsert(ips, ip, now)) == [Entry(ips, ip, now)] + Others(ips, ip) && Entry(ips, ip, now).lastSeen == now
    decreases |ips|
  {
    if ips != [] {
      var x, rest := ips[0], ips[1..];
      assert x in ips;
      assert forall y | y in rest :: y in ips;
      if x.ip == ip {
        var e := x.(lastSeen := now);
        NoOthers(rest, ip);
        SortRanked(rest);
        assert ([e] + rest)[1..] == rest;
        InsertFirst(e, rest);
      } else {
        SortUpsert(rest, ip, now);
        var e, others := Entry(rest, ip, now), Others(rest, ip);
        var updated := Upsert(rest, ip, now);
        assert ([x] + updated)[1..] == updated;
        InsertSecond(x, e, others);
      }
    }
  }

  lemma InsertFirst(e: UserIP, rest: seq<UserIP>)
    requires forall x | x in rest :: x.lastSeen < e.lastSeen
    ensures Insert(e, rest) == [e] + rest
  {
    assert rest != [] ==> rest[0] in rest;
  }

  lemma InsertSecond(x: UserIP, e: UserIP, rest: seq<UserIP>)
    requires x.lastSeen < e.lastSeen && forall y | y in rest :: y.lastSeen < x.lastSeen
    ensures Insert(x, [e] + rest) == [e] + ([x] + rest)
  {
    InsertFirst(x, rest);
    assert ([e] + rest)[1..] == rest;
  }

  function Prefix(us: seq<Use>, n: nat): (r: seq<Use>)
    ensures r <= us
  {
    if us == [] || n == 0 then [] else
    assert us == [us[0]] + us[1..];
    [us[0]] + Prefix(us[1..], n - 1)
  }

  lemma {:induction false} TakeUses(ips: seq<UserIP>, n: nat)
    ensures Uses(Take(ips, n)) == Prefix(Uses(ips), n)
  {
    if ips != [] && n > 0 {
      TakeUses(ips[1..], n - 1);
      assert Take(ips, n)[1..] == Take(ips[1..], n - 1);
      assert Uses(ips)[1..] == Uses(ips[1..]);
    }
  }

  lemma WithoutFirst(u: Use, rest: seq<Use>, ip: string)
    ensures Without([u] + rest, ip) == if u.ip == ip then Without(rest, ip) else [u] + Without(rest, ip)
  {
    assert ([u] + rest)[1..] == rest;
  }

  lemma RankedFirst(u: Use, rest: seq<Use>)
    requires Ranked([u] + rest)
    ensures Ranked(rest) && forall v | v in rest :: v.ip != u.ip
  {
    assert ([u] + rest)[1..] == rest;
  }

  lemma CutRemoved(u: Use, rest: seq<Use>, n: nat)
    requires n > 0 && forall v | v in rest :: v.ip != u.ip
    ensures Prefix(Without(Prefix([u] + rest, n + 1), u.ip), n) == Prefix(Without([u] + rest, u.ip), n)
  {
    hide Prefix, Without;
    PrefixFirst(u, rest, n + 1);
    WithoutFirst(u, rest, u.ip);
    WithoutFirst(u, Prefix(rest, n), u.ip);
    NothingToRemove(rest, u.ip);
    NothingToRemove(Prefix(rest, n), u.ip);
    PrefixWhole(rest, n);
  }

  lemma CutKept(u: Use, rest: seq<Use>, ip: string, n: nat)
    requires n > 0 && u.ip != ip && Prefix(Without(Prefix(rest, n), ip), n - 1) == Prefix(Without(rest, ip), n - 1)
    ensures Prefix(Without(Prefix([u] + rest, n + 1), ip), n) == Prefix(Without([u] + rest, ip), n)
  {
    hide Prefix, Without;
    PrefixFirst(u, rest, n + 1);
    WithoutFirst(u, rest, ip);
    WithoutFirst(u, Prefix(rest, n), ip);
    PrefixFirst(u, Without(rest, ip), n);
    PrefixFirst(u, Without(Prefix(rest, n), ip), n);
  }

  /** Cutting before or after an address is taken out gives the same list, one place shorter. */
  lemma {:induction false} CutCommutes(us: seq<Use>, ip: string, n: nat)
    requires Ranked(us)
    ensures Prefix(Without(Prefix(us, n + 1), ip), n) == Prefix(Without(us, ip), n)
    decreases |us|
  {
    hide Prefix, Without, Ranked;
    if us != [] && n > 0 {
      var u, rest := us[0], us[1..];
      assert us == [u] + rest;
      RankedFirst(u, rest);
      if u.ip == ip {
        CutRemoved(u, rest, n);
      } else {
        CutCommutes(rest, ip, n - 1);
        CutKept(u, rest, ip, n);
      }
    } else {
      NothingToCut(us, n, ip);
    }
  }

  lemma NothingToCut(us: seq<Use>, n: nat, ip: string)
    requires us == [] || n == 0
    ensures Prefix(Without(Prefix(us, n + 1), ip), n) == Prefix(Without(us, ip), n)
  {
  }

  lemma {:induction false} PrefixWhole(us: seq<Use>, n: nat)
    ensures Prefix(Prefix(us, n), n) == Prefix(us, n)
  {
    if us != [] && n > 0 {
      PrefixWhole(us[1..], n - 1);
      assert Prefix(us, n)[1..] == Prefix(us[1..], n - 1);
    }
  }

  lemma PrefixFirst(u: Use, rest: seq<Use>, n: nat)
    requires n > 0
    ensures Prefix([u] + rest, n) == [u] + Prefix(rest, n - 1)
  {
    assert ([u] + rest)[1..] == rest;
  }

  lemma LoginMovesToFront(ips: seq<UserIP>, ip: string, now: int)
    requires Ranked(Uses(ips)) && forall x | x in ips :: x.lastSeen < now
    ensures Uses(AfterLogin(ips, ip, now)) == Prefix([Use(ip, now)] + Without(Uses(ips), ip), MAX_IPS)
  {
    RankedUses(ips);
    SortUpsert(ips, ip, now);
    EntryAddress(ips, ip, now);
    OthersUses(ips, ip);
    var all := [Entry(ips, ip, now)] + Others(ips, ip);
    assert all[1..] == Others(ips, ip);
    TakeUses(all, MAX_IPS);
  }

  lemma {:induction false} EntryAddress(ips: seq<UserIP>, ip: string, now: int)
    ensures Entry(ips, ip, now).ip == ip
  {
    if ips != [] && ips[0].ip != ip {
      EntryAddress(ips[1..], ip, now);
    }
  }

  lemma {:induction false} PrefixRanked(us: seq<Use>, n: nat)
    requires Ranked(us)
    ensures Ranked(Prefix(us, n))
  {
    if us != [] && n > 0 {
      PrefixRanked(us[1..], n - 1);
      assert Prefix(us, n)[1..] == Prefix(us[1..], n - 1);
      assert forall u | u in Prefix(us[1..], n - 1) :: u in us[1..];
    }
  }

  lemma StoredIsOlder(h: seq<Use>, now: int)
    requires h != [] && Increasing(h) && Uses(Stored(h)) == Prefix(Recent(h), MAX_IPS) && forall u | u in h :: u.time < now
    ensures forall x | x in Stored(h) :: x.lastSeen < now
  {
    hide IsLastUse, Increasing, Stored, Recent;
    RecentIsTheHistory(h);
    forall x | x in Stored(h)
      ensures x.lastSeen < now
    {
      UsesMembers(Stored(h), x);
      assert UseOf(x) in Recent(h);
      LastUseIsUse(h, UseOf(x));
    }
  }

  /** After any logins at increasing times the stored list is the beginning of the true history: the up to six
      addresses used last, the latest first, none twice, each with the time of its last use. */
  lemma {:induction false} StoredIsRecent(h: seq<Use>)
    requires h != [] && Increasing(h)
    ensures Uses(Stored(h)) == Prefix(Recent(h), 6)
    decreases |h|
  {
    hide IsLastUse, AfterLogin;
    var init, last := h[..|h| - 1], h[|h| - 1];
    if |h| == 1 {
      FirstLogin(h);
    } else {
      StoredIsRecent(init);
      RecentIsTheHistory(init);
      var ips := Stored(init);
      PrefixRanked(Recent(init), MAX_IPS);
      forall u | u in init
        ensures u.time < last.time
      {
        var i :| 0 <= i < |init| && init[i] == u;
        assert h[i] == u;
      }
      StoredIsOlder(init, last.time);
      LoginMovesToFront(ips, last.ip, last.time);
      CutCommutes(Recent(init), last.ip, MAX_IPS - 1);
      PrefixFirst(last, Without(Prefix(Recent(init), MAX_IPS), last.ip), MAX_IPS);
      PrefixFirst(last, Without(Recent(init), last.ip), MAX_IPS);
    }
  }

  lemma {:induction false} RankedTimesDiffer(ips: seq<UserIP>)
    requires RankedIps(ips)
    ensures TimesDiffer(ips)
  {
    if ips != [] {
      RankedTimesDiffer(ips[1..]);
      assert forall x | x in ips :: x == ips[0] || x in ips[1..];
    }
  }

  lemma {:induction false} OthersRanked(ips: seq<UserIP>, ip: string)
    requires RankedIps(ips)
    ensures RankedIps(Others(ips, ip))
  {
    if ips != [] {
      OthersRanked(ips[1..], ip);
      var rest := Others(ips[1..], ip);
      assert ([ips[0]] + rest)[1..] == rest;
    }
  }

  lemma UpsertTimesDiffer(ips: seq<UserIP>, ip: string, now: int)
    requires RankedIps(ips) && forall x | x in ips :: x.lastSeen < now
    ensures TimesDiffer(Upsert(ips, ip, now))
  {
    hide RankedIps, Upsert, Sort;
    SortUpsert(ips, ip, now);
    SortSorts(Upsert(ips, ip, now));
    OthersRanked(ips, ip);
    RankedTimesDiffer(Others(ips, ip));
    SameMembers([Entry(ips, ip, now)] + Others(ips, ip), Upsert(ips, ip, now));
  }

  /** So whatever sort each login uses, the list that the next login stores is the same. */
  lemma AnySortWillDo(h: seq<Use>, ip: string, now: int, sorted: seq<UserIP>)
    requires h != [] && Increasing(h) && (forall u | u in h :: u.time < now)
    requires IsSorting(sorted, Upsert(Stored(h), ip, now))
    ensures Take(sorted, MAX_IPS) == Stored(h + [Use(ip, now)])
  {
    hide Recent, Uses, Upsert, Increasing;
    StoredIsRecent(h);
    StoredIsOlder(h, now);
    RecentIsTheHistory(h);
    PrefixRanked(Recent(h), MAX_IPS);
    RankedUses(Stored(h));
    UpsertTimesDiffer(Stored(h), ip, now);
    SortIsUnique(Upsert(Stored(h), ip, now), sorted);
    assert (h + [Use(ip, now)])[..|h|] == h;
  }

  lemma FirstLogin(h: seq<Use>)
    requires |h| == 1
    ensures Uses(Stored(h)) == Prefix(Recent(h), MAX_IPS)
  {
    assert h[..0] == [] && Recent([]) == [] && [h[0]] + Without([], h[0].ip) == [h[0]];
    assert Stored(h)[1..] == [] && Recent(h)[1..] == [];
  }

  // ---------------------------------------------------------------- since when

  predicate Lists(ips: seq<UserIP>, ip: string) { exists x | x in ips :: x.ip == ip }

  /** Login i was the one from which on the address has been in the list without a break. */
  predicate ListedSince(h: seq<Use>, ip: string, i: nat) {
    i < |h| && h[i].ip == ip && (i == 0 || !Lists(Stored(h[..i]), ip))
    && forall j | i < j <= |h| :: Lists(Stored(h[..j]), ip)
  }

  lemma {:induction false} OthersAreOther(ips: seq<UserIP>, ip: string)
    ensures forall x | x in Others(ips, ip) :: x in ips && x.ip != ip
  {
    if ips != [] {
      OthersAreOther(ips[1..], ip);
    }
  }

  lemma {:induction false} EntryIsOld(ips: seq<UserIP>, ip: string, now: int)
    ensures Lists(ips, ip) ==> exists x | x in ips :: x.ip == ip && Entry(ips, ip, now) == x.(lastSeen := now)
    ensures !Lists(ips, ip) ==> Entry(ips, ip, now) == UserIP(ip, now, now)
  {
    if ips != [] {
      assert ips[0] in ips && forall x | x in ips[1..] :: x in ips;
      assert forall x | x in ips :: x == ips[0] || x in ips[1..];
      if ips[0].ip != ip {
        EntryIsOld(ips[1..], ip, now);
        assert Lists(ips, ip) <==> Lists(ips[1..], ip);
      }
    }
  }

  /** After a login the list holds the entry of its address, and otherwise only entries it held before. */
  lemma EntriesAfterLogin(h: seq<Use>, x: UserIP)
    requires |h| > 1 && Increasing(h) && x in Stored(h)
    ensures var ips, last := Stored(h[..|h| - 1]), h[|h| - 1];
            Entry(ips, last.ip, last.time) in Stored(h) && Entry(ips, last.ip, last.time).ip == last.ip
            && (x == Entry(ips, last.ip, last.time) || (x in ips && x.ip != last.ip))
  {
    hide Recent, Uses, Upsert, Sort, IsLastUse, Entry, Others, Ranked, Prefix;
    var init, last := h[..|h| - 1], h[|h| - 1];
    var ips := Stored(init);
    forall u | u in init
      ensures u.time < last.time
    {
      var i :| 0 <= i < |init| && init[i] == u;
      assert h[i] == u;
    }
    StoredIsRecent(init);
    StoredIsOlder(init, last.time);
    RecentIsTheHistory(init);
    PrefixRanked(Recent(init), MAX_IPS);
    RankedUses(ips);
    SortUpsert(ips, last.ip, last.time);
    EntryAddress(ips, last.ip, last.time);
    OthersAreOther(ips, last.ip);
    var all := [Entry(ips, last.ip, last.time)] + Others(ips, last.ip);
    assert Stored(h) == Take(all, MAX_IPS);
    assert Take(all, MAX_IPS)[0] == all[0];
    assert x in all;
  }

  lemma SinceStays(init: seq<Use>, last: Use, ip: string, i: nat)
    requires ListedSince(init, ip, i) && Lists(Stored(init + [last]), ip)
    ensures ListedSince(init + [last], ip, i)
  {
    hide Stored, Lists;
    var h := init + [last];
    assert h[..i] == init[..i];
    forall j | i < j <= |h|
      ensures Lists(Stored(h[..j]), ip)
    {
      if j <= |init| {
        assert h[..j] == init[..j];
      } else {
        assert h[..j] == h;
      }
    }
  }

  lemma SinceNow(init: seq<Use>, last: Use)
    requires init != [] && !Lists(Stored(init), last.ip) && Lists(Stored(init + [last]), last.ip)
    ensures ListedSince(init + [last], last.ip, |init|)
  {
    hide Stored, Lists;
    var h := init + [last];
    assert h[..|init|] == init && h[..|h|] == h;
  }

  lemma SinceFirst(h: seq<Use>)
    requires |h| == 1
    ensures ListedSince(h, h[0].ip, 0) && Stored(h) == [UserIP(h[0].ip, h[0].time, h[0].time)]
  {
    assert h[..1] == h;
    assert Stored(h)[0] in Stored(h);
  }

  /** The first time that stands beside an address is that of the login since which it has been in the list without a break. */
  lemma {:induction false} FirstSeenIsSince(h: seq<Use>, x: UserIP) returns (i: nat)
    requires h != [] && Increasing(h) && x in Stored(h)
    ensures ListedSince(h, x.ip, i) && h[i].time == x.firstSeen
    decreases |h|
  {
    hide Stored, ListedSince, Entry, Lists;
    if |h| == 1 {
      SinceFirst(h);
      i := 0;
    } else {
      var init, last := h[..|h| - 1], h[|h| - 1];
      assert h == init + [last];
      EntriesAfterLogin(h, x);
      ListsMember(Stored(h), x);
      var ips := Stored(init);
      var e := Entry(ips, last.ip, last.time);
      EntryIsOld(ips, last.ip, last.time);
      if x == e && !Lists(ips, last.ip) {
        i := |init|;
        SinceNow(init, last);
      } else {
        var old' :| old' in ips && old'.ip == x.ip && old'.firstSeen == x.firstSeen;
        i := FirstSeenIsSince(init, old');
        SinceHasPlace(init, x.ip, i);
        SinceStays(init, last, x.ip, i);
      }
    }
  }

  lemma ListsMember(ips: seq<UserIP>, x: UserIP)
    requires x in ips
    ensures Lists(ips, x.ip)
  {
  }

  lemma SinceHasPlace(h: seq<Use>, ip: string, i: nat)
    requires ListedSince(h, ip, i)
    ensures i < |h|
  {
  }
}
