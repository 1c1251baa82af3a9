/** The team shuffle: half the human players to each team, in random order. */
module TeamShuffle {

  class ServerPlayer {
    const isAI: bool
    var teamId: int

    constructor (isAI: bool, teamId: int)
      ensures this.isAI == isAI && this.teamId == teamId
    {
      this.isAI, this.teamId := isAI, teamId;
    }

    method SetTeam(team: int)
      modifies this
      ensures teamId == team
    {
      teamId := team;
    }
  }

  /** The players that are shuffled: those that are there and human. */
  function Humans(list: seq<ServerPlayer?>): (r: seq<ServerPlayer>)
    ensures forall p | p in r :: p in list && !p.isAI
    ensures forall p | p in list :: p != null && !p.isAI ==> p in r
  {
    if list == [] then []
    else if list[0] == null || list[0].isAI then Humans(list[1..])
    else [list[0]] + Humans(list[1..])
  }

  ghost predicate NoDuplicates(list: seq<ServerPlayer?>) {
    forall i, j | 0 <= i < j < |list| && list[i] != null :: list[i] != list[j]
  }

  lemma {:induction false} HumansDistinct(list: seq<ServerPlayer?>)
    requires NoDuplicates(list)
    ensures forall i, j | 0 <= i < j < |Humans(list)| :: Humans(list)[i] != Humans(list)[j]
  {
    if list != [] {
      HumansDistinct(list[1..]);
      var rest := Humans(list[1..]);
      forall p | p in rest
        ensures list[0] != p
      {
        var k :| 0 <= k < |list[1..]| && list[1..][k] == p;
        assert list[k + 1] == p;
      }
    }
  }

  // ---------------------------------------------------------------- the shuffle

  function Swap(s: seq<int>, i: nat, j: nat): (r: seq<int>)
    requires i < |s| && j < |s|
    ensures |r| == |s| && r[i] == s[j] && r[j] == s[i] && forall k | 0 <= k < |s| && k != i && k != j :: r[k] == s[k]
  {
    s[i := s[j]][j := s[i]]
  }

  lemma SwapKeepsElements(s: seq<int>, i: nat, j: nat)
    requires i < |s| && j < |s|
    ensures multiset(Swap(s, i, j)) == multiset(s)
  {
  }

  /** The place a random number stands for among the first n. */
  function Place(draw: nat, n: nat): (j: nat)
    requires n > 0
    ensures j < n
  {
    draw % n
  }

  lemma PlaceOfSmall(j: nat, n: nat)
    requires j < n
    ensures Place(j, n) == j
  {
  }

  /** Fisher-Yates on the first n places, one random draw for each, from the last place down. */
  function Shuffled(s: seq<int>, n: nat, draws: seq<nat>): (r: seq<int>)
    requires n <= |s| && n <= |draws|
    ensures |r| == |s|
    decreases n
  {
    if n == 0 then s else Shuffled(Swap(s, n - 1, Place(draws[0], n)), n - 1, draws[1..])
  }

  lemma ShuffledStep(s: seq<int>, n: nat, draws: seq<nat>)
    requires 0 < n <= |s| && n <= |draws|
    ensures Shuffled(s, n, draws) == Shuffled(Swap(s, n - 1, Place(draws[0], n)), n - 1, draws[1..])
  {
    hide Place, Swap;
  }

  /** Shuffling keeps the elements and moves none from behind the first n places. */
  lemma {:induction false} ShuffledKeeps(s: seq<int>, n: nat, draws: seq<nat>)
    requires n <= |s| && n <= |draws|
    ensures multiset(Shuffled(s, n, draws)) == multiset(s)
    ensures forall k | n <= k < |s| :: Shuffled(s, n, draws)[k] == s[k]
    decreases n
  {
    hide Place;
    if n > 0 {
      var j := Place(draws[0], n);
      SwapKeepsElements(s, n - 1, j);
      ShuffledKeeps(Swap(s, n - 1, j), n - 1, draws[1..]);
    }
  }

  /** The list before shuffling: the larger half first. */
  function Halves(n: nat): (r: seq<int>)
    ensures |r| == n && forall i | 0 <= i < n :: r[i] == if i < n - n / 2 then 1 else 2
  {
    seq(n - n / 2, _ => 1) + seq(n / 2, _ => 2)
  }

  method ShuffleInPlace(a: array<int>, draws: seq<nat>)
    requires a.Length <= |draws|
    modifies a
    ensures a[..] == Shuffled(old(a[..]), a.Length, draws)
  {
    hide Shuffled, Place, Swap;
    var i, drawn := a.Length - 1, 0;
    ghost var left := draws;
    assert draws[0..] == draws;
    while i >= 0
      invariant -1 <= i < a.Length && drawn == a.Length - 1 - i && left == draws[drawn..]
      invariant Shuffled(a[..], i + 1, left) == Shuffled(old(a[..]), a.Length, draws)
      decreases i
    {
      var j := Place(draws[drawn], i + 1);
      ghost var now := a[..];
      ShuffledStep(now, i + 1, left);
      a[i], a[j] := a[j], a[i];
      assert a[..] == Swap(now, i, j);
      i, drawn := i - 1, drawn + 1;
      left := left[1..];
    }
    NothingLeft(a[..], left);
  }

  lemma NothingLeft(s: seq<int>, draws: seq<nat>)
    ensures Shuffled(s, 0, draws) == s
  {
  }

  function TeamsOf(players: seq<ServerPlayer>): (r: seq<int>)
    reads players
    ensures |r| == |players| && forall i | 0 <= i < |players| :: r[i] == players[i].teamId
  {
    if players == [] then [] else [players[0].teamId] + TeamsOf(players[1..])
  }

  method CollectHumans(playerList: seq<ServerPlayer?>) returns (players: seq<ServerPlayer>)
    ensures players == Humans(playerList)
  {
    players := [];
    for k := 0 to |playerList|
      invariant players + Humans(playerList[k..]) == Humans(playerList)
    {
      var p := playerList[k];
      assert playerList[k..][1..] == playerList[k + 1..];
      if p == null || p.isAI {
        continue;
      }
      assert players + ([p] + Humans(playerList[k + 1..])) == players + [p] + Humans(playerList[k + 1..]);
      players := players + [p];
    }
    assert players + [] == players;
  }

  method FillHalves(playerCount: nat) returns (randomTeamList: array<int>)
    ensures fresh(randomTeamList) && randomTeamList[..] == Halves(playerCount)
  {
    randomTeamList := new int[playerCount](_ => 0);
    for i := 0 to playerCount - playerCount / 2
      invariant forall k | 0 <= k < i :: randomTeamList[k] == 1
    {
      randomTeamList[i] := 1;
    }
    for i := playerCount - playerCount / 2 to playerCount
      invariant forall k | 0 <= k < i :: randomTeamList[k] == if k < playerCount - playerCount / 2 then 1 else 2
    {
      randomTeamList[i] := 2;
    }
    assert randomTeamList[..] == Halves(playerCount);
  }

  /** Whatever is drawn, every human player gets one place of a shuffled half-and-half list, so the teams differ by at
      most one player; nobody else changes. */
  method ShuffleTeams(playerList: seq<ServerPlayer?>, draws: seq<nat>)
    requires NoDuplicates(playerList) && |Humans(playerList)| <= |draws|
    modifies Humans(playerList)
    ensures TeamsOf(Humans(playerList)) == Shuffled(Halves(|Humans(playerList)|), |Humans(playerList)|, draws)
    ensures var n, teams := |Humans(playerList)|, multiset(TeamsOf(Humans(playerList)));
            teams[1] == n - n / 2 && teams[2] == n / 2
  {
    hide Shuffled, Halves, Humans, TeamsOf;
    var players := CollectHumans(playerList);
    HumansDistinct(playerList);
    var randomTeamList := FillHalves(|players|);
    ShuffleInPlace(randomTeamList, draws);
    ghost var teams := randomTeamList[..];
    assert |teams| == |players|;
    for i := 0 to |players|
      invariant randomTeamList[..] == teams
      invariant forall k | 0 <= k < i :: players[k].teamId == teams[k]
    {
      players[i].SetTeam(randomTeamList[i]);
    }
    assert TeamsOf(players) == teams;
    TeamsAreBalanced(|players|, draws);
  }

  // ---------------------------------------------------------------- what the shuffle guarantees

  lemma HalvesCount(n: nat)
    ensures multiset(Halves(n))[1] == n - n / 2 && multiset(Halves(n))[2] == n / 2
  {
    Repeated(n - n / 2, 1, 1);
    Repeated(n - n / 2, 1, 2);
    Repeated(n / 2, 2, 1);
    Repeated(n / 2, 2, 2);
    assert multiset(Halves(n)) == multiset(seq(n - n / 2, _ => 1)) + multiset(seq(n / 2, _ => 2));
  }

  lemma {:induction false} Repeated(n: nat, x: int, y: int)
    ensures multiset(seq(n, _ => x))[y] == if y == x then n else 0
  {
    if n > 0 {
      Repeated(n - 1, x, y);
      assert seq(n, _ => x) == seq(n - 1, _ => x) + [x];
    } else {
      assert seq(n, _ => x) == [];
    }
  }

  /** For every sequence of draws the teams differ by at most one player, the first being the larger. */
  lemma TeamsAreBalanced(n: nat, draws: seq<nat>)
    requires n <= |draws|
    ensures var teams := Shuffled(Halves(n), n, draws);
            multiset(teams)[1] == n - n / 2 && multiset(teams)[2] == n / 2 && forall t | t in teams :: t == 1 || t == 2
  {
    HalvesCount(n);
    ShuffledKeeps(Halves(n), n, draws);
    var teams := Shuffled(Halves(n), n, draws);
    forall t | t in teams
      ensures t == 1 || t == 2
    {
      assert t in multiset(teams);
      assert t in Halves(n);
    }
  }

  lemma SwapPuts(s: seq<int>, n: nat, j: nat, target: seq<int>)
    requires j < n <= |s| == |target| && s[j] == target[n - 1] && forall k | n <= k < |s| :: s[k] == target[k]
    ensures forall k | n - 1 <= k < |s| :: Swap(s, n - 1, j)[k] == target[k]
  {
    hide Swap;
  }

  /** The first draw chooses the place, the others shuffle the rest. */
  lemma DrawThenShuffle(s: seq<int>, n: nat, j: nat, more: seq<nat>)
    requires j < n <= |s| && n - 1 <= |more|
    ensures Shuffled(s, n, [j] + more) == Shuffled(Swap(s, n - 1, j), n - 1, more)
  {
    hide Shuffled, Swap, Place;
    PlaceOfSmall(j, n);
    ShuffledStep(s, n, [j] + more);
    assert ([j] + more)[1..] == more;
  }

  /** No arrangement is ruled out: each one with the same elements comes up for some draws. */
  lemma {:induction false} EveryArrangementCanComeUp(s: seq<int>, n: nat, target: seq<int>) returns (draws: seq<nat>)
    requires n <= |s| == |target| && multiset(s) == multiset(target)
    requires forall k | n <= k < |s| :: s[k] == target[k]
    ensures n <= |draws| && Shuffled(s, n, draws) == target
    decreases n
  {
    hide Shuffled, Swap;
    if n == 0 {
      draws := [];
      NothingLeft(s, draws);
      assert s == target;
    } else {
      var j := SameInFront(s, n, target);
      SwapKeepsElements(s, n - 1, j);
      SwapPuts(s, n, j, target);
      var more := EveryArrangementCanComeUp(Swap(s, n - 1, j), n - 1, target);
      draws := [j] + more;
      DrawThenShuffle(s, n, j, more);
    }
  }

  lemma SameInFront(s: seq<int>, n: nat, target: seq<int>) returns (j: nat)
    requires 0 < n <= |s| == |target| && multiset(s) == multiset(target)
    requires forall k | n <= k < |s| :: s[k] == target[k]
    ensures j < n && s[j] == target[n - 1]
  {
    assert s == s[..n] + s[n..] && target == target[..n] + target[n..];
    assert s[n..] == target[n..];
    var front, front', back := multiset(s[..n]), multiset(target[..n]), multiset(s[n..]);
    assert multiset(s) == front + back && multiset(target) == front' + back;
    assert front == (front + back) - back && front' == (front' + back) - back;
    assert target[n - 1] == target[..n][n - 1];
    assert target[n - 1] in front';
    assert target[n - 1] in s[..n];
    j :| 0 <= j < n && s[..n][j] == target[n - 1];
  }
}
