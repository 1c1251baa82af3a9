/** The meaning of the aggregation stages the repositories use, on sequences of documents. */
module Pipeline {
  import opened Strings

  /** $match */
  function Match<T(!new)>(docs: seq<T>, p: T -> bool): (r: seq<T>)
    ensures forall d :: d in r <==> d in docs && p(d)
  {
    if docs == [] then [] else (if p(docs[0]) then [docs[0]] else []) + Match(docs[1..], p)
  }

  lemma {:induction false} MatchSame<T(!new)>(docs: seq<T>, p: T -> bool, q: T -> bool)
    requires forall d | d in docs :: p(d) == q(d)
    ensures Match(docs, p) == Match(docs, q)
  {
    if docs != [] {
      assert docs[0] in docs;
      assert forall d | d in docs[1..] :: d in docs;
      MatchSame(docs[1..], p, q);
    }
  }

  /** $project */
  function Project<T, U>(docs: seq<T>, f: T -> U): (r: seq<U>)
    ensures |r| == |docs| && forall i | 0 <= i < |docs| :: r[i] == f(docs[i])
  {
    if docs == [] then [] else [f(docs[0])] + Project(docs[1..], f)
  }

  /** $lookup: every document with the list of those that join it. */
  function Lookup<T, F(!new)>(docs: seq<T>, from: seq<F>, on: (T, F) -> bool): (r: seq<(T, seq<F>)>)
    ensures |r| == |docs| && forall i | 0 <= i < |docs| :: r[i] == (docs[i], Match(from, f => on(docs[i], f)))
  {
    if docs == [] then [] else [(docs[0], Match(from, f => on(docs[0], f)))] + Lookup(docs[1..], from, on)
  }

  lemma {:induction false} LookupAt<T, F(!new)>(docs: seq<T>, from: seq<F>, on: (T, F) -> bool, i: nat, q: F -> bool)
    requires i < |docs| && forall f | f in from :: on(docs[i], f) == q(f)
    ensures Lookup(docs, from, on)[i] == (docs[i], Match(from, q))
  {
    if i == 0 {
      MatchSame(from, f => on(docs[0], f), q);
      assert Lookup(docs, from, on)[0] == (docs[0], Match(from, f => on(docs[0], f)));
    } else {
      LookupAt(docs[1..], from, on, i - 1, q);
    }
  }

  function Pair<T, F>(d: T, fs: seq<F>): (r: seq<(T, F)>)
    ensures |r| == |fs| && forall i | 0 <= i < |fs| :: r[i] == (d, fs[i])
  {
    if fs == [] then [] else [(d, fs[0])] + Pair(d, fs[1..])
  }

  /** $unwind: one document per element; documents with an empty list vanish. */
  function Unwind<T, F>(docs: seq<(T, seq<F>)>): seq<(T, F)> {
    if docs == [] then [] else Pair(docs[0].0, docs[0].1) + Unwind(docs[1..])
  }

  function PairSome<T, F>(d: T, fs: seq<F>): (r: seq<(T, Option<F>)>)
    ensures |r| == |fs| && forall i | 0 <= i < |fs| :: r[i] == (d, Some(fs[i]))
  {
    if fs == [] then [] else [(d, Some(fs[0]))] + PairSome(d, fs[1..])
  }

  /** $unwind with preserveNullAndEmptyArrays: a document with an empty list stays, without an element. */
  function UnwindKeeping<T, F>(docs: seq<(T, seq<F>)>): seq<(T, Option<F>)> {
    if docs == [] then [] else
    (if docs[0].1 == [] then [(docs[0].0, None)] else PairSome(docs[0].0, docs[0].1)) + UnwindKeeping(docs[1..])
  }

  predicate Distinct<T(==)>(s: seq<T>) {
    forall i, j | 0 <= i < j < |s| :: s[i] != s[j]
  }

  function Dedup<T(==,!new)>(s: seq<T>): (r: seq<T>)
    ensures Distinct(r) && forall x :: x in r <==> x in s
  {
    if s == [] then [] else
    var r := Dedup(s[..|s| - 1]);
    var last := s[|s| - 1];
    assert s == s[..|s| - 1] + [last];
    if last in r then r else r + [last]
  }

  /** $setUnion */
  function SetUnion<T(==,!new)>(a: seq<T>, b: seq<T>): (r: seq<T>)
    ensures Distinct(r) && forall x :: x in r <==> x in a || x in b
  {
    Dedup(a + b)
  }

  lemma {:induction false} UnwindMembers<T, F>(docs: seq<(T, seq<F>)>, d: T, f: F)
    ensures (d, f) in Unwind(docs) <==> exists e | e in docs :: e.0 == d && f in e.1
  {
    if docs != [] {
      UnwindMembers(docs[1..], d, f);
      var head := Pair(docs[0].0, docs[0].1);
      assert (d, f) in head <==> docs[0].0 == d && f in docs[0].1 by {
        if docs[0].0 == d && f in docs[0].1 {
          var i :| 0 <= i < |docs[0].1| && docs[0].1[i] == f;
          assert head[i] == (d, f);
        }
      }
      assert docs[0] in docs;
      assert forall e | e in docs :: e == docs[0] || e in docs[1..];
      assert forall e | e in docs[1..] :: e in docs;
    }
  }

  /** $lookup then $unwind is a join. */
  lemma JoinMembers<T, F(!new)>(docs: seq<T>, from: seq<F>, on: (T, F) -> bool, d: T, f: F)
    ensures (d, f) in Unwind(Lookup(docs, from, on)) <==> d in docs && f in from && on(d, f)
  {
    var joined := Lookup(docs, from, on);
    UnwindMembers(joined, d, f);
    if d in docs && f in from && on(d, f) {
      var i :| 0 <= i < |docs| && docs[i] == d;
      assert joined[i] in joined;
      assert f in joined[i].1;
    }
    if exists e | e in joined :: e.0 == d && f in e.1 {
      var e :| e in joined && e.0 == d && f in e.1;
      var i :| 0 <= i < |joined| && joined[i] == e;
      assert docs[i] in docs;
    }
  }

  lemma ProjectMembers<T, U(!new)>(docs: seq<T>, f: T -> U, u: U)
    ensures u in Project(docs, f) <==> exists d | d in docs :: f(d) == u
  {
    if exists d | d in docs :: f(d) == u {
      var d :| d in docs && f(d) == u;
      var i :| 0 <= i < |docs| && docs[i] == d;
      assert Project(docs, f)[i] == u;
    }
    if u in Project(docs, f) {
      var i :| 0 <= i < |docs| && Project(docs, f)[i] == u;
      assert docs[i] in docs;
    }
  }
}
