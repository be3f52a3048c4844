/**
 * Specification of the Mian–Chowla sequence: the greedy B2 (Sidon) sequence
 * 1, 2, 4, 8, 13, 21, ... in which every new term is the least integer above
 * the previous one whose differences with all earlier terms are new.
 *
 * Everything is stated on the sequence of terms generated so far; the
 * generator class in module VorpalMath keeps its state equal to these
 * definitions.
 */
module MianChowlaSpec {

  /** Terms are strictly increasing. */
  ghost predicate Increasing(s: seq<nat>) {
    forall i, j :: 0 <= i < j < |s| ==> s[i] < s[j]
  }

  function Last(s: seq<nat>): nat
    requires s != []
  {
    s[|s| - 1]
  }

  function Init(s: seq<nat>): seq<nat>
    requires s != []
  {
    s[..|s| - 1]
  }

  /** The first candidate the greedy search tries after the terms `s`. */
  function Start(s: seq<nat>): nat {
    if s == [] then 1 else Last(s) + 1
  }

  /** The differences that the value `c` makes with every element of `s`. */
  function Gaps(c: nat, s: seq<nat>): set<nat>
    requires forall j :: 0 <= j < |s| ==> s[j] <= c
  {
    set j | 0 <= j < |s| :: c - s[j]
  }

  /**
   * All differences of `s`, accumulated term by term: the differences of the
   * earlier terms together with those the last term makes with them.
   */
  function Diffs(s: seq<nat>): set<nat>
    requires Increasing(s)
    decreases |s|
  {
    if s == [] then {} else Diffs(Init(s)) + Gaps(Last(s), Init(s))
  }

  /** The differences term `k` makes with the (lower-valued) terms before it. */
  function ForTerm(s: seq<nat>, k: nat): set<nat>
    requires Increasing(s) && k < |s|
  {
    Gaps(s[k], s[..k])
  }

  /** Independent definition: `x` is the difference of two terms of `s`. */
  ghost predicate IsDiff(s: seq<nat>, x: nat) {
    exists a, b :: 0 <= a < b < |s| && s[b] == s[a] + x
  }

  /** The collision test of the search: no difference of `c` with a term is recorded. */
  ghost predicate Clear(s: seq<nat>, c: nat)
    requires Increasing(s)
  {
    forall j :: 0 <= j < |s| ==> c - s[j] !in Diffs(s)
  }

  /** `c` is the term the greedy search accepts after `s`: the least clear candidate from Start(s). */
  ghost predicate IsNext(s: seq<nat>, c: nat)
    requires Increasing(s)
  {
    Start(s) <= c && Clear(s, c) && forall x :: Start(s) <= x < c ==> !Clear(s, x)
  }

  /** `s` is an initial segment of the Mian–Chowla sequence: every term is the one the search accepts. */
  ghost predicate MianChowlaPrefix(s: seq<nat>)
    decreases |s|
  {
    Increasing(s) && (s == [] || (MianChowlaPrefix(Init(s)) && IsNext(Init(s), Last(s))))
  }

  /** The difference of terms `a` and `b` of `s`. */
  function PairGap(s: seq<nat>, a: nat, b: nat): int
    requires a < b < |s|
  {
    s[b] as int - s[a] as int
  }

  /** No two distinct pairs of terms have the same difference (the B2 property). */
  ghost predicate Sidon(s: seq<nat>) {
    forall a, b, c, d ::
      0 <= a < b < |s| && 0 <= c < d < |s| && PairGap(s, a, b) == PairGap(s, c, d) ==> a == c && b == d
  }

  // ---------------------------------------------------------------------------
  // Growing a sequence by one term

  lemma DiffsSnoc(s: seq<nat>, c: nat)
    requires Increasing(s + [c])
    ensures Increasing(s) && (forall j :: 0 <= j < |s| ==> s[j] <= c)
    ensures Diffs(s + [c]) == Diffs(s) + Gaps(c, s)
  {
    var t := s + [c];
    assert Init(t) == s && Last(t) == c;
    assert forall j :: 0 <= j < |s| ==> s[j] == t[j] && t[j] < t[|s|];
    assert Diffs(t) == Diffs(Init(t)) + Gaps(Last(t), Init(t));
  }

  lemma GapsStep(c: nat, s: seq<nat>, m: nat)
    requires m < |s| && forall j :: 0 <= j < |s| ==> s[j] <= c
    ensures Gaps(c, s[..m + 1]) == Gaps(c, s[..m]) + {c - s[m]}
  {
    var p := s[..m + 1];
    assert p[m] == s[m];
    assert forall x :: x in Gaps(c, s[..m]) ==> x in Gaps(c, p) by {
      forall x | x in Gaps(c, s[..m]) ensures x in Gaps(c, p) {
        var j :| 0 <= j < m && x == c - s[..m][j];
        assert x == c - p[j];
      }
    }
  }

  lemma GapsSnoc(c: nat, s: seq<nat>, x: nat)
    requires x <= c && forall j :: 0 <= j < |s| ==> s[j] <= c
    ensures Gaps(c, s + [x]) == Gaps(c, s) + {c - x}
  {
    GapsStep(c, s + [x], |s|);
    assert (s + [x])[..|s| + 1] == s + [x];
    assert (s + [x])[..|s|] == s;
  }

  /** Every candidate the search tries lies above all terms. */
  lemma AboveAll(s: seq<nat>, c: nat)
    requires Increasing(s) && Start(s) <= c
    ensures forall j :: 0 <= j < |s| ==> s[j] < c
  {
  }

  /** A difference set without collision: |Gaps(c, s)| == |s| for increasing `s`. */
  lemma {:induction false} GapsCard(c: nat, s: seq<nat>)
    requires Increasing(s) && Start(s) <= c
    ensures |Gaps(c, s)| == |s|
    decreases |s|
  {
    if s != [] {
      var p := Init(s);
      assert s == p + [Last(s)];
      assert Increasing(p);
      GapsCard(c, p);
      GapsSnoc(c, p, Last(s));
      assert c - Last(s) !in Gaps(c, p);
    }
  }

  /** Clear is exactly: the new differences are disjoint from the recorded ones. */
  lemma ClearDisjoint(s: seq<nat>, c: nat)
    requires Increasing(s) && Start(s) <= c
    ensures Clear(s, c) <==> Gaps(c, s) !! Diffs(s)
  {
    if !Clear(s, c) {
      var j :| 0 <= j < |s| && c - s[j] in Diffs(s);
      assert c - s[j] in Gaps(c, s);
    }
  }

  lemma IncreasingPrefix(s: seq<nat>, n: nat)
    requires Increasing(s) && n <= |s|
    ensures Increasing(s[..n])
  {
  }

  /** Appending the accepted term keeps a Mian–Chowla prefix. */
  lemma Extend(s: seq<nat>, c: nat)
    requires MianChowlaPrefix(s) && IsNext(s, c)
    ensures MianChowlaPrefix(s + [c])
  {
    assert Init(s + [c]) == s;
  }

  /**
   * What accepting the next term does to the differences: its gaps to the
   * earlier terms are all new and pairwise distinct, and they are added.
   */
  lemma Accept(s: seq<nat>, c: nat)
    requires MianChowlaPrefix(s) && IsNext(s, c)
    ensures MianChowlaPrefix(s + [c]) && forall j :: 0 <= j < |s| ==> s[j] < c
    ensures Gaps(c, s) !! Diffs(s) && |Gaps(c, s)| == |s|
    ensures Diffs(s + [c]) == Diffs(s) + Gaps(c, s)
  {
    Extend(s, c);
    DiffsSnoc(s, c);
    ClearDisjoint(s, c);
    GapsCard(c, s);
  }

  lemma NextState(s: seq<nat>, ds: set<nat>, c: nat, g: set<nat>, s': seq<nat>, ds': set<nat>)
    requires MianChowlaPrefix(s) && ds == Diffs(s) && IsNext(s, c)
    requires (forall j :: 0 <= j < |s| ==> s[j] < c) && g == Gaps(c, s)
    requires s' == s + [c] && ds' == ds + g
    ensures MianChowlaPrefix(s') && ds' == Diffs(s') && |g| == |s| && g !! ds
  {
    Accept(s, c);
  }

  lemma {:induction false} PrefixClosed(s: seq<nat>, n: nat)
    requires MianChowlaPrefix(s) && n <= |s|
    ensures MianChowlaPrefix(s[..n])
    decreases |s| - n
  {
    if n < |s| {
      PrefixClosed(Init(s), n);
      assert Init(s)[..n] == s[..n];
    } else {
      assert s[..n] == s;
    }
  }

  /** Greedy minimality at every index: term `k` is the least clear candidate after the terms before it. */
  lemma GreedyAt(s: seq<nat>, k: nat)
    requires MianChowlaPrefix(s) && k < |s|
    ensures Increasing(s[..k]) && IsNext(s[..k], s[k])
  {
    var q := s[..k + 1];
    PrefixClosed(s, k + 1);
    assert q != [] && Init(q) == s[..k] && Last(q) == s[k];
  }

  /** The accepted term is determined by the terms before it. */
  lemma NextUnique(s: seq<nat>, c1: nat, c2: nat)
    requires Increasing(s) && IsNext(s, c1) && IsNext(s, c2)
    ensures c1 == c2
  {
  }

  /**
   * The Mian–Chowla sequence is unique: two states of the generator agree on
   * every index both have computed.
   */
  lemma {:induction false} Unique(s: seq<nat>, t: seq<nat>)
    requires MianChowlaPrefix(s) && MianChowlaPrefix(t) && |s| <= |t|
    ensures s == t[..|s|]
    decreases |t|
  {
    if |s| < |t| {
      Unique(s, Init(t));
      assert Init(t)[..|s|] == t[..|s|];
    } else if s != [] {
      Unique(Init(s), Init(t));
      assert Init(t)[..|Init(s)|] == Init(t);
      NextUnique(Init(s), Last(s), Last(t));
      assert s == Init(s) + [Last(s)];
      assert t == Init(t) + [Last(t)];
      assert t[..|s|] == t;
    }
  }

  /** Index `k` of the Mian–Chowla sequence is the same in every prefix that reaches it. */
  lemma AgreeAt(s: seq<nat>, t: seq<nat>, k: nat)
    requires MianChowlaPrefix(s) && MianChowlaPrefix(t) && k < |s| && k < |t|
    ensures s[k] == t[k]
  {
    if |s| <= |t| {
      Unique(s, t);
    } else {
      Unique(t, s);
    }
  }

  /** The first term of every non-empty prefix is 1. */
  lemma {:induction false} FirstIsOne(s: seq<nat>)
    requires MianChowlaPrefix(s) && s != []
    ensures s[0] == 1
    decreases |s|
  {
    if |s| == 1 {
      assert Init(s) == [];
      if s[0] != 1 {
        assert Clear([], 1);
      }
    } else {
      FirstIsOne(Init(s));
    }
  }

  // ---------------------------------------------------------------------------
  // The accumulated differences

  /** Every difference of two terms is recorded in Diffs. */
  lemma {:induction false} DiffsComplete(s: seq<nat>, x: nat)
    requires Increasing(s) && IsDiff(s, x)
    ensures x in Diffs(s)
    decreases |s|
  {
    var p := Init(s);
    var a, b :| 0 <= a < b < |s| && s[b] == s[a] + x;
    assert Increasing(p);
    if b < |s| - 1 {
      assert p[b] == p[a] + x;
      DiffsComplete(p, x);
    } else {
      assert x == Last(s) - p[a];
      assert x in Gaps(Last(s), p);
    }
  }

  /** Everything recorded in Diffs is the difference of two terms. */
  lemma {:induction false} DiffsSound(s: seq<nat>, x: nat)
    requires Increasing(s) && x in Diffs(s)
    ensures IsDiff(s, x)
    decreases |s|
  {
    var p := Init(s);
    assert Increasing(p);
    if x in Diffs(p) {
      DiffsSound(p, x);
      var a, b :| 0 <= a < b < |p| && p[b] == p[a] + x;
      assert s[b] == s[a] + x;
    } else {
      assert x in Gaps(Last(s), p);
      var a :| 0 <= a < |p| && x == Last(s) - p[a];
      assert s[|s| - 1] == s[a] + x;
    }
  }

  /** Diffs agrees with the pairwise definition: `x` is recorded iff it is the difference of two terms. */
  lemma DiffsAreDifferences(s: seq<nat>)
    requires Increasing(s)
    ensures forall x :: x in Diffs(s) <==> IsDiff(s, x)
  {
    forall x ensures x in Diffs(s) <==> IsDiff(s, x) {
      if x in Diffs(s) {
        DiffsSound(s, x);
      }
      if IsDiff(s, x) {
        DiffsComplete(s, x);
      }
    }
  }

  /** Every difference of a prefix is a difference of the whole sequence. */
  lemma {:induction false} DiffsPrefix(s: seq<nat>, n: nat)
    requires Increasing(s) && n <= |s|
    ensures Increasing(s[..n]) && Diffs(s[..n]) <= Diffs(s)
    decreases |s| - n
  {
    if n < |s| {
      var p, q := s[..n], s[..n + 1];
      assert q == p + [s[n]];
      DiffsPrefix(s, n + 1);
      DiffsSnoc(p, s[n]);
    } else {
      assert s[..n] == s;
    }
  }

  /** Adding term `k` to the prefix before it adds exactly ForTerm(s, k). */
  lemma DiffsUpTo(s: seq<nat>, k: nat)
    requires Increasing(s) && k < |s|
    ensures Increasing(s[..k + 1]) && Increasing(s[..k])
    ensures Diffs(s[..k + 1]) == Diffs(s[..k]) + ForTerm(s, k)
  {
    assert s[..k] + [s[k]] == s[..k + 1];
    DiffsSnoc(s[..k], s[k]);
  }

  /**
   * One step of recomputing the differences up to an index: adding the
   * differences of term `i` to those of the terms before it. The earlier
   * differences may have been computed on a shorter state `s`.
   */
  lemma DiffsToStep(s: seq<nat>, t: seq<nat>, i: nat, acc: set<nat>)
    requires Increasing(s) && Increasing(t) && s <= t && 1 <= i < |t|
    requires if i == 1 then acc == {} else i <= |s| && acc == Diffs(s[..i])
    ensures Increasing(t[..i + 1]) && acc + ForTerm(t, i) == Diffs(t[..i + 1])
  {
    DiffsUpTo(t, i);
    if i == 1 {
      assert t[..1] == [] + [t[0]];
      DiffsSnoc([], t[0]);
    } else {
      assert s[..i] == t[..i];
    }
  }

  /** The terms at indices 0 through `k` have (k + 1)k/2 differences. */
  lemma PrefixDiffsCard(s: seq<nat>, k: nat)
    requires MianChowlaPrefix(s) && k < |s|
    ensures Increasing(s[..k + 1]) && |Diffs(s[..k + 1])| == (k + 1) * k / 2
  {
    var p := s[..k + 1];
    assert |p| == k + 1;
    PrefixClosed(s, k + 1);
    DiffsCard(p);
  }

  /** The differences of one term are among all the differences. */
  lemma ForTermInDiffs(s: seq<nat>, k: nat)
    requires Increasing(s) && k < |s|
    ensures ForTerm(s, k) <= Diffs(s)
  {
    DiffsUpTo(s, k);
    DiffsPrefix(s, k + 1);
  }

  /** Every difference is smaller than the last term when the first term is positive. */
  lemma {:induction false} DiffsBelowLast(s: seq<nat>)
    requires Increasing(s) && s != [] && s[0] >= 1
    ensures forall x :: x in Diffs(s) ==> x < Last(s)
    decreases |s|
  {
    var p := Init(s);
    assert Increasing(p);
    if p != [] {
      DiffsBelowLast(p);
    }
  }

  /**
   * The search is bounded: a candidate at least twice the last term cannot
   * collide, since its differences exceed every recorded one.
   */
  lemma ClearBeyond(s: seq<nat>, c: nat)
    requires MianChowlaPrefix(s) && s != [] && c >= 2 * Last(s)
    ensures Clear(s, c)
  {
    FirstIsOne(s);
    DiffsBelowLast(s);
  }

  /**
   * The search is bounded: a candidate that collides lies below twice the
   * last term, since a larger one makes differences above every recorded one.
   */
  lemma SearchBound(s: seq<nat>, c: nat)
    requires MianChowlaPrefix(s) && !Clear(s, c)
    ensures s != [] && c < 2 * Last(s)
  {
    if s != [] && c >= 2 * Last(s) {
      ClearBeyond(s, c);
    }
  }

  /** The accepted term is at most twice the last term. */
  lemma NextAtMostTwice(s: seq<nat>, c: nat)
    requires MianChowlaPrefix(s) && s != [] && IsNext(s, c)
    ensures c <= 2 * Last(s)
  {
    if c > 2 * Last(s) {
      FirstIsOne(s);
      ClearBeyond(s, 2 * Last(s));
    }
  }

  /** The greedy rule makes every pair of terms have its own difference. */
  lemma {:induction false} PrefixIsSidon(s: seq<nat>)
    requires MianChowlaPrefix(s)
    ensures Sidon(s)
    decreases |s|
  {
    if s != [] {
      var n := |s| - 1;
      var p := Init(s);
      PrefixIsSidon(p);
      assert Increasing(p) && IsNext(p, Last(s));
      forall a, b, c, d |
        0 <= a < b < |s| && 0 <= c < d < |s| && PairGap(s, a, b) == PairGap(s, c, d)
        ensures a == c && b == d
      {
        if b == n && d < n {
          NoNewCollision(s, a, c, d);
        } else if d == n && b < n {
          NoNewCollision(s, c, a, b);
        } else if b < n && d < n {
          assert PairGap(p, a, b) == PairGap(p, c, d);
        }
      }
    }
  }

  /** A difference the last term makes with an earlier one differs from every earlier difference. */
  lemma NoNewCollision(s: seq<nat>, a: nat, c: nat, d: nat)
    requires Increasing(s) && s != [] && a < |s| - 1 && c < d < |s| - 1
    requires Increasing(Init(s)) && IsNext(Init(s), Last(s))
    ensures Last(s) + s[c] != s[d] + s[a]
  {
    var p := Init(s);
    ViaPrefix(s, c, d);
    assert Clear(p, Last(s));
    assert p[a] == s[a];
    assert Last(s) - p[a] !in Diffs(p);
  }

  /** A difference of two terms before the last one is recorded in Diffs(Init(s)). */
  lemma ViaPrefix(s: seq<nat>, a: nat, b: nat)
    requires Increasing(s) && s != [] && a < b < |s| - 1
    ensures Increasing(Init(s)) && s[b] - s[a] in Diffs(Init(s))
  {
    var p := Init(s);
    assert Increasing(p);
    assert p[b] == p[a] + (s[b] - s[a]);
    DiffsComplete(p, s[b] - s[a]);
  }

  /** No difference is recorded twice: |Diffs(s)| == n(n-1)/2. */
  lemma DiffsCard(s: seq<nat>)
    requires MianChowlaPrefix(s)
    ensures |Diffs(s)| == |s| * (|s| - 1) / 2
  {
    DiffsCardTwice(s);
  }

  lemma {:induction false} DiffsCardTwice(s: seq<nat>)
    requires MianChowlaPrefix(s)
    ensures 2 * |Diffs(s)| == |s| * (|s| - 1)
    decreases |s|
  {
    if s != [] {
      var p := Init(s);
      DiffsCardTwice(p);
      NewDiffsCard(s);
      Triangle(|s|, |p|, |Diffs(p)|);
    }
  }

  /** The last term adds one new difference per earlier term. */
  lemma NewDiffsCard(s: seq<nat>)
    requires MianChowlaPrefix(s) && s != []
    ensures MianChowlaPrefix(Init(s)) && |Diffs(s)| == |Diffs(Init(s))| + |Init(s)|
  {
    var p := Init(s);
    ClearDisjoint(p, Last(s));
    GapsCard(Last(s), p);
    DisjointCard(Diffs(p), Gaps(Last(s), p));
  }

  lemma DisjointCard(a: set<nat>, b: set<nat>)
    requires a !! b
    ensures |a + b| == |a| + |b|
  {
  }

  lemma Triangle(m: nat, n: nat, k: nat)
    requires m == n + 1 && 2 * k == n * (n - 1)
    ensures 2 * (k + n) == m * (m - 1)
  {
  }

  // ---------------------------------------------------------------------------
  // Reverse lookup: which term realises a recorded difference

  /** The index of the first term whose own differences contain `d`. */
  function WitnessIndex(s: seq<nat>, d: nat): (w: nat)
    requires Increasing(s) && d in Diffs(s)
    ensures 1 <= w < |s| && d in ForTerm(s, w)
    ensures forall v :: 1 <= v < w ==> d !in ForTerm(s, v)
    decreases |s|
  {
    var p := Init(s);
    assert Increasing(p);
    assert forall v :: 0 <= v < |p| ==> ForTerm(p, v) == ForTerm(s, v) by {
      forall v | 0 <= v < |p| ensures ForTerm(p, v) == ForTerm(s, v) {
        assert p[..v] == s[..v];
      }
    }
    if d in Diffs(p) then
      WitnessIndex(p, d)
    else
      assert forall v :: 0 <= v < |p| ==> d !in ForTerm(p, v) by {
        forall v | 0 <= v < |p| ensures d !in ForTerm(p, v) {
          ForTermInDiffs(p, v);
        }
      }
      assert s[..|s| - 1] == p;
      |s| - 1
  }

  /** Membership in the differences of one term, in additive form. */
  lemma ForTermMember(s: seq<nat>, k: nat, x: nat)
    requires Increasing(s) && k < |s|
    ensures x in ForTerm(s, k) <==> exists a :: 0 <= a < k && s[k] == s[a] + x
  {
    if x in ForTerm(s, k) {
      var a :| 0 <= a < k && x == s[k] - s[..k][a];
      assert s[k] == s[a] + x;
    }
    if exists a :: 0 <= a < k && s[k] == s[a] + x {
      var a :| 0 <= a < k && s[k] == s[a] + x;
      assert x == s[k] - s[..k][a];
    }
  }

  /** Term `k` makes one difference with each earlier term, all of them distinct. */
  lemma ForTermCard(s: seq<nat>, k: nat)
    requires MianChowlaPrefix(s) && k < |s|
    ensures forall j :: 0 <= j < k ==> s[j] < s[k]
    ensures |ForTerm(s, k)| == k
  {
    IncreasingPrefix(s, k);
    if k == 0 {
      FirstIsOne(s);
    }
    GapsCard(s[k], s[..k]);
  }

  /** The differences of term `k` are exactly the values s[k] - s[a] for a < k. */
  lemma ForTermMembers(s: seq<nat>, k: nat)
    requires Increasing(s) && k < |s|
    ensures forall x :: x in ForTerm(s, k) <==> exists a :: 0 <= a < k && s[k] == s[a] + x
  {
    forall x ensures x in ForTerm(s, k) <==> exists a :: 0 <= a < k && s[k] == s[a] + x {
      ForTermMember(s, k, x);
    }
  }

  /** By the B2 property a recorded difference has exactly one witnessing term. */
  lemma WitnessUnique(s: seq<nat>, d: nat, v: nat)
    requires MianChowlaPrefix(s) && 1 <= v < |s| && d in ForTerm(s, v)
    ensures d in Diffs(s) && v == WitnessIndex(s, d)
  {
    ForTermInDiffs(s, v);
    var w := WitnessIndex(s, d);
    PrefixIsSidon(s);
    ForTermMember(s, v, d);
    ForTermMember(s, w, d);
    var a :| 0 <= a < v && s[v] == s[a] + d;
    var b :| 0 <= b < w && s[w] == s[b] + d;
    assert PairGap(s, a, v) == PairGap(s, b, w);
  }

  /** The witnessing term `t` of `d` has `t - d` among the terms before it. */
  lemma WitnessIsTerm(s: seq<nat>, d: nat)
    requires Increasing(s) && d in Diffs(s)
    ensures exists a :: 0 <= a < WitnessIndex(s, d) && s[a] + d == s[WitnessIndex(s, d)]
  {
    ForTermMember(s, WitnessIndex(s, d), d);
  }

  /** A difference first made by the newest term has that term as its witness. */
  lemma NewWitness(s: seq<nat>, c: nat, d: nat)
    requires MianChowlaPrefix(s + [c]) && (forall j :: 0 <= j < |s| ==> s[j] < c) && d in Gaps(c, s)
    ensures d in Diffs(s + [c]) && WitnessIndex(s + [c], d) == |s|
    ensures exists a :: 0 <= a < |s| && s[a] + d == c
  {
    var t := s + [c];
    assert t[..|s|] == s;
    var j :| 0 <= j < |s| && d == c - s[j];
    WitnessUnique(t, d, |s|);
  }

  // ---------------------------------------------------------------------------
  // The first terms

  /** Every value in [lo, hi) is in `ds`. */
  predicate Covered(lo: nat, hi: int, ds: set<nat>)
    decreases hi - lo
  {
    lo >= hi || (lo in ds && Covered(lo + 1, hi, ds))
  }

  lemma {:induction false} CoveredHas(lo: nat, hi: int, ds: set<nat>, k: nat)
    requires Covered(lo, hi, ds) && lo <= k < hi
    ensures k in ds
    decreases hi - lo
  {
    if lo < k {
      CoveredHas(lo + 1, hi, ds, k);
    }
  }

  /**
   * One concrete step of the greedy search, proved from its gaps: `c` makes
   * new differences only, and every candidate between the last term and `c`
   * repeats a recorded difference with the last term.
   */
  lemma CheckedStep(p: seq<nat>, c: nat, dp: set<nat>, g: set<nat>)
    requires MianChowlaPrefix(p) && p != [] && Diffs(p) == dp
    requires Start(p) <= c && Gaps(c, p) == g && g !! dp
    requires Covered(1, c - Last(p), dp)
    ensures MianChowlaPrefix(p + [c]) && Diffs(p + [c]) == dp + g
  {
    ClearDisjoint(p, c);
    NoneClearBelow(p, c, dp);
    Extend(p, c);
    DiffsSnoc(p, c);
  }

  /** Every candidate below `c` collides when all gaps up to c - Last(p) are recorded. */
  lemma NoneClearBelow(p: seq<nat>, c: nat, dp: set<nat>)
    requires Increasing(p) && p != [] && Diffs(p) == dp && Covered(1, c - Last(p), dp)
    ensures forall x :: Start(p) <= x < c ==> !Clear(p, x)
  {
    forall x | Start(p) <= x < c ensures !Clear(p, x) {
      CoveredHas(1, c - Last(p), dp, x - Last(p));
      assert x - p[|p| - 1] in Diffs(p);
    }
  }

  lemma FirstOne()
    ensures MianChowlaPrefix([1]) && Diffs([1]) == {}
  {
    assert Clear([], 1);
    assert [] + [1] == [1];
    Extend([], 1);
    DiffsSnoc([], 1);
  }

  lemma FirstTwo()
    ensures MianChowlaPrefix([1, 2]) && Diffs([1, 2]) == {1}
  {
    var p, q := [1], [1, 2];
    var dp, g: set<nat> := {}, {1};
    assert g !! dp && dp + g == {1} && p + [2] == q;
    FirstOne();
    GapsNext(2, [], 1, [1], {});
    CheckedStep(p, 2, dp, g);
  }

  /**
   * GapsSnoc on concrete values, with the extended sequence `t` and the
   * known gap set `g` passed by name, so that a chain of literal steps
   * needs no reasoning about sequence concatenation or set comprehensions.
   */
  lemma GapsNext(c: nat, s: seq<nat>, x: nat, t: seq<nat>, g: set<nat>)
    requires x <= c && (forall j :: 0 <= j < |s| ==> s[j] <= c)
    requires t == s + [x] && Gaps(c, s) == g
    ensures Gaps(c, t) == g + {c - x}
  {
    GapsSnoc(c, s, x);
  }

  lemma GapsOf4()
    ensures Gaps(4, [1, 2]) == {3, 2}
  {
    GapsNext(4, [], 1, [1], {});
    GapsNext(4, [1], 2, [1, 2], {3});
  }

  lemma GapsOf8()
    ensures Gaps(8, [1, 2, 4]) == {7, 6, 4}
  {
    GapsNext(8, [], 1, [1], {});
    GapsNext(8, [1], 2, [1, 2], {7});
    GapsNext(8, [1, 2], 4, [1, 2, 4], {7, 6});
  }

  lemma GapsOf13()
    ensures Gaps(13, [1, 2, 4, 8]) == {12, 11, 9, 5}
  {
    GapsNext(13, [], 1, [1], {});
    GapsNext(13, [1], 2, [1, 2], {12});
    GapsNext(13, [1, 2], 4, [1, 2, 4], {12, 11});
    GapsNext(13, [1, 2, 4], 8, [1, 2, 4, 8], {12, 11, 9});
  }

  lemma GapsOf21Start()
    ensures Gaps(21, [1, 2, 4]) == {20, 19, 17}
  {
    GapsNext(21, [], 1, [1], {});
    GapsNext(21, [1], 2, [1, 2], {20});
    GapsNext(21, [1, 2], 4, [1, 2, 4], {20, 19});
  }

  lemma GapsOf21()
    ensures Gaps(21, [1, 2, 4, 8, 13]) == {20, 19, 17, 13, 8}
  {
    GapsOf21Start();
    GapsNext(21, [1, 2, 4], 8, [1, 2, 4, 8], {20, 19, 17});
    GapsNext(21, [1, 2, 4, 8], 13, [1, 2, 4, 8, 13], {20, 19, 17, 13});
  }

  lemma FirstThree()
    ensures MianChowlaPrefix([1, 2, 4]) && Diffs([1, 2, 4]) == {1, 2, 3}
  {
    var p, q := [1, 2], [1, 2, 4];
    var dp, g: set<nat> := {1}, {3, 2};
    assert g !! dp && dp + g == {1, 2, 3} && p + [4] == q;
    FirstTwo();
    GapsOf4();
    CheckedStep(p, 4, dp, g);
  }

  lemma FirstFour()
    ensures MianChowlaPrefix([1, 2, 4, 8]) && Diffs([1, 2, 4, 8]) == {1, 2, 3, 4, 6, 7}
  {
    var p, q := [1, 2, 4], [1, 2, 4, 8];
    var dp, g: set<nat> := {1, 2, 3}, {7, 6, 4};
    assert g !! dp && dp + g == {1, 2, 3, 4, 6, 7} && p + [8] == q;
    FirstThree();
    GapsOf8();
    CheckedStep(p, 8, dp, g);
  }

  lemma FirstFive()
    ensures MianChowlaPrefix([1, 2, 4, 8, 13]) && Diffs([1, 2, 4, 8, 13]) == {1, 2, 3, 4, 5, 6, 7, 9, 11, 12}
  {
    var p, q := [1, 2, 4, 8], [1, 2, 4, 8, 13];
    var dp, g: set<nat> := {1, 2, 3, 4, 6, 7}, {12, 11, 9, 5};
    assert g !! dp && dp + g == {1, 2, 3, 4, 5, 6, 7, 9, 11, 12} && p + [13] == q;
    FirstFour();
    GapsOf13();
    CheckedStep(p, 13, dp, g);
  }

  /** The first six terms of the Mian–Chowla sequence are 1, 2, 4, 8, 13, 21. */
  lemma FirstSix()
    ensures MianChowlaPrefix([1, 2, 4, 8, 13, 21])
  {
    var p5, p6 := [1, 2, 4, 8, 13], [1, 2, 4, 8, 13, 21];
    var d5: set<nat> := {1, 2, 3, 4, 5, 6, 7, 9, 11, 12};
    var g6: set<nat> := {20, 19, 17, 13, 8};
    assert g6 !! d5;
    assert p5 + [21] == p6;
    FirstFive();
    GapsOf21();
    CheckedStep(p5, 21, d5, g6);
  }
}
