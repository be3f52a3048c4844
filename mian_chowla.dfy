/**
 * The index-based Mian–Chowla generator: an object that keeps the terms it
 * has computed so far, in order, together with the set of all differences
 * between them, and extends both on demand.
 *
 * Every method states its result and new state through the definitions of
 * module MianChowlaSpec. Every method except Record keeps the invariant
 * Valid(): the stored terms are an initial segment of the Mian–Chowla
 * sequence and the stored set is exactly their set of differences. Record is
 * the inner step of NextTerm, which restores the invariant by appending the
 * term.
 */
module VorpalMath {
  import opened MianChowlaSpec

  /**
   * Outcome of a difference lookup: the term generating it, the 0 the
   * lookup returns when it gives up, or the logic_error it throws.
   */
  datatype Lookup = Found(term: nat) | NotFound | LogicError

  function Max(a: nat, b: nat): nat {
    if a < b then b else a
  }

  class MianChowla {
    var terms: seq<nat>
    var differences: set<nat>

    ghost predicate Valid()
      reads this
    {
      MianChowlaPrefix(terms) && differences == Diffs(terms)
    }

    constructor ()
      ensures Valid() && terms == [] && differences == {}
    {
      terms := [];
      differences := {};
    }

    /**
     * The collision test of the search: whether no difference of the
     * candidate `c` with a computed term is already recorded.
     */
    method IsClear(c: nat) returns (clear: bool)
      requires Valid() && Start(terms) <= c
      ensures clear <==> Clear(terms, c)
    {
      clear := true;
      var k := 0;
      while k < |terms|
        invariant 0 <= k <= |terms|
        invariant forall j :: 0 <= j < k ==> c - terms[j] !in differences
      {
        if c - terms[k] in differences {
          clear := false;
          break;
        }
        k := k + 1;
      }
    }

    /**
     * Records the differences of the accepted candidate `c` with every
     * computed term, and returns them.
     */
    method Record(c: nat) returns (diffsForC: set<nat>)
      requires forall j :: 0 <= j < |terms| ==> terms[j] < c
      modifies this
      ensures terms == old(terms) && diffsForC == Gaps(c, terms)
      ensures differences == old(differences) + diffsForC
    {
      diffsForC := {};
      var m := 0;
      while m < |terms|
        invariant 0 <= m <= |terms| && terms == old(terms)
        invariant diffsForC == Gaps(c, terms[..m])
        invariant differences == old(differences) + diffsForC
      {
        var d: nat := c - terms[m];
        GapsStep(c, terms, m);
        diffsForC := diffsForC + {d};
        differences := differences + {d};
        m := m + 1;
      }
      assert terms[..m] == terms;
    }

    /**
     * Computes the next term: the least candidate above the last term none
     * of whose differences with the earlier terms is already recorded. The
     * candidate's differences are recorded and also returned.
     */
    method NextTerm() returns (t: nat, diffsForT: set<nat>)
      requires Valid()
      modifies this
      ensures Valid()
      ensures IsNext(old(terms), t) && terms == old(terms) + [t]
      ensures old(terms) != [] ==> t <= 2 * Last(old(terms))
      ensures diffsForT == Gaps(t, old(terms)) && |diffsForT| == |old(terms)|
      ensures diffsForT !! old(differences) && differences == old(differences) + diffsForT
    {
      ghost var s := terms;
      if s != [] {
        FirstIsOne(s);
        assert Last(s) >= s[0];
      }
      ghost var bound := if s == [] then 1 else 2 * Last(s);
      var i: nat := if terms == [] then 1 else terms[|terms| - 1] + 1;
      while true
        invariant Valid() && terms == s && differences == old(differences)
        invariant Start(s) <= i <= bound
        invariant forall x :: Start(s) <= x < i ==> !Clear(s, x)
        decreases bound - i
      {
        var clear := IsClear(i);
        if clear {
          break;
        }
        SearchBound(s, i);
        i := i + 1;
      }
      AboveAll(s, i);
      diffsForT := Record(i);
      terms := terms + [i];
      t := i;
      NextState(s, old(differences), i, diffsForT, terms, differences);
    }

    /** Computes terms until index `k` exists. */
    method EnsureCalculatedTo(k: nat)
      requires Valid()
      modifies this
      ensures Valid() && old(terms) <= terms && old(differences) <= differences
      ensures |terms| == Max(|old(terms)|, k + 1)
      ensures |old(terms)| > k ==> terms == old(terms) && differences == old(differences)
    {
      var i := |terms|;
      while i <= k
        invariant Valid() && old(terms) <= terms && old(differences) <= differences
        invariant |terms| == i && |old(terms)| <= i <= Max(|old(terms)|, k + 1)
        invariant i == |old(terms)| ==> terms == old(terms) && differences == old(differences)
      {
        var _, _ := NextTerm();
        i := i + 1;
      }
    }

    /** The term at index `k` (index 0 is the first term), computing it if needed. */
    method GetTerm(k: nat) returns (t: nat)
      requires Valid()
      modifies this
      ensures Valid() && old(terms) <= terms && |terms| == Max(|old(terms)|, k + 1)
      ensures t == terms[k]
      ensures forall s :: MianChowlaPrefix(s) && k < |s| ==> s[k] == t
    {
      EnsureCalculatedTo(k);
      t := terms[k];
      forall s | MianChowlaPrefix(s) && k < |s| ensures s[k] == t {
        AgreeAt(s, terms, k);
      }
    }

    /** The terms at indices 0 through `k`, computing them if needed. */
    method GetTermsTo(k: nat) returns (out: seq<nat>)
      requires Valid()
      modifies this
      ensures Valid() && old(terms) <= terms && |terms| == Max(|old(terms)|, k + 1)
      ensures out == terms[..k + 1] && |out| == k + 1 && MianChowlaPrefix(out)
    {
      EnsureCalculatedTo(k);
      out := terms[..k + 1];
      PrefixClosed(terms, k + 1);
    }

    /** The last term computed so far; it is the largest. */
    method GetLastTerm() returns (t: nat)
      requires Valid() && terms != []
      ensures t == terms[|terms| - 1]
      ensures forall j :: 0 <= j < |terms| ==> terms[j] <= t
    {
      t := terms[|terms| - 1];
    }

    /** All terms computed so far: a prefix of the sequence, and a B2 sequence. */
    method GetTerms() returns (out: seq<nat>)
      requires Valid()
      ensures out == terms && MianChowlaPrefix(out) && Sidon(out)
    {
      out := terms;
      PrefixIsSidon(out);
    }

    /**
     * The differences recorded so far: exactly the differences of pairs of
     * computed terms, one per pair.
     */
    method GetDifferences() returns (ds: set<nat>)
      requires Valid()
      ensures ds == differences
      ensures forall x :: x in ds <==> IsDiff(terms, x)
      ensures |ds| == |terms| * (|terms| - 1) / 2
    {
      ds := differences;
      DiffsAreDifferences(terms);
      DiffsCard(terms);
    }

    /** The differences between the term at index `k` and every earlier term. */
    method GetDifferencesForTerm(k: nat) returns (out: set<nat>)
      requires Valid()
      modifies this
      ensures Valid() && old(terms) <= terms && old(differences) <= differences
      ensures |terms| == Max(|old(terms)|, k + 1)
      ensures |old(terms)| > k ==> terms == old(terms) && differences == old(differences)
      ensures out == ForTerm(terms, k) && |out| == k && out <= differences
      ensures forall x :: x in out <==> exists a :: 0 <= a < k && terms[k] == terms[a] + x
    {
      EnsureCalculatedTo(k);
      ForTermCard(terms, k);
      ForTermInDiffs(terms, k);
      ForTermMembers(terms, k);
      var term := terms[k];
      out := CollectGaps(term, terms[..k]);
    }

    /**
     * The differences among the terms at indices 0 through `k`, recomputed
     * term by term from index 1.
     */
    method GetDifferencesTo(k: nat) returns (out: set<nat>)
      requires Valid()
      modifies this
      ensures Valid() && old(terms) <= terms && old(differences) <= differences
      ensures k == 0 ==> out == {} && terms == old(terms) && differences == old(differences)
      ensures k > 0 ==> |terms| == Max(|old(terms)|, k + 1) && out == Diffs(terms[..k + 1])
      ensures out <= differences && |out| == (k + 1) * k / 2
      ensures forall x :: x in out <==> k > 0 && IsDiff(terms[..k + 1], x)
    {
      out := {};
      var i := 1;
      while i <= k
        invariant 1 <= i <= k + 1
        invariant Valid() && old(terms) <= terms && old(differences) <= differences
        invariant i == 1 ==> out == {} && terms == old(terms) && differences == old(differences)
        invariant i > 1 ==> |terms| == Max(|old(terms)|, i) && out == Diffs(terms[..i])
      {
        ghost var before := terms;
        var diffsForI := GetDifferencesForTerm(i);
        DiffsToStep(before, terms, i, out);
        out := AddAll(out, diffsForI);
        i := i + 1;
      }
      if k > 0 {
        PrefixDiffsCard(terms, k);
        DiffsPrefix(terms, k + 1);
        DiffsAreDifferences(terms[..k + 1]);
      }
    }

    /**
     * Looks for the term t that generates the difference `d`, that is the
     * first term t such that t - d is also a term. A recorded difference is
     * traced back among the computed terms, searching indices up to `maxout`
     * (0: no bound); an unrecorded one is searched for by computing new terms
     * until there are `maxout` of them.
     */
    method FindDifference(d: nat, maxout: nat := 0) returns (r: Lookup)
      requires Valid() && (d in differences || maxout > 0)
      modifies this
      ensures Valid() && old(terms) <= terms
      ensures d in old(differences) ==> terms == old(terms) && differences == old(differences)
      ensures d in old(differences) ==>
                r == if maxout == 0 || WitnessIndex(terms, d) <= maxout
                     then Found(terms[WitnessIndex(terms, d)]) else LogicError
      ensures r.Found? ==> d in differences && r.term == terms[WitnessIndex(terms, d)]
      ensures r.Found? ==> exists a :: 0 <= a < |terms| && terms[a] + d == r.term
      ensures r.Found? && d !in old(differences) ==> |old(terms)| < |terms| <= maxout
      ensures r.Found? && d !in old(differences) ==> |terms| == WitnessIndex(terms, d) + 1
      ensures d !in old(differences) ==> !r.LogicError?
      ensures r.NotFound? ==> d !in differences && |terms| == Max(|old(terms)|, maxout)
      ensures r.LogicError? ==> d in differences && 0 < maxout < WitnessIndex(terms, d)
    {
      if d in differences {
        r := TraceRecorded(d, maxout);
      } else {
        r := SearchNew(d, maxout);
      }
      if r.Found? {
        WitnessIsTerm(terms, d);
      }
    }

    /** The first case of FindDifference: `d` is already recorded. */
    method TraceRecorded(d: nat, maxout: nat) returns (r: Lookup)
      requires Valid() && d in differences
      modifies this
      ensures Valid() && terms == old(terms) && differences == old(differences)
      ensures r == if maxout == 0 || WitnessIndex(terms, d) <= maxout
                   then Found(terms[WitnessIndex(terms, d)]) else LogicError
    {
      var numTerms := |terms|;
      ghost var w := WitnessIndex(terms, d);
      var i := 1;
      while i <= numTerms && (i <= maxout || maxout == 0)
        invariant 1 <= i <= w
        invariant Valid() && terms == old(terms) && differences == old(differences)
        decreases numTerms - i
      {
        var term := terms[i];
        var diffsForTerm := GetDifferencesForTerm(i);
        if d in diffsForTerm {
          assert i == w;
          return Found(term);
        }
        i := i + 1;
      }
      if maxout == 0 {
        assert false;
        r := NotFound;
      } else {
        assert maxout < w;
        r := LogicError;
      }
    }

    /** The second case of FindDifference: `d` is not recorded yet. */
    method SearchNew(d: nat, maxout: nat) returns (r: Lookup)
      requires Valid() && d !in differences && maxout > 0
      modifies this
      ensures Valid() && old(terms) <= terms && !r.LogicError?
      ensures r.Found? ==> d in differences && r.term == terms[WitnessIndex(terms, d)]
      ensures r.Found? ==> |old(terms)| < |terms| <= maxout && |terms| == WitnessIndex(terms, d) + 1
      ensures r.NotFound? ==> d !in differences && |terms| == Max(|old(terms)|, maxout)
    {
      var i := |terms|;
      while i < maxout || maxout == 0
        invariant Valid() && old(terms) <= terms && d !in differences
        invariant |terms| == i && |old(terms)| <= i <= Max(|old(terms)|, maxout)
        decreases maxout - i
      {
        ghost var before := terms;
        var term, diffs := NextTerm();
        if d in diffs {
          NewWitness(before, term, d);
          return Found(term);
        }
        i := i + 1;
      }
      r := NotFound;
    }
  }

  /** The differences of `c` with every element of `s`, collected one by one. */
  method CollectGaps(c: nat, s: seq<nat>) returns (out: set<nat>)
    requires forall j :: 0 <= j < |s| ==> s[j] <= c
    ensures out == Gaps(c, s)
  {
    out := {};
    var i := 0;
    while i < |s|
      invariant 0 <= i <= |s|
      invariant out == Gaps(c, s[..i])
    {
      GapsStep(c, s, i);
      out := out + {c - s[i]};
      i := i + 1;
    }
    assert s[..i] == s;
  }

  /** Inserts every element of `src` into `acc`, one at a time. */
  method AddAll(acc: set<nat>, src: set<nat>) returns (r: set<nat>)
    ensures r == acc + src
  {
    r := acc;
    var rest := src;
    while rest != {}
      invariant rest <= src && r == acc + (src - rest)
      decreases |rest|
    {
      var e :| e in rest;
      r := r + {e};
      rest := rest - {e};
    }
  }

  /** A fresh generator lists 1, 2, 4, 8, 13, 21 as its first six terms. */
  method FirstTerms() returns (r: seq<nat>)
    ensures r == [1, 2, 4, 8, 13, 21]
  {
    var mc := new MianChowla();
    r := mc.GetTermsTo(5);
    FirstSix();
    Unique([1, 2, 4, 8, 13, 21], r);
  }
}
