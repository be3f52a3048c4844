# Mian–Chowla sequence generator

This project models the class `vorpal::math::MianChowla`, which generates the
Mian–Chowla sequence 1, 2, 4, 8, 13, 21, ... on demand. This is the greedy B2
(Sidon) sequence: every pair of terms has its own difference. The object
stores the terms computed so far, in order, and the set of all differences
between them. Each new term is the least integer above the last term whose
differences with all earlier terms are still unrecorded. The public
operations work on term indices (index 0 is the first term). They compute
terms as needed, return terms, prefixes and difference sets, and trace a
difference back to the term that generates it.

Two modules:

- `MianChowlaSpec` (`sidon.dfy`) holds the definitions on sequences of terms
  and the lemmas about them:
  - `Gaps(c, s)` is the set of differences of `c` with the elements of `s`;
  - `Diffs` accumulates those sets term by term, as the generator does;
  - `IsDiff` is an independent pairwise definition of "difference of two terms";
  - `Clear` is the collision test;
  - `IsNext` says a value is the least clear candidate;
  - `MianChowlaPrefix` says a sequence is an initial segment of the sequence;
  - `Sidon` is the B2 property;
  - `WitnessIndex` gives the index of the first term whose own differences contain a value.
- `VorpalMath` (`mian_chowla.dfy`) holds the class `MianChowla`, whose fields
  `terms: seq<nat>` and `differences: set<nat>` are updated in place.
  - Its invariant `Valid()` says that `terms` is a Mian–Chowla prefix and that
    `differences == Diffs(terms)`.
  - Every method states its new state through the definitions above.
  - Every method except `Record` keeps this invariant. `Record` is the inner
    step of `NextTerm`, which restores the invariant by appending the term.
  - The loops of the source that run inside a method are separate methods
    here: the collision test (`IsClear`), the recording of new differences
    (`Record`), the per-term difference collection (`CollectGaps`), the set
    insertion loop (`AddAll`), and the two cases of the difference lookup
    (`TraceRecorded`, `SearchNew`).

The return value of the difference lookup is the datatype `Lookup`:

- `Found(t)`: the generating term;
- `NotFound`: the source's return value 0;
- `LogicError`: the `logic_error` the source throws.

## Model

| member | source | states |
|---|---|---|
| VorpalMath.MianChowla.constructor | Sequences/MianChowla.cpp:19-20 | A new generator has no terms and no differences, and satisfies the invariant. |
| VorpalMath.MianChowla.IsClear | Sequences/MianChowla.cpp:32-38 | The candidate is reported clear exactly when none of its differences with the computed terms is already recorded. |
| VorpalMath.MianChowla.Record | Sequences/MianChowla.cpp:41-45 | The returned set is the candidate's differences with every computed term; those are added to the recorded differences; the terms are untouched. |
| VorpalMath.MianChowla.NextTerm | Sequences/MianChowla.cpp:25-53 | The appended term is the least clear candidate above the last term (1 when there is none). Its differences are all new and there is one per earlier term; they are returned and added to the recorded set; the invariant is kept. The accepted term is at most twice the last term, which bounds the search loop. |
| VorpalMath.MianChowla.EnsureCalculatedTo | Sequences/MianChowla.cpp:55-58 | Afterwards there are max(old count, k+1) terms; the old terms and differences are kept as prefix and subset; nothing changes when index k already exists. |
| VorpalMath.MianChowla.GetTerm | Sequences/MianChowla.cpp:60-63 | Returns the term at index k, and this value is the k-th term of every Mian–Chowla prefix long enough, so the result does not depend on the object's history. |
| VorpalMath.MianChowla.GetTermsTo | Sequences/MianChowla.cpp:65-72 | Returns exactly the first k+1 terms, which form a Mian–Chowla prefix. |
| VorpalMath.MianChowla.GetLastTerm | Sequences/MianChowla.cpp:74-76 | Returns the last computed term, which is at least every computed term. |
| VorpalMath.MianChowla.GetTerms | Sequences/MianChowla.cpp:78-80 | Returns all computed terms; they are a Mian–Chowla prefix and a B2 sequence. |
| VorpalMath.MianChowla.GetDifferences | Sequences/MianChowla.cpp:82-84 | Returns the recorded set. A value is in it iff it is the difference of two computed terms, and it has n(n-1)/2 elements for n terms, one per pair. |
| VorpalMath.MianChowla.GetDifferencesForTerm | Sequences/MianChowla.cpp:98-106 | After computing index k, returns the differences of the term at index k with every earlier term. A value is in the result iff it is t_k - t_a for some a < k. It has exactly k elements, all among the recorded differences. |
| VorpalMath.MianChowla.GetDifferencesTo | Sequences/MianChowla.cpp:86-96 | For k > 0, returns the differences of the first k+1 terms: a value is in it iff it is the difference of two of them, there are (k+1)k/2 of them, and all are recorded. For k = 0 it returns the empty set and changes nothing. |
| VorpalMath.MianChowla.FindDifference | Sequences/MianChowla.cpp:108-142 | maxout defaults to 0, as declared in the header. For a recorded difference, the state is unchanged and the result is the first term whose differences contain d. When that term has index above a positive maxout, the result is LogicError. For an unrecorded d, the result is never LogicError. Terms are computed until d appears or maxout terms exist: on Found(t), t is the newest term and the witness of d. Found(t) means t - d is an earlier term. NotFound means d is still not a difference. |
| VorpalMath.MianChowla.TraceRecorded | Sequences/MianChowla.cpp:113-128 | For a recorded d, scans indices from 1 and returns the term at the witness index when the scan may reach it (maxout 0 or index <= maxout), and LogicError otherwise. The maxout-0 fall-through returning 0 is proved unreachable. |
| VorpalMath.MianChowla.SearchNew | Sequences/MianChowla.cpp:132-141 | For an unrecorded d and positive maxout, never throws. A found term is the witness of d and the last term computed, so the search stops at it; at most maxout terms exist. Otherwise d is still unrecorded and exactly max(old count, maxout) terms exist. |
| VorpalMath.CollectGaps | Sequences/MianChowla.cpp:101-104 | Inserting c - s[i] for every i yields exactly the difference set of c with s. |
| VorpalMath.AddAll | Sequences/MianChowla.cpp:91-92 | Inserting each element of one set into another yields their union. |
| VorpalMath.FirstTerms | Sequences/MianChowla.h:4-6 | A fresh generator's first six terms are 1, 2, 4, 8, 13, 21. |
| MianChowlaSpec.FirstSix | Sequences/MianChowla.h:4-6 | 1, 2, 4, 8, 13, 21 is a Mian–Chowla prefix: each is the least clear candidate after the ones before it. |
| MianChowlaSpec.FirstIsOne | Sequences/MianChowla.cpp:26 | The first term of every non-empty prefix is 1, the search's starting candidate for an empty state. |
| MianChowlaSpec.Unique | Sequences/MianChowla.h:33-35 | Two Mian–Chowla prefixes agree on every index both contain: the shorter is a prefix of the longer. |
| MianChowlaSpec.AgreeAt | Sequences/MianChowla.h:33-35 | Index k denotes the same term in every prefix that reaches it. |
| MianChowlaSpec.GreedyAt | Sequences/MianChowla.cpp:26-50 | Every term is the least clear candidate after the terms before it. |
| MianChowlaSpec.NextUnique | Sequences/MianChowla.cpp:29-50 | The search's result is determined by the terms before it. |
| MianChowlaSpec.PrefixClosed | Sequences/MianChowla.cpp:65-72 | Every initial segment of a Mian–Chowla prefix is one too. |
| MianChowlaSpec.PrefixIsSidon | Sequences/MianChowla.h:4-6 | The greedy rule yields a B2 sequence: two pairs of terms with equal differences are the same pair. |
| MianChowlaSpec.Accept | Sequences/MianChowla.cpp:40-46 | Accepting a clear candidate keeps a Mian–Chowla prefix. The candidate lies above all terms, its differences are new and one per term, and the recorded set grows by exactly them. |
| MianChowlaSpec.NextState | Sequences/MianChowla.cpp:40-46 | The state after appending the accepted term and adding its differences satisfies the invariant again. |
| MianChowlaSpec.ClearDisjoint | Sequences/MianChowla.cpp:32-38 | A candidate is clear iff its differences with the terms are disjoint from the recorded ones. |
| MianChowlaSpec.GapsCard | Sequences/MianChowla.cpp:41-45 | A candidate above increasing terms has one distinct difference per term. |
| MianChowlaSpec.ClearBeyond | Sequences/MianChowla.cpp:29-50 | A candidate at least twice the last term is always clear, since its differences exceed every recorded one. |
| MianChowlaSpec.NextAtMostTwice | Sequences/MianChowla.cpp:29-50 | The term the search accepts is at most twice the last term. |
| MianChowlaSpec.SearchBound | Sequences/MianChowla.cpp:29-50 | A candidate that collides lies below twice the last term, so the search stops. |
| MianChowlaSpec.DiffsBelowLast | Sequences/MianChowla.cpp:29-50 | Every recorded difference is smaller than the last term. |
| MianChowlaSpec.DiffsComplete | Sequences/MianChowla.h:42-44 | Every difference of two computed terms is recorded. |
| MianChowlaSpec.DiffsSound | Sequences/MianChowla.h:42-44 | Every recorded value is the difference of two computed terms. |
| MianChowlaSpec.DiffsAreDifferences | Sequences/MianChowla.cpp:82-84 | The recorded set equals the set of pairwise differences of the terms, both directions. |
| MianChowlaSpec.DiffsCard | Sequences/MianChowla.cpp:82-84 | n terms have n(n-1)/2 recorded differences: no difference is recorded twice. |
| MianChowlaSpec.NewDiffsCard | Sequences/MianChowla.cpp:40-46 | The last term adds exactly one new difference per earlier term. |
| MianChowlaSpec.DiffsPrefix | Sequences/MianChowla.cpp:86-96 | The differences of a prefix of the terms are among all recorded differences. |
| MianChowlaSpec.DiffsUpTo | Sequences/MianChowla.cpp:89-93 | The differences of terms 0..k are those of terms 0..k-1 plus those of term k with the earlier terms. |
| MianChowlaSpec.DiffsToStep | Sequences/MianChowla.cpp:89-93 | One step of the accumulation in the differences-up-to query gives the differences of one more term. This holds even when the earlier sets came from a shorter state. |
| MianChowlaSpec.PrefixDiffsCard | Sequences/MianChowla.cpp:86-96 | The first k+1 terms have (k+1)k/2 differences. |
| MianChowlaSpec.ForTermCard | Sequences/MianChowla.cpp:98-106 | Term k lies above every earlier term and makes exactly k distinct differences with them. |
| MianChowlaSpec.ForTermMembers | Sequences/MianChowla.h:51-53 | A value is a difference of term k with a lower term iff term k equals that term plus the value. |
| MianChowlaSpec.ForTermInDiffs | Sequences/MianChowla.cpp:98-106 | The differences of one term are among the recorded ones. |
| MianChowlaSpec.WitnessIndex | Sequences/MianChowla.cpp:113-121 | A recorded difference d has a witness index w >= 1 whose differences contain d, and no index from 1 below w has d among its differences. |
| MianChowlaSpec.WitnessUnique | Sequences/MianChowla.cpp:113-121 | By the B2 property, a term whose differences contain d is the witness. |
| MianChowlaSpec.WitnessIsTerm | Sequences/MianChowla.h:55-56 | The witness term t of d has t - d among the earlier terms. |
| MianChowlaSpec.NewWitness | Sequences/MianChowla.cpp:132-138 | A difference first made by the newest term has that term as its witness, and t - d is an earlier term. |

## Left out

- VorpalMath.MianChowla.FindDifference: an unrecorded difference with maxout 0 (search without bound) is excluded by the precondition. That loop ends only if d ever becomes a difference. This never happens for d = 0, and for positive d it is an open question, so no termination measure exists.
- VorpalMath.MianChowla.SearchNew: for the same reason its precondition requires a positive maxout; the unbounded search for an unrecorded difference is not modelled.
- Integer widths: terms and differences are `unsigned long` and indices `unsigned int` in the source; the model uses unbounded `nat` and does not model wrap-around, which needs more terms than can be computed where `unsigned long` is 64 bits. Where it is 32 bits, the last of n terms exceeds n(n-1)/2, its number of distinct positive differences, so wrap-around comes within about 92,700 terms.
- VorpalMath.MianChowla.GetLastTerm: the source reads the last element of a possibly empty vector, which is undefined behaviour; the model requires at least one computed term.
- The destructor (`Sequences/MianChowla.cpp:22-23`) does nothing and is not modelled; the driver programs that use the class are not part of this model.
- The declared return types of the source are copies (`const` vectors and sets); the model returns values, so aliasing does not arise.
- Where the code and the header comments disagree, the model follows the code:
  - `maxout` bounds the term index scanned for a recorded difference, and the number of terms for an unrecorded one; the header says it bounds the term value.
  - For a recorded difference that the scan misses, the code returns 0 only when `maxout` is 0 (proved unreachable) and throws `logic_error` when `maxout` is positive; the header says 0 is returned when `maxout` is reached.
  - The scan for a recorded difference starts at index 1, since index 0 has no differences.
