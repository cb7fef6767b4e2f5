/**
 * How the tasks of one file share its lines. Each task, holding the lock,
 * scans upward from its own start index and claims every line that no task
 * has claimed yet, until its batch is full. The lock makes a claim one
 * atomic step; the tasks may take the lock in any order.
 */
module Claiming {
  import opened Text

  /** The indices a claim holds, as a set. */
  function Elements(indices: seq<nat>): set<nat> {
    if indices == [] then {} else Elements(indices[..|indices| - 1]) + {indices[|indices| - 1]}
  }

  lemma {:induction false} ElementsMeaning(indices: seq<nat>, x: nat)
    ensures x in Elements(indices) <==> x in indices
  {
    if indices != [] {
      var front := indices[..|indices| - 1];
      ElementsMeaning(front, x);
      assert indices == front + [indices[|indices| - 1]];
    }
  }

  lemma ElementsSnoc(indices: seq<nat>, i: nat)
    ensures Elements(indices + [i]) == Elements(indices) + {i}
  {
    assert (indices + [i])[..|indices|] == indices;
  }

  /** The indices a task has claimed once its scan of `count` lines is
      over, when `processed` holds the indices claimed before, the scan is at
      `i` and the batch already holds `taken`. A task stops as soon as its
      batch holds `max` lines; the check follows every step, so it takes one
      line even when `max` is not positive. The claim starts with the batch
      it was given and adds at most one index per line scanned. */
  function Claim(count: nat, i: nat, processed: set<nat>, max: int, taken: seq<nat>): (claim: seq<nat>)
    ensures taken <= claim
    ensures |claim| <= |taken| + (if i < count then count - i else 0)
    decreases count - i
  {
    if i >= count then taken
    else
      var next := if i in processed then taken else taken + [i];
      if |next| >= max then next else Claim(count, i + 1, processed, max, next)
  }

  /** A claim extends the batch with ascending indices from `i` to the last
      line, none of them processed before, starting with `i` when it is free,
      and never beyond `max` lines (one more when the batch is already full). */
  lemma {:induction false} ClaimBounds(count: nat, i: nat, processed: set<nat>, max: int, taken: seq<nat>)
    requires forall k :: 0 <= k < |taken| ==> taken[k] < i
    requires forall k, l :: 0 <= k < l < |taken| ==> taken[k] < taken[l]
    ensures var claim := Claim(count, i, processed, max, taken);
      && |taken| <= |claim| && claim[..|taken|] == taken
      && (forall k :: |taken| <= k < |claim| ==> i <= claim[k] < count && claim[k] !in processed)
      && (forall k, l :: 0 <= k < l < |claim| ==> claim[k] < claim[l])
      && (i < count && i !in processed ==> |claim| > |taken| && claim[|taken|] == i)
      && (|taken| < max ==> |claim| <= max)
      && (max <= |taken| ==> |claim| <= |taken| + 1)
    decreases count - i
  {
    if i < count {
      var next := if i in processed then taken else taken + [i];
      if |next| < max {
        ClaimBounds(count, i + 1, processed, max, next);
        var claim := Claim(count, i + 1, processed, max, next);
        assert claim[..|taken|] == claim[..|next|][..|taken|];
        assert next[..|taken|] == taken;
      } else {
        assert next[..|taken|] == taken;
      }
    }
  }

  /** A claim skips no free line: a line at or after the scan position that
      was free and is not claimed lies beyond every claimed line, and the
      batch is full. */
  lemma {:induction false} ClaimCovers(count: nat, i: nat, processed: set<nat>, max: int, taken: seq<nat>, j: nat)
    requires forall k :: 0 <= k < |taken| ==> taken[k] < i
    requires i <= j < count && j !in processed && j !in Claim(count, i, processed, max, taken)
    ensures |Claim(count, i, processed, max, taken)| >= max
    ensures forall c :: c in Claim(count, i, processed, max, taken) ==> c < j
    decreases count - i
  {
    var next := if i in processed then taken else taken + [i];
    if i == j {
      ClaimKeeps(count, i + 1, processed, max, next, i);
    } else if |next| < max {
      ClaimCovers(count, i + 1, processed, max, next, j);
    }
  }

  /** A claim keeps what the batch already holds. */
  lemma {:induction false} ClaimKeeps(count: nat, i: nat, processed: set<nat>, max: int, taken: seq<nat>, x: nat)
    requires x in taken
    ensures x in Claim(count, i, processed, max, taken)
    decreases count - i
  {
    if i < count {
      var next := if i in processed then taken else taken + [i];
      if |next| < max {
        ClaimKeeps(count, i + 1, processed, max, next, x);
      }
    }
  }

  /** The lines at `indices`, trimmed: the batch sent to the translator. */
  function LinesAt(lines: seq<string>, indices: seq<nat>): (batch: seq<string>)
    requires forall k :: 0 <= k < |indices| ==> indices[k] < |lines|
    ensures |batch| == |indices|
  {
    if indices == [] then []
    else LinesAt(lines, indices[..|indices| - 1]) + [Trim(lines[indices[|indices| - 1]])]
  }

  lemma {:induction false} LinesAtEach(lines: seq<string>, indices: seq<nat>, k: nat)
    requires forall k :: 0 <= k < |indices| ==> indices[k] < |lines|
    requires k < |indices|
    ensures LinesAt(lines, indices)[k] == Trim(lines[indices[k]])
  {
    if k < |indices| - 1 {
      LinesAtEach(lines, indices[..|indices| - 1], k);
    }
  }

  lemma LinesAtSnoc(lines: seq<string>, indices: seq<nat>, i: nat)
    requires forall k :: 0 <= k < |indices| ==> indices[k] < |lines|
    requires i < |lines|
    ensures LinesAt(lines, indices + [i]) == LinesAt(lines, indices) + [Trim(lines[i])]
  {
    assert (indices + [i])[..|indices|] == indices;
  }

  /** The scan at `i` with `taken` in the batch ends with `claim`. The
      quantifier keeps `Claim` folded until a step needs it. */
  ghost predicate EndsWith(count: nat, i: nat, processed: set<nat>, max: int, taken: seq<nat>, claim: seq<nat>) {
    forall n {:trigger Claim(count, n, processed, max, taken)} :: n == i ==> Claim(count, n, processed, max, taken) == claim
  }

  lemma ClaimLoopStep(count: nat, i: nat, processed: set<nat>, max: int, taken: seq<nat>, claim: seq<nat>)
    requires i < count && EndsWith(count, i, processed, max, taken, claim)
    ensures var next := if i in processed then taken else taken + [i];
      && (|next| >= max ==> next == claim)
      && (|next| < max ==> EndsWith(count, i + 1, processed, max, next, claim))
  {
    assert Claim(count, i, processed, max, taken) == claim;
  }

  /** `batch` holds the lines at `indices`, trimmed; folded like `EndsWith`. */
  ghost predicate BatchOf(lines: seq<string>, indices: seq<nat>, batch: seq<string>) {
    && (forall k :: 0 <= k < |indices| ==> indices[k] < |lines|)
    && forall held {:trigger LinesAt(lines, held)} :: held == indices ==> LinesAt(lines, held) == batch
  }

  lemma BatchOfSnoc(lines: seq<string>, indices: seq<nat>, batch: seq<string>, i: nat)
    requires BatchOf(lines, indices, batch) && i < |lines|
    ensures BatchOf(lines, indices + [i], batch + [Trim(lines[i])])
  {
    assert LinesAt(lines, indices) == batch;
    LinesAtSnoc(lines, indices, i);
  }

  /** `processedAfter` is `processed` with `indices` added; folded like `EndsWith`. */
  ghost predicate AddedTo(processed: set<nat>, indices: seq<nat>, processedAfter: set<nat>) {
    forall held {:trigger Elements(held)} :: held == indices ==> processedAfter == processed + Elements(held)
  }

  lemma AddedToSnoc(processed: set<nat>, indices: seq<nat>, processedAfter: set<nat>, i: nat)
    requires AddedTo(processed, indices, processedAfter)
    ensures AddedTo(processed, indices + [i], processedAfter + {i})
  {
    assert processedAfter == processed + Elements(indices);
    ElementsSnoc(indices, i);
  }

  /** The claim loop of one task, run under the lock: the lines it takes,
      trimmed, their indices, and the processed set with them added. */
  method ClaimBatch(fileLines: seq<string>, startIndex: nat, processed: set<nat>, max: int)
    returns (batch: seq<string>, indices: seq<nat>, processedAfter: set<nat>)
    ensures indices == Claim(|fileLines|, startIndex, processed, max, [])
    ensures forall k :: 0 <= k < |indices| ==> indices[k] < |fileLines|
    ensures batch == LinesAt(fileLines, indices)
    ensures processedAfter == processed + Elements(indices)
  {
    ghost var claim := Claim(|fileLines|, startIndex, processed, max, []);
    batch, indices, processedAfter := [], [], processed;
    var i := startIndex;
    while i < |fileLines|
      invariant forall k :: 0 <= k < |indices| ==> indices[k] < i && indices[k] < |fileLines|
      invariant |batch| == |indices|
      invariant forall x :: i <= x ==> (x in processedAfter <==> x in processed)
      invariant EndsWith(|fileLines|, i, processed, max, indices, claim)
      invariant BatchOf(fileLines, indices, batch)
      invariant AddedTo(processed, indices, processedAfter)
      decreases |fileLines| - i
    {
      ClaimLoopStep(|fileLines|, i, processed, max, indices, claim);
      if i !in processedAfter {
        BatchOfSnoc(fileLines, indices, batch, i);
        AddedToSnoc(processed, indices, processedAfter, i);
        batch := batch + [Trim(fileLines[i])];
        indices := indices + [i];
        processedAfter := processedAfter + {i};
      }
      if |batch| >= max {
        break;
      }
      i := i + 1;
    }
    if i >= |fileLines| {
      assert Claim(|fileLines|, i, processed, max, indices) == claim;
    }
    assert LinesAt(fileLines, indices) == batch;
    assert processedAfter == processed + Elements(indices);
  }

  /** The indices taken before, as one set. */
  function Taken(claims: seq<seq<nat>>): set<nat> {
    if claims == [] then {} else Taken(claims[..|claims| - 1]) + Elements(claims[|claims| - 1])
  }

  lemma {:induction false} TakenMeaning(claims: seq<seq<nat>>, x: nat)
    ensures x in Taken(claims) <==> exists k :: 0 <= k < |claims| && x in claims[k]
  {
    if claims != [] {
      var front := claims[..|claims| - 1];
      TakenMeaning(front, x);
      ElementsMeaning(claims[|claims| - 1], x);
      if x in Taken(front) {
        var k :| 0 <= k < |front| && x in front[k];
        assert claims[k] == front[k];
      }
      if exists k :: 0 <= k < |claims| && x in claims[k] {
        var k :| 0 <= k < |claims| && x in claims[k];
        if k < |front| {
          assert front[k] == claims[k];
        }
      }
    }
  }

  /** The claims of the tasks of a file, taken in the order `order` gives
      their start indices, beginning with nothing processed. */
  function Claims(count: nat, order: seq<nat>, max: int): (claims: seq<seq<nat>>)
    ensures |claims| == |order|
  {
    if order == [] then []
    else
      var before := Claims(count, order[..|order| - 1], max);
      before + [Claim(count, order[|order| - 1], Taken(before), max, [])]
  }

  /** Task `k` claims from its own start, with what the tasks before it took
      already processed. */
  lemma {:induction false} ClaimsAt(count: nat, order: seq<nat>, max: int, k: nat)
    requires k < |order|
    ensures Claims(count, order, max)[k] == Claim(count, order[k], Taken(Claims(count, order[..k], max)), max, [])
  {
    if k < |order| - 1 {
      var front := order[..|order| - 1];
      ClaimsAt(count, front, max, k);
      assert front[..k] == order[..k];
    } else {
      assert order[..|order| - 1] == order[..k];
    }
  }

  lemma {:induction false} ClaimsPrefix(count: nat, order: seq<nat>, max: int, n: nat)
    requires n <= |order|
    ensures Claims(count, order, max)[..n] == Claims(count, order[..n], max)
    decreases |order| - n
  {
    if n < |order| {
      var front := order[..|order| - 1];
      ClaimsPrefix(count, front, max, n);
      assert front[..n] == order[..n];
    } else {
      assert order[..n] == order;
    }
  }

  /** No line is claimed by two tasks, whatever order they take the lock in. */
  lemma {:induction false} ClaimsDisjoint(count: nat, order: seq<nat>, max: int, k: nat, l: nat, x: nat)
    requires k < l < |order|
    ensures var claims := Claims(count, order, max); !(x in claims[k] && x in claims[l])
  {
    var claims := Claims(count, order, max);
    var before := Claims(count, order[..l], max);
    ClaimsAt(count, order, max, l);
    ClaimsPrefix(count, order, max, l);
    ClaimBounds(count, order[l], Taken(before), max, []);
    if x in claims[k] {
      assert before[k] == claims[k];
      TakenMeaning(before, x);
    }
  }

  /** Every task start that is a line of the file ends up in exactly one
      claim, whatever order the tasks take the lock in: in its own claim
      when it is still free then, in an earlier one otherwise. */
  lemma StartClaimedOnce(count: nat, order: seq<nat>, max: int, p: nat)
    requires p < |order| && order[p] < count
    ensures var claims := Claims(count, order, max);
      && (exists k :: 0 <= k <= p && order[p] in claims[k])
      && forall k, l :: 0 <= k < l < |order| ==> !(order[p] in claims[k] && order[p] in claims[l])
  {
    var claims := Claims(count, order, max);
    var before := Claims(count, order[..p], max);
    ClaimsAt(count, order, max, p);
    ClaimsPrefix(count, order, max, p);
    TakenMeaning(before, order[p]);
    if order[p] in Taken(before) {
      var k :| 0 <= k < |before| && order[p] in before[k];
      assert claims[k] == before[k];
    } else {
      ClaimBounds(count, order[p], Taken(before), max, []);
    }
    forall k, l | 0 <= k < l < |order|
      ensures !(order[p] in claims[k] && order[p] in claims[l])
    {
      ClaimsDisjoint(count, order, max, k, l, order[p]);
    }
  }

  /** Each claim holds lines at or after its task's start, and at most
      `max` of them (one when `max` is not positive). */
  lemma ClaimSize(count: nat, order: seq<nat>, max: int, k: nat)
    requires k < |order|
    ensures var claim := Claims(count, order, max)[k];
      && |claim| <= (if max < 1 then 1 else max)
      && forall x :: x in claim ==> order[k] <= x < count
  {
    ClaimsAt(count, order, max, k);
    ClaimBounds(count, order[k], Taken(Claims(count, order[..k], max)), max, []);
  }
}
