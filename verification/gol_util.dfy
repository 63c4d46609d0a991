/**
 The period-2 steady-state detector over the history of per-generation change
 counts. `n` is STEADY_STATE_ITERATIONS (the window length) and `slow` is
 SLOW_AFTER_STEADY_STATE_ITERATIONS; both are configuration the caller
 supplies.
 */
module SteadyState {
  import opened Wrappers

  /** One chunk of `each_slice(2)`: the second element is `nil` when the
      window has odd length and this is its last chunk. */
  datatype Pair = Pair(a: int, b: Option<int>)

  /** The detector's answer: slow the display down, and treat the run as
      finished. */
  datatype Verdict = Verdict(slowDown: bool, finished: bool)

  function Reverse(s: seq<int>): (r: seq<int>)
    ensures |r| == |s|
    ensures forall k :: 0 <= k < |s| ==> r[k] == s[|s| - 1 - k]
  {
    if |s| == 0 then [] else [s[|s| - 1]] + Reverse(s[..|s| - 1])
  }

  /** The counts the detector looks at, most recent first: the last `n`
      entries, or the whole history when `n` is 0 (Ruby's `slice(-0, len)`
      starts at index 0). The history itself is left untouched. */
  function Window(history: seq<int>, n: nat): (w: seq<int>)
    requires |history| > n
    ensures n >= 1 ==> |w| == n
    ensures n == 0 ==> |w| == |history|
    ensures forall k :: 0 <= k < |w| ==> w[k] == history[|history| - 1 - k]
  {
    if n == 0 then Reverse(history) else Reverse(history[|history| - n..])
  }

  /** `each_slice(2)`: consecutive pairs, the last one padded with `nil`. */
  function Slices(w: seq<int>): (ps: seq<Pair>)
    ensures |ps| == (|w| + 1) / 2
    ensures forall k :: 0 <= k < |ps| ==>
      ps[k].a == w[2 * k] && ps[k].b == (if 2 * k + 1 < |w| then Some(w[2 * k + 1]) else None)
    decreases |w|
  {
    if |w| == 0 then []
    else if |w| == 1 then [Pair(w[0], None)]
    else [Pair(w[0], Some(w[1]))] + Slices(w[2..])
  }

  /** The pairs of the window, most recent pair first. */
  function Chunks(history: seq<int>, n: nat): seq<Pair>
    requires |history| > n
  {
    Slices(Window(history, n))
  }

  /** How many leading pairs equal `base`; the scan stops at the first pair
      that does not. */
  function LeadingMatches(ps: seq<Pair>, base: Pair): (k: nat)
    ensures k <= |ps|
    ensures forall i :: 0 <= i < k ==> ps[i] == base
    ensures k < |ps| ==> ps[k] != base
  {
    if |ps| == 0 || ps[0] != base then 0 else 1 + LeadingMatches(ps[1..], base)
  }

  /** `num_found`: 0 when the history is not longer than `n`; otherwise 1 for
      the base pair plus one for each following pair equal to it, up to the
      first pair that differs. */
  function NumFound(history: seq<int>, n: nat): (k: nat)
    ensures |history| <= n ==> k == 0
    ensures n >= 1 ==> k <= (n + 1) / 2
    ensures |history| > n ==>
      && 1 <= k <= |Chunks(history, n)|
      && (forall i :: 0 <= i < k ==> Chunks(history, n)[i] == Chunks(history, n)[0])
      && (k < |Chunks(history, n)| ==> Chunks(history, n)[k] != Chunks(history, n)[0])
  {
    if |history| <= n then 0
    else
      var ps := Chunks(history, n);
      1 + LeadingMatches(ps[1..], ps[0])
  }

  /** `reaching_steady_state`: slow down once `slow / 2` pairs repeat, finish
      once `n / 2` do (integer division, rounding down). */
  function ReachingSteadyState(history: seq<int>, n: nat, slow: int): (v: Verdict)
    ensures |history| <= n ==> v == Verdict(0 >= slow / 2, 0 >= n / 2)
    ensures slow <= n && v.finished ==> v.slowDown
  {
    var numFound := NumFound(history, n);
    Verdict(numFound >= slow / 2, numFound >= n / 2)
  }

  /** For odd n >= 3 the trailing (x, nil) pair can never equal the full base
      pair, so num_found <= floor(n / 2). */
  lemma OddWindowBound(history: seq<int>, n: nat)
    requires n >= 3 && n % 2 == 1
    ensures NumFound(history, n) <= n / 2
  {
    if |history| > n {
      var m := n / 2;
      assert n == 2 * m + 1 && (n + 1) / 2 == m + 1;
      var w := Window(history, n);
      var ps := Slices(w);
      assert |w| == n && |ps| == m + 1;
      assert ps[m].b == None by { assert !(2 * m + 1 < |w|); }
      assert ps[0].b == Some(w[1]);
      var k := LeadingMatches(ps[1..], ps[0]);
      assert ps[1..][m - 1] != ps[0];
      assert k <= m - 1;
    }
  }

  /** The history repeats with period 2. */
  predicate Alternating(history: seq<int>) {
    forall i :: 0 <= i < |history| - 2 ==> history[i] == history[i + 2]
  }

  lemma {:induction false} AlternatingStride(history: seq<int>, j: nat, m: nat)
    requires Alternating(history) && j + 2 * m < |history|
    ensures history[j] == history[j + 2 * m]
  {
    if m > 0 {
      AlternatingStride(history, j, m - 1);
      assert history[j + 2 * (m - 1)] == history[j + 2 * (m - 1) + 2];
    }
  }

  /** A strictly alternating A, B, A, B, ... history longer than the window
      is reported as finished. */
  lemma AlternatingFinishes(history: seq<int>, n: nat, slow: int)
    requires n >= 1 && |history| > n && Alternating(history)
    ensures ReachingSteadyState(history, n, slow).finished
  {
    var L := |history|;
    var ps := Chunks(history, n);
    var w := Window(history, n);
    forall i | 0 <= i < n / 2
      ensures ps[i] == ps[0]
    {
      AlternatingStride(history, L - 1 - 2 * i, i);
      AlternatingStride(history, L - 2 - 2 * i, i);
      assert w[2 * i] == w[0];
      assert w[2 * i + 1] == w[1];
    }
  }

  /** A strictly decreasing history never repeats a pair: only the base pair
      counts, so with window and slow-down threshold of at least 4 the
      verdict is (false, false). */
  lemma DecreasingIsNotSteady(history: seq<int>, n: nat, slow: int)
    requires forall i :: 0 <= i < |history| - 1 ==> history[i] > history[i + 1]
    requires n >= 4 && slow >= 4
    ensures NumFound(history, n) <= 1
    ensures ReachingSteadyState(history, n, slow) == Verdict(false, false)
  {
    if |history| > n {
      var L := |history|;
      var ps := Chunks(history, n);
      assert history[L - 3] > history[L - 2] > history[L - 1];
      assert ps[1].a != ps[0].a;
    }
  }
}
