/**
 The vocabulary every limiter shares: what a check returns, what it writes, and the
 arithmetic of its casts. Quantities the source keeps in `f64` are exact reals here.
 */
module Limiter {

  const U32_LIMIT := 0x1_0000_0000
  const I64_MAX := 0x7fff_ffff_ffff_ffff
  const I64_MIN := -0x8000_0000_0000_0000

  /** The cost of a request: the source takes a `u32`. */
  type U32 = n: nat | n < U32_LIMIT

  /** The outcome of one check; the human-readable reason is not modelled. */
  datatype Decision = Decision(allowed: bool, limit: int, remaining: int, retryAfterMs: int)

  /** What one attempt wants to write, and what it returns once the write has been accepted. */
  datatype Verdict<+S> = Verdict(state: S, decision: Decision)

  /** One committed attempt: the clock reading (in ms) it was decided with, and its cost. */
  datatype Request = Request(now: nat, cost: U32)

  function MinReal(x: real, y: real): real {
    if x <= y then x else y
  }

  function MaxReal(x: real, y: real): real {
    if x >= y then x else y
  }

  /** Rust's `saturating_sub` on unsigned integers. */
  function SaturatingSub(x: nat, y: nat): nat {
    if x >= y then x - y else 0
  }

  /** Rust's `as i64` on a float: truncate toward zero, saturate at the ends of the range. */
  function AsI64(x: real): int {
    if x >= I64_MAX as real then I64_MAX
    else if x <= I64_MIN as real then I64_MIN
    else if x >= 0.0 then x.Floor
    else -(-x).Floor
  }

  /** A cost fits under a truncated quantity exactly when it fits under the quantity itself. */
  lemma AsI64Bounds(x: real, c: int)
    requires 0.0 <= x && 0 <= c <= I64_MAX
    ensures c <= AsI64(x) <==> c as real <= x
  {
    if x < I64_MAX as real {
      assert x.Floor as real <= x < x.Floor as real + 1.0;
    }
  }

  /** The cast, by what it promises: the integer part, toward zero, and the nearer end of the range beyond it. */
  lemma AsI64Truncates(x: real)
    ensures I64_MIN <= AsI64(x) <= I64_MAX
    ensures 0.0 <= x < I64_MAX as real ==> AsI64(x) as real <= x < AsI64(x) as real + 1.0
    ensures I64_MIN as real < x <= 0.0 ==> AsI64(x) as real - 1.0 < x <= AsI64(x) as real
    ensures x >= I64_MAX as real ==> AsI64(x) == I64_MAX
    ensures x <= I64_MIN as real ==> AsI64(x) == I64_MIN
  {
    assert x.Floor as real <= x < x.Floor as real + 1.0;
    assert (-x).Floor as real <= -x < (-x).Floor as real + 1.0;
  }

  /** `(lack / rate * 1000.0) as i64`; a zero rate divides to infinity, which saturates. */
  function WaitMs(lack: real, rate: real): int {
    if rate == 0.0 then I64_MAX else AsI64(lack / rate * 1000.0)
  }

  /** The seconds between two clock readings, never negative: `(now - then).max(0) as f64 / 1000.0`. */
  function ElapsedSecs(since: int, now: int): real {
    (if now >= since then now - since else 0) as real / 1000.0
  }

  function Sum(xs: seq<nat>): nat {
    if xs == [] then 0 else Sum(xs[..|xs| - 1]) + xs[|xs| - 1]
  }

  lemma {:induction false} SumAppend(xs: seq<nat>, ys: seq<nat>)
    ensures Sum(xs + ys) == Sum(xs) + Sum(ys)
  {
    if ys == [] {
      assert xs + ys == xs;
    } else {
      var n := |ys| - 1;
      assert (xs + ys)[..|xs + ys| - 1] == xs + ys[..n];
      SumAppend(xs, ys[..n]);
    }
  }

  lemma SumOfTail(xs: seq<nat>, x: nat, i: nat)
    requires i <= |xs|
    ensures Sum((xs + [x])[i..]) == Sum(xs[i..]) + x
  {
    assert (xs + [x])[i..] == xs[i..] + [x];
    SumAppend(xs[i..], [x]);
    assert Sum([x]) == x;
  }

  /** The clock readings of a run of commits never go backwards. */
  predicate Nondecreasing(reqs: seq<Request>) {
    forall i, j :: 0 <= i < j < |reqs| ==> reqs[i].now <= reqs[j].now
  }
}
