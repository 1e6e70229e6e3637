/**
 * The file-stability poller of the background encode job: once a second it
 * samples the size of the input file and gives up waiting once the size has
 * been unchanged for five consecutive samples. The clock and the file system
 * are replaced by the sequence of samples the poller would observe.
 */
module Poller {

  /** One tick of the poller: the size read, or a read that raised. */
  datatype Sample = Size(bytes: nat) | ReadFailed

  /** The poller's two variables: the last size seen and the count of repeats. */
  datatype PollState = PollState(lastSize: int, stable: nat)

  /** Consecutive unchanged samples after which the file counts as stable. */
  const Threshold: nat := 5

  /** Before any sample: no size seen yet (-1 is never a file size). */
  const Init := PollState(-1, 0)

  /**
   * The effect of one sample on the poller's state: a size read is always
   * remembered, and the count grows by at most one per tick, and only when
   * the read repeats the remembered size.
   */
  function Step(st: PollState, s: Sample): (r: PollState)
    ensures s.Size? ==> r.lastSize == s.bytes
    ensures r.stable <= st.stable + 1
    ensures r.stable > st.stable ==> s.Size? && s.bytes == st.lastSize
  {
    match s
    case ReadFailed => st
    case Size(current) =>
      if current == st.lastSize then PollState(st.lastSize, st.stable + 1)
      else PollState(current, 0)
  }

  /**
   * The poller's state after it has observed `xs`, oldest sample first. Until
   * a read succeeds it is the initial state; after that the count stays below
   * the number of successful reads.
   */
  function After(xs: seq<Sample>): (r: PollState)
    ensures Sizes(xs) == [] ==> r == Init
    ensures Sizes(xs) != [] ==> r.lastSize >= 0 && r.stable < |Sizes(xs)|
  {
    if xs == [] then Init else Step(After(xs[..|xs| - 1]), xs[|xs| - 1])
  }

  /** The sizes that were read successfully, in order. */
  function Sizes(xs: seq<Sample>): seq<nat> {
    if xs == [] then []
    else
      match xs[|xs| - 1]
      case ReadFailed => Sizes(xs[..|xs| - 1])
      case Size(n) => Sizes(xs[..|xs| - 1]) + [n]
  }

  /** The length of the longest suffix of `s` whose elements all equal its last one. */
  function TrailingRun(s: seq<nat>): nat {
    if |s| <= 1 then |s|
    else if s[|s| - 2] == s[|s| - 1] then TrailingRun(s[..|s| - 1]) + 1
    else 1
  }

  /** Repeating the last element `k` times at the end is what a trailing run of `k` means. */
  lemma {:induction false} TrailingRunMeaning(s: seq<nat>, k: nat)
    requires 1 <= k <= |s|
    ensures TrailingRun(s) >= k <==> forall j :: |s| - k <= j < |s| ==> s[j] == s[|s| - 1]
  {
    if k > 1 {
      var t := s[..|s| - 1];
      if s[|s| - 2] == s[|s| - 1] {
        TrailingRunMeaning(t, k - 1);
        if forall j :: |s| - k <= j < |s| ==> s[j] == s[|s| - 1] {
          assert forall j :: |t| - (k - 1) <= j < |t| ==> t[j] == t[|t| - 1];
        }
        if TrailingRun(s) >= k {
          forall j | |s| - k <= j < |s| ensures s[j] == s[|s| - 1] {
            if j < |s| - 1 { assert t[j] == t[|t| - 1]; }
          }
        }
      }
    }
  }

  /**
   * Exact meaning of the poller's state: failed reads do not count, the last
   * size is the last size read, and `stable` is one less than the number of
   * trailing reads that returned that size.
   */
  lemma {:induction false} AfterMeaning(xs: seq<Sample>)
    ensures Sizes(xs) == [] ==> After(xs) == Init
    ensures Sizes(xs) != [] ==>
      After(xs).lastSize == Sizes(xs)[|Sizes(xs)| - 1] &&
      After(xs).stable == TrailingRun(Sizes(xs)) - 1
  {
    if xs != [] {
      var ys := xs[..|xs| - 1];
      AfterMeaning(ys);
      match xs[|xs| - 1]
      case ReadFailed =>
      case Size(n) =>
        var s := Sizes(xs);
        assert s[..|s| - 1] == Sizes(ys);
    }
  }

  /**
   * The poller reaches the threshold exactly when at least six sizes were read
   * and the last six of them are identical.
   */
  lemma StableIffLastSixEqual(xs: seq<Sample>)
    ensures After(xs).stable >= Threshold <==>
      |Sizes(xs)| >= Threshold + 1 &&
      forall j :: |Sizes(xs)| - (Threshold + 1) <= j < |Sizes(xs)| ==> Sizes(xs)[j] == Sizes(xs)[|Sizes(xs)| - 1]
  {
    AfterMeaning(xs);
    var s := Sizes(xs);
    if |s| >= Threshold + 1 {
      TrailingRunMeaning(s, Threshold + 1);
    } else if s != [] {
      TrailingRunBound(s);
    }
  }

  lemma {:induction false} TrailingRunBound(s: seq<nat>)
    ensures TrailingRun(s) <= |s|
  {
    if |s| > 1 { TrailingRunBound(s[..|s| - 1]); }
  }

  /** Failed reads neither reset nor advance the poller: only the sizes read matter. */
  lemma OnlySizesMatter(xs: seq<Sample>, ys: seq<Sample>)
    requires Sizes(xs) == Sizes(ys)
    ensures After(xs) == After(ys)
  {
    AfterMeaning(xs);
    AfterMeaning(ys);
  }

  /** `k` reads of one size leave the poller at `k - 1` repeats. */
  lemma {:induction false} RepeatedSize(n: nat, k: nat)
    requires k >= 1
    ensures After(seq(k, _ => Size(n))).stable == k - 1
    ensures After(seq(k, _ => Size(n))).lastSize == n
  {
    var xs := seq(k, _ => Size(n));
    if k > 1 {
      assert xs[..k - 1] == seq(k - 1, _ => Size(n));
      RepeatedSize(n, k - 1);
    } else {
      assert xs[..0] == [];
    }
  }

  /** Six reads of the same size stop the poller after the sixth and not before. */
  lemma SixEqualReadsStop(n: nat)
    ensures var xs := seq(6, _ => Size(n));
      After(xs).stable == Threshold &&
      forall k :: 0 <= k < 6 ==> After(xs[..k]).stable < Threshold
  {
    var xs := seq(6, _ => Size(n));
    RepeatedSize(n, 6);
    forall k | 0 <= k < 6 ensures After(xs[..k]).stable < Threshold {
      if k == 0 {
        assert xs[..k] == [];
      } else {
        assert xs[..k] == seq(k, _ => Size(n));
        RepeatedSize(n, k);
      }
    }
  }

  /**
   * Poll until the file is stable, one sample per tick. Returns whether the
   * threshold was reached before the samples ran out and how many ticks
   * (samples, and one-second sleeps) that took.
   */
  method WaitUntilStable(samples: seq<Sample>) returns (stopped: bool, ticks: nat)
    ensures ticks <= |samples|
    ensures stopped ==> After(samples[..ticks]).stable == Threshold
    ensures !stopped ==> ticks == |samples| && After(samples).stable < Threshold
    ensures forall k :: 0 <= k < ticks ==> After(samples[..k]).stable < Threshold
  {
    var lastSize, stable := -1, 0;
    ticks := 0;
    while stable < Threshold && ticks < |samples|
      invariant ticks <= |samples|
      invariant PollState(lastSize, stable) == After(samples[..ticks])
      invariant stable <= Threshold
      invariant forall k :: 0 <= k < ticks ==> After(samples[..k]).stable < Threshold
      decreases |samples| - ticks
    {
      match samples[ticks] {
        case Size(current) =>
          if current == lastSize {
            stable := stable + 1;
          } else {
            stable := 0;
            lastSize := current;
          }
        case ReadFailed =>
      }
      assert samples[..ticks + 1][..ticks] == samples[..ticks];
      ticks := ticks + 1;
    }
    stopped := stable >= Threshold;
    if !stopped {
      assert samples[..ticks] == samples;
    }
  }
}
