/**
 * `UNetWeedDetector._adjust_channels` (models.py): make an image have the
 * channel count the network expects. Concatenation along the channel axis acts
 * on every pixel alike, so the model works on one pixel's channel vector.
 */
module Channels {
  import opened Wrappers

  lemma {:induction false} MulAtLeast(a: nat, c: nat)
    requires a >= 1
    ensures a * c >= c
  {
    if a > 1 {
      MulAtLeast(a - 1, c);
      assert a * c == (a - 1) * c + c;
    }
  }

  /** `j` lies in the `k`-th block of width `c`, so its remainder is its offset in that block. */
  lemma ModInBlock(j: int, k: nat, c: int)
    requires c > 0 && k * c <= j < k * c + c
    ensures j % c == j - k * c
  {
    var q := j / c;
    assert j == q * c + j % c && 0 <= j % c < c;
    if q < k {
      MulAtLeast(k - q, c);
    } else if q > k {
      MulAtLeast(q - k, c);
    }
  }

  /** Every entry of `s` is the channel its position selects cyclically. */
  predicate Cycles(s: seq<real>, channels: seq<real>)
    requires |channels| > 0
  {
    forall j :: 0 <= j < |s| ==> s[j] == channels[j % |channels|]
  }

  /** Appending one more whole copy keeps the cyclic pattern. */
  lemma ExtendCycle(repeated: seq<real>, channels: seq<real>, copies: nat)
    requires |channels| > 0 && |repeated| == copies * |channels|
    requires Cycles(repeated, channels)
    ensures |repeated + channels| == (copies + 1) * |channels|
    ensures Cycles(repeated + channels, channels)
  {
    var c := |channels|;
    forall j | 0 <= j < |repeated| + c
      ensures (repeated + channels)[j] == channels[j % c]
    {
      if j >= |repeated| {
        ModInBlock(j, copies, c);
      }
    }
  }

  /**
   * Truncate to the first `target` channels, or, with fewer channels, repeat
   * the vector whole until it is at least `target` wide and then truncate.
   * An empty vector with a positive target would repeat forever.
   */
  method AdjustChannels(channels: seq<real>, target: nat) returns (r: seq<real>)
    requires |channels| > 0 || target == 0
    ensures |r| == target
    ensures |channels| >= target ==> r == channels[..target]
    ensures forall i :: 0 <= i < target ==> r[i] == channels[i % |channels|]
  {
    var c := |channels|;
    if c >= target {
      forall i | 0 <= i < target ensures channels[i] == channels[i % c] {
        ModInBlock(i, 0, c);
      }
      return channels[..target];
    }
    var repeated := channels;
    ghost var copies: nat := 1;
    assert Cycles(repeated, channels) by {
      forall j | 0 <= j < c ensures channels[j] == channels[j % c] {
        ModInBlock(j, 0, c);
      }
    }
    while |repeated| < target
      invariant |repeated| == copies * c
      invariant Cycles(repeated, channels)
      decreases target - |repeated|
    {
      ExtendCycle(repeated, channels, copies);
      repeated := repeated + channels;
      copies := copies + 1;
    }
    r := repeated[..target];
  }

  /** The working vector of the repeat loop, as written, after `n` passes. */
  function Passes(channels: seq<real>, n: nat): (r: seq<real>)
    ensures |channels| <= |r| && r[..|channels|] == channels
  {
    if n == 0 then channels else Passes(channels, n - 1) + channels
  }

  /** Each pass appends one whole copy: after `n` passes the width is `(n + 1) * c`. */
  lemma {:induction false} PassesWidth(channels: seq<real>, n: nat)
    ensures |Passes(channels, n)| == (n + 1) * |channels|
  {
    if n > 0 {
      PassesWidth(channels, n - 1);
      assert (n + 1) * |channels| == n * |channels| + |channels|;
    }
  }

  /**
   * As written, an empty channel vector never grows: for a positive target the
   * loop guard still holds after every pass, so the loop does not terminate.
   */
  lemma {:induction false} EmptyVectorNeverReachesTarget(target: nat, n: nat)
    requires target > 0
    ensures Passes([], n) == []
    ensures |Passes([], n)| < target
  {
    if n > 0 {
      EmptyVectorNeverReachesTarget(target, n - 1);
    }
  }

  /** Why the channel count could not be adjusted. */
  datatype ChannelError = NoChannels

  /**
   * `_adjust_channels` with the non-terminating input rejected: an empty
   * vector with a positive target is an error, every other input is adjusted.
   */
  method AdjustChannelsChecked(channels: seq<real>, target: nat) returns (r: Result<seq<real>, ChannelError>)
    ensures r.Err? <==> |channels| == 0 && target > 0
    ensures r.Ok? ==> |r.value| == target
    ensures r.Ok? && |channels| >= target ==> r.value == channels[..target]
    ensures r.Ok? ==> forall i :: 0 <= i < target ==> r.value[i] == channels[i % |channels|]
  {
    if |channels| == 0 && target > 0 {
      return Err(NoChannels);
    }
    var adjusted := AdjustChannels(channels, target);
    return Ok(adjusted);
  }
}
