/**
 * The "independent photo" rule of the processor, on the timestamps (in
 * seconds) of one (Camera_ID, Species) group in sorted order: the first
 * photo counts, and a later photo counts when at least `window` seconds
 * have passed since the last photo that counted.
 */
module Independence {

  /** The last position holding `true`, or -1. */
  function LastTrue(f: seq<bool>): (k: int)
    ensures -1 <= k < |f|
    ensures k >= 0 ==> f[k]
    ensures forall j :: k < j < |f| ==> !f[j]
  {
    if |f| == 0 then -1
    else if f[|f| - 1] then |f| - 1
    else LastTrue(f[..|f| - 1])
  }

  /** The IndependentPhoto flags of a group, photo by photo. */
  function Flags(times: seq<int>, window: int): (f: seq<bool>)
    ensures |f| == |times|
    ensures |times| > 0 ==> f[0]
  {
    if |times| == 0 then []
    else
      var f := Flags(times[..|times| - 1], window);
      var k := LastTrue(f);
      f + [k < 0 || times[|times| - 1] - times[k] >= window]
  }

  predicate NonDecreasing(times: seq<int>)
  {
    forall p, q :: 0 <= p < q < |times| ==> times[p] <= times[q]
  }

  /** The flags of a prefix of the group are a prefix of the flags. */
  lemma {:induction false} FlagsPrefix(times: seq<int>, window: int, n: nat)
    requires n <= |times|
    ensures Flags(times, window)[..n] == Flags(times[..n], window)
    decreases |times|
  {
    if n < |times| {
      var init := times[..|times| - 1];
      FlagsPrefix(init, window, n);
      assert init[..n] == times[..n];
    } else {
      assert times[..n] == times;
    }
  }

  /** One more photo: it counts exactly when the window has passed since the last one that counted. */
  lemma FlagsStep(times: seq<int>, window: int, t: nat)
    requires 0 < t < |times|
    ensures LastTrue(Flags(times[..t], window)) >= 0
    ensures Flags(times[..t + 1], window)
      == Flags(times[..t], window) + [times[t] - times[LastTrue(Flags(times[..t], window))] >= window]
  {
    assert times[..t + 1][..t] == times[..t];
    assert Flags(times[..t], window)[0];
  }

  /**
   * The rule stated photo by photo: the first photo counts, and photo `i`
   * counts iff at least `window` seconds separate it from the last photo
   * before it that counted.
   */
  lemma FlagRule(times: seq<int>, window: int, i: nat)
    requires 0 < i < |times|
    ensures var f := Flags(times, window);
      0 <= LastTrue(f[..i]) < i && (f[i] <==> times[i] - times[LastTrue(f[..i])] >= window)
  {
    var f := Flags(times, window);
    FlagsPrefix(times, window, i);
    FlagsPrefix(times, window, i + 1);
    FlagsStep(times, window, i);
    assert f[..i + 1][i] == f[i];
  }

  /** The cursor after one more photo: that photo if it counts, else unchanged. */
  lemma LastTrueStep(f: seq<bool>, t: nat)
    requires t < |f|
    ensures LastTrue(f[..t + 1]) == if f[t] then t else LastTrue(f[..t])
  {
    assert f[..t + 1][..t] == f[..t];
  }

  /**
   * One step of the cursor loop: with `last` the time of the last photo
   * that counted among the first `t`, photo `t` counts iff it is at least
   * `window` after `last`, and the cursor moves to it exactly then.
   */
  lemma CursorStep(times: seq<int>, window: int, t: nat, last: int)
    requires 0 < t < |times|
    requires last == times[LastTrue(Flags(times, window)[..t])]
    ensures var f := Flags(times, window);
      (f[t] <==> times[t] - last >= window)
      && 0 <= LastTrue(f[..t + 1]) <= t
      && LastTrue(f[..t + 1]) == (if f[t] then t else LastTrue(f[..t]))
  {
    FlagRule(times, window, t);
    LastTrueStep(Flags(times, window), t);
  }

  /** In a sorted group, any two photos that count are at least `window` seconds apart. */
  lemma CountedPhotosSpaced(times: seq<int>, window: int, i: nat, j: nat)
    requires NonDecreasing(times)
    requires i < j < |times|
    requires Flags(times, window)[i] && Flags(times, window)[j]
    ensures times[j] - times[i] >= window
  {
    var f := Flags(times, window);
    FlagRule(times, window, j);
    var k := LastTrue(f[..j]);
    assert f[..j][i];
    assert i <= k;
  }

  /** A photo that does not count lies within `window` seconds of an earlier photo that does. */
  lemma UncountedPhotoCovered(times: seq<int>, window: int, i: nat)
    requires 0 <= i < |times| && !Flags(times, window)[i]
    ensures exists k :: 0 <= k < i && Flags(times, window)[k] && times[i] - times[k] < window
  {
    var f := Flags(times, window);
    FlagRule(times, window, i);
    var k := LastTrue(f[..i]);
    assert f[..i][k] == f[k];
  }

  /** With a window of no time at all, every photo of a sorted group counts. */
  lemma ZeroWindowCountsAll(times: seq<int>, i: nat)
    requires NonDecreasing(times) && i < |times|
    ensures Flags(times, 0)[i]
  {
    if i > 0 {
      FlagRule(times, 0, i);
    }
  }
}
