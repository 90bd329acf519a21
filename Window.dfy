/** The bounded rolling window behind the price monitor: the rule that the
    price-history and time-label updaters share, a reference definition of
    "the most recent observations", and the trend predicate read by the view. */
module Window {

  /** A window holding more than this many entries drops its oldest one before
      the next entry is appended. */
  const Threshold: nat := 20

  /** The largest window reachable from a one-entry seed. */
  const Capacity: nat := Threshold + 1

  /** One update of `priceHistory` or `timeLabels`: drop the oldest entry when
      the window already holds more than `Threshold`, then append `x`. */
  function PushBounded<T>(prev: seq<T>, x: T): (r: seq<T>)
    ensures |r| == if |prev| > Threshold then |prev| else |prev| + 1
    ensures r[|r| - 1] == x
    ensures |prev| > Threshold ==> r[..|r| - 1] == prev[1..]
    ensures |prev| <= Threshold ==> r[..|prev|] == prev
  {
    if |prev| > Threshold then prev[1..] + [x] else prev + [x]
  }

  /** Reference definition: the last `n` elements of `s`, or all of `s` when it
      is short enough. */
  function LastN<T>(s: seq<T>, n: nat): (r: seq<T>)
    ensures |r| == if |s| <= n then |s| else n
  {
    if |s| <= n then s else s[|s| - n..]
  }

  /** Taking the last `n` twice, with more entries appended in between, is the
      same as taking the last `n` once at the end. */
  lemma LastNOfLastN<T>(s: seq<T>, t: seq<T>, n: nat)
    ensures LastN(LastN(s, n) + t, n) == LastN(s + t, n)
  {
  }

  /** The same update described the other way round: append first, then drop
      the oldest entry when the result holds more than `Capacity`. */
  function AppendThenEvict<T>(prev: seq<T>, x: T): (r: seq<T>)
  {
    var s := prev + [x];
    if |s| > Capacity then s[1..] else s
  }

  /** Dropping before appending and dropping after appending are the same rule
      on every window, whatever its length. */
  lemma PushBoundedIsAppendThenEvict<T>(prev: seq<T>, x: T)
    ensures PushBounded(prev, x) == AppendThenEvict(prev, x)
  {
  }

  /** On every window reachable from the seed, the updater keeps exactly the
      `Capacity` most recent entries. */
  lemma PushBoundedIsLastN<T>(prev: seq<T>, x: T)
    requires |prev| <= Capacity
    ensures PushBounded(prev, x) == LastN(prev + [x], Capacity)
  {
  }

  /** The window after the updater has run once per entry of `xs`, in order. */
  function Feed<T>(w: seq<T>, xs: seq<T>): (r: seq<T>)
    decreases |xs|
  {
    if xs == [] then w else Feed(PushBounded(w, xs[0]), xs[1..])
  }

  /** Any run of ticks from a window of at most `Capacity` entries leaves the
      `Capacity` most recent entries of everything observed, oldest first. */
  lemma {:induction false} FeedIsLastN<T>(w: seq<T>, xs: seq<T>)
    requires |w| <= Capacity
    ensures Feed(w, xs) == LastN(w + xs, Capacity)
    decreases |xs|
  {
    if xs == [] {
      assert w + xs == w;
    } else {
      var w' := PushBounded(w, xs[0]);
      PushBoundedIsLastN(w, xs[0]);
      FeedIsLastN(w', xs[1..]);
      LastNOfLastN(w + [xs[0]], xs[1..], Capacity);
      assert w + [xs[0]] + xs[1..] == w + xs;
    }
  }

  /** From the one-entry seed, the window is never empty, never longer than
      `Capacity`, grows by one per tick until it is full and is full from the
      twentieth tick on; its last entry is the latest tick's. */
  lemma FeedFromSeed<T>(seed: T, xs: seq<T>)
    ensures |Feed([seed], xs)| == if |xs| < Threshold then |xs| + 1 else Capacity
    ensures 1 <= |Feed([seed], xs)| <= Capacity
    ensures xs != [] ==> Feed([seed], xs)[|Feed([seed], xs)| - 1] == xs[|xs| - 1]
    ensures xs == [] ==> Feed([seed], xs) == [seed]
  {
    FeedIsLastN([seed], xs);
  }

  /** Index-aligned pairing of two sequences of equal length. */
  function Zip<A, B>(a: seq<A>, b: seq<B>): (r: seq<(A, B)>)
    requires |a| == |b|
  {
    seq(|a|, i requires 0 <= i < |a| => (a[i], b[i]))
  }

  /** Updating the two parallel windows separately by the shared rule gives the
      same result as updating one window of (price, label) pairs. */
  lemma PushBoundedAligned<A, B>(a: seq<A>, b: seq<B>, x: A, y: B)
    requires |a| == |b|
    ensures |PushBounded(a, x)| == |PushBounded(b, y)|
    ensures Zip(PushBounded(a, x), PushBounded(b, y)) == PushBounded(Zip(a, b), (x, y))
  {
  }

  /** After any run of ticks, entry `i` of the price window and entry `i` of
      the label window come from the same tick. */
  lemma {:induction false} FeedAligned<A, B>(a: seq<A>, b: seq<B>, xs: seq<A>, ys: seq<B>)
    requires |a| == |b| && |xs| == |ys|
    ensures |Feed(a, xs)| == |Feed(b, ys)|
    ensures Zip(Feed(a, xs), Feed(b, ys)) == Feed(Zip(a, b), Zip(xs, ys))
    decreases |xs|
  {
    if xs == [] {
      assert Zip(xs, ys) == [];
    } else {
      var a', b' := PushBounded(a, xs[0]), PushBounded(b, ys[0]);
      var z, zs := Zip(a, b), Zip(xs, ys);
      assert zs != [] && zs[0] == (xs[0], ys[0]);
      assert zs[1..] == Zip(xs[1..], ys[1..]);
      assert Feed(a, xs) == Feed(a', xs[1..]);
      assert Feed(b, ys) == Feed(b', ys[1..]);
      assert Feed(z, zs) == Feed(PushBounded(z, (xs[0], ys[0])), Zip(xs[1..], ys[1..]));
      PushBoundedAligned(a, b, xs[0], ys[0]);
      FeedAligned(a', b', xs[1..], ys[1..]);
    }
  }

  /** The trend shown by the view: the newest retained price is strictly above
      the oldest retained one. An empty history compares two missing entries,
      which is false. */
  predicate IsPriceUp(h: seq<real>)
    ensures IsPriceUp(h) ==> |h| >= 2
  {
    |h| > 0 && h[|h| - 1] > h[0]
  }

  /** The trend after a tick compares the new price with the baseline that
      survives the tick: the oldest entry while the window is filling, the
      second-oldest once it is full, so the baseline slides with the window. */
  lemma TrendAfterPush(prev: seq<real>, x: real)
    requires |prev| > 0
    ensures IsPriceUp(PushBounded(prev, x)) <==>
            x > (if |prev| > Threshold then prev[1] else prev[0])
  {
  }

  /** The seed price 100 followed by one tick at 101.23 gives a two-entry
      history that is trending up. */
  lemma SeedThenOneTick()
    ensures PushBounded([100.0], 101.23) == [100.0, 101.23]
    ensures IsPriceUp(PushBounded([100.0], 101.23))
  {
  }
}
