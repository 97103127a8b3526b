/** One complete walk down a bit tree, as a value: which bits the range decoder
    yields, how the probability models and the decoder state end up, and which
    models were probed.  The three decoding methods of `BitTreeDecoder` are
    specified by this function. */
module TreeWalk {
  import opened JavaInt
  import opened BitStrings
  import opened RangeDecoder

  /** A tree of `depth` levels placed at offset `start` fits in `len` models:
      every node index `start + m` with `1 <= m < 2^depth` is in bounds.  A tree
      of no levels probes nothing, so it fits anywhere. */
  predicate Fits(start: int, depth: nat, len: nat)
  {
    depth == 0 || (-1 <= start && start + Pow2(depth) <= len)
  }

  /** Where a walk stands: the current node `m` (the decoders' loop variable),
      the bits read so far, the models, the range decoder's state, and the log
      of indices passed to `DecodeBit` so far. */
  datatype Cursor = Cursor(node: int, bits: seq<Bit>, models: seq<Prob>, state: CoderState, probes: seq<int>)

  /** A walk that has read nothing yet stands at the root, node 1. */
  function Begin(models: seq<Prob>, s: CoderState, log: seq<int>): (cur: Cursor)
    ensures cur.node == Node(cur.bits) && cur.bits == []
  {
    Cursor(1, [], models, s, log)
  }

  /** One level: decide a bit with the model at the current node, adapt that
      model, log the probe and go on to the child the bit selects. */
  function Step(c: Coder, start: int, cur: Cursor): (next: Cursor)
    requires 0 <= start + cur.node < |cur.models|
    ensures |next.bits| == |cur.bits| + 1 && |next.models| == |cur.models|
  {
    var i := start + cur.node;
    var o := c.Apply(cur.state, cur.models, i);
    Cursor(2 * cur.node + o.bit, cur.bits + [o.bit], o.probs, o.next, cur.probes + [i])
  }

  /** Decode the rest of a tree of `n` levels at offset `start`: step until
      `n` bits have been read.  A walk that would leave the array stops there;
      on a tree that fits it never does (`WalkLength`). */
  function Walk(c: Coder, start: int, cur: Cursor, n: nat): (w: Cursor)
    ensures |w.models| == |cur.models|
    decreases n - |cur.bits|
  {
    if n <= |cur.bits| || !(0 <= start + cur.node < |cur.models|) then cur
    else Walk(c, start, Step(c, start, cur), n)
  }

  /** The cursor is at the node its bits select, no deeper than the `n` levels
      of the tree, and the tree fits in the array. */
  ghost predicate OnPath(start: int, cur: Cursor, n: nat)
  {
    |cur.bits| <= n && cur.node == Node(cur.bits) && Fits(start, n, |cur.models|)
  }

  /** While bits remain to be read, the node probed next lies inside the tree,
      so inside the array. */
  lemma NodeInTree(start: int, cur: Cursor, n: nat)
    requires |cur.bits| < n && OnPath(start, cur, n)
    ensures start < start + cur.node < start + Pow2(n) <= |cur.models|
  {
    Pow2Monotone(|cur.bits| + 1, n);
  }

  /** While bits remain to be read, a walk is one step followed by the rest
      of the walk, and that step stays on the path.  This is what each
      iteration of a decoding loop relies on. */
  lemma WalkStep(c: Coder, start: int, cur: Cursor, n: nat)
    requires |cur.bits| < n && OnPath(start, cur, n)
    ensures 0 <= start + cur.node < |cur.models|
    ensures OnPath(start, Step(c, start, cur), n)
    ensures Walk(c, start, cur, n) == Walk(c, start, Step(c, start, cur), n)
  {
    NodeInTree(start, cur, n);
    var next := Step(c, start, cur);
    var b := next.bits[|cur.bits|];
    assert next.bits == cur.bits + [b];
    NodeStep(cur.bits, b);
  }

  /** One iteration of a decoding loop: after `DecodeBit` has decided `bit` with
      the model at the current node, adapted that model and logged the probe,
      the loop's new position is the next step of the walk, still on the path. */
  lemma Advance(c: Coder, start: int, cur: Cursor, n: nat, i: int, bit: Bit, models: seq<Prob>, s: CoderState, probes: seq<int>)
    requires |cur.bits| < n && OnPath(start, cur, n)
    requires i == start + cur.node && 0 <= i < |cur.models|
    requires var o := c.Apply(cur.state, cur.models, i);
      bit == o.bit && s == o.next && models == o.probs && probes == cur.probes + [i]
    ensures var next := Cursor(2 * cur.node + bit, cur.bits + [bit], models, s, probes);
      OnPath(start, next, n) && Walk(c, start, cur, n) == Walk(c, start, next, n)
  {
    WalkStep(c, start, cur, n);
  }

  /** A walk down a tree that fits reads exactly one bit per level. */
  lemma {:induction false} WalkLength(c: Coder, start: int, cur: Cursor, n: nat)
    requires OnPath(start, cur, n)
    ensures |Walk(c, start, cur, n).bits| == n
    decreases n - |cur.bits|
  {
    if |cur.bits| < n {
      WalkStep(c, start, cur, n);
      WalkLength(c, start, Step(c, start, cur), n);
    }
  }

  /** The indices a walk probes are the nodes of the path its bits select, one
      per level, in order: `Decode` and both `ReverseDecode`s, reading the same
      bits, probe the same models in the same order. */
  lemma {:induction false} WalkProbes(c: Coder, start: int, cur: Cursor, n: nat, base: seq<int>)
    requires OnPath(start, cur, n)
    requires cur.probes == base + Path(start, cur.bits)
    ensures var w := Walk(c, start, cur, n);
      w.probes == base + Path(start, w.bits)
    decreases n - |cur.bits|
  {
    if |cur.bits| < n {
      WalkStep(c, start, cur, n);
      var next := Step(c, start, cur);
      var b := next.bits[|cur.bits|];
      assert next.bits == cur.bits + [b];
      PathStep(base, start, cur.bits, b);
      WalkProbes(c, start, next, n, base);
    }
  }

  /** `a` and `b` hold the same models at every index outside `(lo, hi)`. */
  ghost predicate SameOutside(a: seq<Prob>, b: seq<Prob>, lo: int, hi: int)
  {
    |a| == |b| && forall j :: 0 <= j < |a| && (j <= lo || hi <= j) ==> a[j] == b[j]
  }

  lemma SameOutsideTransitive(a: seq<Prob>, b: seq<Prob>, c: seq<Prob>, lo: int, hi: int)
    requires SameOutside(a, b, lo, hi) && SameOutside(b, c, lo, hi)
    ensures SameOutside(a, c, lo, hi)
  {
  }

  /** A walk changes no model outside its tree `(start, start + 2^n)`. */
  lemma {:induction false} WalkFrame(c: Coder, start: int, cur: Cursor, n: nat)
    requires OnPath(start, cur, n)
    ensures SameOutside(Walk(c, start, cur, n).models, cur.models, start, start + Pow2(n))
    decreases n - |cur.bits|
  {
    if |cur.bits| < n {
      WalkStep(c, start, cur, n);
      NodeInTree(start, cur, n);
      var next := Step(c, start, cur);
      WalkFrame(c, start, next, n);
      assert SameOutside(next.models, cur.models, start, start + Pow2(n));
      SameOutsideTransitive(Walk(c, start, next, n).models, next.models, cur.models, start, start + Pow2(n));
    }
  }

  /** A whole walk from the root of a tree that fits: it reads `n` bits, calls
      `DecodeBit` exactly `n` times, at the nodes of the path those bits select
      and in that order, every probe inside the tree, and it changes no model
      outside the tree. */
  lemma WalkFromRoot(c: Coder, start: int, models: seq<Prob>, s: CoderState, log: seq<int>, n: nat)
    requires Fits(start, n, |models|)
    ensures var w := Walk(c, start, Begin(models, s, log), n);
      && |w.bits| == n
      && w.probes == log + Path(start, w.bits)
      && (forall j :: |log| <= j < |w.probes| ==> start < w.probes[j] < start + Pow2(n))
      && SameOutside(w.models, models, start, start + Pow2(n))
  {
    var cur := Begin(models, s, log);
    assert OnPath(start, cur, n);
    WalkLength(c, start, cur, n);
    WalkProbes(c, start, cur, n, log);
    WalkFrame(c, start, cur, n);
    var w := Walk(c, start, cur, n);
    PathWithinTree(start, w.bits);
    forall j | |log| <= j < |w.probes|
      ensures start < w.probes[j] < start + Pow2(n)
    {
      assert w.probes[j] == Path(start, w.bits)[j - |log|];
    }
  }

  /** `wcur` is `cur` seen through the window `[start, start + size)` of its
      models, with its own probe log. */
  ghost predicate InWindow(cur: Cursor, wcur: Cursor, start: nat, size: nat)
  {
    start + size <= |cur.models| &&
    wcur.node == cur.node && wcur.bits == cur.bits && wcur.state == cur.state &&
    wcur.models == cur.models[start..start + size]
  }

  /** A step taken in the shared array and the same step taken in the window
      decide the same bit and adapt the same model. */
  lemma StepInWindow(c: Coder, start: nat, size: nat, cur: Cursor, wcur: Cursor)
    requires InWindow(cur, wcur, start, size) && 0 <= cur.node < size
    ensures InWindow(Step(c, start, cur), Step(c, 0, wcur), start, size)
  {
    var m := cur.node;
    var x := c.adapt(cur.models[start + m], c.decide(cur.state, cur.models[start + m]).bit);
    UpdateInWindow(cur.models, start, size, m, x);
  }

  /** A tree at offset `start` of a shared array decodes exactly as a tree that
      owns the window `models[start .. start + 2^n]` as its own array: the same
      bits, the same decoder state, and the window ends up as that tree's array
      does. */
  lemma {:induction false} WalkInWindow(c: Coder, start: nat, cur: Cursor, wcur: Cursor, n: nat)
    requires OnPath(start, cur, n)
    requires InWindow(cur, wcur, start, Pow2(n))
    ensures InWindow(Walk(c, start, cur, n), Walk(c, 0, wcur, n), start, Pow2(n))
    decreases n - |cur.bits|
  {
    if |cur.bits| < n {
      NodeInTree(start, cur, n);
      assert OnPath(0, wcur, n);
      WalkStep(c, start, cur, n);
      WalkStep(c, 0, wcur, n);
      StepInWindow(c, start, Pow2(n), cur, wcur);
      WalkInWindow(c, start, Step(c, start, cur), Step(c, 0, wcur), n);
    }
  }

  /** The walk of a tree stored at offset `start` of a shared array, against
      the walk of a tree that owns the window `models[start .. start + 2^n]` as
      its own array: the same bits and decoder state, each probe shifted by
      `start`, the window ending up as the own array does, and no model
      outside the window changed. */
  lemma WindowedWalk(c: Coder, start: nat, models: seq<Prob>, window: seq<Prob>, s: CoderState, log: seq<int>, n: nat)
    requires start + Pow2(n) <= |models| && window == models[start..start + Pow2(n)]
    ensures var w := Walk(c, start, Begin(models, s, log), n);
      var v := Walk(c, 0, Begin(window, s, log), n);
      && w.bits == v.bits && w.state == v.state
      && w.models[start..start + Pow2(n)] == v.models
      && SameOutside(w.models, models, start, start + Pow2(n))
      && |w.probes| == |v.probes| == |log| + n
      && (forall j :: 0 <= j < |w.probes| ==> w.probes[j] == if j < |log| then v.probes[j] else start + v.probes[j])
  {
    var cur, wcur := Begin(models, s, log), Begin(window, s, log);
    assert OnPath(start, cur, n);
    WalkInWindow(c, start, cur, wcur, n);
    var w, v := Walk(c, start, cur, n), Walk(c, 0, wcur, n);
    assert InWindow(w, v, start, Pow2(n));
    WalkFromRoot(c, start, models, s, log, n);
    WalkFromRoot(c, 0, window, s, log, n);
    ShiftedPath(start, v.bits, log);
  }

  /** The probes of a tree at offset `start` are those of the same walk at
      offset 0, each shifted by `start`. */
  lemma ShiftedPath(start: int, bits: seq<Bit>, log: seq<int>)
    ensures forall j :: 0 <= j < |log| + |bits| ==>
      (log + Path(start, bits))[j] == if j < |log| then (log + Path(0, bits))[j] else start + (log + Path(0, bits))[j]
  {
    forall j | |log| <= j < |log| + |bits|
      ensures (log + Path(start, bits))[j] == start + (log + Path(0, bits))[j]
    {
      PathAt(start, bits, j - |log|);
      PathAt(0, bits, j - |log|);
    }
  }

  /** Updating an entry inside a window is updating the window, and leaves the
      rest of the sequence as it was. */
  lemma UpdateInWindow<T>(s: seq<T>, start: nat, size: nat, m: nat, x: T)
    requires m < size && start + size <= |s|
    ensures s[start..start + size][m] == s[start + m]
    ensures s[start + m := x][start..start + size] == s[start..start + size][m := x]
    ensures s[start + m := x][..start] == s[..start]
    ensures s[start + m := x][start + size..] == s[start + size..]
  {
  }
}
