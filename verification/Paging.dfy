/** The page replacement simulator: on a fault with full memory it evicts the
    resident page whose next use lies farthest ahead, and reports the number of
    swaps as optimal.  This module proves that claim against every paging policy,
    including policies that prefetch pages or discard them early. */
module Paging {
  import opened Common

  /** The first position at or after `start` that accesses page `p`, or |l|. */
  function NextUse(l: seq<int>, start: nat, p: int): (r: nat)
    requires start <= |l|
    ensures start <= r <= |l|
    ensures r < |l| ==> l[r] == p
    ensures forall i :: start <= i < r ==> l[i] != p
    decreases |l| - start
  {
    if start == |l| || l[start] == p then start else NextUse(l, start + 1, p)
  }

  function Pages(m: seq<int>): set<int> {
    set p | p in m
  }

  lemma {:induction false} DistinctCard(m: seq<int>)
    requires Distinct(m)
    ensures |Pages(m)| == |m|
  {
    if m != [] {
      var n := |m| - 1;
      DistinctCard(m[..n]);
      assert m == m[..n] + [m[n]];
      assert Pages(m) == Pages(m[..n]) + {m[n]};
    }
  }

  // ----- Paging runs -----

  /** A run lists the resident set before each access and after the last one.  The
      only demands are the physical ones: it starts empty, never exceeds `k` frames
      and holds each page while it is accessed. */
  ghost predicate PagingRun(l: seq<int>, k: nat, run: seq<set<int>>) {
    && 1 <= |run| <= |l| + 1
    && run[0] == {}
    && forall i :: 0 <= i < |run| - 1 ==> Serves(l, k, run, i)
  }

  ghost predicate Serves(l: seq<int>, k: nat, run: seq<set<int>>, i: nat)
    requires i + 1 < |run| <= |l| + 1
  {
    l[i] in run[i + 1] && |run[i + 1]| <= k
  }

  /** Pages brought in along a run. */
  ghost function Loads(run: seq<set<int>>): nat {
    if |run| <= 1 then 0
    else Loads(run[..|run| - 1]) + |run[|run| - 1] - run[|run| - 2]|
  }

  /** Pages thrown out along a run. */
  ghost function Evictions(run: seq<set<int>>): nat {
    if |run| <= 1 then 0
    else Evictions(run[..|run| - 1]) + |run[|run| - 2] - run[|run| - 1]|
  }

  /** Conservation: what was loaded is resident or was evicted. */
  lemma {:induction false} Conservation(run: seq<set<int>>)
    requires |run| >= 1 && run[0] == {}
    ensures Loads(run) == Evictions(run) + |run[|run| - 1]|
  {
    if |run| > 1 {
      var n := |run| - 1;
      Conservation(run[..n]);
      var m, m' := run[n - 1], run[n];
      assert m == (m * m') + (m - m');
      assert m' == (m * m') + (m' - m);
    }
  }

  ghost predicate IsFarthest(l: seq<int>, i: nat, m: set<int>, f: int)
    requires i <= |l|
  {
    f in m && forall p :: p in m ==> NextUse(l, i, p) <= NextUse(l, i, f)
  }

  ghost predicate FarthestStep(l: seq<int>, i: nat, k: nat, m: set<int>, m': set<int>)
    requires i < |l|
  {
    if l[i] in m then m' == m
    else if |m| < k then m' == m + {l[i]}
    else exists f :: IsFarthest(l, i, m, f) && m' == m - {f} + {l[i]}
  }

  ghost predicate FarthestRun(l: seq<int>, k: nat, run: seq<set<int>>) {
    && 1 <= |run| <= |l| + 1
    && run[0] == {}
    && forall i :: 0 <= i < |run| - 1 ==> StepsFarthest(l, k, run, i)
  }

  ghost predicate StepsFarthest(l: seq<int>, k: nat, run: seq<set<int>>, i: nat)
    requires i + 1 < |run| <= |l| + 1
  {
    FarthestStep(l, i, k, run[i], run[i + 1])
  }

  lemma RunPrefixes(l: seq<int>, k: nat, run: seq<set<int>>)
    requires |run| >= 2
    ensures FarthestRun(l, k, run) <==>
            |run| <= |l| + 1 && FarthestRun(l, k, run[..|run| - 1]) && StepsFarthest(l, k, run, |run| - 2)
    ensures PagingRun(l, k, run) <==>
            |run| <= |l| + 1 && PagingRun(l, k, run[..|run| - 1]) && Serves(l, k, run, |run| - 2)
  {
    var init := run[..|run| - 1];
    if |run| <= |l| + 1 {
      assert forall i :: 0 <= i < |init| - 1 ==> StepsFarthest(l, k, init, i) == StepsFarthest(l, k, run, i);
      assert forall i :: 0 <= i < |init| - 1 ==> Serves(l, k, init, i) == Serves(l, k, run, i);
    }
  }

  // ----- The exchange argument, as a potential -----

  /** Pages of `m`, other than the one accessed at `i`, used again before `tau`. */
  ghost function Near(l: seq<int>, i: nat, m: set<int>, tau: nat): set<int>
    requires i < |l|
  {
    set p | p in m && p != l[i] && NextUse(l, i, p) < tau
  }

  /** Pages of `m` used again before `tau`. */
  ghost function Soon(l: seq<int>, i: nat, m: set<int>, tau: nat): set<int>
    requires i <= |l|
  {
    set p | p in m && NextUse(l, i, p) < tau
  }

  /** For every horizon, the rival's lead in soon-needed pages is paid for by the
      extra pages it has loaded. */
  ghost predicate Potential(l: seq<int>, i: nat, far: set<int>, farLoads: nat, rival: set<int>, rivalLoads: nat)
    requires i <= |l|
  {
    forall tau: nat :: PaidFor(l, i, far, farLoads, rival, rivalLoads, tau)
  }

  ghost predicate PaidFor(l: seq<int>, i: nat, far: set<int>, farLoads: nat, rival: set<int>, rivalLoads: nat, tau: nat)
    requires i <= |l|
  {
    |Soon(l, i, rival, tau)| + farLoads <= |Soon(l, i, far, tau)| + rivalLoads
  }

  lemma SoonBefore(l: seq<int>, i: nat, m: set<int>, tau: nat)
    requires i < |l| && tau > i
    ensures |Soon(l, i, m, tau)| == |Near(l, i, m, tau)| + One(l[i] in m)
  {
    var a := l[i];
    assert NextUse(l, i, a) == i;
    if a in m {
      assert Soon(l, i, m, tau) == Near(l, i, m, tau) + {a};
    } else {
      assert Soon(l, i, m, tau) == Near(l, i, m, tau);
    }
  }

  lemma SoonAfter(l: seq<int>, i: nat, m: set<int>, tau: nat)
    requires i < |l| && l[i] in m
    ensures |Soon(l, i + 1, m, tau)| == |Near(l, i, m, tau)| + One(NextUse(l, i + 1, l[i]) < tau)
  {
    var a := l[i];
    var soon, near := Soon(l, i + 1, m, tau), Near(l, i, m, tau);
    forall p ensures p in soon <==> p in near || (p == a && NextUse(l, i + 1, a) < tau) {
      NotUsedHere(l, i, p);
    }
    assert soon == if NextUse(l, i + 1, a) < tau then near + {a} else near;
  }

  lemma NotUsedHere(l: seq<int>, i: nat, p: int)
    requires i < |l|
    ensures p != l[i] ==> NextUse(l, i + 1, p) == NextUse(l, i, p)
  {
  }

  /** A rival gains soon-needed pages only by loading them. */
  lemma NearGrowth(l: seq<int>, i: nat, m: set<int>, m': set<int>, tau: nat)
    requires i < |l| && l[i] in m'
    ensures |Near(l, i, m', tau)| + One(l[i] !in m) <= |Near(l, i, m, tau)| + |m' - m|
  {
    var a := l[i];
    var extra := m' - m - {a};
    assert Near(l, i, m', tau) <= Near(l, i, m, tau) + extra;
    SubsetCard(Near(l, i, m', tau), Near(l, i, m, tau) + extra);
    if a !in m {
      assert m' - m == extra + {a};
    } else {
      assert m' - m == extra;
    }
  }

  lemma {:induction false} SubsetCard<T>(a: set<T>, b: set<T>)
    requires a <= b
    ensures |a| <= |b|
  {
    assert b == a + (b - a);
  }

  /** The lead never goes negative: at a step the farthest-next-use run has loaded no
      more than its rival, counting the current access. */
  lemma LoadsStayBehind(l: seq<int>, i: nat, far: set<int>, fl: nat, rival: set<int>, rl: nat, rival': set<int>)
    requires i < |l| && l[i] in rival'
    requires Potential(l, i, far, fl, rival, rl)
    ensures fl + One(l[i] !in far) <= rl + |rival' - rival|
  {
    var a := l[i];
    SoonBefore(l, i, far, i + 1);
    SoonBefore(l, i, rival, i + 1);
    assert forall p :: p != a ==> NextUse(l, i, p) >= i + 1;
    assert Near(l, i, far, i + 1) == {} == Near(l, i, rival, i + 1);
    assert PaidFor(l, i, far, fl, rival, rl, i + 1);
    if a !in rival {
      assert a in rival' - rival;
    }
  }

  /** One access preserves the potential, whatever the rival does. */
  lemma PotentialStep(l: seq<int>, i: nat, k: nat, far: set<int>, fl: nat, far': set<int>,
                      rival: set<int>, rl: nat, rival': set<int>)
    requires i < |l| && |far| <= k && 1 <= k
    requires FarthestStep(l, i, k, far, far')
    requires l[i] in rival' && |rival'| <= k
    requires Potential(l, i, far, fl, rival, rl)
    ensures Potential(l, i + 1, far', fl + |far' - far|, rival', rl + |rival' - rival|)
  {
    FaultLoadsOne(l, i, k, far, far');
    LoadsStayBehind(l, i, far, fl, rival, rl, rival');
    var j, fl', rl' := i + 1, fl + |far' - far|, rl + |rival' - rival|;
    forall tau: nat
      ensures PaidFor(l, j, far', fl', rival', rl', tau)
    {
      NearStep(l, i, k, far, fl, far', rival, rl, rival', tau);
      SoonAfter(l, i, far', tau);
      SoonAfter(l, i, rival', tau);
    }
  }

  lemma FaultLoadsOne(l: seq<int>, i: nat, k: nat, far: set<int>, far': set<int>)
    requires i < |l| && FarthestStep(l, i, k, far, far')
    ensures l[i] in far' && |far' - far| == One(l[i] !in far)
  {
    if l[i] !in far {
      assert far' - far == {l[i]};
    } else {
      assert far' - far == {};
    }
  }

  lemma NearStep(l: seq<int>, i: nat, k: nat, far: set<int>, fl: nat, far': set<int>,
                 rival: set<int>, rl: nat, rival': set<int>, tau: nat)
    requires i < |l| && |far| <= k && 1 <= k
    requires FarthestStep(l, i, k, far, far')
    requires l[i] in rival' && |rival'| <= k
    requires Potential(l, i, far, fl, rival, rl)
    requires fl + One(l[i] !in far) <= rl + |rival' - rival|
    ensures |Near(l, i, rival', tau)| + fl + One(l[i] !in far) <= |Near(l, i, far', tau)| + rl + |rival' - rival|
  {
    var a := l[i];
    if tau <= i {
      assert Near(l, i, rival', tau) == {};
    } else {
      SoonBefore(l, i, far, tau);
      SoonBefore(l, i, rival, tau);
      NearGrowth(l, i, rival, rival', tau);
      assert PaidFor(l, i, far, fl, rival, rl, tau);
      if Near(l, i, far', tau) != Near(l, i, far, tau) {
        NearEviction(l, i, k, far, far', tau);
        SubsetCard(Near(l, i, rival', tau), rival' - {a});
      }
    }
  }

  /** An eviction that reaches below the horizon leaves only near pages. */
  lemma NearEviction(l: seq<int>, i: nat, k: nat, far: set<int>, far': set<int>, tau: nat)
    requires i < |l| && |far| <= k && FarthestStep(l, i, k, far, far') && tau > i
    requires Near(l, i, far', tau) != Near(l, i, far, tau)
    ensures |Near(l, i, far', tau)| == k - 1
  {
    var f :| IsFarthest(l, i, far, f) && far' == far - {f} + {l[i]};
    assert Near(l, i, far', tau) == far - {f};
    assert |far - {f}| == k - 1;
  }

  lemma FarthestSize(l: seq<int>, k: nat, run: seq<set<int>>)
    requires FarthestRun(l, k, run) && k >= 1
    ensures forall i :: 0 <= i < |run| ==> |run[i]| <= k
    ensures |run[|run| - 1]| < k ==> Evictions(run) == 0
  {
    if |run| > 1 {
      var n := |run| - 1;
      RunPrefixes(l, k, run);
      FarthestSize(l, k, run[..n]);
      assert StepsFarthest(l, k, run, n - 1);
      StepSize(l, n - 1, k, run[n - 1], run[n]);
    }
  }

  /** Frames fill up before anything is evicted, and are never more than there are. */
  lemma StepSize(l: seq<int>, i: nat, k: nat, m: set<int>, m': set<int>)
    requires i < |l| && FarthestStep(l, i, k, m, m') && |m| <= k && k >= 1
    ensures |m'| <= k && (|m'| < k ==> |m| < k && m - m' == {})
  {
    if l[i] !in m && |m| >= k {
      var f :| IsFarthest(l, i, m, f) && m' == m - {f} + {l[i]};
      assert |m - {f}| == k - 1;
    } else {
      assert m - m' == {};
      SubsetCard(m, m');
    }
  }

  lemma {:induction false} PotentialHolds(l: seq<int>, k: nat, far: seq<set<int>>, rival: seq<set<int>>)
    requires k >= 1
    requires FarthestRun(l, k, far) && PagingRun(l, k, rival) && |far| == |rival|
    ensures Potential(l, |far| - 1, far[|far| - 1], Loads(far), rival[|rival| - 1], Loads(rival))
  {
    var n := |far| - 1;
    if n > 0 {
      LastStep(l, k, far, rival);
      PotentialHolds(l, k, far[..n], rival[..n]);
      LoadsStep(far);
      LoadsStep(rival);
      PotentialStep(l, n - 1, k, far[n - 1], Loads(far[..n]), far[n], rival[n - 1], Loads(rival[..n]), rival[n]);
    } else {
      NothingYet(l);
    }
  }

  lemma LoadsStep(run: seq<set<int>>)
    requires |run| > 1
    ensures Loads(run) == Loads(run[..|run| - 1]) + |run[|run| - 1] - run[|run| - 2]|
  {
  }

  lemma NothingYet(l: seq<int>)
    ensures Potential(l, 0, {}, 0, {}, 0)
  {
  }

  /** What the last access of two runs satisfies. */
  lemma LastStep(l: seq<int>, k: nat, far: seq<set<int>>, rival: seq<set<int>>)
    requires k >= 1 && |far| == |rival| >= 2
    requires FarthestRun(l, k, far) && PagingRun(l, k, rival)
    ensures var n := |far| - 1;
            && FarthestRun(l, k, far[..n]) && PagingRun(l, k, rival[..n])
            && FarthestStep(l, n - 1, k, far[n - 1], far[n]) && |far[n - 1]| <= k
            && l[n - 1] in rival[n] && |rival[n]| <= k
  {
    var n := |far| - 1;
    RunPrefixes(l, k, far);
    RunPrefixes(l, k, rival);
    FarthestSize(l, k, far);
    assert StepsFarthest(l, k, far, n - 1) && Serves(l, k, rival, n - 1);
  }

  /** Belady's theorem: no policy loads or evicts fewer pages on the same trace. */
  lemma Optimality(l: seq<int>, k: nat, far: seq<set<int>>, rival: seq<set<int>>)
    requires k >= 1
    requires FarthestRun(l, k, far) && PagingRun(l, k, rival) && |far| == |rival|
    ensures Loads(far) <= Loads(rival)
    ensures Evictions(far) <= Evictions(rival)
  {
    PotentialHolds(l, k, far, rival);
    var n := |far| - 1;
    assert Soon(l, n, far[n], 0) == {} == Soon(l, n, rival[n], 0);
    assert PaidFor(l, n, far[n], Loads(far), rival[n], Loads(rival), 0);
    Conservation(far);
    Conservation(rival);
    FarthestSize(l, k, far);
    if n > 0 {
      assert Serves(l, k, rival, n - 1);
    }
  }

  // ----- The simulator -----

  /** Pages of `mem` that the future from `start` has not reached before `i`. */
  ghost predicate Unreached(l: seq<int>, start: nat, i: nat, mem: seq<int>, remaining: seq<int>)
    requires start <= i <= |l|
  {
    && Distinct(remaining)
    && forall p :: p in remaining <==> p in mem && NextUse(l, start, p) >= i
  }

  lemma UnreachedStep(l: seq<int>, start: nat, i: nat, mem: seq<int>, remaining: seq<int>)
    requires start <= i < |l| && Unreached(l, start, i, mem, remaining)
    ensures l[i] in remaining ==> Unreached(l, start, i + 1, mem, Without(remaining, l[i]))
    ensures l[i] !in remaining ==> Unreached(l, start, i + 1, mem, remaining)
  {
    var a := l[i];
    assert forall p :: NextUse(l, start, p) == i ==> p == a;
    assert NextUse(l, start, a) <= i;
    if a in remaining {
      WithoutContents(remaining, a);
    }
  }

  /** Walks the future, striking pages off a copy of memory until one is left. */
  method LastUsed(l: seq<int>, start: nat, mem: seq<int>) returns (r: int)
    requires start <= |l| && |mem| >= 2 && Distinct(mem)
    ensures IsFarthest(l, start, Pages(mem), r)
  {
    var remaining := mem;
    for i := start to |l|
      invariant |remaining| >= 2
      invariant Unreached(l, start, i, mem, remaining)
    {
      UnreachedStep(l, start, i, mem, remaining);
      if l[i] in remaining {
        WithoutLength(remaining, l[i]);
        remaining := Without(remaining, l[i]);
        if |remaining| == 1 {
          assert forall p :: p in remaining ==> p == remaining[0];
          return remaining[0];
        }
      }
    }
    r := remaining[0];
    assert r in remaining;
  }

  lemma ReplaceFrame(m: seq<int>, j: nat, a: int)
    requires Distinct(m) && j < |m| && a !in m
    ensures Distinct(m[j := a])
    ensures Pages(m[j := a]) == Pages(m) - {m[j]} + {a}
  {
    forall p | p in m && p != m[j] ensures p in m[j := a] {
      var i :| 0 <= i < |m| && m[i] == p;
      assert m[j := a][i] == p;
    }
    assert m[j := a][j] == a;
  }

  lemma ExtendRun(l: seq<int>, k: nat, run: seq<set<int>>, m: set<int>)
    requires FarthestRun(l, k, run) && PagingRun(l, k, run) && |run| <= |l|
    requires FarthestStep(l, |run| - 1, k, run[|run| - 1], m)
    requires l[|run| - 1] in m && |m| <= k
    ensures FarthestRun(l, k, run + [m]) && PagingRun(l, k, run + [m])
    ensures Evictions(run + [m]) == Evictions(run) + |run[|run| - 1] - m|
  {
    var next := run + [m];
    assert next[..|next| - 1] == run;
    RunPrefixes(l, k, next);
  }

  /** The frame that holds a page. */
  method FindFrame(memory: seq<int>, page: int) returns (frame: nat)
    requires page in memory
    ensures frame < |memory| && memory[frame] == page
    ensures page !in memory[frame + 1..]
  {
    frame := 0;
    for i := 0 to |memory|
      invariant page in memory[..i] ==> frame < i && memory[frame] == page && page !in memory[frame + 1..i]
    {
      if memory[i] == page {
        frame := i;
      }
    }
    assert memory[..|memory|] == memory;
  }

  /** One iteration of the replacement loop. */
  method Access(accesses: seq<int>, i: nat, memorySize: nat, memory: seq<int>, swaps: nat)
    returns (memory': seq<int>, swaps': nat)
    requires i < |accesses| && memorySize >= 2 && Distinct(memory) && |memory| <= memorySize
    ensures Distinct(memory') && |memory'| <= memorySize && accesses[i] in memory'
    ensures FarthestStep(accesses, i, memorySize, Pages(memory), Pages(memory'))
    ensures swaps' == swaps + |Pages(memory) - Pages(memory')|
  {
    var a := accesses[i];
    DistinctCard(memory);
    if a in memory {
      assert Pages(memory) - Pages(memory) == {};
      return memory, swaps;
    }
    if |memory| < memorySize {
      memory' := memory + [a];
      assert Pages(memory') == Pages(memory) + {a};
      assert Pages(memory) - Pages(memory') == {};
      return memory', swaps;
    }
    var swapVal := LastUsed(accesses, i, memory);
    var swapFrame := FindFrame(memory, swapVal);
    ReplaceFrame(memory, swapFrame, a);
    memory' := memory[swapFrame := a];
    assert Pages(memory) - Pages(memory') == {swapVal};
    swaps' := swaps + 1;
  }

  /** The whole simulation.  The reported count is exactly the minimum over all paging
      runs of the trace: some run attains it and none does better. */
  method Simulate(accesses: seq<int>, memorySize: int) returns (result: Option<nat>)
    ensures result.Some? <==> memorySize >= 2
    ensures result.Some? ==> forall rival | PagingRun(accesses, memorySize, rival) && |rival| == |accesses| + 1 ::
                               result.value <= Evictions(rival)
    ensures result.Some? ==> exists run :: PagingRun(accesses, memorySize, run) && |run| == |accesses| + 1 &&
                                           Evictions(run) == result.value
  {
    if memorySize < 2 {
      return None;
    }
    var swaps := 0;
    var memory: seq<int> := [];
    ghost var run: seq<set<int>> := [{}];
    for i := 0 to |accesses|
      invariant Distinct(memory) && |memory| <= memorySize
      invariant |run| == i + 1 && run[i] == Pages(memory)
      invariant FarthestRun(accesses, memorySize, run) && PagingRun(accesses, memorySize, run)
      invariant swaps == Evictions(run)
    {
      memory, swaps := Access(accesses, i, memorySize, memory, swaps);
      DistinctCard(memory);
      ExtendRun(accesses, memorySize, run, Pages(memory));
      run := run + [Pages(memory)];
    }
    forall rival | PagingRun(accesses, memorySize, rival) && |rival| == |accesses| + 1
      ensures swaps <= Evictions(rival)
    {
      Optimality(accesses, memorySize, run, rival);
    }
    return Some(swaps);
  }
}
