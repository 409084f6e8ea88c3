/** Removing idle workers from the ready list: the linear scan of worker_pool.go and the binary search of
    zero/pool.go, both in place. */
module IdleClean {
  import opened Options

  /** A ready worker channel and the time of its last use. */
  datatype Ready = Ready(chan: nat, last: int)

  /** A slot of the slice's backing array; nil behind the slice. */
  type Slot = Option<Ready>

  predicate Full(ws: seq<Slot>) {
    forall i | 0 <= i < |ws| :: ws[i].Some?
  }

  /** MaxIdleWorkerDuration as both pools use it: ten seconds when it is not positive. */
  function MaxIdle(d: int): (idle: int)
    ensures idle > 0 && (d > 0 ==> idle == d) && (d <= 0 ==> idle == 10_000_000_000)
  {
    if d <= 0 then 10_000_000_000 else d
  }

  predicate Stale(w: Slot, now: int, idle: int) {
    w.Some? && now - w.value.last > idle
  }

  predicate Sorted(ws: seq<Slot>)
    requires Full(ws)
  {
    forall i, j | 0 <= i < j < |ws| :: ws[i].value.last <= ws[j].value.last
  }

  /** The length of the longest prefix of stale workers. */
  function StalePrefix(ws: seq<Slot>, now: int, idle: int): (k: nat)
    ensures k <= |ws|
    ensures forall i | 0 <= i < k :: Stale(ws[i], now, idle)
    ensures k < |ws| ==> !Stale(ws[k], now, idle)
  {
    if ws == [] || !Stale(ws[0], now, idle) then 0 else 1 + StalePrefix(ws[1..], now, idle)
  }

  /** In a sorted list the stale prefix is exactly the stale workers. */
  lemma SortedPrefixIsAll(ws: seq<Slot>, now: int, idle: int, i: nat)
    requires Full(ws) && Sorted(ws) && i < |ws|
    ensures i < StalePrefix(ws, now, idle) <==> Stale(ws[i], now, idle)
  {
    var k := StalePrefix(ws, now, idle);
    if k < i {
      assert ws[k].value.last <= ws[i].value.last;
    }
  }

  // ----- the binary search -----

  function Mid(l: int, r: int): (m: int)
    requires l <= r
    ensures l <= m <= r
  {
    (l + r) / 2
  }

  /** What the search knows: the worker before position l is stale and the one behind r is not. */
  predicate Bracket(ws: seq<Slot>, now: int, idle: int, l: int, r: int) {
    && 0 <= l <= r + 1 <= |ws|
    && (l > 0 ==> Stale(ws[l - 1], now, idle))
    && (r + 1 < |ws| ==> !Stale(ws[r + 1], now, idle))
  }

  /** Where the binary search over the positions l to r cuts: at a stale worker followed by a fresh one. */
  function Cut(ws: seq<Slot>, now: int, idle: int, l: int, r: int): (k: int)
    requires Bracket(ws, now, idle, l, r)
    ensures l <= k <= r + 1 && Bracket(ws, now, idle, k, k - 1)
    decreases r - l
  {
    if l > r then l
    else if Stale(ws[Mid(l, r)], now, idle) then Cut(ws, now, idle, Mid(l, r) + 1, r)
    else Cut(ws, now, idle, l, Mid(l, r) - 1)
  }

  /** Some worker the search looks at is stale although a worker before it is fresh. */
  predicate Misled(ws: seq<Slot>, now: int, idle: int, l: int, r: int)
    requires 0 <= l <= r + 1 <= |ws|
    decreases r - l
  {
    && l <= r
    && (if Stale(ws[Mid(l, r)], now, idle)
        then Mid(l, r) >= StalePrefix(ws, now, idle) || Misled(ws, now, idle, Mid(l, r) + 1, r)
        else Misled(ws, now, idle, l, Mid(l, r) - 1))
  }

  /** On any list, sorted or not: the binary search cuts where the linear scan does unless it is misled, and
      then it cuts too late, so that fresh workers go. */
  lemma {:induction false} CutIsPrefixIff(ws: seq<Slot>, now: int, idle: int, l: int, r: int)
    requires Bracket(ws, now, idle, l, r) && l <= StalePrefix(ws, now, idle) <= r + 1
    ensures Cut(ws, now, idle, l, r) >= StalePrefix(ws, now, idle)
    ensures Cut(ws, now, idle, l, r) == StalePrefix(ws, now, idle) <==> !Misled(ws, now, idle, l, r)
    decreases r - l
  {
    hide Mid, StalePrefix, Stale;
    if l <= r {
      var mid := Mid(l, r);
      if !Stale(ws[mid], now, idle) {
        CutIsPrefixIff(ws, now, idle, l, mid - 1);
      } else if mid < StalePrefix(ws, now, idle) {
        CutIsPrefixIff(ws, now, idle, mid + 1, r);
      }
    }
  }

  lemma {:induction false} SortedIsNotMisleading(ws: seq<Slot>, now: int, idle: int, l: int, r: int)
    requires Full(ws) && Sorted(ws) && 0 <= l <= r + 1 <= |ws|
    ensures !Misled(ws, now, idle, l, r)
    decreases r - l
  {
    hide Mid, StalePrefix, Stale;
    if l <= r {
      var mid := Mid(l, r);
      SortedPrefixIsAll(ws, now, idle, mid);
      SortedIsNotMisleading(ws, now, idle, mid + 1, r);
      SortedIsNotMisleading(ws, now, idle, l, mid - 1);
    }
  }

  /** A fresh worker in front of two stale ones, as when it was appended before workers that had read the
      clock earlier: the search is misled and removes the fresh worker with them. */
  lemma UnsortedCanRemoveFresh(a: Ready, b: Ready, c: Ready, now: int, idle: int)
    requires now - a.last <= idle && now - b.last > idle && now - c.last > idle
    ensures var ws := [Some(a), Some(b), Some(c)];
            StalePrefix(ws, now, idle) == 0 && Cut(ws, now, idle, 0, 2) == 3 && Misled(ws, now, idle, 0, 2)
  {
    var ws := [Some(a), Some(b), Some(c)];
    assert Cut(ws, now, idle, 2, 2) == 3;
  }

  // ----- both pools -----

  /** What cutting off the first k of n slots does: they go to scratch, the rest moves to the front, the
      freed slots are cleared, and nothing behind the slice changes. */
  ghost predicate Cleaned(was: seq<Slot>, n: nat, k: nat, left: seq<Slot>, m: nat, scratch: seq<Slot>)
    requires k <= n <= |was|
  {
    && m == n - k
    && scratch == was[..k]
    && left == was[k..n] + seq(k, _ => None) + was[n..]
  }

  lemma CleanedOfNone(was: seq<Slot>, n: nat)
    requires n <= |was|
    ensures Cleaned(was, n, 0, was, n, [])
  {
    assert was == was[0..n] + seq(0, _ => None) + was[n..];
  }

  lemma CleanedOnce(was: seq<Slot>, n: nat, k: nat, j: nat, left: seq<Slot>, m: nat, scratch: seq<Slot>)
    requires k <= n <= |was| && j <= n && Cleaned(was, n, k, left, m, scratch)
    ensures Cleaned(was, n, j, left, m, scratch) <==> j == k
  {
  }

  /** The rest is shifted down by k, k slots are cleared, the others are as before. */
  lemma CleanedByParts(was: seq<Slot>, n: nat, k: nat, left: seq<Slot>)
    requires k <= n <= |was| == |left|
    requires left[..n - k] == was[k..n] && left[n..] == was[n..]
    requires forall x | n - k <= x < n :: left[x] == None
    ensures Cleaned(was, n, k, left, n - k, was[..k])
  {
    assert left[n - k..n] == seq(k, _ => None);
    assert left == left[..n - k] + left[n - k..n] + left[n..];
  }

  /** Go's copy of the slots from k on to the front. */
  method ShiftDown(a: array<Slot>, n: nat, k: nat) returns (m: nat)
    requires k <= n <= a.Length
    modifies a
    ensures m == n - k && a[..m] == old(a[k..n]) && a[m..] == old(a[m..])
  {
    m := n - k;
    ghost var was := a[..];
    var i := 0;
    while i < m
      invariant i <= m
      invariant a[..i] == was[k..k + i] && a[i..] == was[i..]
    {
      assert a[i + k] == a[i..][k] == was[i + k];
      assert a[i + 1..] == a[i..][1..] == was[i + 1..];
      a[i] := a[i + k];
      i := i + 1;
    }
  }

  /** The common tail of both pools: hand out the first k elements, shift the rest down, clear the slots
      behind them. */
  method CutPrefix(a: array<Slot>, n: nat, k: nat) returns (m: nat, scratch: seq<Slot>)
    requires k <= n <= a.Length
    modifies a
    ensures Cleaned(old(a[..]), n, k, a[..], m, scratch)
  {
    hide Cleaned;
    ghost var was := a[..];
    scratch := a[..k];
    assert scratch == was[..k];
    m := ShiftDown(a, n, k);
    ghost var shifted := a[..];
    assert shifted[..m] == was[k..n] && shifted[m..] == was[m..];
    var i := m;
    while i < n
      invariant m <= i <= n
      invariant a[..m] == was[k..n] && a[n..] == was[n..]
      invariant forall x | m <= x < i :: a[x] == None
    {
      a[i] := None;
      i := i + 1;
    }
    CleanedByParts(was, n, k, a[..]);
  }

  /** clean of worker_pool.go, for any list. */
  method CleanLinear(a: array<Slot>, n: nat, now: int, d: int) returns (m: nat, scratch: seq<Slot>)
    requires n <= a.Length && Full(a[..n])
    modifies a
    ensures Cleaned(old(a[..]), n, StalePrefix(old(a[..n]), now, MaxIdle(d)), a[..], m, scratch)
    ensures forall i | 0 <= i < |scratch| :: scratch[i].Some? && now - scratch[i].value.last > MaxIdle(d)
    ensures m > 0 ==> a[0].Some? && now - a[0].value.last <= MaxIdle(d)
  {
    ghost var ws := a[..n];
    var i := 0;
    while i < n && now - a[i].value.last > MaxIdle(d)
      invariant i <= n && i <= StalePrefix(ws, now, MaxIdle(d))
    {
      assert Stale(ws[i], now, MaxIdle(d));
      i := i + 1;
    }
    assert i < n ==> !Stale(ws[i], now, MaxIdle(d));
    m, scratch := CutPrefix(a, n, i);
  }

  /** The binary search of zero/pool.go: the position before the cut. */
  method SearchCut(a: array<Slot>, n: nat, now: int, d: int) returns (r: int)
    requires n <= a.Length && Full(a[..n])
    ensures r + 1 == Cut(a[..n], now, MaxIdle(d), 0, n - 1)
  {
    hide Mid;
    ghost var ws := a[..n];
    var before, l := now - MaxIdle(d), 0;
    r := n - 1;
    while l <= r
      invariant Bracket(ws, now, MaxIdle(d), l, r)
      invariant Cut(ws, now, MaxIdle(d), l, r) == Cut(ws, now, MaxIdle(d), 0, n - 1)
    {
      var mid := Mid(l, r);
      assert a[mid] == ws[mid];
      if before > a[mid].value.last {
        l := mid + 1;
      } else {
        r := mid - 1;
      }
    }
  }

  /** Clean of zero/pool.go, for any list: it cuts where the linear scan does unless the search is misled,
      which a sorted list never does. */
  method CleanBinary(a: array<Slot>, n: nat, now: int, d: int) returns (m: nat, scratch: seq<Slot>)
    requires n <= a.Length && Full(a[..n])
    modifies a
    ensures Cleaned(old(a[..]), n, Cut(old(a[..n]), now, MaxIdle(d), 0, n - 1), a[..], m, scratch)
    ensures !Misled(old(a[..n]), now, MaxIdle(d), 0, n - 1) <==>
            Cleaned(old(a[..]), n, StalePrefix(old(a[..n]), now, MaxIdle(d)), a[..], m, scratch)
    ensures Sorted(old(a[..n])) ==> !Misled(old(a[..n]), now, MaxIdle(d), 0, n - 1)
  {
    hide Cut, Misled, StalePrefix, Sorted, Stale, Full, Cleaned;
    ghost var ws := a[..n];
    CutIsPrefixIff(ws, now, MaxIdle(d), 0, n - 1);
    if Sorted(ws) {
      SortedIsNotMisleading(ws, now, MaxIdle(d), 0, n - 1);
    }
    var r := SearchCut(a, n, now, d);
    if r == -1 {
      CleanedOfNone(a[..], n);
      m, scratch := n, [];
    } else {
      m, scratch := CutPrefix(a, n, r + 1);
    }
    CleanedOnce(old(a[..]), n, r + 1, StalePrefix(ws, now, MaxIdle(d)), a[..], m, scratch);
  }

  /** Sortedness survives what the pools do to the list, provided stamps follow the order of appends. */
  lemma SortednessKept(ws: seq<Slot>, w: Ready, k: nat)
    requires Full(ws) && Sorted(ws) && k <= |ws| && (ws != [] ==> ws[|ws| - 1].value.last <= w.last)
    ensures Full(ws + [Some(w)]) && Sorted(ws + [Some(w)])
    ensures Full(ws[..k]) && Sorted(ws[..k]) && Full(ws[k..]) && Sorted(ws[k..])
  {
  }
}
