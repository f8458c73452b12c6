/** The flood fill of the surface-mesh variant: OUTSIDE spreads from a seed
    cell through 6-neighbours, and BOUNDARY cells act as walls. */
module Flood {
  import opened VoxelGrid

  /** A cell the flood may enter: any cell of the grid that is not BOUNDARY. */
  predicate Open(cells: seq<Label>, c: nat)
  {
    c < |cells| && cells[c] != Boundary
  }

  /** `p` is a walk of face-adjacent open cells. */
  ghost predicate IsPath(d: Dims, cells: seq<Label>, p: seq<nat>)
    requires |cells| == Size(d)
  {
    && |p| > 0
    && (forall t :: 0 <= t < |p| ==> Open(cells, p[t]))
    && (forall t :: 0 <= t < |p| - 1 ==> p[t + 1] in N6(d, p[t]))
  }

  /** `to` is 6-reachable from `from` through non-BOUNDARY cells. */
  ghost predicate Reachable(d: Dims, cells: seq<Label>, from: nat, to: nat)
    requires |cells| == Size(d)
  {
    exists p :: IsPath(d, cells, p) && p[0] == from && p[|p| - 1] == to
  }

  /** Labels as the labelling pass leaves them. */
  predicate OnlyBoundaryOrUnknown(cells: seq<Label>)
  {
    forall c :: 0 <= c < |cells| ==> cells[c] == Boundary || cells[c] == Unknown
  }

  /** Number of UNKNOWN cells; the flood fill's termination measure. */
  function CountUnknown(cells: seq<Label>): (n: nat)
    ensures n <= |cells|
  {
    if |cells| == 0 then 0
    else CountUnknown(cells[..|cells| - 1]) + (if cells[|cells| - 1] == Unknown then 1 else 0)
  }

  /** Turning one UNKNOWN cell into OUTSIDE removes exactly one UNKNOWN cell. */
  lemma {:induction false} CountUnknownUpdate(cells: seq<Label>, c: nat)
    requires c < |cells| && cells[c] == Unknown
    ensures CountUnknown(cells[c := Outside]) == CountUnknown(cells) - 1
  {
    var n := |cells|;
    var cells' := cells[c := Outside];
    if c == n - 1 {
      assert cells'[..n - 1] == cells[..n - 1];
    } else {
      assert cells'[..n - 1] == cells[..n - 1][c := Outside];
      CountUnknownUpdate(cells[..n - 1], c);
    }
  }

  /** Every face neighbour of cell `c` has been decided (is no longer UNKNOWN). */
  ghost predicate Closed(d: Dims, out: seq<Label>, c: nat)
    requires |out| == Size(d) && c < |out|
  {
    forall n :: n in N6(d, c) ==> out[n] != Unknown
  }

  /** A path from `from` to `to` extended by a face neighbour of `to`. */
  lemma ExtendPath(d: Dims, cells: seq<Label>, from: nat, to: nat, next: nat)
    requires |cells| == Size(d) && to < |cells|
    requires Reachable(d, cells, from, to)
    requires next in N6(d, to) && Open(cells, next)
    ensures Reachable(d, cells, from, next)
  {
    var p :| IsPath(d, cells, p) && p[0] == from && p[|p| - 1] == to;
    var p' := p + [next];
    assert p'[|p'| - 1] == next;
    assert forall t :: 0 <= t < |p| ==> p'[t] == p[t];
    assert forall t :: 0 <= t < |p'| ==> Open(cells, p'[t]);
    forall t | 0 <= t < |p'| - 1
      ensures p'[t + 1] in N6(d, p'[t])
    {
      if t < |p| - 1 {
        assert p[t + 1] in N6(d, p[t]);
      }
    }
    assert IsPath(d, cells, p');
  }

  /** Once no queued work remains, every cell reachable from an OUTSIDE seed is
      OUTSIDE: the walk cannot leave the OUTSIDE set through an open cell. */
  lemma {:induction false} ClosedSetContainsPath(d: Dims, cells: seq<Label>, out: seq<Label>, p: seq<nat>)
    requires |cells| == Size(d) && |out| == |cells|
    requires OnlyBoundaryOrUnknown(cells)
    requires forall c :: 0 <= c < |out| ==> out[c] == Outside || out[c] == cells[c]
    requires forall c :: 0 <= c < |out| && out[c] == Outside ==> Closed(d, out, c)
    requires IsPath(d, cells, p) && out[p[0]] == Outside
    ensures out[p[|p| - 1]] == Outside
    decreases |p|
  {
    if |p| > 1 {
      var p' := p[..|p| - 1];
      assert IsPath(d, cells, p') by {
        forall t | 0 <= t < |p'| - 1
          ensures p'[t + 1] in N6(d, p'[t])
        {
          assert p[t + 1] in N6(d, p[t]);
        }
      }
      ClosedSetContainsPath(d, cells, out, p');
      var last := p[|p| - 1];
      assert last in N6(d, p'[|p'| - 1]);
      assert out[last] != Unknown;
    }
  }

  /** `out` differs from `cells` only by cells turned OUTSIDE. */
  predicate OnlyOutsideAdded(cells: seq<Label>, out: seq<Label>)
  {
    |out| == |cells| && forall c :: 0 <= c < |out| ==> out[c] == Outside || out[c] == cells[c]
  }

  /** Every queued cell is a cell of the grid labelled OUTSIDE. */
  predicate QueuedOutside(out: seq<Label>, q: seq<nat>)
  {
    forall t :: 0 <= t < |q| ==> q[t] < |out| && out[q[t]] == Outside
  }

  /** Every OUTSIDE cell is reachable from the seed. */
  ghost predicate OutsideReachable(d: Dims, cells: seq<Label>, seed: nat, out: seq<Label>)
    requires |cells| == Size(d) && |out| == |cells|
  {
    forall c :: 0 <= c < |out| && out[c] == Outside ==> Reachable(d, cells, seed, c)
  }

  /** Closed(out0, c) survives steps that only overwrite UNKNOWN cells. */
  lemma ClosedStable(d: Dims, out0: seq<Label>, out: seq<Label>, c: nat)
    requires |out0| == Size(d) && |out| == |out0| && c < |out|
    requires forall x :: 0 <= x < |out| && out0[x] != Unknown ==> out[x] == out0[x]
    requires Closed(d, out0, c)
    ensures Closed(d, out, c)
  {
    forall n | n in N6(d, c)
      ensures out[n] != Unknown
    {
      assert out0[n] != Unknown;
    }
  }

  /** Reference definition of one visit: walking the neighbour list `ns` in
      order, each cell still UNKNOWN becomes OUTSIDE and is appended to the
      list of newly enqueued cells. */
  function MarkUnknown(out: seq<Label>, ns: seq<nat>): (r: (seq<Label>, seq<nat>))
    requires forall u :: 0 <= u < |ns| ==> ns[u] < |out|
    ensures |r.0| == |out|
    ensures forall c :: 0 <= c < |out| ==> r.0[c] == (if c in r.1 then Outside else out[c])
    ensures forall u :: 0 <= u < |r.1| ==> r.1[u] in ns && out[r.1[u]] == Unknown
    ensures forall n :: n in ns ==> r.0[n] != Unknown
    ensures CountUnknown(r.0) + |r.1| == CountUnknown(out)
    decreases |ns|
  {
    if |ns| == 0 then (out, [])
    else
      var prefix := ns[..|ns| - 1];
      var (o, added) := MarkUnknown(out, prefix);
      var n := ns[|ns| - 1];
      if o[n] == Unknown then
        CountUnknownUpdate(o, n);
        (o[n := Outside], added + [n])
      else (o, added)
  }

  /** The body of the breadth-first loop for one dequeued cell `index`: each
      UNKNOWN face neighbour becomes OUTSIDE and is returned in `added`, in
      the order it is enqueued. */
  method VisitNeighbours(out: seq<Label>, n6: seq<nat>) returns (out': seq<Label>, added: seq<nat>)
    requires forall u :: 0 <= u < |n6| ==> n6[u] < |out|
    ensures (out', added) == MarkUnknown(out, n6)
  {
    out', added := out, [];
    for t := 0 to |n6|
      invariant (out', added) == MarkUnknown(out, n6[..t])
    {
      assert n6[..t + 1][..t] == n6[..t];
      var nbr := n6[t];
      if out'[nbr] == Unknown {
        out' := out'[nbr := Outside];
        added := added + [nbr];
      }
    }
    assert n6[..|n6|] == n6;
  }

  /** Cells marked by a visit of `index`'s neighbours are reachable whenever
      `index` is. */
  lemma MarkedReachable(d: Dims, cells: seq<Label>, seed: nat, out: seq<Label>, index: nat)
    requires |cells| == Size(d)
    requires OnlyOutsideAdded(cells, out)
    requires index < |out| && Reachable(d, cells, seed, index)
    requires OutsideReachable(d, cells, seed, out)
    requires forall u :: 0 <= u < |N6(d, index)| ==> N6(d, index)[u] < |out|
    ensures OutsideReachable(d, cells, seed, MarkUnknown(out, N6(d, index)).0)
  {
    var (out', added) := MarkUnknown(out, N6(d, index));
    forall c | 0 <= c < |out'| && out'[c] == Outside
      ensures Reachable(d, cells, seed, c)
    {
      if c in added {
        ExtendPath(d, cells, seed, index, c);
      }
    }
  }

  /** A visit of `index`'s neighbours keeps every dequeued OUTSIDE cell closed
      and closes `index` itself. */
  lemma VisitKeepsClosed(d: Dims, out0: seq<Label>, index: nat, rest: seq<nat>)
    requires |out0| == Size(d) && index < |out0|
    requires forall u :: 0 <= u < |N6(d, index)| ==> N6(d, index)[u] < |out0|
    requires forall c :: 0 <= c < |out0| && out0[c] == Outside && c !in [index] + rest ==> Closed(d, out0, c)
    ensures var (out, added) := MarkUnknown(out0, N6(d, index));
            forall c :: 0 <= c < |out| && out[c] == Outside && c !in rest + added ==> Closed(d, out, c)
  {
    var (out, added) := MarkUnknown(out0, N6(d, index));
    forall c | 0 <= c < |out| && out[c] == Outside && c !in rest + added
      ensures Closed(d, out, c)
    {
      if c != index {
        assert c !in [index] + rest;
        ClosedStable(d, out0, out, c);
      }
    }
  }

  /** When the queue is empty every cell reachable from the seed is OUTSIDE. */
  lemma ClosedIsComplete(d: Dims, cells: seq<Label>, seed: nat, out: seq<Label>)
    requires |cells| == Size(d)
    requires OnlyBoundaryOrUnknown(cells)
    requires OnlyOutsideAdded(cells, out)
    requires seed < |out| && out[seed] == Outside
    requires forall c :: 0 <= c < |out| && out[c] == Outside ==> Closed(d, out, c)
    ensures forall c :: 0 <= c < |out| && Reachable(d, cells, seed, c) ==> out[c] == Outside
  {
    forall c | 0 <= c < |out| && Reachable(d, cells, seed, c)
      ensures out[c] == Outside
    {
      var p :| IsPath(d, cells, p) && p[0] == seed && p[|p| - 1] == c;
      ClosedSetContainsPath(d, cells, out, p);
    }
  }

  /** What holds before each dequeue: the flood only added OUTSIDE cells,
      all reachable from the seed; the seed and every queued cell are
      OUTSIDE; every OUTSIDE cell not waiting in the queue is closed. */
  ghost predicate BfsInvariant(d: Dims, cells: seq<Label>, seed: nat, out: seq<Label>, q: seq<nat>)
    requires |cells| == Size(d)
  {
    && OnlyOutsideAdded(cells, out)
    && QueuedOutside(out, q)
    && OutsideReachable(d, cells, seed, out)
    && seed < |out| && out[seed] == Outside
    && (forall c :: 0 <= c < |out| && out[c] == Outside && c !in q ==> Closed(d, out, c))
  }

  /** A visit only turns cells OUTSIDE and keeps the queue OUTSIDE. */
  lemma VisitKeepsQueue(cells: seq<Label>, out: seq<Label>, q: seq<nat>, ns: seq<nat>)
    requires OnlyOutsideAdded(cells, out) && QueuedOutside(out, q) && |q| > 0
    requires forall u :: 0 <= u < |ns| ==> ns[u] < |out|
    ensures OnlyOutsideAdded(cells, MarkUnknown(out, ns).0)
    ensures QueuedOutside(MarkUnknown(out, ns).0, q[1..] + MarkUnknown(out, ns).1)
    ensures forall c :: 0 <= c < |out| && out[c] == Outside ==> MarkUnknown(out, ns).0[c] == Outside
  {
    var (out', added) := MarkUnknown(out, ns);
    var q' := q[1..] + added;
    forall t | 0 <= t < |q'|
      ensures q'[t] < |out'| && out'[q'[t]] == Outside
    {
      if t < |q| - 1 {
        assert q'[t] == q[t + 1];
      } else {
        assert q'[t] == added[t - (|q| - 1)];
        assert q'[t] in added;
      }
    }
  }

  /** Dequeuing the head of the queue and visiting its neighbours keeps the
      invariant. */
  lemma VisitKeepsInvariant(d: Dims, cells: seq<Label>, seed: nat, out: seq<Label>, q: seq<nat>)
    requires |cells| == Size(d)
    requires BfsInvariant(d, cells, seed, out, q) && |q| > 0
    ensures forall u :: 0 <= u < |N6(d, q[0])| ==> N6(d, q[0])[u] < |out|
    ensures BfsInvariant(d, cells, seed, MarkUnknown(out, N6(d, q[0])).0, q[1..] + MarkUnknown(out, N6(d, q[0])).1)
  {
    var index := q[0];
    assert q == [index] + q[1..];
    N6Bounds(d, index);
    VisitKeepsQueue(cells, out, q, N6(d, index));
    MarkedReachable(d, cells, seed, out, index);
    VisitKeepsClosed(d, out, index, q[1..]);
  }

  /** Breadth-first flood from `seed`: the seed becomes OUTSIDE and every UNKNOWN
      face neighbour of a dequeued cell becomes OUTSIDE and is enqueued. The
      loop ends because each enqueue turns one UNKNOWN cell OUTSIDE: there are
      at most Size(d) enqueues. */
  method FloodOutside(d: Dims, cells: seq<Label>, seed: nat) returns (out: seq<Label>)
    requires |cells| == Size(d)
    requires OnlyBoundaryOrUnknown(cells)
    requires seed < |cells| && cells[seed] == Unknown
    ensures |out| == |cells|
    ensures forall c :: 0 <= c < |out| ==> (out[c] == Outside <==> Reachable(d, cells, seed, c))
    ensures forall c :: 0 <= c < |out| && out[c] != Outside ==> out[c] == cells[c]
  {
    out := cells[seed := Outside];
    assert IsPath(d, cells, [seed]);
    var q: seq<nat> := [seed];
    while |q| > 0
      invariant BfsInvariant(d, cells, seed, out, q)
      decreases CountUnknown(out), |q|
    {
      VisitKeepsInvariant(d, cells, seed, out, q);
      var out', added := VisitNeighbours(out, N6(d, q[0]));
      out, q := out', q[1..] + added;
    }
    ClosedIsComplete(d, cells, seed, out);
  }
}
