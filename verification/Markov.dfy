/**
 The Markov chain of includes/wf_markov.c: a flat n * n adjacency array whose stride changes when
 the chain is resized, rows kept at a sum of 100, and sampling along a row rotated to its node.
 Weights and probabilities are exact reals.
 */
module Markov {
  import opened WireValues

  // ---------- Sums ----------

  function Sum(s: seq<real>): real {
    if s == [] then 0.0 else Sum(s[..|s| - 1]) + s[|s| - 1]
  }

  lemma {:induction false} SumAppend(a: seq<real>, b: seq<real>)
    ensures Sum(a + b) == Sum(a) + Sum(b)
  {
    if b == [] {
      assert a + b == a;
    } else {
      var n := |b| - 1;
      assert (a + b)[..|a + b| - 1] == a + b[..n];
      SumAppend(a, b[..n]);
    }
  }

  lemma SumNext(s: seq<real>, k: nat)
    requires k < |s|
    ensures Sum(s[..k + 1]) == Sum(s[..k]) + s[k]
  {
    assert s[..k + 1][..k] == s[..k];
  }

  lemma {:induction false} SumZeros(s: seq<real>)
    requires forall i :: 0 <= i < |s| ==> s[i] == 0.0
    ensures Sum(s) == 0.0
  {
    if s != [] {
      SumZeros(s[..|s| - 1]);
    }
  }

  /** Node (s + j) % n, for j < n. */
  function Around(s: nat, j: nat, n: nat): (r: nat)
    requires s < n && j < n
    ensures r < n
  {
    if s + j < n then s + j else s + j - n
  }

  lemma AroundIsModulo(s: nat, j: nat, n: nat)
    requires s < n && j < n
    ensures (s + j) % n == Around(s, j, n)
  {
    if s + j >= n {
      assert s + j == 1 * n + (s + j - n);
    }
    Euclid(n, if s + j < n then 0 else 1, Around(s, j, n));
  }

  lemma Euclid(n: nat, i: nat, j: nat)
    requires j < n
    ensures (i * n + j) / n == i && (i * n + j) % n == j
  {
    var q, r := (i * n + j) / n, (i * n + j) % n;
    assert q * n + r == i * n + j;
    assert (q - i) * n == j - r;
    SmallMultiple(q - i, n);
  }

  lemma SmallMultiple(d: int, n: nat)
    requires 0 - n < d * n < n
    ensures d == 0
  {
  }

  /** The row as seen from its own node: s, s + 1, .., n - 1, 0, .., s - 1. */
  function Rotated(row: seq<real>, s: nat): (r: seq<real>)
    requires s < |row|
    ensures |r| == |row|
    ensures forall j :: 0 <= j < |row| ==> r[j] == row[Around(s, j, |row|)]
  {
    row[s..] + row[..s]
  }

  lemma SumHead(s: seq<real>)
    requires s != []
    ensures Sum(s) == s[0] + Sum(s[1..])
  {
    assert s == s[..1] + s[1..];
    SumAppend(s[..1], s[1..]);
    SumNext(s, 0);
  }

  lemma SumSplit(s: seq<real>, k: nat)
    requires k <= |s|
    ensures Sum(s) == Sum(s[..k]) + Sum(s[k..])
  {
    assert s == s[..k] + s[k..];
    SumAppend(s[..k], s[k..]);
  }

  lemma RotatedSum(row: seq<real>, s: nat)
    requires s < |row|
    ensures Sum(Rotated(row, s)) == Sum(row)
    ensures Sum(Rotated(row, s)[1..]) == Sum(row) - row[s]
  {
    SumAppend(row[s..], row[..s]);
    SumSplit(row, s);
    SumHead(Rotated(row, s));
  }

  lemma SumUpdate(row: seq<real>, j: nat, w: real)
    requires j < |row|
    ensures Sum(row[j := w]) == Sum(row) - row[j] + w
  {
    RotatedSum(row, j);
    RotatedSum(row[j := w], j);
    assert Rotated(row[j := w], j)[1..] == Rotated(row, j)[1..];
    SumHead(Rotated(row[j := w], j));
  }

  // ---------- The flat matrix ----------

  lemma Cell(n: nat, i: nat, j: nat)
    requires i < n && j < n
    ensures 0 <= i * n + j < i * n + n <= n * n
  {
    assert i * n >= 0 && (n - (i + 1)) * n >= 0;
    assert (n - (i + 1)) * n == n * n - (i * n + n);
  }

  lemma RowsApart(n: nat, i: nat, j: nat, k: nat, l: nat)
    requires j < n && l < n && i * n + j == k * n + l
    ensures i == k && j == l
  {
    Euclid(n, i, j);
    Euclid(n, k, l);
  }

  /** Every index of the flat matrix is a cell. */
  lemma Locate(n: nat, x: nat) returns (i: nat, j: nat)
    requires x < n * n
    ensures i < n && j < n && x == i * n + j
  {
    i, j := x / n, x % n;
    assert (n - i) * n > 0;
  }

  function At(m: seq<real>, n: nat, i: nat, j: nat): real
    requires |m| == n * n && i < n && j < n
  {
    Cell(n, i, j);
    m[i * n + j]
  }

  function Row(m: seq<real>, n: nat, i: nat): (r: seq<real>)
    requires |m| == n * n && i < n
    ensures |r| == n && forall j :: 0 <= j < n ==> r[j] == At(m, n, i, j)
  {
    Cell(n, i, 0);
    m[i * n..i * n + n]
  }

  /** The weights of the edges out of every node add up to 100. */
  ghost predicate Balanced(m: seq<real>, n: nat)
    requires |m| == n * n
  {
    forall i :: 0 <= i < n ==> Sum(Row(m, n, i)) == 100.0
  }

  /** The weights off the diagonal, and the row sums, are the whole matrix. */
  lemma Determined(g: seq<real>, h: seq<real>, n: nat)
    requires |g| == |h| == n * n && Balanced(g, n) && Balanced(h, n)
    requires forall i, j :: 0 <= i < n && 0 <= j < n && i != j ==> At(g, n, i, j) == At(h, n, i, j)
    ensures g == h
  {
    forall x | 0 <= x < n * n ensures g[x] == h[x] {
      var i, j := Locate(n, x);
      if i == j {
        DiagonalDetermined(Row(g, n, i), Row(h, n, i), i);
      }
      assert At(g, n, i, j) == At(h, n, i, j);
    }
  }

  lemma DiagonalDetermined(r: seq<real>, s: seq<real>, i: nat)
    requires |r| == |s| && i < |r| && Sum(r) == Sum(s)
    requires forall j :: 0 <= j < |r| && j != i ==> r[j] == s[j]
    ensures r[i] == s[i]
  {
    RotatedSum(r, i);
    RotatedSum(s, i);
    assert Rotated(r, i)[1..] == Rotated(s, i)[1..];
  }

  // ---------- Resizing ----------

  function OffDiagonal(m: seq<real>, n: nat, i: nat, j: nat): real
    requires |m| == n * n
  {
    if i < n && j < n then At(m, n, i, j) else 0.0
  }

  /**
   g is the chain m resized from n to k nodes: surviving edges between different nodes keep their
   weight, there are no others, and every row adds up to 100.
   */
  ghost predicate Resized(m: seq<real>, n: nat, g: seq<real>, k: nat) {
    && |m| == n * n && |g| == k * k
    && Balanced(g, k)
    && forall i, j :: 0 <= i < k && 0 <= j < k && i != j ==> At(g, k, i, j) == OffDiagonal(m, n, i, j)
  }

  lemma ResizedIsUnique(m: seq<real>, n: nat, g: seq<real>, h: seq<real>, k: nat)
    requires Resized(m, n, g, k) && Resized(m, n, h, k)
    ensures g == h
  {
    Determined(g, h, k);
  }

  /** A new node has no edge but the one to itself, and no old node has an edge to it. */
  lemma NewNodesAreIsolated(m: seq<real>, n: nat, g: seq<real>, k: nat, i: nat)
    requires Resized(m, n, g, k) && n <= i < k
    ensures At(g, k, i, i) == 100.0
    ensures forall j :: 0 <= j < k && j != i ==> At(g, k, i, j) == 0.0 && At(g, k, j, i) == 0.0
  {
    var row := Row(g, k, i);
    RotatedSum(row, i);
    SumZeros(Rotated(row, i)[1..]);
  }

  /** Shrinking adds the weights of the edges to deleted nodes to the loopback. */
  lemma ShrinkFoldsIntoLoopback(m: seq<real>, n: nat, g: seq<real>, k: nat, i: nat)
    requires |m| == n * n && Balanced(m, n) && Resized(m, n, g, k) && i < k <= n
    ensures At(g, k, i, i) == At(m, n, i, i) + Sum(Row(m, n, i)[k..])
  {
    var before, after := Row(m, n, i), Row(g, k, i);
    SumSplit(before, k);
    SumUpdate(before[..k], i, after[i]);
    assert after == before[..k][i := after[i]];
  }

  /** Growing and then shrinking back changes nothing. */
  lemma GrowThenShrinkIsIdentity(m: seq<real>, n: nat, g: seq<real>, k: nat, h: seq<real>)
    requires |m| == n * n && Balanced(m, n) && n <= k && Resized(m, n, g, k) && Resized(g, k, h, n)
    ensures h == m
  {
    Determined(h, m, n);
  }

  /** Two successive shrinks are one. */
  lemma ShrinksCompose(m: seq<real>, n: nat, g: seq<real>, k: nat, h: seq<real>, l: nat)
    requires l <= k <= n && Resized(m, n, g, k) && Resized(g, k, h, l)
    ensures Resized(m, n, h, l)
  {
  }

  // ---------- Setting an edge ----------

  /** g is m but for the loopback of node i, which balances its row. */
  ghost predicate Rebalanced(m: seq<real>, g: seq<real>, n: nat, i: nat) {
    && |m| == |g| == n * n && i < n
    && Sum(Row(g, n, i)) == 100.0
    && forall x :: 0 <= x < n * n && x != i * n + i ==> g[x] == m[x]
  }

  /** `setedge i,j,w`: the cell the source writes is i * n + j, whatever j is; then row i is balanced. */
  ghost predicate EdgeSet(m: seq<real>, g: seq<real>, n: nat, i: nat, j: int, w: real) {
    && |m| == n * n && 0 <= i * n + j < n * n
    && Rebalanced(m[i * n + j := w], g, n, i)
  }

  /** `setedge` only touches the matrix exactly when the start node is in range and the cell lies in the matrix. */
  lemma SetEdgeStaysInMatrixExactly(n: nat, i: int, j: int)
    requires n > 0
    ensures 0 <= i * n + j < n * n && 0 <= i * n + i < n * n <==> 0 <= i < n && 0 <= i * n + j < n * n
  {
    if 0 <= i < n {
      Cell(n, i, i);
    } else if i < 0 {
      assert i * n + i < 0;
    } else {
      assert (i - n) * n >= 0;
      assert (i - n) * n == i * n - n * n;
    }
  }

  lemma OtherRow(m: seq<real>, g: seq<real>, n: nat, i: nat, k: nat)
    requires Rebalanced(m, g, n, i) && k < n && k != i
    ensures Row(g, n, k) == Row(m, n, k)
  {
    forall j | 0 <= j < n ensures Row(g, n, k)[j] == Row(m, n, k)[j] {
      Cell(n, k, j);
      if k * n + j == i * n + i {
        RowsApart(n, k, j, i, i);
      }
    }
  }

  lemma WriteInRow(m: seq<real>, n: nat, i: nat, j: nat, w: real)
    requires |m| == n * n && i < n && j < n && i * n + j < n * n
    ensures Row(m[i * n + j := w], n, i) == Row(m, n, i)[j := w]
  {
    Cell(n, i, 0);
    var g := m[i * n + j := w];
    assert g[i * n..i * n + n] == m[i * n..i * n + n][j := w];
  }

  lemma CellsApart(n: nat, i: nat, j: nat, k: nat, l: nat)
    requires j < n && l < n && k != i
    ensures k * n + l != i * n + j
  {
    if k * n + l == i * n + j {
      RowsApart(n, k, l, i, j);
    }
  }

  lemma WriteElsewhere(m: seq<real>, n: nat, i: nat, j: nat, w: real, k: nat)
    requires |m| == n * n && i < n && j < n && k < n && k != i && i * n + j < n * n
    ensures Row(m[i * n + j := w], n, k) == Row(m, n, k)
  {
    var x := i * n + j;
    forall l | 0 <= l < n ensures Row(m[x := w], n, k)[l] == Row(m, n, k)[l] {
      Cell(n, k, l);
      CellsApart(n, i, j, k, l);
      assert m[x := w][k * n + l] == m[k * n + l];
    }
  }

  lemma RowsAfterWrite(m: seq<real>, n: nat, i: nat, j: nat, w: real, k: nat)
    requires |m| == n * n && i < n && j < n && k < n && i * n + j < n * n && Balanced(m, n)
    ensures Sum(Row(m[i * n + j := w], n, k)) == if k == i then 100.0 - m[i * n + j] + w else 100.0
  {
    if k == i {
      WriteInRow(m, n, i, j, w);
      SumUpdate(Row(m, n, i), j, w);
    } else {
      WriteElsewhere(m, n, i, j, w, k);
    }
  }

  lemma WriteUnbalancesItsRow(m: seq<real>, g: seq<real>, n: nat, i: nat, x: nat, k: nat, l: nat, w: real)
    requires |m| == n * n && k < n && l < n && x == k * n + l && x < n * n && Balanced(m, n)
    requires Rebalanced(m[x := w], g, n, i)
    ensures Balanced(g, n) <==> k == i || w == m[x]
  {
    forall r | 0 <= r < n && r != i ensures Sum(Row(g, n, r)) == if r == k then 100.0 - m[x] + w else 100.0 {
      OtherRow(m[x := w], g, n, i, r);
      RowsAfterWrite(m, n, k, l, w, r);
    }
    if k != i {
      assert Balanced(g, n) ==> Sum(Row(g, n, k)) == 100.0;
    }
  }

  lemma SameRow(n: nat, i: nat, j: int, k: nat, l: nat)
    requires l < n && i * n + j == k * n + l
    ensures k == i <==> 0 <= j < n
  {
    if 0 <= j < n {
      RowsApart(n, i, j, k, l);
    }
  }

  /**
   The rows stay balanced exactly when the end node is in range, or the stray write changes
   nothing: an end node out of range puts the weight into another node's row.
   */
  lemma SetEdgeBalancesExactlyInRange(m: seq<real>, g: seq<real>, n: nat, i: nat, j: int, w: real)
    requires EdgeSet(m, g, n, i, j, w) && Balanced(m, n)
    ensures Balanced(g, n) <==> 0 <= j < n || w == m[i * n + j]
  {
    var x: nat := i * n + j;
    var k, l := Locate(n, x);
    SameRow(n, i, j, k, l);
    WriteUnbalancesItsRow(m, g, n, i, x, k, l, w);
  }

  /** An edge in range to another node gets its weight, and the loopback what is left; a loopback cannot be set. */
  lemma SetEdgeSetsWeight(m: seq<real>, g: seq<real>, n: nat, i: nat, j: nat, w: real)
    requires EdgeSet(m, g, n, i, j, w) && Balanced(m, n) && j < n
    ensures j != i ==> At(g, n, i, j) == w && At(g, n, i, i) == At(m, n, i, i) + At(m, n, i, j) - w
    ensures j == i ==> g == m
    ensures forall k, l :: 0 <= k < n && 0 <= l < n && k != l && !(k == i && l == j) ==> At(g, n, k, l) == At(m, n, k, l)
  {
    var x := i * n + j;
    Cell(n, i, i);
    SetEdgeBalancesExactlyInRange(m, g, n, i, j, w);
    forall k, l | 0 <= k < n && 0 <= l < n && k != l ensures At(g, n, k, l) == if k == i && l == j then w else At(m, n, k, l) {
      Cell(n, k, l);
      if k * n + l == i * n + i {
        RowsApart(n, k, l, i, i);
      }
      if k * n + l == i * n + j {
        RowsApart(n, k, l, i, j);
      }
    }
    if j == i {
      Determined(g, m, n);
    } else {
      WriteInRow(m, n, i, j, w);
      OnlyTwoDiffer(Row(m, n, i), Row(g, n, i), i, j);
    }
  }

  lemma OnlyTwoDiffer(r: seq<real>, s: seq<real>, i: nat, j: nat)
    requires |r| == |s| && i < |r| && j < |r| && i != j && Sum(r) == Sum(s)
    requires forall l :: 0 <= l < |r| && l != i && l != j ==> r[l] == s[l]
    ensures s[i] == r[i] + r[j] - s[j]
  {
    SumUpdate(r, j, s[j]);
    SumUpdate(r[j := s[j]], i, s[i]);
    assert r[j := s[j]][i := s[i]] == s;
  }

  // ---------- Sampling ----------

  /** The loop of `markovStep` over the weights seen from the current node: the first cumulative weight to reach p, or the last node. */
  ghost predicate IsPick(r: seq<real>, p: real, j: nat) {
    && j < |r|
    && (forall i :: 0 < i <= j ==> Upto(r, i) < p)
    && (p <= Upto(r, j + 1) || j == |r| - 1)
  }

  /** The cumulative weight of the first k edges. */
  function Upto(r: seq<real>, k: nat): real
    requires k <= |r|
  {
    Sum(r[..k])
  }

  lemma {:induction false} SumsGrow(r: seq<real>, i: nat, j: nat)
    requires i <= j <= |r| && forall l :: 0 <= l < |r| ==> r[l] >= 0.0
    ensures Upto(r, i) <= Upto(r, j)
  {
    if i < j {
      SumsGrow(r, i, j - 1);
      SumNext(r, j - 1);
    }
  }

  /** On a row that adds up to 100 the loop always stops at a node, and never at one without an edge to it. */
  lemma PickHasWeight(r: seq<real>, p: real, j: nat)
    requires IsPick(r, p, j) && p <= 100.0 == Sum(r)
    ensures p <= Upto(r, j + 1)
    ensures j == 0 || r[j] > 0.0
  {
    assert r[..|r|] == r;
    SumNext(r, j);
    assert j > 0 ==> Upto(r, j) < p;
  }

  /**
   On a row of non-negative weights adding up to 100, every draw picks exactly one node, and the
   draws that pick a node form the interval between two cumulative weights, as long as its weight.
   */
  lemma DrawsFormIntervals(r: seq<real>, p: real, j: nat)
    requires Sum(r) == 100.0 && 0.0 < p <= 100.0 && j < |r|
    requires forall l :: 0 <= l < |r| ==> r[l] >= 0.0
    ensures IsPick(r, p, j) <==> Upto(r, j) < p <= Upto(r, j + 1)
    ensures Upto(r, j + 1) - Upto(r, j) == r[j]
  {
    SumNext(r, j);
    if IsPick(r, p, j) {
      PickHasWeight(r, p, j);
    }
    if Upto(r, j) < p <= Upto(r, j + 1) {
      forall i | 0 < i <= j ensures Upto(r, i) < p {
        SumsGrow(r, i, j);
      }
    }
  }

  /** The loop has passed j edges, and `rest` of the draw is left. */
  ghost predicate Searched(r: seq<real>, p: real, j: nat, rest: real) {
    j <= |r| && rest == p - Upto(r, j) && forall i :: 0 < i <= j ==> Upto(r, i) < p
  }

  lemma PassNext(r: seq<real>, p: real, j: nat, rest: real)
    requires Searched(r, p, j, rest) && j < |r|
    ensures r[j] >= rest ==> IsPick(r, p, j)
    ensures r[j] < rest ==> Searched(r, p, j + 1, rest - r[j]) && (j == |r| - 1 ==> IsPick(r, p, j))
  {
    SumNext(r, j);
  }

  lemma PickIsUnique(r: seq<real>, p: real, i: nat, j: nat)
    requires IsPick(r, p, i) && IsPick(r, p, j)
    ensures i == j
  {
  }

  /** One step of the chain from node s with draw p. */
  ghost predicate Steps(m: seq<real>, n: nat, s: nat, p: real, t: nat) {
    && |m| == n * n && s < n && t < n
    && exists j :: 0 <= j < n && IsPick(Rotated(Row(m, n, s), s), p, j) && t == Around(s, j, n)
  }

  lemma AroundIsOneToOne(s: nat, i: nat, j: nat, n: nat)
    requires s < n && i < n && j < n && Around(s, i, n) == Around(s, j, n)
    ensures i == j
  {
  }

  /**
   The draws of (0, 1) that lead from node s to the j-th node seen from it form an interval, between the
   cumulative weights over 100, as long as the weight of the edge over 100.
   */
  lemma DrawsAreShares(m: seq<real>, n: nat, s: nat, draw: real, j: nat)
    requires |m| == n * n && s < n && j < n && Balanced(m, n) && 0.0 < draw < 1.0
    requires forall l :: 0 <= l < n ==> At(m, n, s, l) >= 0.0
    ensures var r, t := Rotated(Row(m, n, s), s), Around(s, j, n);
            && (Steps(m, n, s, draw * 100.0, t) <==> Upto(r, j) / 100.0 < draw <= Upto(r, j + 1) / 100.0)
            && Upto(r, j + 1) / 100.0 - Upto(r, j) / 100.0 == At(m, n, s, t) / 100.0
  {
    var r, t, p := Rotated(Row(m, n, s), s), Around(s, j, n), draw * 100.0;
    RotatedSum(Row(m, n, s), s);
    DrawsFormIntervals(r, p, j);
    if Steps(m, n, s, p, t) {
      var i :| 0 <= i < n && IsPick(r, p, i) && t == Around(s, i, n);
      AroundIsOneToOne(s, i, j, n);
    }
  }

  /** A set of first nodes without edges to the others is never left. */
  lemma StepStaysInside(m: seq<real>, n: nat, k: nat, s: nat, p: real, t: nat)
    requires Steps(m, n, s, p, t) && Balanced(m, n) && p <= 100.0 && s < k <= n
    requires forall i, j :: 0 <= i < k <= j < n ==> At(m, n, i, j) == 0.0
    ensures t < k
  {
    var r := Rotated(Row(m, n, s), s);
    var j :| 0 <= j < n && IsPick(r, p, j) && t == Around(s, j, n);
    RotatedSum(Row(m, n, s), s);
    PickHasWeight(r, p, j);
    assert r[j] == At(m, n, s, t);
  }

  ghost predicate Walk(m: seq<real>, n: nat, path: seq<nat>, draws: seq<real>) {
    |path| == |draws| + 1 && forall i :: 0 <= i < |draws| ==> Steps(m, n, path[i], draws[i], path[i + 1])
  }

  /** After a grow without new edges, no walk from an old node ever enters a new one. */
  lemma {:induction false} NewNodesAreUnreachable(m: seq<real>, n: nat, g: seq<real>, k: nat, path: seq<nat>, draws: seq<real>, i: nat)
    requires 0 < n <= k && Resized(m, n, g, k) && Walk(g, k, path, draws)
    requires path[0] < n && i < |path| && forall p <- draws :: p <= 100.0
    ensures path[i] < n
  {
    if i > 0 {
      NewNodesAreUnreachable(m, n, g, k, path, draws, i - 1);
      assert draws[i - 1] in draws && Steps(g, k, path[i - 1], draws[i - 1], path[i - 1 + 1]);
      StepStaysInside(g, k, n, path[i - 1], draws[i - 1], path[i]);
    }
  }

  // ---------- Runs of commands ----------

  datatype Chain = Chain(m: seq<real>, n: nat, current: int)

  datatype Command =
    | SetEdge(i: nat, j: nat, w: real)
    | Resize(k: nat)
    | SetNode(node: int)
    | ChangeState(p: real)

  /** One command with arguments in range, or one tick of the Markov timer. */
  ghost predicate Next(s: Chain, c: Command, t: Chain) {
    match c
    case SetEdge(i, j, w) => i < s.n && j < s.n && t.n == s.n && t.current == s.current && EdgeSet(s.m, t.m, s.n, i, j, w)
    case Resize(k) =>
      && k >= 1 && t.n == k
      && (if k == s.n then t.m == s.m else Resized(s.m, s.n, t.m, k))
      && t.current == if s.current >= k then 0 else s.current
    case SetNode(node) => 0 <= node < s.n && t == s.(current := node)
    case ChangeState(p) => t == s.(current := t.current) && s.current >= 0 && t.current >= 0 && Steps(s.m, s.n, s.current, p, t.current)
  }

  ghost predicate Sound(s: Chain) {
    |s.m| == s.n * s.n && s.n >= 1 && 0 <= s.current < s.n && Balanced(s.m, s.n)
  }

  /** Over every run of commands all rows add up to 100 and the current node exists. */
  lemma {:induction false} EveryRunIsSound(states: seq<Chain>, commands: seq<Command>, i: nat)
    requires |states| == |commands| + 1 && i < |states| && Sound(states[0])
    requires forall t :: 0 <= t < |commands| ==> Next(states[t], commands[t], states[t + 1])
    ensures Sound(states[i])
  {
    if i > 0 {
      EveryRunIsSound(states, commands, i - 1);
      var s, c, t := states[i - 1], commands[i - 1], states[i - 1 + 1];
      assert Next(s, c, t);
      if c.SetEdge? {
        SetEdgeBalancesExactlyInRange(s.m, t.m, s.n, c.i, c.j, c.w);
      }
    }
  }

  /** A loopback is what the other edges leave, so it is non-negative exactly when they do not exceed 100. */
  lemma LoopbackIsTheRest(m: seq<real>, n: nat, i: nat)
    requires |m| == n * n && i < n && Balanced(m, n)
    ensures At(m, n, i, i) == 100.0 - Sum(Rotated(Row(m, n, i), i)[1..])
    ensures At(m, n, i, i) >= 0.0 <==> Sum(Rotated(Row(m, n, i), i)[1..]) <= 100.0
  {
    RotatedSum(Row(m, n, i), i);
  }

  // ---------- The chain object ----------

  /** The loopback of a node once `markovRebalanceNode` has subtracted its first i - 1 other edges. */
  function LoopbackAfter(m: seq<real>, n: nat, node: nat, i: nat): real
    requires |m| == n * n && node < n && 1 <= i <= n
  {
    100.0 - Sum(Rotated(Row(m, n, node), node)[1..i])
  }

  lemma LoopbackNext(m: seq<real>, n: nat, node: nat, i: nat)
    requires |m| == n * n && node < n && 1 <= i < n
    ensures LoopbackAfter(m, n, node, i + 1) == LoopbackAfter(m, n, node, i) - At(m, n, node, Around(node, i, n))
  {
    var rot := Rotated(Row(m, n, node), node);
    assert rot[1..i + 1][..i - 1] == rot[1..i];
  }

  lemma LoopbackDone(m: seq<real>, n: nat, node: nat, x: nat)
    requires |m| == n * n && node < n && x == node * n + node && x < n * n
    ensures Rebalanced(m, m[x := LoopbackAfter(m, n, node, n)], n, node)
  {
    var row := Row(m, n, node);
    var rot := Rotated(row, node);
    var w := LoopbackAfter(m, n, node, n);
    assert rot[1..n] == rot[1..];
    RotatedSum(row, node);
    WriteInRow(m, n, node, node, w);
    SumUpdate(row, node, w);
  }

  /** The weights `copyAdjacency` finds for row i. */
  function TargetRow(m: seq<real>, n: nat, i: nat, k: nat): (r: seq<real>)
    requires |m| == n * n
    ensures |r| == k
  {
    seq(k, j requires 0 <= j < k => OffDiagonal(m, n, i, j))
  }

  /** r is a row seen from its node, once `copyAdjacency` has visited the first j columns of `rot`. */
  ghost predicate PartlyCopied(r: seq<real>, rot: seq<real>, j: nat) {
    && |r| == |rot| && 1 <= j <= |r|
    && r[0] == 100.0 - Sum(rot[1..j])
    && (forall l :: 1 <= l < j ==> r[l] == rot[l])
    && (forall l :: j <= l < |r| ==> r[l] == 0.0)
  }

  function RowFromNode(h: seq<real>, k: nat, i: nat): (r: seq<real>)
    requires |h| == k * k && i < k
    ensures |r| == k
  {
    Rotated(Row(h, k, i), i)
  }

  ghost predicate RowCopied(m: seq<real>, n: nat, h: seq<real>, k: nat, i: nat) {
    && |m| == n * n && |h| == k * k && i < k
    && Sum(Row(h, k, i)) == 100.0
    && forall j :: 0 <= j < k && j != i ==> At(h, k, i, j) == OffDiagonal(m, n, i, j)
  }

  lemma PartialSumNext(rot: seq<real>, j: nat)
    requires 1 <= j < |rot|
    ensures Sum(rot[1..j + 1]) == Sum(rot[1..j]) + rot[j]
  {
    assert rot[1..j + 1][..j - 1] == rot[1..j];
  }

  lemma CopyNext(r: seq<real>, rot: seq<real>, j: nat)
    requires PartlyCopied(r, rot, j) && j < |r|
    ensures PartlyCopied(r[j := rot[j]][0 := r[0] - rot[j]], rot, j + 1)
  {
    PartialSumNext(rot, j);
  }

  /** Writing the l-th cell of row i, seen from node i. */
  lemma WriteFromNode(h: seq<real>, k: nat, i: nat, l: nat, x: nat, w: real)
    requires |h| == k * k && i < k && l < k && x == i * k + Around(i, l, k) && x < k * k
    ensures RowFromNode(h[x := w], k, i) == RowFromNode(h, k, i)[l := w]
    ensures h[x] == RowFromNode(h, k, i)[l]
  {
    WriteInRow(h, k, i, Around(i, l, k), w);
  }

  lemma CopyWrites(h: seq<real>, k: nat, i: nat, j: nat, x: nat, y: nat, w: real)
    requires |h| == k * k && i < k && 1 <= j < k
    requires x == i * k + i < k * k && y == i * k + Around(i, j, k) < k * k
    ensures var g := h[y := w][x := h[x] - w];
            && RowFromNode(g, k, i) == RowFromNode(h, k, i)[j := w][0 := h[x] - w]
            && h[x] == RowFromNode(h, k, i)[0]
  {
    WriteFromNode(h, k, i, j, y, w);
    WriteFromNode(h, k, i, 0, x, h[x]);
    WriteFromNode(h[y := w], k, i, 0, x, h[x] - w);
  }

  lemma CopyDone(m: seq<real>, n: nat, h: seq<real>, k: nat, i: nat)
    requires |m| == n * n && |h| == k * k && i < k
    requires PartlyCopied(RowFromNode(h, k, i), Rotated(TargetRow(m, n, i, k), i), k)
    ensures RowCopied(m, n, h, k, i)
  {
    var r, rot := RowFromNode(h, k, i), Rotated(TargetRow(m, n, i, k), i);
    forall j | 0 <= j < k && j != i ensures At(h, k, i, j) == OffDiagonal(m, n, i, j) {
      var l := if j > i then j - i else j + k - i;
      assert r[l] == rot[l] && Around(i, l, k) == j;
    }
    RotatedSum(Row(h, k, i), i);
    assert r[1..] == rot[1..k];
    SumHead(r);
  }

  ghost predicate SameOutsideRow(h: seq<real>, g: seq<real>, k: nat, i: nat) {
    |h| == |g| == k * k && forall x :: 0 <= x < k * k && !(i * k <= x < i * k + k) ==> h[x] == g[x]
  }

  lemma OtherRowCopied(m: seq<real>, n: nat, h: seq<real>, g: seq<real>, k: nat, i: nat, r: nat)
    requires RowCopied(m, n, h, k, r) && SameOutsideRow(h, g, k, i) && i < k && r != i
    ensures RowCopied(m, n, g, k, r)
  {
    forall j | 0 <= j < k ensures At(g, k, r, j) == At(h, k, r, j) {
      Cell(k, r, j);
      if i * k <= r * k + j < i * k + k {
        RowsApart(k, r, j, i, r * k + j - i * k);
      }
    }
    assert Row(g, k, r) == Row(h, k, r);
  }

  /** The first i rows are copied, the others still zero. */
  ghost predicate CopiedUpTo(m: seq<real>, n: nat, h: seq<real>, k: nat, i: nat) {
    && |m| == n * n && |h| == k * k && i <= k
    && (forall r :: 0 <= r < i ==> RowCopied(m, n, h, k, r))
    && (forall x :: i * k <= x < k * k ==> h[x] == 0.0)
  }

  lemma UncopiedRowIsZero(m: seq<real>, n: nat, h: seq<real>, k: nat, i: nat)
    requires CopiedUpTo(m, n, h, k, i) && i < k
    ensures forall l :: 0 <= l < k ==> RowFromNode(h, k, i)[l] == 0.0
  {
    Cell(k, i, 0);
    assert forall j :: 0 <= j < k ==> Row(h, k, i)[j] == 0.0;
  }

  lemma CopiedNext(m: seq<real>, n: nat, h: seq<real>, g: seq<real>, k: nat, i: nat)
    requires CopiedUpTo(m, n, h, k, i) && i < k && SameOutsideRow(h, g, k, i) && RowCopied(m, n, g, k, i)
    ensures CopiedUpTo(m, n, g, k, i + 1)
  {
    forall r | 0 <= r < i ensures RowCopied(m, n, g, k, r) {
      OtherRowCopied(m, n, h, g, k, i, r);
    }
    assert (i + 1) * k == i * k + k;
  }

  lemma AllCopied(m: seq<real>, n: nat, h: seq<real>, k: nat)
    requires CopiedUpTo(m, n, h, k, k)
    ensures Resized(m, n, h, k)
  {
    forall i | 0 <= i < k ensures Sum(Row(h, k, i)) == 100.0 {
      assert RowCopied(m, n, h, k, i);
    }
    forall i, j | 0 <= i < k && 0 <= j < k && i != j ensures At(h, k, i, j) == OffDiagonal(m, n, i, j) {
      assert RowCopied(m, n, h, k, i);
    }
  }

  class MarkovChain {
    var nodes: seq<MarkovNode>
    var currentNode: int
    var nodesCount: nat
    var adjacency: array<real>

    ghost predicate Shaped()
      reads this`nodes, this`nodesCount, this`adjacency
    {
      adjacency.Length == nodesCount * nodesCount && |nodes| == nodesCount
    }

    ghost predicate Square()
      reads this`nodesCount, this`adjacency
    {
      adjacency.Length == nodesCount * nodesCount
    }

    ghost function State(): Chain
      reads this`nodesCount, this`adjacency, this`currentNode, adjacency
    {
      Chain(adjacency[..], nodesCount, currentNode)
    }

    ghost predicate Valid()
      reads this, adjacency
    {
      Shaped() && Sound(State())
    }

    /** The loopback gets what the other edges of the node leave of 100. */
    method RebalanceNode(node: nat)
      requires Square() && node < nodesCount
      modifies adjacency
      ensures Rebalanced(old(adjacency[..]), adjacency[..], nodesCount, node)
    {
      ghost var m := adjacency[..];
      Cell(nodesCount, node, node);
      var loopback := node * nodesCount + node;
      adjacency[loopback] := 100.0;
      assert adjacency[..] == m[loopback := LoopbackAfter(m, nodesCount, node, 1)];
      for i := 1 to nodesCount
        invariant adjacency[..] == m[loopback := LoopbackAfter(m, nodesCount, node, i)]
      {
        SubtractEdge(node, i, loopback, m);
      }
      LoopbackDone(m, nodesCount, node, loopback);
    }

    method SubtractEdge(node: nat, i: nat, loopback: nat, ghost m: seq<real>)
      requires Square() && node < nodesCount && 1 <= i < nodesCount && |m| == nodesCount * nodesCount
      requires loopback == node * nodesCount + node && loopback < adjacency.Length
      requires adjacency[..] == m[loopback := LoopbackAfter(m, nodesCount, node, i)]
      modifies adjacency
      ensures adjacency[..] == m[loopback := LoopbackAfter(m, nodesCount, node, i + 1)]
    {
      var edge := EdgeIndex(node, i);
      LoopbackNext(m, nodesCount, node, i);
      assert adjacency[edge] == m[edge];
      adjacency[loopback] := adjacency[loopback] - adjacency[edge];
      assert adjacency[..] == m[loopback := LoopbackAfter(m, nodesCount, node, i + 1)];
    }

    /** The cell of the i-th edge seen from a node. */
    method EdgeIndex(node: nat, i: nat) returns (x: nat)
      requires Square() && node < nodesCount && i < nodesCount
      ensures x == node * nodesCount + Around(node, i, nodesCount) && x < adjacency.Length
      ensures i > 0 ==> x != node * nodesCount + node
    {
      AroundIsModulo(node, i, nodesCount);
      Cell(nodesCount, node, Around(node, i, nodesCount));
      x := node * nodesCount + (node + i) % nodesCount;
    }

    /** `setedge`: sets one weight and rebalances the start node. */
    method SetEdge(start: nat, end: int, weight: real)
      requires Square() && start < nodesCount && 0 <= start * nodesCount + end < nodesCount * nodesCount
      modifies adjacency
      ensures EdgeSet(old(adjacency[..]), adjacency[..], nodesCount, start, end, weight)
      ensures 0 <= end < nodesCount ==> Next(old(State()), Command.SetEdge(start, end, weight), State())
      ensures old(Valid()) ==> (Valid() <==> 0 <= end < nodesCount || weight == old(adjacency[start * nodesCount + end]))
    {
      ghost var m := adjacency[..];
      adjacency[start * nodesCount + end] := weight;
      assert adjacency[..] == m[start * nodesCount + end := weight];
      RebalanceNode(start);
      if Balanced(m, nodesCount) {
        SetEdgeBalancesExactlyInRange(m, adjacency[..], nodesCount, start, end, weight);
      }
    }

    /** The inner loop of `copyAdjacency`. */
    method CopyRow(i: nat, newSize: nat, newMap: array<real>)
      requires Square() && newMap != adjacency && newMap.Length == newSize * newSize && i < newSize
      requires forall l :: 0 <= l < newSize ==> RowFromNode(newMap[..], newSize, i)[l] == 0.0
      modifies newMap
      ensures RowCopied(adjacency[..], nodesCount, newMap[..], newSize, i)
      ensures SameOutsideRow(old(newMap[..]), newMap[..], newSize, i)
    {
      ghost var h0 := newMap[..];
      ghost var rot := Rotated(TargetRow(adjacency[..], nodesCount, i, newSize), i);
      StartRow(i, newSize, newMap, rot);
      for j := 1 to newSize
        invariant PartlyCopied(RowFromNode(newMap[..], newSize, i), rot, j)
        invariant SameOutsideRow(h0, newMap[..], newSize, i)
      {
        CopyEdge(i, j, newSize, newMap, rot);
      }
      CopyDone(adjacency[..], nodesCount, newMap[..], newSize, i);
    }

    static method StartRow(i: nat, newSize: nat, newMap: array<real>, ghost rot: seq<real>)
      requires newMap.Length == newSize * newSize && i < newSize && |rot| == newSize
      requires forall l :: 0 <= l < newSize ==> RowFromNode(newMap[..], newSize, i)[l] == 0.0
      modifies newMap
      ensures PartlyCopied(RowFromNode(newMap[..], newSize, i), rot, 1)
      ensures SameOutsideRow(old(newMap[..]), newMap[..], newSize, i)
    {
      ghost var h := newMap[..];
      Cell(newSize, i, i);
      WriteFromNode(h, newSize, i, 0, i * newSize + i, 100.0);
      newMap[i * newSize + i] := 100.0;
      assert newMap[..] == h[i * newSize + i := 100.0];
    }

    method CopyEdge(i: nat, j: nat, newSize: nat, newMap: array<real>, ghost rot: seq<real>)
      requires Square() && newMap != adjacency && newMap.Length == newSize * newSize && i < newSize && 1 <= j < newSize
      requires rot == Rotated(TargetRow(adjacency[..], nodesCount, i, newSize), i)
      requires PartlyCopied(RowFromNode(newMap[..], newSize, i), rot, j)
      modifies newMap
      ensures PartlyCopied(RowFromNode(newMap[..], newSize, i), rot, j + 1)
      ensures SameOutsideRow(old(newMap[..]), newMap[..], newSize, i)
    {
      ghost var h := newMap[..];
      CopyNext(RowFromNode(h, newSize, i), rot, j);
      AroundIsModulo(i, j, newSize);
      var realJ := (i + j) % newSize;
      Cell(newSize, i, i);
      Cell(newSize, i, realJ);
      if i < nodesCount && realJ < nodesCount {
        Cell(nodesCount, i, realJ);
        var x, y := i * newSize + i, i * newSize + realJ;
        var w := adjacency[i * nodesCount + realJ];
        newMap[y] := w;
        newMap[x] := newMap[x] - newMap[y];
        assert newMap[..] == h[y := w][x := h[x] - w];
        CopyWrites(h, newSize, i, j, x, y, w);
      }
    }

    method CopyAdjacency(newSize: nat, newMap: array<real>)
      requires Square() && newMap != adjacency && newMap.Length == newSize * newSize
      requires forall x :: 0 <= x < newMap.Length ==> newMap[x] == 0.0
      modifies newMap
      ensures Resized(adjacency[..], nodesCount, newMap[..], newSize)
    {
      for i := 0 to newSize
        invariant CopiedUpTo(adjacency[..], nodesCount, newMap[..], newSize, i)
      {
        ghost var h := newMap[..];
        UncopiedRowIsZero(adjacency[..], nodesCount, h, newSize, i);
        CopyRow(i, newSize, newMap);
        CopiedNext(adjacency[..], nodesCount, h, newMap[..], newSize, i);
      }
      AllCopied(adjacency[..], nodesCount, newMap[..], newSize);
    }

    /** `markov-numnodes`: grows or shrinks the chain; a deleted current node becomes node 0. */
    method Resize(newCount: nat)
      requires Shaped() && newCount >= 1
      modifies this
      ensures Shaped() && nodesCount == newCount
      ensures newCount == old(nodesCount) ==> adjacency == old(adjacency) && nodes == old(nodes) && currentNode == old(currentNode)
      ensures newCount != old(nodesCount) ==> fresh(adjacency) && Resized(old(adjacency[..]), old(nodesCount), adjacency[..], newCount)
      ensures currentNode == if old(nodesCount) > newCount && old(currentNode) >= newCount then 0 else old(currentNode)
      ensures forall i :: 0 <= i < newCount ==> nodes[i] == if i < old(nodesCount) then old(nodes)[i] else ZERO_VALUES
      ensures old(Valid()) ==> Valid() && Next(old(State()), Command.Resize(newCount), State())
    {
      if nodesCount == newCount {
        return;
      }
      if nodesCount < newCount {
        nodes := nodes + seq(newCount - nodesCount, _ => ZERO_VALUES);
      } else {
        nodes := nodes[..newCount];
        if currentNode >= newCount {
          currentNode := 0;
        }
      }
      var newMap := NewMap(newCount);
      adjacency, nodesCount := newMap, newCount;
    }

    method NewMap(newCount: nat) returns (newMap: array<real>)
      requires Square()
      ensures fresh(newMap) && newMap.Length == newCount * newCount
      ensures Resized(adjacency[..], nodesCount, newMap[..], newCount)
    {
      newMap := new real[newCount * newCount](_ => 0.0);
      CopyAdjacency(newCount, newMap);
    }

    constructor (size: int, startNode: int)
      ensures Valid() <==> 0 <= startNode < nodesCount
      ensures Shaped() && fresh(adjacency) && Balanced(adjacency[..], nodesCount)
      ensures nodesCount == (if size <= 0 then 1 else size) && currentNode == startNode
      ensures forall i :: 0 <= i < nodesCount ==> At(adjacency[..], nodesCount, i, i) == 100.0 && nodes[i] == ZERO_VALUES
    {
      nodes, currentNode, nodesCount, adjacency := [], 0, 0, new real[0];
      new;
      Resize(if size <= 0 then 1 else size);
      currentNode := startNode;
      forall i | 0 <= i < nodesCount ensures At(adjacency[..], nodesCount, i, i) == 100.0 {
        NewNodesAreIsolated([], 0, adjacency[..], nodesCount, i);
      }
    }

    /** `markov-setnode` stores whatever it is given. */
    method SetCurrentNode(node: int)
      requires Valid()
      modifies this`currentNode
      ensures currentNode == node && (Valid() <==> 0 <= node < nodesCount)
      ensures Valid() ==> Next(old(State()), SetNode(node), State())
    {
      currentNode := node;
    }

    /** `markovStep`: draws the next state along the row of the current one. */
    method ChangeState(draw: real)
      requires Valid()
      modifies this`currentNode
      ensures Valid() && Next(old(State()), Command.ChangeState(draw * 100.0), State())
    {
      currentNode := DrawEdge(currentNode, draw * 100.0);
    }

    method DrawEdge(start: nat, drawn: real) returns (newNode: nat)
      requires Square() && start < nodesCount
      ensures Steps(adjacency[..], nodesCount, start, drawn, newNode)
    {
      ghost var r := RowFromNode(adjacency[..], nodesCount, start);
      var probability := drawn;
      newNode := 0;
      ghost var pick := 0;
      for j := 0 to nodesCount
        invariant Searched(r, drawn, j, probability)
        invariant j > 0 ==> pick == j - 1 && newNode == Around(start, pick, nodesCount)
      {
        var edge := EdgeIndex(start, j);
        AroundIsModulo(start, j, nodesCount);
        newNode, pick := (start + j) % nodesCount, j;
        var changeProbability := adjacency[edge];
        PassNext(r, drawn, j, probability);
        if changeProbability >= probability {
          return;
        }
        probability := probability - changeProbability;
      }
    }
  }
}
