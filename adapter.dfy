/** The tensor conversions of the five-in-a-row adapter (tictactoe/alpha_zero_adapter.rs):
    the board as two one-hot planes, the per-move policy gathered from the network
    output, and a per-move policy scattered back onto the board. Tensors are nested
    sequences of reals; `exp` is a parameter. */
module Adapter {
  import opened GameTypes
  import opened Board

  /** The 1/0 entry of plane `l` at `(i, j)`: plane 0 marks X, plane 1 marks O. */
  function OneHot(b: BoardState, l: nat, i: nat, j: nat): real
    requires Valid(b) && i < N && j < N
  {
    if Index(b, (i, j)) == (if l == 0 then X else O) then 1.0 else 0.0
  }

  /** A `d0 × d1 × d2` tensor read out of an array, in index order. */
  function Tensor3(a: array3<real>): (t: seq<seq<seq<real>>>)
    reads a
    ensures |t| == a.Length0
    ensures forall l :: 0 <= l < a.Length0 ==> |t[l]| == a.Length1
    ensures forall l, i :: 0 <= l < a.Length0 && 0 <= i < a.Length1 ==> |t[l][i]| == a.Length2
    ensures forall l, i, j :: 0 <= l < a.Length0 && 0 <= i < a.Length1 && 0 <= j < a.Length2 ==> t[l][i][j] == a[l, i, j]
  {
    seq(a.Length0, l requires 0 <= l < a.Length0 reads a =>
      seq(a.Length1, i requires 0 <= i < a.Length1 reads a =>
        seq(a.Length2, j requires 0 <= j < a.Length2 reads a => a[l, i, j])))
  }

  /** A `d0 × d1` tensor read out of an array, in index order. */
  function Tensor2(a: array2<real>): (t: seq<seq<real>>)
    reads a
    ensures |t| == a.Length0
    ensures forall i :: 0 <= i < a.Length0 ==> |t[i]| == a.Length1
    ensures forall i, j :: 0 <= i < a.Length0 && 0 <= j < a.Length1 ==> t[i][j] == a[i, j]
  {
    seq(a.Length0, i requires 0 <= i < a.Length0 reads a =>
      seq(a.Length1, j requires 0 <= j < a.Length1 reads a => a[i, j]))
  }

  /** `convert_game_to_nn_input`: a 2 × 19 × 19 tensor with a 1 in plane 0 exactly at
      the X cells and in plane 1 exactly at the O cells; no cell is set in both. */
  method ConvertGameToNnInput(b: BoardState) returns (t: seq<seq<seq<real>>>)
    requires Valid(b)
    ensures |t| == 2 && (forall l :: 0 <= l < 2 ==> |t[l]| == N && forall i :: 0 <= i < N ==> |t[l][i]| == N)
    ensures forall i, j :: 0 <= i < N && 0 <= j < N ==>
      && (t[0][i][j] == 1.0 <==> Index(b, (i, j)) == X)
      && (t[1][i][j] == 1.0 <==> Index(b, (i, j)) == O)
      && (t[0][i][j] == 0.0 || t[0][i][j] == 1.0) && (t[1][i][j] == 0.0 || t[1][i][j] == 1.0)
      && !(t[0][i][j] == 1.0 && t[1][i][j] == 1.0)
  {
    var fld := new real[2, N, N]((_, _, _) => 0.0);
    for i := 0 to N
      invariant forall l, i', j' :: 0 <= l < 2 && 0 <= i' < N && 0 <= j' < N ==>
        fld[l, i', j'] == if i' < i then OneHot(b, l, i', j') else 0.0
    {
      for j := 0 to N
        invariant forall l, i', j' :: 0 <= l < 2 && 0 <= i' < N && 0 <= j' < N ==>
          fld[l, i', j'] == if i' < i || (i' == i && j' < j) then OneHot(b, l, i', j') else 0.0
      {
        var cell := Index(b, (i, j));
        if cell != Empty {
          var l := if cell == X then 0 else 1;
          fld[l, i, j] := 1.0;
        }
      }
    }
    t := Tensor3(fld);
  }

  /** Whether every move points into the flattened network output. */
  predicate InOutput(policy: seq<real>, moves: seq<Coord>)
  {
    forall k :: 0 <= k < |moves| ==> moves[k].0 * N + moves[k].1 < |policy|
  }

  /** The exponentiated network output at each move's flat index `i * 19 + j`. */
  function Gathered(policy: seq<real>, moves: seq<Coord>, exp: real -> real): (g: seq<real>)
    requires InOutput(policy, moves)
    ensures |g| == |moves|
    ensures forall k :: 0 <= k < |moves| ==> g[k] == exp(policy[moves[k].0 * N + moves[k].1])
  {
    seq(|moves|, k requires 0 <= k < |moves| => exp(policy[moves[k].0 * N + moves[k].1]))
  }

  /** `get_estimated_policy`: one entry per move, the exponentiated output at the
      move's cell; divided by their sum when that sum is positive, and left as they
      are otherwise. When normalised, the entries sum to one and, if `exp` gave no
      negative value, none is negative. */
  method GetEstimatedPolicy(policy: seq<real>, moves: seq<Coord>, exp: real -> real) returns (res: seq<real>)
    requires InOutput(policy, moves)
    ensures var g := Gathered(policy, moves, exp);
      && |res| == |moves|
      && (SumReals(g) > 0.0 ==> forall k :: 0 <= k < |moves| ==> res[k] == g[k] / SumReals(g))
      && (SumReals(g) <= 0.0 ==> res == g)
    ensures var g := Gathered(policy, moves, exp);
      SumReals(g) > 0.0 ==> SumReals(res) == 1.0
    ensures var g := Gathered(policy, moves, exp);
      SumReals(g) > 0.0 && (forall k :: 0 <= k < |g| ==> 0.0 <= g[k]) ==> forall k :: 0 <= k < |res| ==> 0.0 <= res[k]
  {
    var p := seq(|policy|, i requires 0 <= i < |policy| => exp(policy[i]));
    res := [];
    for k := 0 to |moves|
      invariant res == Gathered(policy, moves[..k], exp)
    {
      res := res + [p[moves[k].0 * N + moves[k].1]];
    }
    assert moves[..|moves|] == moves;
    ghost var g := res;
    var sum := SumReals(res);
    if sum > 0.0 {
      for k := 0 to |res|
        invariant |res| == |g|
        invariant forall k' :: 0 <= k' < k ==> res[k'] == g[k'] / sum
        invariant forall k' :: k <= k' < |res| ==> res[k'] == g[k']
      {
        res := res[k := res[k] / sum];
      }
      assert res == Divided(g, sum);
      Normalised(g);
    }
  }

  /** The last of the first `n` moves that is `c`, if any: the write that survives. */
  function LastHit(moves: seq<Coord>, n: nat, c: Coord): (r: Option<nat>)
    requires n <= |moves|
    ensures r.Some? ==> r.value < n && moves[r.value] == c && forall k :: r.value < k < n ==> moves[k] != c
    ensures r.None? ==> forall k :: 0 <= k < n ==> moves[k] != c
  {
    if n == 0 then None
    else if moves[n - 1] == c then Some(n - 1)
    else LastHit(moves, n - 1, c)
  }

  /** The entry at `c` after the first `n` pairs are written. */
  function Written(policy: seq<real>, moves: seq<Coord>, n: nat, c: Coord): real
    requires n <= |moves| && n <= |policy|
  {
    match LastHit(moves, n, c)
    case None => 0.0
    case Some(k) => policy[k]
  }

  /** `convert_policy_to_nn`: a 19 × 19 tensor holding at each move's cell the policy
      entry paired with the last occurrence of that move, and 0 at every other cell;
      pairs beyond the shorter of the two lists are ignored. */
  method ConvertPolicyToNn(policy: seq<real>, moves: seq<Coord>) returns (t: seq<seq<real>>)
    requires forall k :: 0 <= k < |moves| && k < |policy| ==> moves[k].0 < N && moves[k].1 < N
    ensures |t| == N && forall i :: 0 <= i < N ==> |t[i]| == N
    ensures forall i, j :: 0 <= i < N && 0 <= j < N ==>
      t[i][j] == Written(policy, moves, Min(|moves|, |policy|), (i, j))
  {
    var res := new real[N, N]((_, _) => 0.0);
    var n := Min(|moves|, |policy|);
    for k := 0 to n
      invariant forall i, j :: 0 <= i < N && 0 <= j < N ==> res[i, j] == Written(policy, moves, k, (i, j))
    {
      res[moves[k].0, moves[k].1] := policy[k];
    }
    t := Tensor2(res);
  }

  /** A cell that no paired move names stays 0; the cell of the last pair always
      holds that pair's entry. */
  lemma WrittenFacts(policy: seq<real>, moves: seq<Coord>, n: nat, c: Coord)
    requires 0 < n <= |moves| && n <= |policy|
    ensures (forall k :: 0 <= k < n ==> moves[k] != c) ==> Written(policy, moves, n, c) == 0.0
    ensures Written(policy, moves, n, moves[n - 1]) == policy[n - 1]
  {
  }
}
