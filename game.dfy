/** Vocabulary shared by the games, the search tree and the self-play driver
    (alpha_zero/game.rs), plus the value inversion used by every backup. */
module GameTypes {

  datatype Option<+T> = None | Some(value: T)

  /** A legal move together with whether the acting side changes after it. */
  datatype MoveDescription<M> = MoveDescription(mv: M, playerSwitch: bool)

  /** What a game state reports: a final score, or the list of legal moves. */
  datatype TerminationState<M> = Terminal(score: real) | Moves(moves: seq<MoveDescription<M>>)

  /** `v := 1 - v` applied `n` times: a value seen from the other side's perspective. */
  function Inverted(v: real, n: nat): real
  {
    if n == 0 then v else 1.0 - Inverted(v, n - 1)
  }

  function Min(a: nat, b: nat): nat { if a <= b then a else b }

  /** Number of set flags. */
  function CountTrue(flags: seq<bool>): nat
  {
    if flags == [] then 0 else (if flags[0] then 1 else 0) + CountTrue(flags[1..])
  }

  /** Only the parity of the number of inversions matters. */
  lemma {:induction false} InvertedParity(v: real, n: nat)
    ensures Inverted(v, n) == if n % 2 == 0 then v else 1.0 - v
  {
    if n > 0 {
      InvertedParity(v, n - 1);
    }
  }

  /** Counting the flags of a suffix one position earlier adds that position's flag;
      this is the step of every loop that unwinds a history or a path from its end. */
  lemma {:induction false} CountTrueStep(flags: seq<bool>, i: nat)
    requires i < |flags|
    ensures CountTrue(flags[i..]) == (if flags[i] then 1 else 0) + CountTrue(flags[i + 1..])
  {
    assert flags[i..][1..] == flags[i + 1..];
  }

  /** Inverting once more is the same as counting one more flag. */
  lemma InvertedStep(v: real, n: nat, flag: bool)
    ensures (if flag then 1.0 - Inverted(v, n) else Inverted(v, n)) == Inverted(v, n + (if flag then 1 else 0))
  {
  }

  /** With no set flag the value is never inverted. */
  lemma {:induction false} CountTrueNone(flags: seq<bool>)
    requires forall i :: 0 <= i < |flags| ==> !flags[i]
    ensures CountTrue(flags) == 0
  {
    if flags != [] {
      CountTrueNone(flags[1..]);
    }
  }

  /** Inverting `a` times and then `b` times is inverting `a + b` times. */
  lemma {:induction false} InvertedAdd(v: real, a: nat, b: nat)
    ensures Inverted(Inverted(v, a), b) == Inverted(v, a + b)
  {
    if b > 0 {
      InvertedAdd(v, a, b - 1);
    }
  }

  /** Counting over a concatenation adds the counts. */
  lemma {:induction false} CountTrueAppend(a: seq<bool>, b: seq<bool>)
    ensures CountTrue(a + b) == CountTrue(a) + CountTrue(b)
  {
    if a == [] {
      assert a + b == b;
    } else {
      assert (a + b)[0] == a[0];
      assert (a + b)[1..] == a[1..] + b;
      CountTrueAppend(a[1..], b);
    }
  }

  /** Sum of a sequence of reals (the order of `f32` additions is not modelled). */
  function SumReals(xs: seq<real>): real
  {
    if xs == [] then 0.0 else SumReals(xs[..|xs| - 1]) + xs[|xs| - 1]
  }

  /** Every entry divided by `d`. */
  function Divided(xs: seq<real>, d: real): (r: seq<real>)
    requires d != 0.0
    ensures |r| == |xs|
    ensures forall i :: 0 <= i < |xs| ==> r[i] == xs[i] / d
  {
    seq(|xs|, i requires 0 <= i < |xs| => xs[i] / d)
  }

  /** Dividing every entry divides the sum. */
  lemma {:induction false} SumDivided(xs: seq<real>, d: real)
    requires d != 0.0
    ensures SumReals(Divided(xs, d)) == SumReals(xs) / d
  {
    if xs != [] {
      var init := xs[..|xs| - 1];
      var last := xs[|xs| - 1];
      SumDivided(init, d);
      assert Divided(xs, d)[..|xs| - 1] == Divided(init, d);
      assert SumReals(Divided(xs, d)) == SumReals(init) / d + last / d;
      DivAdd(SumReals(init), last, d);
    }
  }

  lemma DivAdd(a: real, b: real, d: real)
    requires d != 0.0
    ensures a / d + b / d == (a + b) / d
  {
  }

  /** Normalising by a positive sum gives a distribution: entries summing to one,
      none negative when no entry was negative. */
  lemma Normalised(xs: seq<real>)
    requires SumReals(xs) > 0.0
    ensures SumReals(Divided(xs, SumReals(xs))) == 1.0
    ensures (forall i :: 0 <= i < |xs| ==> 0.0 <= xs[i]) ==>
              forall i :: 0 <= i < |xs| ==> 0.0 <= Divided(xs, SumReals(xs))[i]
  {
    var d := SumReals(xs);
    SumDivided(xs, d);
    DivSelf(d);
    if forall i :: 0 <= i < |xs| ==> 0.0 <= xs[i] {
      forall i | 0 <= i < |xs|
        ensures 0.0 <= Divided(xs, d)[i]
      {
        DivNonneg(xs[i], d);
      }
    }
  }

  lemma DivNonneg(x: real, d: real)
    requires 0.0 <= x && 0.0 < d
    ensures 0.0 <= x / d
  {
  }

  lemma DivSelf(d: real)
    requires d != 0.0
    ensures d / d == 1.0
  {
  }
}
