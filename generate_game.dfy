/** Self-play (alpha_zero/generate_game.rs): a game is played to its end while each
    position, the policy used there and whether the move switched the player are
    recorded; then every recorded position is labelled with the final score, seen
    from the side to move there. The search and the sampling of a move are one
    parameter, `choose`. */
module SelfPlay {
  import opened GameTypes

  /** A recorded turn: the position before the move, the policy, the move's switch. */
  datatype Entry<T> = Entry(state: T, policy: seq<real>, switch: bool)

  /** A training sample: the position, its policy and its backed-up value. */
  datatype Sample<T> = Sample(state: T, policy: seq<real>, value: real)

  function Flags<T>(history: seq<Entry<T>>): (r: seq<bool>)
    ensures |r| == |history|
    ensures forall i :: 0 <= i < |history| ==> r[i] == history[i].switch
  {
    seq(|history|, i requires 0 <= i < |history| => history[i].switch)
  }

  /** The labelled history: entry `i` keeps its position and policy and gets the
      final score inverted once per switching move from move `i` to the end. */
  function Backfilled<T>(history: seq<Entry<T>>, value: real): (r: seq<Sample<T>>)
    ensures |r| == |history|
  {
    seq(|history|, i requires 0 <= i < |history| =>
      Sample(history[i].state, history[i].policy, Inverted(value, CountTrue(Flags(history)[i..]))))
  }

  /** The labels obey the backward recurrence of the popping loop: the last entry
      gets the score, inverted if its move switched; each earlier entry gets the
      next entry's label, inverted if its own move switched. */
  lemma BackfilledRecurrence<T>(history: seq<Entry<T>>, value: real, i: nat)
    requires i < |history|
    ensures var r := Backfilled(history, value);
      var next := if i + 1 < |history| then r[i + 1].value else value;
      r[i].value == if history[i].switch then 1.0 - next else next
  {
    var flags := Flags(history);
    var r := Backfilled(history, value);
    var n := CountTrue(flags[i + 1..]);
    CountTrueStep(flags, i);
    InvertedStep(value, n, history[i].switch);
    assert r[i].value == Inverted(value, CountTrue(flags[i..]));
    if i + 1 < |history| {
      assert r[i + 1].value == Inverted(value, n);
    } else {
      assert flags[i + 1..] == [];
      assert n == 0;
    }
  }

  /** With no switching move every entry carries the final score. */
  lemma BackfilledNoSwitch<T>(history: seq<Entry<T>>, value: real)
    requires forall i :: 0 <= i < |history| ==> !history[i].switch
    ensures forall i :: 0 <= i < |history| ==> Backfilled(history, value)[i].value == value
  {
    forall i | 0 <= i < |history|
      ensures CountTrue(Flags(history)[i..]) == 0
    {
      CountTrueNone(Flags(history)[i..]);
    }
  }

  /** Every label is the score or its complement, by the parity of the switches. */
  lemma BackfilledParity<T>(history: seq<Entry<T>>, value: real, i: nat)
    requires i < |history|
    ensures var n := CountTrue(Flags(history)[i..]);
      Backfilled(history, value)[i].value == if n % 2 == 0 then value else 1.0 - value
  {
    InvertedParity(value, CountTrue(Flags(history)[i..]));
  }

  function Reverse<A>(s: seq<A>): (r: seq<A>)
    ensures |r| == |s|
    ensures forall i :: 0 <= i < |s| ==> r[i] == s[|s| - 1 - i]
  {
    if s == [] then [] else [s[|s| - 1]] + Reverse(s[..|s| - 1])
  }

  /** The backfill: `history` is popped from its end, the running value inverted on
      every switching move before the sample is pushed, and the result is reversed
      back into the order of the game. */
  method Backfill<T>(history: seq<Entry<T>>, value: real) returns (result: seq<Sample<T>>)
    ensures result == Backfilled(history, value)
  {
    ghost var labels := Backfilled(history, value);
    var stack := history;
    var v := value;
    result := [];
    while stack != []
      invariant |stack| + |result| == |history| && stack == history[..|stack|]
      invariant v == (if |stack| < |history| then labels[|stack|].value else value)
      invariant forall k :: 0 <= k < |result| ==> result[k] == labels[|history| - 1 - k]
      decreases |stack|
    {
      var e := stack[|stack| - 1];
      BackfillStep(history, value, |stack| - 1, v);
      stack := stack[..|stack| - 1];
      if e.switch {
        v := 1.0 - v;
      }
      SnocBackwards(result, labels, Sample(e.state, e.policy, v));
      result := result + [Sample(e.state, e.policy, v)];
    }
    ReverseBack(result, labels);
    result := Reverse(result);
  }

  /** One pop of the backfill: the entry's sample is its position and policy with
      the running value, inverted first if the entry's move switched. */
  lemma BackfillStep<T>(history: seq<Entry<T>>, value: real, i: nat, v: real)
    requires i < |history|
    requires v == if i + 1 < |history| then Backfilled(history, value)[i + 1].value else value
    ensures Backfilled(history, value)[i] == Sample(history[i].state, history[i].policy, if history[i].switch then 1.0 - v else v)
  {
    BackfilledRecurrence(history, value, i);
  }

  /** A sequence listing the end of `target` backwards grows by the element before. */
  lemma SnocBackwards<A>(s: seq<A>, target: seq<A>, x: A)
    requires |s| < |target| && x == target[|target| - 1 - |s|]
    requires forall k :: 0 <= k < |s| ==> s[k] == target[|target| - 1 - k]
    ensures forall k :: 0 <= k < |s| + 1 ==> (s + [x])[k] == target[|target| - 1 - k]
  {
  }

  /** Reversing a sequence that lists `target` backwards gives `target`. */
  lemma ReverseBack<A>(s: seq<A>, target: seq<A>)
    requires |s| == |target|
    requires forall k :: 0 <= k < |s| ==> s[k] == target[|target| - 1 - k]
    ensures Reverse(s) == target
  {
  }

  /** Turn `i` of a game: `e` holds a non-terminal position, the policy `choose`
      gave there at that turn and the switch of the move it chose, and `next` is the
      position after that move. */
  ghost predicate Turn<T, M>(e: Entry<T>, next: T, i: nat,
                             getState: T -> TerminationState<M>,
                             makeMove: (T, MoveDescription<M>) -> T,
                             choose: (T, seq<MoveDescription<M>>, nat) -> (seq<real>, nat))
  {
    && getState(e.state).Moves?
    && var ms := getState(e.state).moves;
       var (policy, m) := choose(e.state, ms, i);
       && m < |ms|
       && e.policy == policy
       && e.switch == ms[m].playerSwitch
       && next == makeMove(e.state, ms[m])
  }

  /** The position after turn `i` of `history`, the last one being `final`. */
  function After<T>(history: seq<Entry<T>>, final: T, i: nat): T
  {
    if i + 1 < |history| then history[i + 1].state else final
  }

  /** Whether `history` records a game from `start` that reaches `final`, turn by turn. */
  ghost predicate Recorded<T, M>(start: T, history: seq<Entry<T>>, final: T,
                                 getState: T -> TerminationState<M>,
                                 makeMove: (T, MoveDescription<M>) -> T,
                                 choose: (T, seq<MoveDescription<M>>, nat) -> (seq<real>, nat))
  {
    && (if history == [] then final == start else history[0].state == start)
    && forall i :: 0 <= i < |history| ==> Turn(history[i], After(history, final, i), i, getState, makeMove, choose)
  }

  /** Recording one more turn extends a recorded game by that turn's move. */
  lemma RecordedSnoc<T, M>(start: T, history: seq<Entry<T>>, state: T,
                           getState: T -> TerminationState<M>,
                           makeMove: (T, MoveDescription<M>) -> T,
                           choose: (T, seq<MoveDescription<M>>, nat) -> (seq<real>, nat))
    requires Recorded(start, history, state, getState, makeMove, choose)
    requires getState(state).Moves?
    requires choose(state, getState(state).moves, |history|).1 < |getState(state).moves|
    ensures var ms := getState(state).moves;
      var (policy, m) := choose(state, ms, |history|);
      Recorded(start, history + [Entry(state, policy, ms[m].playerSwitch)], makeMove(state, ms[m]), getState, makeMove, choose)
  {
    var ms := getState(state).moves;
    var (policy, m) := choose(state, ms, |history|);
    var h := history + [Entry(state, policy, ms[m].playerSwitch)];
    var final := makeMove(state, ms[m]);
    forall i | 0 <= i < |h|
      ensures Turn(h[i], After(h, final, i), i, getState, makeMove, choose)
    {
      if i < |history| {
        assert h[i] == history[i];
        assert After(h, final, i) == After(history, state, i);
      }
    }
  }

  /** A non-terminal position offers a move, and `choose` picks one of its moves
      at every turn (the source indexes the move list with its pick). */
  ghost predicate ChoosesAMove<T(!new), M>(getState: T -> TerminationState<M>,
                                          choose: (T, seq<MoveDescription<M>>, nat) -> (seq<real>, nat))
  {
    forall g, t :: getState(g).Moves? ==>
      |getState(g).moves| > 0 && choose(g, getState(g).moves, t).1 < |getState(g).moves|
  }

  /** The game loop, for at most `fuel` turns: it stops exactly when the position
      is terminal, with that score; otherwise it records the turn and plays the
      chosen move. `None` means the turns ran out first. */
  method PlayGame<T(!new), M>(start: T, fuel: nat,
                              getState: T -> TerminationState<M>,
                              makeMove: (T, MoveDescription<M>) -> T,
                              choose: (T, seq<MoveDescription<M>>, nat) -> (seq<real>, nat))
    returns (history: seq<Entry<T>>, final: T, value: Option<real>)
    requires ChoosesAMove(getState, choose)
    ensures Recorded(start, history, final, getState, makeMove, choose)
    ensures |history| <= fuel
    ensures value.Some? <==> getState(final).Terminal?
    ensures value.Some? ==> value.value == getState(final).score
    ensures value.None? ==> |history| == fuel
  {
    var state := start;
    var turn := 0;
    history := [];
    while true
      invariant turn == |history| <= fuel
      invariant Recorded(start, history, state, getState, makeMove, choose)
      decreases fuel - turn
    {
      match getState(state)
      case Terminal(score) =>
        return history, state, Some(score);
      case Moves(moves) =>
        if turn == fuel {
          return history, state, None;
        }
        var (policy, m) := choose(state, moves, turn);
        RecordedSnoc(start, history, state, getState, makeMove, choose);
        var newState := makeMove(state, moves[m]);
        history := history + [Entry(state, policy, moves[m].playerSwitch)];
        state := newState;
        turn := turn + 1;
    }
  }

  /** `generate_self_played_game`: play the game to its end, then label its history
      with the final score by the backfill. `None` means the turns ran out. */
  method GenerateSelfPlayedGame<T(!new), M>(start: T, fuel: nat,
                                            getState: T -> TerminationState<M>,
                                            makeMove: (T, MoveDescription<M>) -> T,
                                            choose: (T, seq<MoveDescription<M>>, nat) -> (seq<real>, nat))
    returns (samples: Option<seq<Sample<T>>>, ghost history: seq<Entry<T>>, ghost final: T)
    requires ChoosesAMove(getState, choose)
    ensures Recorded(start, history, final, getState, makeMove, choose)
    ensures samples.Some? <==> getState(final).Terminal?
    ensures samples.Some? ==> samples.value == Backfilled(history, getState(final).score)
    ensures samples.None? ==> |history| == fuel
  {
    var h, f, value := PlayGame(start, fuel, getState, makeMove, choose);
    history, final := h, f;
    if value.Some? {
      var result := Backfill(h, value.value);
      samples := Some(result);
    } else {
      samples := None;
    }
  }
}
