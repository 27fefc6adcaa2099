// The computer's fixed-depth move search (`max_step` / `min_step`). Every
// candidate is played on a copy of the game, so the search is a function of
// the game value it is given and never changes it. The search is written
// over the function that plays one move; the game plays moves with
// SelectMove, that is, with `select`.
module Search {
  import opened Board
  import opened Rules
  import opened Game

  datatype Option<T> = None | Some(value: T)

  /** A candidate move with its score; candidates compare as the tuple (score, x, y). */
  datatype Scored = Scored(score: int, x: int, y: int)

  /** What a ply returns when the mover has no placement: (0, -1, -1). */
  const NoMove := Scored(0, -1, -1)

  /** What a ply yields: its best candidate, or the GameOver a hypothetical select raised. */
  datatype Result = Found(best: Scored) | Aborted

  /** `max_step` maximises its own flips minus the reply; `min_step` adds the reply. */
  datatype Ply = MaxPly | MinPly

  function Reply(ply: Ply): Ply
  {
    if ply == MaxPly then MinPly else MaxPly
  }

  /** Strict lexicographic order on (score, x, y), as tuples compare. */
  predicate TupleLess(a: Scored, c: Scored)
  {
    a.score < c.score || (a.score == c.score && (a.x < c.x || (a.x == c.x && a.y < c.y)))
  }

  predicate TupleAtMost(a: Scored, c: Scored)
  {
    a == c || TupleLess(a, c)
  }

  /** `max` over a non-empty list: scan left to right, keep a candidate only if strictly larger. */
  function Max(cs: seq<Scored>): (m: Scored)
    requires cs != []
    ensures m in cs
    ensures forall c :: c in cs ==> TupleAtMost(c, m)
  {
    if |cs| == 1 then cs[0]
    else
      var m := Max(cs[..|cs| - 1]);
      assert forall c :: c in cs ==> c in cs[..|cs| - 1] || c == cs[|cs| - 1];
      if TupleLess(m, cs[|cs| - 1]) then cs[|cs| - 1] else m
  }

  /** Plays one move on (a copy of) a game and reports what `select` reports. */
  type Mover = (GameState, Coord) -> Transition

  /**
   * `select(i, j)` on a copy of the game: a listed placement is never
   * refused, anything else is refused with nothing changed, and a move that
   * is played hands the turn over (whether or not it ends the game). The
   * search only plays listed placements, which are on the board.
   */
  function SelectMove(s: GameState, m: Coord): (t: Transition)
    ensures t.outcome == SpotNotEmpty <==> !(InBounds(m.0, m.1) && ValidPlacement(s.board, m.0, m.1, s.curPlayer))
    ensures t.outcome == SpotNotEmpty ==> t.after == s
    ensures t.outcome != SpotNotEmpty ==> t.after.turnNum == s.turnNum + 1 && t.after.curPlayer == Other(s.curPlayer)
  {
    if InBounds(m.0, m.1) then Rules.Select(s, m.0, m.1) else Transition(s, SpotNotEmpty)
  }

  /**
   * Score of move m at a ply with `depthRemaining` plies below it: play it
   * on a copy; its own flips, minus the reply's score at a max ply, plus it
   * at a min ply. None when the select or the reply's search raised.
   */
  function Evaluate(play: Mover, s: GameState, m: Coord, depthRemaining: nat, ply: Ply): (r: Option<Scored>)
    decreases depthRemaining + 1, 0
  {
    var t := play(s, m);
    if !t.outcome.Selected? then None
    else if depthRemaining == 0 then Some(Scored(t.outcome.swapCount, m.0, m.1))
    else
      match Step(play, t.after, depthRemaining, Reply(ply))
      case Aborted => None
      case Found(reply) =>
        var score := if ply == MaxPly then t.outcome.swapCount - reply.score else t.outcome.swapCount + reply.score;
        Some(Scored(score, m.0, m.1))
  }

  /** The candidates for `moves`, in order; None as soon as one of them raised. */
  function Candidates(play: Mover, s: GameState, moves: seq<Coord>, depthRemaining: nat, ply: Ply): Option<seq<Scored>>
    decreases depthRemaining + 1, 1, |moves|
  {
    if moves == [] then Some([])
    else
      match Evaluate(play, s, moves[0], depthRemaining, ply)
      case None => None
      case Some(c) =>
        match Candidates(play, s, moves[1..], depthRemaining, ply)
        case None => None
        case Some(cs) => Some([c] + cs)
  }

  /**
   * One ply with `depth` plies to go: the tuple-largest candidate over all
   * valid placements of the mover, or (0, -1, -1) when there is none.
   */
  function Step(play: Mover, s: GameState, depth: nat, ply: Ply): Result
    requires depth >= 1
    decreases depth, 2
  {
    match Candidates(play, s, Placements(s.board, s.curPlayer), depth - 1, ply)
    case None => Aborted
    case Some(cs) => if cs == [] then Found(NoMove) else Found(Max(cs))
  }

  /** `max_step(state, depth)`. */
  function MaxStep(s: GameState, depth: nat): Result
    requires depth >= 1
  {
    Step(SelectMove, s, depth, MaxPly)
  }

  /** `min_step(state, depth)`. */
  function MinStep(s: GameState, depth: nat): Result
    requires depth >= 1
  {
    Step(SelectMove, s, depth, MinPly)
  }

  function Prepended(cs: seq<Scored>, rest: Option<seq<Scored>>): Option<seq<Scored>>
  {
    if rest.None? then None else Some(cs + rest.value)
  }

  /**
   * The loop of `max_step` (ply MaxPly) and `min_step` (ply MinPly): every
   * valid placement is played on a copy of the game and scored, and the
   * tuple-largest candidate wins. A GameOver raised while scoring abandons
   * the whole search.
   */
  method SearchPly(play: Mover, s: GameState, depth: nat, ply: Ply) returns (r: Result)
    requires depth >= 1
    ensures r == Step(play, s, depth, ply)
    decreases depth, 1
  {
    var possibleMoves: seq<Scored> := [];
    var moves := Placements(s.board, s.curPlayer);
    assert moves[0..] == moves;
    assert Candidates(play, s, moves, depth - 1, ply).Some? ==>
           [] + Candidates(play, s, moves, depth - 1, ply).value == Candidates(play, s, moves, depth - 1, ply).value;
    for k := 0 to |moves|
      invariant Candidates(play, s, moves, depth - 1, ply) ==
                Prepended(possibleMoves, Candidates(play, s, moves[k..], depth - 1, ply))
    {
      var candidate := ScoreMove(play, s, moves[k], depth - 1, ply);
      CandidatesUnroll(play, s, moves, k, depth - 1, ply, possibleMoves);
      if candidate.None? {
        assert Candidates(play, s, moves, depth - 1, ply) == None;
        return Aborted;
      }
      possibleMoves := possibleMoves + [candidate.value];
    }
    assert possibleMoves + [] == possibleMoves;
    assert Candidates(play, s, moves, depth - 1, ply) == Some(possibleMoves);
    if possibleMoves == [] {
      return Found(NoMove);
    }
    return Found(Max(possibleMoves));
  }

  /** `max_step(state, depth)` on the game object; the game is not changed. */
  method MaxStepOf(state: State, depth: nat) returns (r: Result)
    requires depth >= 1
    ensures r == MaxStep(state.Snapshot(), depth)
  {
    r := SearchPly(SelectMove, state.Snapshot(), depth, MaxPly);
  }

  /** `min_step(state, depth)` on the game object; the game is not changed. */
  method MinStepOf(state: State, depth: nat) returns (r: Result)
    requires depth >= 1
    ensures r == MinStep(state.Snapshot(), depth)
  {
    r := SearchPly(SelectMove, state.Snapshot(), depth, MinPly);
  }

  /** Scoring move k either abandons the rest of the list or moves it onto the scored prefix. */
  lemma CandidatesUnroll(play: Mover, s: GameState, moves: seq<Coord>, k: nat, depthRemaining: nat, ply: Ply, done: seq<Scored>)
    requires k < |moves|
    ensures Evaluate(play, s, moves[k], depthRemaining, ply).None? ==>
              Candidates(play, s, moves[k..], depthRemaining, ply) == None
    ensures Evaluate(play, s, moves[k], depthRemaining, ply).Some? ==>
              Prepended(done, Candidates(play, s, moves[k..], depthRemaining, ply)) ==
              Prepended(done + [Evaluate(play, s, moves[k], depthRemaining, ply).value],
                        Candidates(play, s, moves[k + 1..], depthRemaining, ply))
  {
    assert moves[k..][0] == moves[k] && moves[k..][1..] == moves[k + 1..];
    var rest := Candidates(play, s, moves[k + 1..], depthRemaining, ply);
    if rest.Some? && Evaluate(play, s, moves[k], depthRemaining, ply).Some? {
      var c := Evaluate(play, s, moves[k], depthRemaining, ply).value;
      assert done + ([c] + rest.value) == (done + [c]) + rest.value;
    }
  }

  /**
   * One iteration of the search loop: play m on a copy, take its flip count
   * and, with plies left, subtract (max ply) or add (min ply) the reply's
   * score. None when the select or the reply's search raised.
   */
  method ScoreMove(play: Mover, s: GameState, m: Coord, depthRemaining: nat, ply: Ply) returns (c: Option<Scored>)
    ensures c == Evaluate(play, s, m, depthRemaining, ply)
    decreases depthRemaining + 1, 0
  {
    var t := play(s, m);
    if !t.outcome.Selected? {
      return None;
    }
    var numSwaps := t.outcome.swapCount;
    if depthRemaining > 0 {
      var reply := SearchPly(play, t.after, depthRemaining, Reply(ply));
      if reply.Aborted? {
        return None;
      }
      numSwaps := if ply == MaxPly then numSwaps - reply.best.score else numSwaps + reply.best.score;
    }
    return Some(Scored(numSwaps, m.0, m.1));
  }

  /**
   * `new_state = copy.deepcopy(state)` followed by `new_state.select(i, j)`
   * yields exactly SelectMove's transition, and the original game is left
   * untouched: the search may play its moves on values.
   */
  method SelectOnCopy(state: State, i: int, j: int) returns (newState: State, outcome: Outcome)
    requires InBounds(i, j)
    ensures fresh(newState)
    ensures Transition(newState.Snapshot(), outcome) == SelectMove(state.Snapshot(), (i, j))
  {
    newState := new State.Copy(state);
    outcome := newState.Select(i, j);
  }

  /** A candidate list, when there is one, has one entry per move. */
  lemma {:induction false} CandidatesLength(play: Mover, s: GameState, moves: seq<Coord>, depthRemaining: nat, ply: Ply)
    ensures Candidates(play, s, moves, depthRemaining, ply).Some? ==>
              |Candidates(play, s, moves, depthRemaining, ply).value| == |moves|
    decreases |moves|
  {
    if moves != [] {
      CandidatesLength(play, s, moves[1..], depthRemaining, ply);
    }
  }

  /** Entry k of the candidate list is move k's own evaluation. */
  lemma {:induction false} CandidateAt(play: Mover, s: GameState, moves: seq<Coord>, depthRemaining: nat, ply: Ply, k: nat)
    requires k < |moves| && Candidates(play, s, moves, depthRemaining, ply).Some?
    ensures |Candidates(play, s, moves, depthRemaining, ply).value| == |moves|
    ensures Evaluate(play, s, moves[k], depthRemaining, ply) == Some(Candidates(play, s, moves, depthRemaining, ply).value[k])
    decreases |moves|
  {
    CandidatesLength(play, s, moves, depthRemaining, ply);
    if k > 0 {
      CandidateAt(play, s, moves[1..], depthRemaining, ply, k - 1);
    }
  }

  /** The candidate list is missing exactly when some move's evaluation raised. */
  lemma {:induction false} CandidatesAbort(play: Mover, s: GameState, moves: seq<Coord>, depthRemaining: nat, ply: Ply)
    ensures Candidates(play, s, moves, depthRemaining, ply).None? <==>
              exists k :: 0 <= k < |moves| && Evaluate(play, s, moves[k], depthRemaining, ply).None?
    decreases |moves|
  {
    if moves != [] {
      CandidatesAbort(play, s, moves[1..], depthRemaining, ply);
      if Candidates(play, s, moves[1..], depthRemaining, ply).None? {
        var k :| 0 <= k < |moves[1..]| && Evaluate(play, s, moves[1..][k], depthRemaining, ply).None?;
        assert moves[1..][k] == moves[k + 1];
      } else if Candidates(play, s, moves, depthRemaining, ply).Some? {
        forall k | 0 <= k < |moves|
          ensures Evaluate(play, s, moves[k], depthRemaining, ply).Some?
        {
          CandidateAt(play, s, moves, depthRemaining, ply, k);
        }
      }
    }
  }

  /** An evaluation that did not raise scores the move it was asked about, after a completed select. */
  lemma {:induction false} EvaluateCoordinates(play: Mover, s: GameState, m: Coord, depthRemaining: nat, ply: Ply)
    ensures Evaluate(play, s, m, depthRemaining, ply).Some? ==>
              play(s, m).outcome.Selected? &&
              Evaluate(play, s, m, depthRemaining, ply).value.x == m.0 &&
              Evaluate(play, s, m, depthRemaining, ply).value.y == m.1
  {
  }

  /** With no valid placement the ply answers the sentinel (0, -1, -1). */
  lemma {:induction false} StepNoMove(play: Mover, s: GameState, depth: nat, ply: Ply)
    requires depth >= 1
    requires forall x, y :: InBounds(x, y) ==> !ValidPlacement(s.board, x, y, s.curPlayer)
    ensures Step(play, s, depth, ply) == Found(NoMove)
  {
    PlacementsEmpty(s.board, s.curPlayer);
  }

  /**
   * The search is abandoned exactly when, for some valid placement, playing
   * it raises or the reply's search is abandoned.
   */
  lemma {:induction false} StepAborts(play: Mover, s: GameState, depth: nat, ply: Ply)
    requires depth >= 1
    ensures Step(play, s, depth, ply) == Aborted <==>
              exists x, y :: InBounds(x, y) && ValidPlacement(s.board, x, y, s.curPlayer) &&
                (!play(s, (x, y)).outcome.Selected? ||
                 (depth > 1 && Step(play, play(s, (x, y)).after, depth - 1, Reply(ply)) == Aborted))
  {
    var moves := Placements(s.board, s.curPlayer);
    PlacementsSound(s.board, s.curPlayer);
    CandidatesAbort(play, s, moves, depth - 1, ply);
    if Step(play, s, depth, ply) == Aborted {
      var k :| 0 <= k < |moves| && Evaluate(play, s, moves[k], depth - 1, ply).None?;
      assert moves[k] in moves;
      assert moves[k] == (moves[k].0, moves[k].1);
    } else {
      forall x, y | InBounds(x, y) && ValidPlacement(s.board, x, y, s.curPlayer)
        ensures play(s, (x, y)).outcome.Selected?
        ensures depth > 1 ==> Step(play, play(s, (x, y)).after, depth - 1, Reply(ply)) != Aborted
      {
        PlacementsComplete(s.board, s.curPlayer, x, y);
        var k :| 0 <= k < |moves| && moves[k] == (x, y);
        assert Evaluate(play, s, moves[k], depth - 1, ply).Some?;
      }
    }
  }

  /**
   * When there are placements, the answer is one of them, carries that
   * move's own score, and is the tuple-maximum of all candidates' (score,
   * x, y): on equal scores the larger x, then the larger y, wins.
   */
  lemma {:induction false} StepBest(play: Mover, s: GameState, depth: nat, ply: Ply)
    requires depth >= 1
    requires Placements(s.board, s.curPlayer) != []
    requires Step(play, s, depth, ply).Found?
    ensures var r := Step(play, s, depth, ply).best;
      InBounds(r.x, r.y) && ValidPlacement(s.board, r.x, r.y, s.curPlayer) &&
      Evaluate(play, s, (r.x, r.y), depth - 1, ply) == Some(r) &&
      forall x, y :: InBounds(x, y) && ValidPlacement(s.board, x, y, s.curPlayer) ==>
        Evaluate(play, s, (x, y), depth - 1, ply).Some? &&
        TupleAtMost(Evaluate(play, s, (x, y), depth - 1, ply).value, r)
  {
    var moves := Placements(s.board, s.curPlayer);
    PlacementsSound(s.board, s.curPlayer);
    CandidatesLength(play, s, moves, depth - 1, ply);
    var cs := Candidates(play, s, moves, depth - 1, ply).value;
    var r := Step(play, s, depth, ply).best;
    assert r == Max(cs);
    var k :| 0 <= k < |cs| && cs[k] == r;
    CandidateAt(play, s, moves, depth - 1, ply, k);
    EvaluateCoordinates(play, s, moves[k], depth - 1, ply);
    assert moves[k] == (r.x, r.y) && moves[k] in moves;
    forall x, y | InBounds(x, y) && ValidPlacement(s.board, x, y, s.curPlayer)
      ensures Evaluate(play, s, (x, y), depth - 1, ply).Some? &&
              TupleAtMost(Evaluate(play, s, (x, y), depth - 1, ply).value, r)
    {
      PlacementsComplete(s.board, s.curPlayer, x, y);
      var j :| 0 <= j < |moves| && moves[j] == (x, y);
      CandidateAt(play, s, moves, depth - 1, ply, j);
      assert cs[j] in cs;
    }
  }

  /**
   * The answer's score: its own flip count at the last ply; otherwise its
   * flips minus the reply's score at a max ply and plus it at a min ply.
   */
  lemma {:induction false} StepScore(play: Mover, s: GameState, depth: nat, ply: Ply)
    requires depth >= 1
    requires Placements(s.board, s.curPlayer) != []
    requires Step(play, s, depth, ply).Found?
    ensures var r := Step(play, s, depth, ply).best;
      var t := play(s, (r.x, r.y));
      t.outcome.Selected? &&
      (depth == 1 ==> r.score == t.outcome.swapCount) &&
      (depth > 1 ==>
         Step(play, t.after, depth - 1, Reply(ply)).Found? &&
         r.score == if ply == MaxPly then t.outcome.swapCount - Step(play, t.after, depth - 1, Reply(ply)).best.score
                    else t.outcome.swapCount + Step(play, t.after, depth - 1, Reply(ply)).best.score)
  {
    StepBest(play, s, depth, ply);
  }

  /**
   * For the game's own move function: the search is abandoned exactly when
   * some valid placement's select raises GameOver, or its reply's search is
   * abandoned. A valid placement never raises SpotNotEmpty.
   */
  lemma {:induction false} SearchAbortsOnGameOver(s: GameState, depth: nat, ply: Ply)
    requires depth >= 1
    ensures Step(SelectMove, s, depth, ply) == Aborted <==>
              exists x, y :: InBounds(x, y) && ValidPlacement(s.board, x, y, s.curPlayer) &&
                (Rules.Select(s, x, y).outcome == GameOver ||
                 (depth > 1 && Step(SelectMove, Rules.Select(s, x, y).after, depth - 1, Reply(ply)) == Aborted))
  {
    StepAborts(SelectMove, s, depth, ply);
    forall x, y | InBounds(x, y) && ValidPlacement(s.board, x, y, s.curPlayer)
      ensures SelectMove(s, (x, y)) == Rules.Select(s, x, y)
      ensures !Rules.Select(s, x, y).outcome.Selected? <==> Rules.Select(s, x, y).outcome == GameOver
    {
    }
  }

  /**
   * After a select that completed, the next mover has a placement, so the
   * reply ply never falls back on the sentinel (0, -1, -1).
   */
  lemma {:induction false} ReplyIsAMove(s: GameState, m: Coord, depth: nat, ply: Ply)
    requires depth >= 1
    requires SelectMove(s, m).outcome.Selected?
    ensures Step(SelectMove, SelectMove(s, m).after, depth, ply) != Found(NoMove)
  {
    var after := SelectMove(s, m).after;
    if Step(SelectMove, after, depth, ply).Found? {
      StepBest(SelectMove, after, depth, ply);
    }
  }
}
