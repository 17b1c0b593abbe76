/**
 * A level: one group per evaluation parameter, all driven in lockstep by the
 * same moves, and the word of moves kept freely reduced (a move that undoes
 * the last one cancels it instead of being appended). The level is solved
 * when the word is not empty and every group is back at the identity.
 */
module Levels {
  import opened Polynomials
  import opened Matrices
  import opened Groups

  /** An evaluation point handed to each group; the exact model never evaluates at it. */
  datatype Param = Param(re: real, im: real)

  // ---------------------------------------------------------------------------
  // Words
  // ---------------------------------------------------------------------------

  /** The letter a move is displayed as. */
  function Letter(d: Direction): (c: char)
    ensures c in {'N', 'S', 'E', 'W'}
  {
    match d
    case North => 'N'
    case South => 'S'
    case East => 'E'
    case West => 'W'
  }

  /** Distinct moves are displayed as distinct letters. */
  lemma LetterInjective(d: Direction, d': Direction)
    requires Letter(d) == Letter(d')
    ensures d == d'
  {
  }

  /** The word as a string, one letter per move in order. */
  function Spell(w: seq<Direction>): (s: string)
    ensures |s| == |w|
    ensures forall i | 0 <= i < |w| :: s[i] == Letter(w[i])
  {
    if w == [] then "" else Spell(w[..|w| - 1]) + [Letter(w[|w| - 1])]
  }

  /** The displayed string determines the word. */
  lemma SpellInjective(w: seq<Direction>, w': seq<Direction>)
    requires Spell(w) == Spell(w')
    ensures w == w'
  {
    assert |w| == |w'|;
    forall i | 0 <= i < |w|
      ensures w[i] == w'[i]
    {
      assert Spell(w)[i] == Spell(w')[i];
      LetterInjective(w[i], w'[i]);
    }
  }

  /** No move is immediately followed by its inverse. */
  ghost predicate Reduced(w: seq<Direction>)
  {
    forall i | 0 <= i < |w| - 1 :: w[i + 1] != Inverse(w[i])
  }

  /** One move applied to the word: cancel the last move if d undoes it, otherwise append d. */
  function Step(w: seq<Direction>, d: Direction): seq<Direction>
  {
    if |w| > 0 && w[|w| - 1] == Inverse(d) then w[..|w| - 1] else w + [d]
  }

  /** A step keeps the word freely reduced. */
  lemma StepReduced(w: seq<Direction>, d: Direction)
    requires Reduced(w)
    ensures Reduced(Step(w, d))
  {
  }

  /** On a reduced word, the inverse move undoes a step. */
  lemma StepUndo(w: seq<Direction>, d: Direction)
    requires Reduced(w)
    ensures Step(Step(w, d), Inverse(d)) == w
  {
    InverseInvolutive(d);
    if |w| > 0 && w[|w| - 1] == Inverse(d) {
      var n := |w|;
      if n > 1 {
        assert w[n - 1] != Inverse(w[n - 2]);
        InverseInvolutive(w[n - 2]);
      }
      assert w[..n - 1] + [Inverse(d)] == w;
    } else {
      assert (w + [d])[..|w|] == w;
    }
  }

  /** The word a sequence of moves leaves behind, starting from the empty word. */
  function Reduce(moves: seq<Direction>): seq<Direction>
  {
    if moves == [] then [] else Step(Reduce(moves[..|moves| - 1]), moves[|moves| - 1])
  }

  /** The product of the generators along a word, multiplied on the right from the identity. */
  ghost function WordProduct(w: seq<Direction>): Matrix
  {
    if w == [] then Identity() else MatProduct(WordProduct(w[..|w| - 1]), GeneratorMatrix(w[|w| - 1]))
  }

  /** Every word product is canonical. */
  lemma WordProductCanonical(w: seq<Direction>)
    ensures CanonicalMatrix(WordProduct(w))
  {
    if w != [] {
      MatProductCanonical(WordProduct(w[..|w| - 1]), GeneratorMatrix(w[|w| - 1]));
    }
  }

  /** Cancelling a move in the word matches multiplying by its generator: the displayed word tracks the group element. */
  lemma StepProduct(w: seq<Direction>, d: Direction)
    ensures WordProduct(Step(w, d)) == MatProduct(WordProduct(w), GeneratorMatrix(d))
  {
    if |w| > 0 && w[|w| - 1] == Inverse(d) {
      var prefix := w[..|w| - 1];
      WordProductCanonical(prefix);
      PushInverseCancels(WordProduct(prefix), Inverse(d));
      InverseInvolutive(d);
    } else {
      assert (w + [d])[..|w|] == w;
    }
  }

  /** Whatever the moves, the word left behind is reduced and multiplies to the product of all the moves. */
  lemma {:induction false} ReduceProduct(moves: seq<Direction>)
    ensures Reduced(Reduce(moves))
    ensures WordProduct(Reduce(moves)) == WordProduct(moves)
  {
    if moves != [] {
      var prefix, d := moves[..|moves| - 1], moves[|moves| - 1];
      ReduceProduct(prefix);
      StepReduced(Reduce(prefix), d);
      StepProduct(Reduce(prefix), d);
    }
  }

  /** Reducing one more move is one more step. */
  lemma ReduceSnoc(moves: seq<Direction>, d: Direction)
    ensures Reduce(moves + [d]) == Step(Reduce(moves), d)
  {
    assert (moves + [d])[..|moves|] == moves;
  }

  /** A word that is already reduced is left as it is. */
  lemma {:induction false} ReduceReduced(w: seq<Direction>)
    requires Reduced(w)
    ensures Reduce(w) == w
  {
    if w != [] {
      var n := |w|;
      var prefix, d := w[..n - 1], w[n - 1];
      assert Reduced(prefix);
      ReduceReduced(prefix);
      if n > 1 {
        assert d != Inverse(w[n - 2]);
        InverseInvolutive(w[n - 2]);
      }
      assert prefix + [d] == w;
    }
  }

  /** Removing an adjacent pair of opposite moves anywhere does not change the word left behind. */
  lemma {:induction false} ReduceCancelsPair(u: seq<Direction>, d: Direction, v: seq<Direction>)
    ensures Reduce(u + [d, Inverse(d)] + v) == Reduce(u + v)
    decreases |v|
  {
    if v == [] {
      ReduceProduct(u);
      ReduceSnoc(u, d);
      assert u + [d, Inverse(d)] == (u + [d]) + [Inverse(d)];
      ReduceSnoc(u + [d], Inverse(d));
      StepUndo(Reduce(u), d);
      assert u + [d, Inverse(d)] + v == u + [d, Inverse(d)] && u + v == u;
    } else {
      var rest, x := v[..|v| - 1], v[|v| - 1];
      ReduceCancelsPair(u, d, rest);
      assert u + [d, Inverse(d)] + v == (u + [d, Inverse(d)] + rest) + [x];
      assert u + v == (u + rest) + [x];
      ReduceSnoc(u + [d, Inverse(d)] + rest, x);
      ReduceSnoc(u + rest, x);
    }
  }

  // ---------------------------------------------------------------------------
  // The level
  // ---------------------------------------------------------------------------

  /** One fresh group per parameter, in the same order. */
  method MakeGroups(qs: seq<Param>) returns (gs: seq<Group>)
    ensures |gs| == |qs|
    ensures forall g | g in gs :: fresh(g) && g.Valid() && g.current == Identity()
    ensures forall i, j | 0 <= i < j < |gs| :: gs[i] != gs[j]
  {
    gs := [];
    for i := 0 to |qs|
      invariant |gs| == i
      invariant forall g | g in gs :: fresh(g) && g.Valid() && g.current == Identity()
      invariant forall a, b | 0 <= a < b < |gs| :: gs[a] != gs[b]
    {
      var g := new Group();
      gs := gs + [g];
    }
  }

  /** The nine cells of each group's current matrix, group by group. */
  method FlattenGroups(gs: seq<Group>) returns (f: seq<seq<Polynomial>>)
    ensures |f| == |gs|
    ensures forall i | 0 <= i < |gs| :: f[i] == Flatten(gs[i].current)
  {
    f := [];
    for i := 0 to |gs|
      invariant |f| == i
      invariant forall k | 0 <= k < i :: f[k] == Flatten(gs[k].current)
    {
      f := f + [Flatten(gs[i].current)];
    }
  }

  /** Pushes d onto every group of gs, in index order. */
  method PushEach(gs: seq<Group>, d: Direction)
    requires forall i, j | 0 <= i < j < |gs| :: gs[i] != gs[j]
    requires forall g | g in gs :: g.Valid()
    modifies gs
    ensures forall g | g in gs :: g.Valid() && g.current == MatProduct(old(g.current), GeneratorMatrix(d))
  {
    for i := 0 to |gs|
      invariant forall g | g in gs :: g.Valid()
      invariant forall k | 0 <= k < i :: gs[k].current == MatProduct(old(gs[k].current), GeneratorMatrix(d))
      invariant forall k | i <= k < |gs| :: gs[k].current == old(gs[k].current)
    {
      gs[i].Push(d);
    }
  }

  class Level {
    const qs: seq<Param>
    var groups: seq<Group>
    var word: seq<Direction>
    var flattened: seq<seq<Polynomial>>

    /**
     * One distinct, well-formed group per parameter; the word is reduced; every
     * group holds the product of the word; flattened mirrors the groups.
     */
    ghost predicate Valid()
      reads this, groups
    {
      |groups| == |qs|
      && (forall i, j | 0 <= i < j < |groups| :: groups[i] != groups[j])
      && (forall g | g in groups :: g.Valid() && g.current == WordProduct(word))
      && Reduced(word)
      && |flattened| == |groups|
      && (forall i | 0 <= i < |groups| :: flattened[i] == Flatten(groups[i].current))
    }

    /** A new level: empty word, one fresh group per parameter at the identity. */
    constructor (qs: seq<Param>)
      ensures Valid()
      ensures this.qs == qs && |groups| == |qs| && word == []
      ensures forall g | g in groups :: fresh(g) && g.current == Identity()
    {
      var gs := MakeGroups(qs);
      var f := FlattenGroups(gs);
      this.qs, groups, word, flattened := qs, gs, [], f;
    }

    /** Recomputes flattened from the groups' current matrices. */
    method UpdateFlattened()
      modifies this
      ensures groups == old(groups) && word == old(word)
      ensures |flattened| == |groups|
      ensures forall i | 0 <= i < |groups| :: flattened[i] == Flatten(groups[i].current)
    {
      flattened := FlattenGroups(groups);
    }

    /** Applies d to every group in order, then cancels or appends d in the word. */
    method Push(d: Direction)
      requires Valid()
      modifies this, groups
      ensures Valid()
      ensures groups == old(groups)
      ensures word == Step(old(word), d)
      ensures forall g | g in groups :: g.current == MatProduct(old(g.current), GeneratorMatrix(d))
    {
      PushEach(groups, d);
      StepWord(d);
      UpdateFlattened();
    }

    /** Cancels the last move if d undoes it, otherwise appends d; the word stays reduced and tracks the product. */
    method StepWord(d: Direction)
      requires Reduced(word)
      modifies this
      ensures groups == old(groups) && flattened == old(flattened)
      ensures word == Step(old(word), d)
      ensures Reduced(word)
      ensures WordProduct(word) == MatProduct(WordProduct(old(word)), GeneratorMatrix(d))
    {
      var lastIsOpposite := |word| > 0 && word[|word| - 1] == Inverse(d);
      if lastIsOpposite {
        word := word[..|word| - 1];
      } else {
        word := word + [d];
      }
      StepReduced(old(word), d);
      StepProduct(old(word), d);
    }

    /** Fresh groups for the same parameters and an empty word. */
    method Reset()
      requires Valid()
      modifies this
      ensures Valid()
      ensures word == [] && |groups| == old(|groups|)
      ensures forall g | g in groups :: fresh(g) && g.current == Identity()
    {
      groups := MakeGroups(qs);
      word := [];
      UpdateFlattened();
    }

    /** The word as the string shown to the player. */
    function Word(): (s: string)
      reads this
      ensures |s| == |word|
      ensures forall i | 0 <= i < |word| :: s[i] == Letter(word[i])
    {
      Spell(word)
    }

    /**
     * Solved: at least one move has been kept and every group is back at the identity.
     * With at least one group this says the non-empty reduced word is a relation;
     * with none, every non-empty word counts as solved.
     */
    function IsSolved(): (r: bool)
      reads this, groups
      requires Valid()
      ensures r <==> word != [] && (|groups| == 0 || WordProduct(word) == Identity())
    {
      var allIdentity := forall g | g in groups :: g.CurrentIsIdentity();
      assert |groups| > 0 ==> groups[0] in groups;
      word != [] && allIdentity
    }
  }
}
