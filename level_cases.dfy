/**
 * The sequences of moves a level is exercised with: the word after each
 * move, reset bringing the groups back to the identity, and a level that
 * is not solved while its word is empty or a single move.
 */
module LevelCases {
  import opened Polynomials
  import opened Matrices
  import opened Groups
  import opened Levels

  /** North, East, West, South: the word grows, West cancels East and South cancels North. */
  method WordScenario() returns (words: seq<seq<Direction>>, shown: seq<string>)
    ensures words == [[], [North], [North, East], [North], []]
    ensures shown == ["", "N", "NE", "N", ""]
  {
    var level := new Level([Param(60.0, 42.0)]);
    var w0, s0 := level.word, level.Word();
    assert s0 == "";
    var w1, s1, w2, s2 := NorthThenEast(level);
    var w3, s3, w4, s4 := WestThenSouth(level);
    words, shown := [w0, w1, w2, w3, w4], [s0, s1, s2, s3, s4];
  }

  /** From the empty word, North and then East are both appended. */
  method NorthThenEast(level: Level) returns (w1: seq<Direction>, s1: string, w2: seq<Direction>, s2: string)
    requires level.Valid() && level.word == []
    modifies level, level.groups
    ensures level.Valid() && level.groups == old(level.groups)
    ensures w1 == [North] && s1 == "N"
    ensures w2 == level.word == [North, East] && s2 == "NE"
  {
    ScenarioSteps();
    w1, s1 := PushAndShow(level, North);
    w2, s2 := PushAndShow(level, East);
  }

  /** From North, East: West cancels East and South cancels North. */
  method WestThenSouth(level: Level) returns (w3: seq<Direction>, s3: string, w4: seq<Direction>, s4: string)
    requires level.Valid() && level.word == [North, East]
    modifies level, level.groups
    ensures level.Valid() && level.groups == old(level.groups)
    ensures w3 == [North] && s3 == "N"
    ensures w4 == level.word == [] && s4 == ""
  {
    ScenarioSteps();
    w3, s3 := PushAndShow(level, West);
    w4, s4 := PushAndShow(level, South);
  }

  /** One move on the level, then the word and the string shown for it. */
  method PushAndShow(level: Level, d: Direction) returns (w: seq<Direction>, s: string)
    requires level.Valid()
    modifies level, level.groups
    ensures level.Valid() && level.groups == old(level.groups)
    ensures w == level.word == Step(old(level.word), d)
    ensures s == Spell(w)
  {
    level.Push(d);
    w, s := level.word, level.Word();
  }

  /** The words and strings the scenario passes through. */
  lemma ScenarioSteps()
    ensures Step([], North) == [North] && Step([North], East) == [North, East]
    ensures Step([North, East], West) == [North] && Step([North], South) == []
    ensures Spell([]) == "" && Spell([North]) == "N" && Spell([North, East]) == "NE"
  {
    assert [North, East][..1] == [North];
    assert Spell([North]) == "N";
    assert Spell([North, East]) == "NE";
  }

  /** A level starts at the identity, leaves it after North, and is back at the identity after reset. */
  method ResetScenario() returns (atStart: bool, afterPush: bool, afterReset: bool, emptyAfterPush: bool, emptyAfterReset: bool)
    ensures atStart && !afterPush && afterReset
    ensures !emptyAfterPush && emptyAfterReset
  {
    var level := new Level([Param(60.0, 42.0)]);
    assert level.groups[0] in level.groups;
    atStart := level.groups[0].CurrentIsIdentity();
    level.Push(North);
    assert level.groups[0] in level.groups;
    emptyAfterPush := level.word == [];
    afterPush := level.groups[0].CurrentIsIdentity();
    NorthFromIdentity();
    level.Reset();
    assert level.groups[0] in level.groups;
    emptyAfterReset := level.word == [];
    afterReset := level.groups[0].CurrentIsIdentity();
  }

  /** A new level is not solved, and neither is it after a single move. */
  method SolvedScenario() returns (atStart: bool, afterNorth: bool)
    ensures !atStart && !afterNorth
  {
    var level := new Level([Param(1.0, 0.0)]);
    atStart := level.IsSolved();
    level.Push(North);
    NorthFromIdentity();
    assert level.groups[0] in level.groups;
    afterNorth := level.IsSolved();
  }

  /** Symbolically, North twice is not the identity: coefficient 2 of cell (1, 1) of N * N is 1. */
  lemma NorthTwiceIsNotIdentity()
    ensures MatProduct(NorthMatrix(), NorthMatrix()) != Identity()
  {
    RightMulGenerator(NorthMatrix(), North, 1, 1, 2);
    assert Coef(MatProduct(NorthMatrix(), NorthMatrix())[1][1], 2) == 1;
    assert Coef(Identity()[1][1], 2) == 0;
  }
}
