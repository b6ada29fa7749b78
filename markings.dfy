/**
 * The marking cycle of src/lib/markings.ts: the six marking types, the
 * seven-slot circular successor a row click follows, and the CSS class and
 * label every state is shown with. A state is `Option<MarkingType>`;
 * `None` is the unmarked row (`undefined` in the source).
 */
module Markings {
  import opened Wrappers
  import Seqs

  datatype MarkingType = Marked | Learned | Reviewing | Mastered | Difficult | Favorite

  type MarkingState = Option<MarkingType>

  /** Entry `k` of the constant array the successor is looked up in. */
  function Entry(k: nat): MarkingState
    requires k < 7
  {
    if k == 0 then None
    else if k == 1 then Some(Marked)
    else if k == 2 then Some(Learned)
    else if k == 3 then Some(Reviewing)
    else if k == 4 then Some(Mastered)
    else if k == 5 then Some(Difficult)
    else Some(Favorite)
  }

  /** The constant array itself. */
  const Cycle: seq<MarkingState> := [Entry(0), Entry(1), Entry(2), Entry(3), Entry(4), Entry(5), Entry(6)]

  /** Where a state sits in `Cycle`. */
  function Position(s: MarkingState): (k: nat)
    ensures k < 7
  {
    match s
    case None => 0
    case Some(Marked) => 1
    case Some(Learned) => 2
    case Some(Reviewing) => 3
    case Some(Mastered) => 4
    case Some(Difficult) => 5
    case Some(Favorite) => 6
  }

  /** The entries of `Cycle`, one by one. */
  lemma CycleEntries()
    ensures |Cycle| == 7
    ensures forall k :: 0 <= k < 7 ==> Cycle[k] == Entry(k)
  {
  }

  /** Every entry sits at its own position: the entries are pairwise distinct. */
  lemma PositionOfEntry(k: nat)
    requires k < 7
    ensures Position(Entry(k)) == k
  {
  }

  /** Every state is the entry at its position. */
  lemma EntryAtPosition(s: MarkingState)
    ensures Entry(Position(s)) == s
  {
  }

  /** `indexOf` finds every state at its own position in `Cycle`, so it never returns -1. */
  lemma {:induction false} IndexOfCycle(s: MarkingState)
    ensures Seqs.IndexOf(Cycle, s) == Position(s)
  {
    var r := Seqs.IndexOf(Cycle, s);
    CycleEntries();
    EntryAtPosition(s);
    assert Cycle[Position(s)] == s;
    PositionOfEntry(r);
  }

  /**
   * `getNextMarkingType`: the state after `current` in `Cycle`, wrapping
   * around from `favorite` to unmarked. `NextIsArrayLookup` shows this is
   * the entry after the one `indexOf` finds, taken modulo the array's
   * length. The result is never the state itself, and it is unmarked
   * exactly after `favorite`.
   */
  function Next(current: MarkingState): (r: MarkingState)
    ensures r != current
    ensures r.None? <==> current == Some(Favorite)
  {
    match current
    case None => Some(Marked)
    case Some(Marked) => Some(Learned)
    case Some(Learned) => Some(Reviewing)
    case Some(Reviewing) => Some(Mastered)
    case Some(Mastered) => Some(Difficult)
    case Some(Difficult) => Some(Favorite)
    case Some(Favorite) => None
  }

  /** The successor one position along: the entry after `k`, wrapping from the last to the first. */
  lemma NextEntry(k: nat)
    requires k < 7
    ensures Next(Entry(k)) == Entry((k + 1) % 7)
  {
  }

  /**
   * `Next` is the lookup the source performs: `indexOf` the current state
   * in the array, add one modulo the array's length, and read that entry.
   */
  lemma {:induction false} NextIsArrayLookup(current: MarkingState)
    ensures Seqs.IndexOf(Cycle, current) != -1
    ensures Next(current) == Cycle[(Seqs.IndexOf(Cycle, current) + 1) % |Cycle|]
  {
    IndexOfCycle(current);
    CycleEntries();
    var k := Position(current);
    EntryAtPosition(current);
    NextEntry(k);
  }

  /** The state `n` clicks away from `s`: `n` positions further along the cycle. */
  function Iterate(s: MarkingState, n: nat): MarkingState
  {
    Entry((Position(s) + n) % 7)
  }

  /** Zero clicks leave a state alone, and each further click is one more `Next`. */
  lemma IterateSteps(s: MarkingState, n: nat)
    ensures Iterate(s, 0) == s
    ensures n > 0 ==> Iterate(s, n) == Next(Iterate(s, n - 1))
  {
    EntryAtPosition(s);
    if n > 0 {
      var j := (Position(s) + n - 1) % 7;
      NextEntry(j);
      StepMod(Position(s) + n - 1, j);
    }
  }

  /** The successor follows the order of `Cycle`, position by position. */
  lemma NextFollowsCycle(k: nat)
    requires k < |Cycle|
    ensures Next(Cycle[k]) == Cycle[(k + 1) % |Cycle|]
  {
    CycleEntries();
    NextEntry(k);
  }

  /** The cycle written out: unmarked, marked, learned, reviewing, mastered, difficult, favorite, unmarked. */
  lemma CycleOrder()
    ensures Next(None) == Some(Marked)
    ensures Next(Some(Marked)) == Some(Learned)
    ensures Next(Some(Learned)) == Some(Reviewing)
    ensures Next(Some(Reviewing)) == Some(Mastered)
    ensures Next(Some(Mastered)) == Some(Difficult)
    ensures Next(Some(Difficult)) == Some(Favorite)
    ensures Next(Some(Favorite)) == None
  {
    CycleEntries();
  }

  lemma StepMod(x: nat, y: nat)
    requires y == x % 7
    ensures (y + 1) % 7 == (x + 1) % 7
  {
  }

  /** `n` clicks move a state `n` places along the cycle. */
  lemma IterateMoves(k: nat, n: nat)
    requires k < |Cycle|
    ensures Iterate(Cycle[k], n) == Cycle[(k + n) % |Cycle|]
  {
    CycleEntries();
    PositionOfEntry(k);
  }

  lemma RoundsMod(k: nat, n: nat)
    requires k < 7 && n % 7 == 0
    ensures (k + n) % 7 == k
  {
  }

  /** Any whole number of rounds returns a state to itself. */
  lemma WholeRounds(s: MarkingState, n: nat)
    requires n % |Cycle| == 0
    ensures Iterate(s, n) == s
  {
    RoundsMod(Position(s), n);
    EntryAtPosition(s);
  }

  /** Fewer than seven steps never return a state to itself. */
  lemma NoShorterPeriod(s: MarkingState, n: nat)
    requires 0 < n < |Cycle|
    ensures Iterate(s, n) != s
  {
    var j := (Position(s) + n) % 7;
    assert j != Position(s);
    PositionOfEntry(j);
  }

  /** The cycle has period exactly seven: seven steps return every state to itself and no fewer do. */
  lemma PeriodSeven(s: MarkingState)
    ensures Iterate(s, 7) == s
    ensures forall n :: 0 < n < 7 ==> Iterate(s, n) != s
  {
    WholeRounds(s, 7);
    forall n | 0 < n < 7 ensures Iterate(s, n) != s {
      NoShorterPeriod(s, n);
    }
  }

  /** The colour word in the classes of a marked row. */
  function Colour(t: MarkingType): string
  {
    match t
    case Learned => "green"
    case Reviewing => "yellow"
    case Mastered => "blue"
    case Difficult => "red"
    case Favorite => "purple"
    case Marked => "gray"
  }

  /** The light and dark background and hover classes every marked row gets, in its colour. */
  function Tint(colour: string): string
  {
    "bg-" + colour + "-100 hover:bg-" + colour + "-200 dark:bg-" + colour + "-500/20 dark:hover:bg-" + colour + "-500/30"
  }

  /** `getMarkingClass`: the row's classes; the neutral hover class exactly for an unmarked row. */
  function MarkingClass(s: MarkingState): (r: string)
    ensures r == "hover:bg-muted/50" <==> s.None?
  {
    match s
    case Some(t) =>
      var r := Tint(Colour(t));
      assert r[0] == 'b';
      r
    case None => "hover:bg-muted/50"
  }

  /** Different colours give different classes, so the colour can be read back from them. */
  lemma TintInjective(c: string, d: string)
    requires c != d
    ensures Tint(c) != Tint(d)
  {
    if |c| != |d| {
      assert |Tint(c)| != |Tint(d)|;
    } else {
      assert Tint(c)[3..3 + |c|] == c;
      assert Tint(d)[3..3 + |d|] == d;
    }
  }

  /** `getMarkingLabel`: the text naming a state; "No mark" for an unmarked row. */
  function MarkingLabel(s: MarkingState): (r: string)
    ensures r == "No mark" <==> s.None?
  {
    match s
    case Some(Learned) => "✓ Learned"
    case Some(Reviewing) => "↻ Reviewing"
    case Some(Mastered) => "★ Mastered"
    case Some(Difficult) => "! Difficult"
    case Some(Favorite) => "♥ Favorite"
    case Some(Marked) => "• Marked"
    case None => "No mark"
  }

  /** Different states are shown with different classes, so a row's colour tells its state. */
  lemma ClassesDistinct(s: MarkingState, t: MarkingState)
    requires s != t
    ensures MarkingClass(s) != MarkingClass(t)
  {
    if s.Some? && t.Some? {
      assert Colour(s.value) != Colour(t.value);
      TintInjective(Colour(s.value), Colour(t.value));
    }
  }

  /** Different states have different labels. */
  lemma LabelsDistinct(s: MarkingState, t: MarkingState)
    requires s != t
    ensures MarkingLabel(s) != MarkingLabel(t)
  {
    assert MarkingLabel(s)[0] != MarkingLabel(t)[0];
  }
}
