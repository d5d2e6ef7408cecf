/**
 * The two editor handlers with logic of their own: the "new cell" button,
 * which registers a blueprint under the first free default name, and the
 * brush button, which cycles through the registered blueprints and "empty".
 */
module Editor {
  import opened Wrappers
  import opened Cells
  import Decimal

  const NewCellPrefix: string := "New thing"
  const NewCellIcon: string := "\U{1F332}"

  /** The suffix tried on the n-th attempt: "", then "1", "2", ... */
  function Suffix(n: nat): (r: string)
    ensures r == "" <==> n == 0
  {
    if n == 0 then "" else Decimal.ToString(n)
  }

  /** The name tried on the n-th attempt. */
  function Candidate(n: nat): (r: string)
  {
    NewCellPrefix + Suffix(n)
  }

  /**
   * The n-th name tried is the prefix followed by a suffix that reads back
   * as n: empty for the first attempt, the decimal text of n afterwards.
   */
  lemma CandidateReadsBack(n: nat)
    ensures |NewCellPrefix| <= |Candidate(n)| && Candidate(n)[..|NewCellPrefix|] == NewCellPrefix
    ensures var rest := Candidate(n)[|NewCellPrefix|..];
            && (rest == "" <==> n == 0)
            && (n > 0 ==> Decimal.AllDigits(rest) && Decimal.Parse(rest) == n)
  {
    assert Candidate(n)[|NewCellPrefix|..] == Suffix(n);
    if n > 0 {
      Decimal.ParseToString(n);
    }
  }

  /** Different attempts try different names. */
  lemma CandidateInjective(m: nat, n: nat)
    requires Candidate(m) == Candidate(n)
    ensures m == n
  {
    var k := |NewCellPrefix|;
    assert Candidate(m)[k..] == Suffix(m);
    assert Candidate(n)[k..] == Suffix(n);
    if m != 0 && n != 0 {
      Decimal.ToStringInjective(m, n);
    }
  }

  /** The set of the first n names tried. */
  function Tried(n: nat): (r: set<string>)
    ensures forall k :: 0 <= k < n ==> Candidate(k) in r
  {
    if n == 0 then {} else Tried(n - 1) + {Candidate(n - 1)}
  }

  /** A later attempt tries a name none of the earlier ones tried. */
  lemma {:induction false} NotYetTried(m: nat, n: nat)
    requires n <= m
    ensures Candidate(m) !in Tried(n)
  {
    if n > 0 {
      NotYetTried(m, n - 1);
      if Candidate(m) == Candidate(n - 1) {
        CandidateInjective(m, n - 1);
      }
    }
  }

  /** n attempts try n distinct names. */
  lemma {:induction false} TriedCount(n: nat)
    ensures |Tried(n)| == n
  {
    if n > 0 {
      TriedCount(n - 1);
      NotYetTried(n - 1, n - 1);
    }
  }

  /** When each of the first n attempts is taken, the names tried are all taken. */
  lemma {:induction false} TriedTaken(names: set<string>, n: nat)
    requires forall k :: 0 <= k < n ==> Candidate(k) in names
    ensures Tried(n) <= names
  {
    if n > 0 {
      TriedTaken(names, n - 1);
    }
  }

  /** If the first n + 1 names tried are all taken, there are more than n taken names. */
  lemma TriedBound(names: set<string>, n: nat)
    requires forall k :: 0 <= k <= n ==> Candidate(k) in names
    ensures n + 1 <= |names|
  {
    TriedCount(n + 1);
    TriedTaken(names, n + 1);
    assert names == Tried(n + 1) + (names - Tried(n + 1));
  }

  /** Updating the suffix text as the handler does yields the next attempt's suffix. */
  lemma NextSuffix(i: string, n: nat)
    requires i == Suffix(n)
    ensures i != "" ==> Decimal.AllDigits(i)
    ensures (if i == "" then "1" else Decimal.ToString(Decimal.Parse(i) + 1)) == Suffix(n + 1)
  {
    if n == 0 {
      assert Decimal.ToString(1) == [Decimal.DigitChar(1)];
    } else {
      Decimal.ParseToString(n);
    }
  }

  /**
   * The "new cell" handler: tries "New thing", "New thing1", "New thing2", ...
   * until `addCell` accepts a fresh cell. It stops at the first name no
   * registered cell holds, and the registry grows by exactly that cell.
   */
  method NewCell(registry: Registry) returns (cell: Cell, ghost n: nat)
    modifies registry`cells
    ensures fresh(cell)
    ensures registry.cells == old(registry.cells) + [cell]
    ensures cell.name == Candidate(n) && cell.icon == NewCellIcon
    ensures !cell.isReference && !cell.isFloating
    ensures Candidate(n) !in old(NameSet(registry.cells))
    ensures forall k :: 0 <= k < n ==> Candidate(k) in old(NameSet(registry.cells))
    ensures old(registry.NamesDistinct()) ==> registry.NamesDistinct()
  {
    ghost var cells0 := registry.cells;
    ghost var names0 := NameSet(cells0);
    NameSetBound(cells0);
    var i := "";
    n := 0;
    var added;
    cell, added := AddNewCell(registry, NewCellPrefix + i, names0);
    while !added
      invariant i == Suffix(n) && cell.name == Candidate(n)
      invariant fresh(cell) && cell.icon == NewCellIcon && !cell.isReference && !cell.isFloating
      invariant added ==> registry.cells == cells0 + [cell] && Candidate(n) !in names0
      invariant !added ==> registry.cells == cells0 && NameSet(cells0) == names0 && Candidate(n) in names0
      invariant forall k :: 0 <= k < n ==> Candidate(k) in names0
      invariant old(registry.NamesDistinct()) ==> registry.NamesDistinct()
      invariant n <= |cells0|
      decreases |cells0| - n
    {
      TriedBound(names0, n);
      i := NextSuffixText(i, n);
      n := n + 1;
      cell, added := AddNewCell(registry, NewCellPrefix + i, names0);
    }
  }

  /** The handler's update of the suffix text: "" becomes "1", a number its successor. */
  method NextSuffixText(i: string, ghost n: nat) returns (j: string)
    requires i == Suffix(n)
    ensures j == Suffix(n + 1)
  {
    NextSuffix(i, n);
    if i == "" {
      j := "1";
    } else {
      j := Decimal.ToString(Decimal.Parse(i) + 1);
    }
  }

  /**
   * `addCell(new Cell({name, icon}))`, the condition of the handler's loop;
   * `names` are the names registered before the call.
   */
  method AddNewCell(registry: Registry, name: string, ghost names: set<string>) returns (cell: Cell, added: bool)
    requires names == NameSet(registry.cells)
    modifies registry`cells
    ensures fresh(cell) && cell.name == name && cell.icon == NewCellIcon
    ensures !cell.isReference && !cell.isFloating
    ensures added <==> name !in names
    ensures registry.cells == if added then old(registry.cells) + [cell] else old(registry.cells)
    ensures !added ==> NameSet(registry.cells) == names
    ensures old(registry.NamesDistinct()) ==> registry.NamesDistinct()
  {
    cell := new Cell(name, NewCellIcon, false, false);
    added := registry.AddCell(cell);
  }

  /**
   * One click of the brush button: the index moves to the next registered
   * cell, or back to -1 ("empty") after the last one.
   */
  function NextBrushIndex(i: int, count: nat): (r: int)
    requires -1 <= i
    ensures -1 <= r < count
    ensures r == -1 <==> i + 1 >= count
    ensures r != -1 ==> r == i + 1
  {
    if i + 1 >= count then -1 else i + 1
  }

  /** The brush index after k clicks, starting from `i`, with `count` registered cells. */
  function AfterClicks(i: int, count: nat, k: nat): (r: int)
    requires -1 <= i < count
    ensures -1 <= r < count
    decreases k
  {
    if k == 0 then i else AfterClicks(NextBrushIndex(i, count), count, k - 1)
  }

  /**
   * Starting from "empty", the brush visits the registered cells in order and
   * is back at "empty" after one more click than there are cells.
   */
  lemma {:induction false} BrushCycles(count: nat, k: nat)
    requires k <= count
    ensures AfterClicks(-1, count, k) == k - 1
    ensures AfterClicks(-1, count, count + 1) == -1
  {
    ClicksFrom(-1, count, k);
    ClicksFrom(-1, count, count);
    assert AfterClicks(count - 1, count, 1) == -1;
    ClicksSplit(-1, count, count, 1);
  }

  lemma {:induction false} ClicksFrom(i: int, count: nat, k: nat)
    requires -1 <= i && i + k < count
    ensures AfterClicks(i, count, k) == i + k
    decreases k
  {
    if k > 0 {
      ClicksFrom(i + 1, count, k - 1);
    }
  }

  lemma {:induction false} ClicksSplit(i: int, count: nat, k: nat, m: nat)
    requires -1 <= i < count
    ensures AfterClicks(i, count, k + m) == AfterClicks(AfterClicks(i, count, k), count, m)
    decreases k
  {
    if k > 0 {
      ClicksSplit(NextBrushIndex(i, count), count, k - 1, m);
    }
  }

  /** The brush handler's state: the closure's index and the selected blueprint. */
  class Brush {
    var index: int
    var brush: Option<Cell>  // None is 'empty'

    ghost predicate Valid()
      reads this
    {
      -1 <= index
    }

    constructor ()
      ensures index == -1 && brush == None && Valid()
    {
      index := -1;
      brush := None;
    }

    /** A click on the brush button. */
    method Click(registry: Registry)
      requires Valid()
      modifies this
      ensures Valid()
      ensures index == NextBrushIndex(old(index), |registry.cells|)
      ensures brush == if index == -1 then None else Some(registry.cells[index])
    {
      index := index + 1;
      if index >= |registry.cells| {
        index := -1;
      }
      if 0 <= index < |registry.cells| {
        brush := Some(registry.cells[index]);
      } else {
        brush := None;
      }
    }
  }
}
