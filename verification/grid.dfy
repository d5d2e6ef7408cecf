/**
 * The grid: a sparse, ordered list of placements, its placement rule
 * (`setCell`) and the occupancy invariant that rule keeps.
 */
module Grids {
  import opened Wrappers
  import opened Vectors
  import opened Cells
  import opened GridQueries

  /** At most one blocking (non-floating) entry at any position. */
  ghost predicate OneBlockerPerPosition(s: seq<Entry>)
  {
    forall i, j :: 0 <= i < j < |s| && Blocking(s[i]) && Blocking(s[j]) ==> s[i].position != s[j].position
  }

  /**
   * The list after `setCell(inst, pos)`, case by case:
   * - a blocking entry sits at `pos` and `inst` is not floating: that entry
   *   is overwritten in place;
   * - otherwise a reference instance is appended;
   * - otherwise a non-reference instance loses its first entry and is
   *   appended; an instance with no entry yet is not placed at all.
   */
  function Placed(es: seq<Entry>, inst: CellInstance, pos: Vector2D): (r: seq<Entry>)
    ensures |r| == if inst.cell.isReference && (BlockerIndex(es, pos).None? || inst.cell.isFloating)
                   then |es| + 1 else |es|
    ensures (FirstIndexOf(es, inst).Some? || inst.cell.isReference
             || (BlockerIndex(es, pos).Some? && !inst.cell.isFloating)) ==> Entry(inst, pos) in r
  {
    var placed := Entry(inst, pos);
    var blocker := BlockerIndex(es, pos);
    if blocker.Some? && !inst.cell.isFloating then
      var r := es[blocker.value := placed];
      assert r[blocker.value] == placed;
      r
    else if inst.cell.isReference then es + [placed]
    else
      match FirstIndexOf(es, inst)
      case Some(k) => es[..k] + es[k + 1..] + [placed]
      case None => es
  }

  /** `Grid`: the size of the drawn grid and the list of placements. */
  class Grid {
    var size: Vector2D
    var entries: seq<Entry>

    ghost predicate Valid()
      reads this
    {
      OneBlockerPerPosition(entries)
    }

    constructor (size: Vector2D)
      ensures this.size == size && entries == []
      ensures Width() == size.x && Height() == size.y
      ensures Valid()
    {
      this.size := size;
      entries := [];
    }

    /** The `width` getter. */
    function Width(): int
      reads this
    {
      size.x
    }

    /** The `height` getter. */
    function Height(): int
      reads this
    {
      size.y
    }

    /** The `size` setter. */
    method SetSize(v: Vector2D)
      modifies this`size
      ensures size == v && entries == old(entries)
      ensures Width() == v.x && Height() == v.y
    {
      size := v;
    }

    /**
     * `setCell`: looks up the blocking entry at `pos` among the entries
     * there, then overwrites it, appends, or appends and splices out the
     * instance's first entry. It always reports success.
     */
    method SetCell(inst: CellInstance, pos: Vector2D) returns (ok: bool)
      modifies this`entries
      ensures ok
      ensures entries == Placed(old(entries), inst, pos)
      ensures old(Valid()) ==> Valid()
    {
      ghost var before := entries;
      var entryAtPosition := FindBlocking(EntriesAt(entries, pos));
      FoundBlockerIsPlaced(before, inst, pos);
      if entryAtPosition.Some? && !inst.cell.isFloating {
        entries := entries[IndexOf(entries, entryAtPosition.value) := Entry(inst, pos)];
      } else if inst.cell.isReference {
        entries := entries + [Entry(inst, pos)];
      } else {
        entries := entries + [Entry(inst, pos)];
        var entryOfCell := FindInstance(entries, inst);
        PushThenSpliceIsPlaced(before, inst, pos);
        if entryOfCell.Some? {
          var indexOfCell := IndexOf(entries, entryOfCell.value);
          entries := entries[..indexOfCell] + entries[indexOfCell + 1..];
        }
      }
      assert entries == Placed(before, inst, pos);
      if OneBlockerPerPosition(before) {
        PlacedKeepsOccupancy(before, inst, pos);
      }
      return true;
    }
  }

  /**
   * The first two branches of `setCell`: overwriting the blocker found among
   * the entries at `pos`, or appending a reference instance, give `Placed`.
   */
  lemma FoundBlockerIsPlaced(es: seq<Entry>, inst: CellInstance, pos: Vector2D)
    ensures var found := FindBlocking(EntriesAt(es, pos));
            && (found.Some? && !inst.cell.isFloating ==>
                  0 <= IndexOf(es, found.value) < |es|
                  && es[IndexOf(es, found.value) := Entry(inst, pos)] == Placed(es, inst, pos))
            && (!(found.Some? && !inst.cell.isFloating) && inst.cell.isReference ==>
                  es + [Entry(inst, pos)] == Placed(es, inst, pos))
            && (!(found.Some? && !inst.cell.isFloating) ==>
                  BlockerIndex(es, pos).None? || inst.cell.isFloating)
  {
    BlockerFound(es, pos);
  }

  /**
   * The last branch of `setCell`: pushing an entry of `inst` and splicing out
   * the entry that `find` and `indexOf` then locate gives `Placed`. That entry
   * is the instance's old first entry, or, when it had none, the one just pushed.
   */
  lemma PushThenSpliceIsPlaced(es: seq<Entry>, inst: CellInstance, pos: Vector2D)
    requires !inst.cell.isReference
    requires BlockerIndex(es, pos).None? || inst.cell.isFloating
    ensures var s := es + [Entry(inst, pos)];
            && FindInstance(s, inst).Some?
            && var k := IndexOf(s, FindInstance(s, inst).value);
               && 0 <= k < |s|
               && s[..k] + s[k + 1..] == Placed(es, inst, pos)
  {
    var x := Entry(inst, pos);
    PushThenSplice(es, inst, pos);
    var k := IndexOf(es + [x], FindInstance(es + [x], inst).value);
    SpliceAfterPush(es, x, k);
    PlacedUnblocked(es, inst, pos);
  }

  /** Outside the overwrite case a non-reference instance's first entry moves to the end, if it has one. */
  lemma PlacedUnblocked(es: seq<Entry>, inst: CellInstance, pos: Vector2D)
    requires !inst.cell.isReference
    requires BlockerIndex(es, pos).None? || inst.cell.isFloating
    ensures Placed(es, inst, pos) ==
              if FirstIndexOf(es, inst).Some?
              then es[..FirstIndexOf(es, inst).value] + es[FirstIndexOf(es, inst).value + 1..] + [Entry(inst, pos)]
              else es
  {
  }

  /** After the push, `find` and `indexOf` land on the instance's old first entry, or on the pushed one. */
  lemma PushThenSplice(es: seq<Entry>, inst: CellInstance, pos: Vector2D)
    ensures FindInstance(es + [Entry(inst, pos)], inst).Some?
    ensures IndexOf(es + [Entry(inst, pos)], FindInstance(es + [Entry(inst, pos)], inst).value) ==
              if FirstIndexOf(es, inst).Some? then FirstIndexOf(es, inst).value else |es|
  {
    InstanceFound(es + [Entry(inst, pos)], inst);
    FirstIndexOfAppend(es, inst, pos);
  }

  /** Splicing index k out of `es + [x]`. */
  lemma SpliceAfterPush(es: seq<Entry>, x: Entry, k: nat)
    requires k <= |es|
    ensures var s := es + [x];
            s[..k] + s[k + 1..] == if k < |es| then es[..k] + es[k + 1..] + [x] else es
  {
    var s := es + [x];
    if k < |es| {
      assert s[..k] == es[..k];
      assert s[k + 1..] == es[k + 1..] + [x];
    } else {
      assert s[..k] == es;
    }
  }

  /** Appending an entry of `inst` makes it findable: at its old first index, or last. */
  lemma FirstIndexOfAppend(es: seq<Entry>, inst: CellInstance, pos: Vector2D)
    ensures FirstIndexOf(es + [Entry(inst, pos)], inst) ==
              Some(if FirstIndexOf(es, inst).Some? then FirstIndexOf(es, inst).value else |es|)
  {
    var s := es + [Entry(inst, pos)];
    assert s[|es|].cell == inst;
    assert forall j :: 0 <= j < |es| ==> s[j] == es[j];
  }

  /** Appending keeps the invariant when the new entry does not block an occupied position. */
  lemma AppendKeepsOccupancy(s: seq<Entry>, x: Entry)
    requires OneBlockerPerPosition(s)
    requires Blocking(x) ==> BlockerIndex(s, x.position).None?
    ensures OneBlockerPerPosition(s + [x])
  {
    var t := s + [x];
    forall i, j | 0 <= i < j < |t| && Blocking(t[i]) && Blocking(t[j])
      ensures t[i].position != t[j].position
    {
      assert t[i] == s[i];
      if j < |s| {
        assert t[j] == s[j];
      }
    }
  }

  /** Removing one entry keeps the invariant. */
  lemma RemoveKeepsOccupancy(s: seq<Entry>, k: nat)
    requires k < |s| && OneBlockerPerPosition(s)
    ensures OneBlockerPerPosition(s[..k] + s[k + 1..])
  {
    var t := s[..k] + s[k + 1..];
    forall i, j | 0 <= i < j < |t| && Blocking(t[i]) && Blocking(t[j])
      ensures t[i].position != t[j].position
    {
      var i' := if i < k then i else i + 1;
      var j' := if j < k then j else j + 1;
      assert t[i] == s[i'] && t[j] == s[j'];
    }
  }

  /** Removing one entry cannot create a blocker. */
  lemma RemoveKeepsNoBlocker(s: seq<Entry>, k: nat, pos: Vector2D)
    requires k < |s| && BlockerIndex(s, pos).None?
    ensures BlockerIndex(s[..k] + s[k + 1..], pos).None?
  {
    var t := s[..k] + s[k + 1..];
    assert forall i :: 0 <= i < |t| ==> t[i] == s[if i < k then i else i + 1];
  }

  /** Overwriting the blocker of a position with another blocking entry there keeps the invariant. */
  lemma ReplaceKeepsOccupancy(s: seq<Entry>, j: nat, x: Entry)
    requires OneBlockerPerPosition(s)
    requires BlockerIndex(s, x.position) == Some(j)
    ensures OneBlockerPerPosition(s[j := x])
  {
    var t := s[j := x];
    forall a, b | 0 <= a < b < |t| && Blocking(t[a]) && Blocking(t[b])
      ensures t[a].position != t[b].position
    {
      if a == j {
        assert Blocking(s[b]) && t[b] == s[b];
        assert s[j].position == x.position;
      } else if b == j {
        assert Blocking(s[a]) && t[a] == s[a];
        assert s[j].position == x.position;
      }
    }
  }

  /**
   * The occupancy invariant: if no position holds two blocking entries
   * before `setCell`, none does afterwards, whatever kind of instance is placed.
   */
  lemma PlacedKeepsOccupancy(es: seq<Entry>, inst: CellInstance, pos: Vector2D)
    requires OneBlockerPerPosition(es)
    ensures OneBlockerPerPosition(Placed(es, inst, pos))
  {
    var placed := Entry(inst, pos);
    var blocker := BlockerIndex(es, pos);
    if blocker.Some? && !inst.cell.isFloating {
      ReplaceKeepsOccupancy(es, blocker.value, placed);
    } else if inst.cell.isReference {
      AppendKeepsOccupancy(es, placed);
    } else if FirstIndexOf(es, inst).Some? {
      var k := FirstIndexOf(es, inst).value;
      RemoveKeepsOccupancy(es, k);
      if blocker.None? {
        RemoveKeepsNoBlocker(es, k, pos);
      }
      AppendKeepsOccupancy(es[..k] + es[k + 1..], placed);
    }
  }

  /**
   * Placing a non-floating instance where a blocking entry sits overwrites
   * that entry in place: the length and every other entry are unchanged,
   * and the instance is now the first blocker of `pos`.
   */
  lemma PlacedOverwritesBlocker(es: seq<Entry>, inst: CellInstance, pos: Vector2D)
    requires BlockerIndex(es, pos).Some? && !inst.cell.isFloating
    ensures var j := BlockerIndex(es, pos).value;
            var r := Placed(es, inst, pos);
            && |r| == |es|
            && r[j] == Entry(inst, pos)
            && (forall i :: 0 <= i < |es| && i != j ==> r[i] == es[i])
            && BlockerIndex(r, pos) == Some(j)
  {
    var j := BlockerIndex(es, pos).value;
    var r := Placed(es, inst, pos);
    var b := BlockerIndex(r, pos);
    if b != Some(j) {
      assert b.Some? ==> b.value >= j;
      assert r[j].position == pos && Blocking(r[j]);
      assert false;
    }
  }

  /**
   * Outside the overwrite case a reference instance is appended and nothing
   * is removed, so all its earlier placements stay retrievable.
   */
  lemma PlacedAppendsReference(es: seq<Entry>, inst: CellInstance, pos: Vector2D)
    requires inst.cell.isReference
    requires BlockerIndex(es, pos).None? || inst.cell.isFloating
    ensures Placed(es, inst, pos) == es + [Entry(inst, pos)]
    ensures PositionsOf(Placed(es, inst, pos), inst) == PositionsOf(es, inst) + [pos]
  {
    PositionsOfAppend(es, [Entry(inst, pos)], inst);
    assert PositionsOf([Entry(inst, pos)], inst) == [pos];
  }

  /**
   * A reference instance never loses a position to its own placement:
   * afterwards it is exactly at its old positions and at `pos`.
   */
  lemma ReferenceKeepsPlacements(es: seq<Entry>, inst: CellInstance, pos: Vector2D)
    requires inst.cell.isReference
    ensures forall p :: p in PositionsOf(Placed(es, inst, pos), inst) <==> p in PositionsOf(es, inst) || p == pos
  {
    var r := Placed(es, inst, pos);
    var blocker := BlockerIndex(es, pos);
    forall p ensures Entry(inst, p) in r <==> Entry(inst, p) in es || p == pos {
      if blocker.Some? && !inst.cell.isFloating {
        var j := blocker.value;
        assert r[j] == Entry(inst, pos);
        if Entry(inst, p) in es {
          var i :| 0 <= i < |es| && es[i] == Entry(inst, p);
          if i == j {
            assert p == pos;
          } else {
            assert r[i] == es[i];
          }
        }
        if Entry(inst, p) in r {
          var i :| 0 <= i < |r| && r[i] == Entry(inst, p);
          if i != j {
            assert es[i] == r[i];
          }
        }
      } else {
        assert r == es + [Entry(inst, pos)];
      }
    }
  }

  /** The positions of a single entry of `inst`. */
  lemma PositionsOfSingle(inst: CellInstance, pos: Vector2D)
    ensures PositionsOf([Entry(inst, pos)], inst) == [pos]
  {
    assert [Entry(inst, pos)][1..] == [];
  }

  /** Splicing out the first entry of `inst` drops the first of its positions. */
  lemma PositionsOfRemoveFirst(es: seq<Entry>, inst: CellInstance)
    requires FirstIndexOf(es, inst).Some?
    ensures var k := FirstIndexOf(es, inst).value;
            && PositionsOf(es, inst) != []
            && PositionsOf(es, inst)[0] == es[k].position
            && PositionsOf(es[..k] + es[k + 1..], inst) == PositionsOf(es, inst)[1..]
  {
    var k := FirstIndexOf(es, inst).value;
    var pre, post := es[..k], es[k + 1..];
    assert es == pre + ([es[k]] + post);
    PositionsOfSkip(pre, [es[k]] + post, inst);
    PositionsOfSkip(pre, post, inst);
    PositionsOfCons(es[k], post, inst);
  }

  /** Entries of other instances in front do not change the positions of `inst`. */
  lemma {:induction false} PositionsOfSkip(pre: seq<Entry>, s: seq<Entry>, inst: CellInstance)
    requires forall j :: 0 <= j < |pre| ==> pre[j].cell != inst
    ensures PositionsOf(pre + s, inst) == PositionsOf(s, inst)
  {
    if pre == [] {
      assert pre + s == s;
    } else {
      assert (pre + s)[1..] == pre[1..] + s;
      PositionsOfSkip(pre[1..], s, inst);
    }
  }

  /** The positions of `inst` in a list with one more entry at the front. */
  lemma PositionsOfCons(x: Entry, s: seq<Entry>, inst: CellInstance)
    ensures PositionsOf([x] + s, inst) == (if x.cell == inst then [x.position] else []) + PositionsOf(s, inst)
  {
    assert ([x] + s)[1..] == s;
  }

  /**
   * Relocation: outside the overwrite case a non-reference instance that
   * already has an entry loses its first one and reappears last, at `pos`.
   */
  lemma PlacedRelocates(es: seq<Entry>, inst: CellInstance, pos: Vector2D)
    requires !inst.cell.isReference
    requires BlockerIndex(es, pos).None? || inst.cell.isFloating
    requires FirstIndexOf(es, inst).Some?
    ensures var k := FirstIndexOf(es, inst).value;
            Placed(es, inst, pos) == es[..k] + es[k + 1..] + [Entry(inst, pos)]
    ensures PositionsOf(Placed(es, inst, pos), inst) == PositionsOf(es, inst)[1..] + [pos]
    ensures |PositionsOf(es, inst)| == 1 ==> GetPosition(Placed(es, inst, pos), inst) == Success(Some(pos))
  {
    var k := FirstIndexOf(es, inst).value;
    var removed := es[..k] + es[k + 1..];
    PositionsOfRemoveFirst(es, inst);
    PositionsOfAppend(removed, [Entry(inst, pos)], inst);
    PositionsOfSingle(inst, pos);
    GetPositionIsFirst(Placed(es, inst, pos), inst);
  }

  /**
   * The code as written: outside the overwrite case, a non-reference
   * instance without an entry is pushed and spliced straight back out, so
   * the list is unchanged and the instance is still not placed.
   */
  lemma PlacedDropsUnplaced(es: seq<Entry>, inst: CellInstance, pos: Vector2D)
    requires !inst.cell.isReference
    requires BlockerIndex(es, pos).None? || inst.cell.isFloating
    requires forall e <- es :: e.cell != inst
    ensures Placed(es, inst, pos) == es
    ensures GetPosition(Placed(es, inst, pos), inst) == Success(None)
  {
    if FirstIndexOf(es, inst).Some? {
      assert false;
    }
  }

  /**
   * The code as written: a non-reference instance placed over another
   * blocking instance keeps its old entry, so it ends up in two places.
   */
  lemma OverwriteLeavesOldPlacement(a: CellInstance, b: CellInstance, p1: Vector2D, p2: Vector2D)
    requires a != b && p1 != p2
    requires !a.cell.isReference && !a.cell.isFloating && !b.cell.isFloating
    ensures Placed([Entry(a, p1), Entry(b, p2)], a, p2) == [Entry(a, p1), Entry(a, p2)]
    ensures PositionsOf(Placed([Entry(a, p1), Entry(b, p2)], a, p2), a) == [p1, p2]
  {
    var es := [Entry(a, p1), Entry(b, p2)];
    assert es[1..] == [Entry(b, p2)];
    assert BlockerIndex(es[1..], p2) == Some(0);
    assert BlockerIndex(es, p2) == Some(1);
    var r := [Entry(a, p1), Entry(a, p2)];
    assert r[1..] == [Entry(a, p2)];
  }

  /** `filter(ent => ent.cell !== inst)`: every entry of other instances, in order. */
  function Without(s: seq<Entry>, inst: CellInstance): (r: seq<Entry>)
    ensures |r| <= |s|
    ensures forall e <- r :: e in s && e.cell != inst
    ensures forall e <- s :: e.cell != inst ==> e in r
  {
    if s == [] then []
    else (if s[0].cell != inst then [s[0]] else []) + Without(s[1..], inst)
  }

  /** Dropping entries keeps the invariant. */
  lemma {:induction false} WithoutKeepsOccupancy(s: seq<Entry>, inst: CellInstance)
    requires OneBlockerPerPosition(s)
    ensures OneBlockerPerPosition(Without(s, inst))
  {
    if s != [] {
      var tail := s[1..];
      TailKeepsOccupancy(s);
      WithoutKeepsOccupancy(tail, inst);
      var rest := Without(tail, inst);
      if s[0].cell != inst {
        HeadAgainstTail(s);
        assert forall e <- rest :: e in tail;
        ConsKeepsOccupancy(s[0], rest);
        assert Without(s, inst) == [s[0]] + rest;
      }
    }
  }

  /** Dropping the first entry keeps the invariant. */
  lemma TailKeepsOccupancy(s: seq<Entry>)
    requires s != [] && OneBlockerPerPosition(s)
    ensures OneBlockerPerPosition(s[1..])
  {
    var tail := s[1..];
    forall i, j | 0 <= i < j < |tail| && Blocking(tail[i]) && Blocking(tail[j])
      ensures tail[i].position != tail[j].position
    {
      assert tail[i] == s[i + 1] && tail[j] == s[j + 1];
    }
  }

  /** Under the invariant a blocking first entry shares its position with no later blocker. */
  lemma HeadAgainstTail(s: seq<Entry>)
    requires s != [] && OneBlockerPerPosition(s)
    ensures Blocking(s[0]) ==> forall e <- s[1..] :: Blocking(e) ==> e.position != s[0].position
  {
    forall e <- s[1..] | Blocking(s[0]) && Blocking(e)
      ensures e.position != s[0].position
    {
      var k :| 0 <= k < |s[1..]| && s[1..][k] == e;
      assert s[k + 1] == e;
    }
  }

  /** Putting an entry in front keeps the invariant when it blocks no position a later blocker holds. */
  lemma ConsKeepsOccupancy(x: Entry, rest: seq<Entry>)
    requires OneBlockerPerPosition(rest)
    requires Blocking(x) ==> forall e <- rest :: Blocking(e) ==> e.position != x.position
    ensures OneBlockerPerPosition([x] + rest)
  {
    var t := [x] + rest;
    forall i, j | 0 <= i < j < |t| && Blocking(t[i]) && Blocking(t[j])
      ensures t[i].position != t[j].position
    {
      assert t[j] == rest[j - 1] && t[j] in rest;
      if i > 0 {
        assert t[i] == rest[i - 1];
      }
    }
  }

  /** Without blockers at a position, dropping entries adds none. */
  lemma WithoutKeepsNoBlocker(s: seq<Entry>, inst: CellInstance, pos: Vector2D)
    requires BlockerIndex(s, pos).None?
    ensures BlockerIndex(Without(s, inst), pos).None?
  {
    var t := Without(s, inst);
    assert forall i :: 0 <= i < |t| ==> t[i] in s;
  }

  /**
   * The placement rule the code evidently intends: a non-reference instance
   * first leaves every position it holds, then takes `pos` (overwriting the
   * blocker there when it is itself non-floating); a reference instance is
   * placed as before.
   */
  function PlacedIntended(es: seq<Entry>, inst: CellInstance, pos: Vector2D): (r: seq<Entry>)
  {
    var placed := Entry(inst, pos);
    var rest := if inst.cell.isReference then es else Without(es, inst);
    var blocker := BlockerIndex(rest, pos);
    if blocker.Some? && !inst.cell.isFloating then rest[blocker.value := placed] else rest + [placed]
  }

  /** For reference instances the intended rule is the rule as written. */
  lemma PlacedIntendedOnReferences(es: seq<Entry>, inst: CellInstance, pos: Vector2D)
    requires inst.cell.isReference
    ensures PlacedIntended(es, inst, pos) == Placed(es, inst, pos)
  {
  }

  /** Under the intended rule a non-reference instance is afterwards exactly at `pos`. */
  lemma PlacedIntendedLocates(es: seq<Entry>, inst: CellInstance, pos: Vector2D)
    requires !inst.cell.isReference
    ensures PositionsOf(PlacedIntended(es, inst, pos), inst) == [pos]
    ensures GetPosition(PlacedIntended(es, inst, pos), inst) == Success(Some(pos))
  {
    var rest := Without(es, inst);
    var r := PlacedIntended(es, inst, pos);
    PositionsOfAbsent(rest, inst);
    PositionsOfSingle(inst, pos);
    var blocker := BlockerIndex(rest, pos);
    if blocker.Some? && !inst.cell.isFloating {
      PositionsOfOverwriteAbsent(rest, blocker.value, inst, pos);
    } else {
      PositionsOfAppend(rest, [Entry(inst, pos)], inst);
    }
    GetPositionIsFirst(r, inst);
  }

  /** Overwriting one entry of a list without `inst` by an entry of `inst` gives it one position. */
  lemma PositionsOfOverwriteAbsent(s: seq<Entry>, j: nat, inst: CellInstance, pos: Vector2D)
    requires j < |s| && forall e <- s :: e.cell != inst
    ensures PositionsOf(s[j := Entry(inst, pos)], inst) == [pos]
  {
    var x := Entry(inst, pos);
    assert s[j := x] == s[..j] + ([x] + s[j + 1..]);
    PositionsOfAbsent(s[..j], inst);
    PositionsOfAbsent(s[j + 1..], inst);
    PositionsOfAppend(s[..j], [x] + s[j + 1..], inst);
    assert ([x] + s[j + 1..])[1..] == s[j + 1..];
  }

  /** The intended rule keeps the occupancy invariant too. */
  lemma PlacedIntendedKeepsOccupancy(es: seq<Entry>, inst: CellInstance, pos: Vector2D)
    requires OneBlockerPerPosition(es)
    ensures OneBlockerPerPosition(PlacedIntended(es, inst, pos))
  {
    var placed := Entry(inst, pos);
    var rest := if inst.cell.isReference then es else Without(es, inst);
    if !inst.cell.isReference {
      WithoutKeepsOccupancy(es, inst);
    }
    var blocker := BlockerIndex(rest, pos);
    if blocker.Some? && !inst.cell.isFloating {
      ReplaceKeepsOccupancy(rest, blocker.value, placed);
    } else {
      AppendKeepsOccupancy(rest, placed);
    }
  }

  /**
   * The cells drawn by `startSimulation`: the i-th of the `width * height`
   * cells sits at `(i % width, floor(i / width))`. Every cell is inside the
   * grid, no two coincide, and every position of the grid is drawn.
   */
  method Layout(width: nat, height: nat) returns (cells: seq<Vector2D>)
    ensures |cells| == width * height
    ensures forall i :: 0 <= i < |cells| ==> InBounds(cells[i], width, height)
    ensures forall i, j :: 0 <= i < j < |cells| ==> cells[i] != cells[j]
    ensures forall p :: InBounds(p, width, height) ==> p in cells
  {
    cells := [];
    for i := 0 to width * height
      invariant |cells| == i
      invariant forall k :: 0 <= k < i ==> width > 0 && cells[k] == IndexToPosition(k, width)
      invariant forall k :: 0 <= k < i ==> InBounds(cells[k], width, height)
    {
      IndexInBounds(i, width, height);
      cells := cells + [IndexToPosition(i, width)];
    }
    forall i, j | 0 <= i < j < |cells| ensures cells[i] != cells[j] {
      IndexToPositionInjective(i, j, width);
    }
    forall p | InBounds(p, width, height) ensures p in cells {
      PositionIndexRoundTrip(p, width);
      PositionIndexInRange(p, width, height);
      assert cells[PositionToIndex(p, width)] == p;
    }
  }
}
