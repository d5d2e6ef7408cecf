/**
 * The grid's occupancy list and the read-only queries over it: the `find`,
 * `filter`, `map` and `indexOf` expressions of script.ts, as functions over
 * the sequence of entries.
 */
module GridQueries {
  import opened Wrappers
  import opened Vectors
  import opened Cells

  /** `CellEntry`: one placement of an instance at a position. */
  datatype Entry = Entry(cell: CellInstance, position: Vector2D)

  /** The two queries that fail fast on the wrong kind of blueprint. */
  datatype GridError = ReferenceHasManyPositions | NotAReference

  /** An entry blocks its position unless its blueprint is floating. */
  predicate Blocking(e: Entry)
  {
    !e.cell.cell.isFloating
  }

  /** `indexOf`: the first index holding `e`, or -1. */
  function IndexOf(s: seq<Entry>, e: Entry): (r: int)
    ensures -1 <= r < |s|
    ensures r == -1 <==> e !in s
    ensures r >= 0 ==> s[r] == e && forall j :: 0 <= j < r ==> s[j] != e
  {
    if s == [] then -1
    else if s[0] == e then 0
    else
      var k := IndexOf(s[1..], e);
      if k == -1 then -1 else k + 1
  }

  /** `entriesAtPos`: the entries at `pos`, in list order. */
  function EntriesAt(s: seq<Entry>, pos: Vector2D): (r: seq<Entry>)
    ensures |r| <= |s|
    ensures forall e <- r :: e in s && e.position == pos
    ensures forall e <- s :: e.position == pos ==> e in r
  {
    if s == [] then []
    else (if Equal(s[0].position, pos) then [s[0]] else []) + EntriesAt(s[1..], pos)
  }

  /** `find(ent => !ent.cell.cell.isFloating)`: the first blocking entry. */
  function FindBlocking(s: seq<Entry>): (r: Option<Entry>)
    ensures r.None? <==> forall e <- s :: !Blocking(e)
    ensures r.Some? ==> r.value in s && Blocking(r.value)
    ensures r.Some? ==> forall j :: 0 <= j < IndexOf(s, r.value) ==> !Blocking(s[j])
  {
    if s == [] then None
    else if Blocking(s[0]) then Some(s[0])
    else FindBlocking(s[1..])
  }

  /** `find(ent => ent.cell === cell)`: the first entry of an instance. */
  function FindInstance(s: seq<Entry>, inst: CellInstance): (r: Option<Entry>)
    ensures r.None? <==> forall e <- s :: e.cell != inst
    ensures r.Some? ==> r.value in s && r.value.cell == inst
    ensures r.Some? ==> forall j :: 0 <= j < IndexOf(s, r.value) ==> s[j].cell != inst
  {
    if s == [] then None
    else if s[0].cell == inst then Some(s[0])
    else FindInstance(s[1..], inst)
  }

  /** `filter(ent => ent.cell === cell).map(ent => ent.position)` */
  function PositionsOf(s: seq<Entry>, inst: CellInstance): (r: seq<Vector2D>)
    ensures |r| <= |s|
    ensures forall p :: p in r <==> Entry(inst, p) in s
  {
    if s == [] then []
    else (if s[0].cell == inst then [s[0].position] else []) + PositionsOf(s[1..], inst)
  }

  /**
   * `getPosition`: fails on a reference blueprint; otherwise the position of
   * the instance's first entry, or none when it is not placed.
   */
  function GetPosition(s: seq<Entry>, inst: CellInstance): (r: Result<Option<Vector2D>, GridError>)
    ensures r.Failure? <==> inst.cell.isReference
    ensures r.Success? ==> (r.value.None? <==> forall e <- s :: e.cell != inst)
    ensures r.Success? && r.value.Some? ==> Entry(inst, r.value.value) in s
  {
    if inst.cell.isReference then Failure(ReferenceHasManyPositions)
    else
      match FindInstance(s, inst)
      case Some(member) => Success(Some(member.position))
      case None => Success(None)
  }

  /** `getPositions`: fails on a non-reference blueprint; otherwise every position of the instance. */
  function GetPositions(s: seq<Entry>, inst: CellInstance): (r: Result<seq<Vector2D>, GridError>)
    ensures r.Failure? <==> !inst.cell.isReference
    ensures r.Success? ==> forall p :: p in r.value <==> Entry(inst, p) in s
  {
    if !inst.cell.isReference then Failure(NotAReference)
    else Success(PositionsOf(s, inst))
  }

  /** Index of the first entry that blocks `pos`. */
  function BlockerIndex(s: seq<Entry>, pos: Vector2D): (r: Option<nat>)
    ensures r.Some? ==> r.value < |s| && s[r.value].position == pos && Blocking(s[r.value])
    ensures r.Some? ==> forall j :: 0 <= j < r.value ==> !(s[j].position == pos && Blocking(s[j]))
    ensures r.None? ==> forall j :: 0 <= j < |s| ==> !(s[j].position == pos && Blocking(s[j]))
  {
    if s == [] then None
    else if s[0].position == pos && Blocking(s[0]) then Some(0)
    else
      match BlockerIndex(s[1..], pos)
      case Some(k) => Some(k + 1)
      case None => None
  }

  /** Index of the first entry of an instance. */
  function FirstIndexOf(s: seq<Entry>, inst: CellInstance): (r: Option<nat>)
    ensures r.Some? ==> r.value < |s| && s[r.value].cell == inst
    ensures r.Some? ==> forall j :: 0 <= j < r.value ==> s[j].cell != inst
    ensures r.None? ==> forall j :: 0 <= j < |s| ==> s[j].cell != inst
  {
    if s == [] then None
    else if s[0].cell == inst then Some(0)
    else
      match FirstIndexOf(s[1..], inst)
      case Some(k) => Some(k + 1)
      case None => None
  }

  /**
   * Finding the first blocking entry among the entries at `pos` and looking
   * it up with `indexOf` lands on the first entry of the whole list that
   * blocks `pos`.
   */
  lemma {:induction false} BlockerFound(s: seq<Entry>, pos: Vector2D)
    ensures FindBlocking(EntriesAt(s, pos)).None? <==> BlockerIndex(s, pos).None?
    ensures FindBlocking(EntriesAt(s, pos)).Some? ==>
              IndexOf(s, FindBlocking(EntriesAt(s, pos)).value) == BlockerIndex(s, pos).value
  {
    if s != [] {
      BlockerFound(s[1..], pos);
      var found := FindBlocking(EntriesAt(s, pos));
      if s[0].position == pos {
        assert EntriesAt(s, pos) == [s[0]] + EntriesAt(s[1..], pos);
        if !Blocking(s[0]) && found.Some? {
          assert found == FindBlocking(EntriesAt(s[1..], pos));
        }
      } else {
        assert EntriesAt(s, pos) == EntriesAt(s[1..], pos);
      }
    }
  }

  /** `find` followed by `indexOf` for an instance gives its first index. */
  lemma {:induction false} InstanceFound(s: seq<Entry>, inst: CellInstance)
    ensures FindInstance(s, inst).None? <==> FirstIndexOf(s, inst).None?
    ensures FindInstance(s, inst).Some? ==>
              IndexOf(s, FindInstance(s, inst).value) == FirstIndexOf(s, inst).value
  {
    if s != [] {
      InstanceFound(s[1..], inst);
    }
  }

  /** Positions of a concatenation are the concatenation of positions. */
  lemma {:induction false} PositionsOfAppend(a: seq<Entry>, b: seq<Entry>, inst: CellInstance)
    ensures PositionsOf(a + b, inst) == PositionsOf(a, inst) + PositionsOf(b, inst)
  {
    if a == [] {
      assert a + b == b;
    } else {
      assert (a + b)[1..] == a[1..] + b;
      PositionsOfAppend(a[1..], b, inst);
    }
  }

  /**
   * `entriesAtPos` keeps list order: the entries at `pos` of a concatenation
   * are those of the first part followed by those of the second.
   */
  lemma {:induction false} EntriesAtAppend(a: seq<Entry>, b: seq<Entry>, pos: Vector2D)
    ensures EntriesAt(a + b, pos) == EntriesAt(a, pos) + EntriesAt(b, pos)
  {
    if a == [] {
      assert a + b == b;
    } else {
      var x, t := a[0], a[1..];
      var head := if x.position == pos then [x] else [];
      calc {
        EntriesAt(a + b, pos);
        { assert a + b == [x] + (t + b); }
        EntriesAt([x] + (t + b), pos);
        { EntriesAtCons(x, t + b, pos); }
        head + EntriesAt(t + b, pos);
        { EntriesAtAppend(t, b, pos); }
        head + (EntriesAt(t, pos) + EntriesAt(b, pos));
        (head + EntriesAt(t, pos)) + EntriesAt(b, pos);
        { assert a == [x] + t; EntriesAtCons(x, t, pos); }
        EntriesAt(a, pos) + EntriesAt(b, pos);
      }
    }
  }

  /** The entries at `pos` of a list with one more entry at the front. */
  lemma EntriesAtCons(x: Entry, s: seq<Entry>, pos: Vector2D)
    ensures EntriesAt([x] + s, pos) == (if x.position == pos then [x] else []) + EntriesAt(s, pos)
  {
    assert ([x] + s)[1..] == s;
  }

  /** An instance without entries has no positions. */
  lemma {:induction false} PositionsOfAbsent(s: seq<Entry>, inst: CellInstance)
    requires forall e <- s :: e.cell != inst
    ensures PositionsOf(s, inst) == []
  {
    if s != [] {
      PositionsOfAbsent(s[1..], inst);
    }
  }

  /**
   * `getPosition` of a non-reference instance is the first of the positions
   * that `getPositions` would list.
   */
  lemma {:induction false} GetPositionIsFirst(s: seq<Entry>, inst: CellInstance)
    requires !inst.cell.isReference
    ensures GetPosition(s, inst) ==
              Success(if PositionsOf(s, inst) == [] then None else Some(PositionsOf(s, inst)[0]))
  {
    if s != [] && s[0].cell != inst {
      GetPositionIsFirst(s[1..], inst);
    }
  }
}
