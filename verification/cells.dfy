/**
 * Blueprints (`Cell`), their placement units (`CellInstance`) and the registry
 * of all blueprints (`AllCellClasses`), passed around explicitly instead of
 * being a process-wide singleton.
 */
module Cells {

  /** A change listener, known only by its identity. */
  type ListenerId = nat

  predicate NoDuplicates(s: seq<ListenerId>)
  {
    forall i, j :: 0 <= i < j < |s| ==> s[i] != s[j]
  }

  /** How many times `f` occurs in `s`. */
  function Occurrences(s: seq<ListenerId>, f: ListenerId): (r: nat)
    ensures r <= |s|
  {
    if s == [] then 0 else (if s[0] == f then 1 else 0) + Occurrences(s[1..], f)
  }

  /** In a list without duplicates every member occurs exactly once. */
  lemma {:induction false} OccursOnce(s: seq<ListenerId>, f: ListenerId)
    requires NoDuplicates(s)
    ensures Occurrences(s, f) == (if f in s then 1 else 0)
  {
    if s != [] {
      assert NoDuplicates(s[1..]) by {
        forall i, j | 0 <= i < j < |s[1..]| ensures s[1..][i] != s[1..][j] {
          assert s[1..][i] == s[i + 1] && s[1..][j] == s[j + 1];
        }
      }
      OccursOnce(s[1..], f);
      if s[0] == f {
        assert f !in s[1..] by {
          forall k | 0 <= k < |s[1..]| ensures s[1..][k] != f {
            assert s[1..][k] == s[k + 1];
          }
        }
      } else {
        assert f in s <==> f in s[1..] by {
          assert s == [s[0]] + s[1..];
        }
      }
    }
  }

  /**
   * A blueprint: a named, iconed template. The flags are fixed when it is
   * created; name and icon change through the setters, which notify listeners.
   * `notified` records, in order, every listener invocation made by this cell.
   */
  class Cell {
    var name: string
    var icon: string
    const isReference: bool  // may be placed at several positions at once
    const isFloating: bool   // may overlap other entries and never blocks
    var listeners: seq<ListenerId>
    var notified: seq<ListenerId>

    /** Listeners are tracked at most once each. */
    ghost predicate Valid()
      reads this
    {
      NoDuplicates(listeners)
    }

    constructor (name: string, icon: string, isReference: bool, isFloating: bool)
      ensures this.name == name && this.icon == icon
      ensures this.isReference == isReference && this.isFloating == isFloating
      ensures listeners == [] && notified == []
      ensures Valid()
    {
      this.name := name;
      this.icon := icon;
      this.isReference := isReference;
      this.isFloating := isFloating;
      listeners := [];
      notified := [];
    }

    /** `callChanges`: invokes every tracked listener once, in tracking order. */
    method CallChanges()
      modifies this`notified
      ensures notified == old(notified) + listeners
    {
      for k := 0 to |listeners|
        invariant notified == old(notified) + listeners[..k]
      {
        notified := notified + [listeners[k]];
      }
    }

    /**
     * The `name` setter: a name that any registered cell already holds (this
     * cell's own current name included) is refused silently; any other name
     * is stored and the listeners are notified.
     */
    method SetName(registry: Registry, str: string)
      modifies this`name, this`notified
      ensures old(registry.HasName(str)) ==> name == old(name) && notified == old(notified)
      ensures !old(registry.HasName(str)) ==> name == str && notified == old(notified) + listeners
      ensures old(registry.NamesDistinct()) ==> registry.NamesDistinct()
    {
      if registry.HasName(str) {
        return;
      }
      name := str;
      CallChanges();
    }

    /** The `icon` setter: always stores the icon and notifies the listeners. */
    method SetIcon(str: string)
      modifies this`icon, this`notified
      ensures icon == str
      ensures notified == old(notified) + listeners
    {
      icon := str;
      CallChanges();
    }

    /** `trackChanges`: adds a listener unless it is already tracked. */
    method TrackChanges(f: ListenerId)
      modifies this`listeners
      ensures listeners == if f in old(listeners) then old(listeners) else old(listeners) + [f]
      ensures old(Valid()) ==> Valid()
    {
      if f in listeners {
        return;
      }
      listeners := listeners + [f];
    }
  }

  /** A placement unit: a shared, never reassigned reference to its blueprint. */
  class CellInstance {
    const cell: Cell

    constructor (cell: Cell)
      ensures this.cell == cell
    {
      this.cell := cell;
    }
  }

  /** The set of names held by the cells of `cs`. */
  ghost function NameSet(cs: seq<Cell>): set<string>
    reads cs
  {
    set c | c in cs :: c.name
  }

  /** There are no more names than cells. */
  lemma {:induction false} NameSetBound(cs: seq<Cell>)
    ensures |NameSet(cs)| <= |cs|
  {
    if cs != [] {
      var init := cs[..|cs| - 1];
      NameSetBound(init);
      assert NameSet(cs) == NameSet(init) + {cs[|cs| - 1].name} by {
        assert cs == init + [cs[|cs| - 1]];
      }
    }
  }

  /** The cells of `cs` have pairwise distinct names. */
  ghost predicate DistinctNames(cs: seq<Cell>)
    reads cs
  {
    forall i, j :: 0 <= i < j < |cs| ==> cs[i].name != cs[j].name
  }

  /** Appending a cell whose name is not yet held keeps names distinct. */
  lemma AppendFreshName(cs: seq<Cell>, c: Cell)
    requires DistinctNames(cs) && c.name !in NameSet(cs)
    ensures DistinctNames(cs + [c])
  {
    var t := cs + [c];
    forall i, j | 0 <= i < j < |t| ensures t[i].name != t[j].name {
      assert t[i] == cs[i] && t[i] in cs;
    }
  }

  /** `AllCellClasses`: the registered blueprints, in registration order. */
  class Registry {
    var cells: seq<Cell>

    constructor ()
      ensures cells == []
    {
      cells := [];
    }

    /** `cells.some(val => val.name === str)` */
    predicate HasName(str: string)
      reads this, cells
      ensures HasName(str) <==> str in NameSet(cells)
    {
      exists c <- cells :: c.name == str
    }

    /** Registered names are pairwise distinct. */
    ghost predicate NamesDistinct()
      reads this, cells
    {
      DistinctNames(cells)
    }

    /**
     * `addCell`: refuses a cell that is already registered or whose name is
     * taken, otherwise appends it. Since a registered cell's own name is
     * taken, the outcome depends on the name alone.
     */
    method AddCell(cell: Cell) returns (added: bool)
      modifies this`cells
      ensures added <==> !old(HasName(cell.name))
      ensures cells == if added then old(cells) + [cell] else old(cells)
      ensures old(NamesDistinct()) ==> NamesDistinct()
    {
      if cell in cells {
        return false;
      }
      if HasName(cell.name) {
        return false;
      }
      if DistinctNames(cells) {
        AppendFreshName(cells, cell);
      }
      cells := cells + [cell];
      return true;
    }
  }
}
