/**
 * The editing rules of the UML designer: the "+" and "×" buttons of a
 * class node's attribute and method lists, the rules that keep use cases
 * inside a system group, and the small connection ports of a class node.
 * GoJS parts and their model data are merged into one object; member
 * entries are objects whose identity is what `===` compares.
 */
module Designer {
  import opened Wrappers

  /** One row of a member list, `{ text }`. */
  class Entry {
    var text: string

    constructor (text: string)
      ensures this.text == text
    {
      this.text := text;
    }
  }

  const NewAttributeText := "+ nuevoAtributo: tipo"
  const NewMethodText := "+ nuevoMetodo(): tipo"
  const UseCaseCategory := "CasoUso"
  const SmallPortFill := "rgba(0,0,0,.3)"

  /** A diagram part together with its node data. */
  class Part {
    const key: string
    const category: string
    /** The part is a node (groups included) rather than a link. */
    const isNode: bool
    /** `atributos` and `metodos`; null where the data has none. */
    var atributos: array?<Entry>
    var metodos: array?<Entry>
    /** `group`: the key of the containing group, if any. */
    var group: Option<string>

    constructor (key: string, category: string, isNode: bool, atributos: array?<Entry>, metodos: array?<Entry>, group: Option<string>)
      ensures this.key == key && this.category == category && this.isNode == isNode
      ensures this.atributos == atributos && this.metodos == metodos && this.group == group
    {
      this.key := key;
      this.category := category;
      this.isNode := isNode;
      this.atributos := atributos;
      this.metodos := metodos;
      this.group := group;
    }
  }

  /** A member list as a sequence; an absent list reads as `[]`. */
  function Items(a: array?<Entry>): seq<Entry>
    reads a
  {
    if a == null then [] else a[..]
  }

  // ---------------------------------------------------------------------
  // Member lists: findIndex and splice
  // ---------------------------------------------------------------------

  /** `findIndex(e => e === x)`: the first position holding `x`, or -1. */
  function FirstIndex(s: seq<Entry>, x: Entry): (r: int)
    ensures -1 <= r < |s|
    ensures r == -1 <==> x !in s
    ensures r >= 0 ==> s[r] == x && x !in s[..r]
  {
    if s == [] then -1
    else if s[0] == x then 0
    else
      var r := FirstIndex(s[1..], x);
      assert s == [s[0]] + s[1..];
      if r == -1 then -1
      else
        assert s[..r + 1] == [s[0]] + s[1..][..r];
        r + 1
  }

  /** A position holding `x` with no `x` before it is the first index. */
  lemma FirstIndexIs(s: seq<Entry>, x: Entry, i: nat)
    requires i < |s| && s[i] == x && x !in s[..i]
    ensures FirstIndex(s, x) == i
  {
    var r := FirstIndex(s, x);
    assert forall j :: 0 <= j < i ==> s[..i][j] == s[j];
    assert forall j :: 0 <= j < r ==> s[..r][j] == s[j];
  }

  /** The list after the click on `x`'s "×": the first `x` spliced out. */
  function RemoveFirst(s: seq<Entry>, x: Entry): seq<Entry> {
    var i := FirstIndex(s, x);
    if i < 0 then s else s[..i] + s[i + 1..]
  }

  /**
   * Removal takes out exactly one occurrence of the clicked entry when it
   * is present, and leaves the list as it was otherwise.
   */
  lemma RemoveFirstCount(s: seq<Entry>, x: Entry)
    ensures x !in s ==> RemoveFirst(s, x) == s
    ensures x in s ==> |RemoveFirst(s, x)| == |s| - 1
    ensures x in s ==> multiset(RemoveFirst(s, x)) == multiset(s) - multiset{x}
  {
    var i := FirstIndex(s, x);
    if i >= 0 {
      assert s == s[..i] + [x] + s[i + 1..];
      calc {
        multiset(s);
        multiset(s[..i]) + multiset{x} + multiset(s[i + 1..]);
        multiset(RemoveFirst(s, x)) + multiset{x};
      }
    }
  }

  /**
   * The entries before the removed one keep their places and the ones
   * after it move up by one.
   */
  lemma RemoveFirstOrder(s: seq<Entry>, x: Entry)
    requires x in s
    ensures var i := FirstIndex(s, x); var r := RemoveFirst(s, x);
      && (forall k :: 0 <= k < i ==> r[k] == s[k])
      && (forall k :: i <= k < |r| ==> r[k] == s[k + 1])
      && x !in r[..i]
  {
  }

  /** Removing an entry that was just appended restores the list. */
  lemma {:induction false} AddThenRemove(s: seq<Entry>, e: Entry)
    requires e !in s
    ensures RemoveFirst(s + [e], e) == s
  {
    FirstIndexIs(s + [e], e, |s|);
    assert (s + [e])[..|s|] == s;
  }

  /** `findIndex` over a member list. */
  method FindIndex(a: array<Entry>, x: Entry) returns (idx: int)
    ensures idx == FirstIndex(a[..], x)
  {
    idx := 0;
    while idx < a.Length
      invariant 0 <= idx <= a.Length
      invariant x !in a[..idx]
    {
      if a[idx] == x {
        FirstIndexIs(a[..], x, idx);
        return;
      }
      assert a[..idx + 1] == a[..idx] + [a[idx]];
      idx := idx + 1;
    }
    assert a[..] == a[..idx];
    idx := -1;
  }

  /** `[...(a || [])]` followed by `push(e)`: a new array. */
  method AppendedCopy(a: array?<Entry>, e: Entry) returns (b: array<Entry>)
    ensures fresh(b)
    ensures b[..] == Items(a) + [e]
  {
    if a == null {
      b := new Entry[1](_ => e);
    } else {
      b := new Entry[a.Length + 1](k reads a requires 0 <= k < a.Length + 1 => if k < a.Length then a[k] else e);
    }
  }

  /** `[...a]` followed by `splice(i, 1)`: a new array. */
  method SplicedCopy(a: array<Entry>, i: nat) returns (b: array<Entry>)
    requires i < a.Length
    ensures fresh(b)
    ensures b[..] == a[..i] + a[i + 1..]
  {
    b := new Entry[a.Length - 1](k reads a requires 0 <= k < a.Length - 1 => if k < i then a[k] else a[k + 1]);
  }

  /**
   * The list a "×" click leaves: a spliced copy when the clicked entry is
   * found, the same array otherwise. Spreading an absent list throws
   * before anything changes, which the same array also stands for.
   */
  method WithoutFirst(a: array?<Entry>, clicked: Entry) returns (b: array?<Entry>)
    ensures clicked in Items(a) ==> b != null && fresh(b) && b[..] == RemoveFirst(Items(a), clicked)
    ensures clicked !in Items(a) ==> b == a
  {
    b := a;
    if a != null {
      var idx := FindIndex(a, clicked);
      if idx >= 0 {
        b := SplicedCopy(a, idx);
      }
    }
  }

  // ---------------------------------------------------------------------
  // Click handlers
  // ---------------------------------------------------------------------

  /**
   * "+" of the attribute list: a fresh list with the old entries, in
   * order, and one new default entry at the end. The old array is not
   * touched; nothing happens without a node.
   */
  method AddAttribute(node: Part?)
    modifies node
    ensures node != null ==>
      && node.atributos != null && fresh(node.atributos)
      && node.atributos.Length == |old(Items(node.atributos))| + 1
      && node.atributos[..node.atributos.Length - 1] == old(Items(node.atributos))
      && fresh(node.atributos[node.atributos.Length - 1])
      && node.atributos[node.atributos.Length - 1].text == NewAttributeText
    ensures node != null ==> node.metodos == old(node.metodos) && node.group == old(node.group)
    ensures node != null && old(node.atributos) != null ==> unchanged(old(node.atributos))
  {
    if node != null {
      var attr := new Entry(NewAttributeText);
      var atributos := AppendedCopy(node.atributos, attr);
      node.atributos := atributos;
    }
  }

  /** "+" of the method list, the same rule on `metodos`. */
  method AddMethod(node: Part?)
    modifies node
    ensures node != null ==>
      && node.metodos != null && fresh(node.metodos)
      && node.metodos.Length == |old(Items(node.metodos))| + 1
      && node.metodos[..node.metodos.Length - 1] == old(Items(node.metodos))
      && fresh(node.metodos[node.metodos.Length - 1])
      && node.metodos[node.metodos.Length - 1].text == NewMethodText
    ensures node != null ==> node.atributos == old(node.atributos) && node.group == old(node.group)
    ensures node != null && old(node.metodos) != null ==> unchanged(old(node.metodos))
  {
    if node != null {
      var entry := new Entry(NewMethodText);
      var metodos := AppendedCopy(node.metodos, entry);
      node.metodos := metodos;
    }
  }

  /**
   * "×" of an attribute row: when the clicked entry is in the list, a
   * fresh list without its first occurrence replaces the old one; when it
   * is not (or the list is absent, where the copy throws), the node is
   * left alone.
   */
  method RemoveAttribute(node: Part?, clicked: Entry)
    modifies node
    ensures node != null && clicked in old(Items(node.atributos)) ==>
      node.atributos != null && fresh(node.atributos)
      && node.atributos[..] == RemoveFirst(old(Items(node.atributos)), clicked)
    ensures node != null && clicked !in old(Items(node.atributos)) ==> node.atributos == old(node.atributos)
    ensures node != null ==> node.metodos == old(node.metodos) && node.group == old(node.group)
    ensures node != null && old(node.atributos) != null ==> unchanged(old(node.atributos))
  {
    if node != null {
      var atributos := WithoutFirst(node.atributos, clicked);
      node.atributos := atributos;
    }
  }

  /** "×" of a method row, the same rule on `metodos`. */
  method RemoveMethod(node: Part?, clicked: Entry)
    modifies node
    ensures node != null && clicked in old(Items(node.metodos)) ==>
      node.metodos != null && fresh(node.metodos)
      && node.metodos[..] == RemoveFirst(old(Items(node.metodos)), clicked)
    ensures node != null && clicked !in old(Items(node.metodos)) ==> node.metodos == old(node.metodos)
    ensures node != null ==> node.atributos == old(node.atributos) && node.group == old(node.group)
    ensures node != null && old(node.metodos) != null ==> unchanged(old(node.metodos))
  {
    if node != null {
      var metodos := WithoutFirst(node.metodos, clicked);
      node.metodos := metodos;
    }
  }

  // ---------------------------------------------------------------------
  // Use cases and systems
  // ---------------------------------------------------------------------

  /** The system group's `memberValidation`: only use cases may join. */
  predicate MemberValidation(node: Part) {
    node.category == UseCaseCategory
  }

  /** A use-case node that ended up outside every group. */
  predicate Orphan(p: Part)
    reads p
  {
    p.isNode && p.category == UseCaseCategory && p.group.None?
  }

  class Diagram {
    /** The parts in the diagram. */
    var parts: set<Part>
    /** `diagram.selection`. */
    var selection: seq<Part>
    /** The current tool's `doingDragSelecting`. */
    var doingDragSelecting: bool

    /** A diagram on a new, empty model. */
    constructor ()
      ensures parts == {} && selection == [] && !doingDragSelecting
    {
      parts := {};
      selection := [];
      doingDragSelecting := false;
    }

    /**
     * `mouseDrop` of a system group: unless a drag-selection is under way,
     * every selected node that passes memberValidation gets the group's
     * key as its group; every other selected part keeps its group.
     */
    method MouseDrop(grp: Part) returns (handled: bool)
      modifies set p | p in selection
      ensures handled == !doingDragSelecting
      ensures forall p :: p in selection ==>
        p.group == (if handled && p.isNode && MemberValidation(p) then Some(grp.key) else old(p.group))
      ensures forall p :: p in selection ==> p.atributos == old(p.atributos) && p.metodos == old(p.metodos)
    {
      handled := !doingDragSelecting;
      if !handled {
        return;
      }
      var i := 0;
      while i < |selection|
        invariant 0 <= i <= |selection|
        invariant forall p :: p in selection[..i] ==>
          p.group == (if p.isNode && MemberValidation(p) then Some(grp.key) else old(p.group))
        invariant forall p :: p in selection && p !in selection[..i] ==> p.group == old(p.group)
        invariant forall p :: p in selection ==> p.atributos == old(p.atributos) && p.metodos == old(p.metodos)
      {
        var part := selection[i];
        if part.isNode && MemberValidation(part) {
          part.group := Some(grp.key);
        }
        assert selection[..i + 1] == selection[..i] + [part];
        i := i + 1;
      }
      assert selection[..i] == selection;
    }

    /**
     * The `ExternalObjectsDropped` listener: every dropped use-case node
     * outside any group is removed from the diagram; all other dropped
     * parts stay.
     */
    method ExternalObjectsDropped(dropped: seq<Part>)
      modifies this
      ensures parts == old(parts) - set p | p in dropped && Orphan(p)
      ensures selection == old(selection) && doingDragSelecting == old(doingDragSelecting)
    {
      var i := 0;
      while i < |dropped|
        invariant 0 <= i <= |dropped|
        invariant parts == old(parts) - set p | p in dropped[..i] && Orphan(p)
        invariant selection == old(selection) && doingDragSelecting == old(doingDragSelecting)
      {
        var part := dropped[i];
        if part.isNode && part.category == UseCaseCategory && part.group.None? {
          parts := parts - {part};
        }
        assert dropped[..i + 1] == dropped[..i] + [part];
        i := i + 1;
      }
      assert dropped[..i] == dropped;
    }
  }

  // ---------------------------------------------------------------------
  // Ports
  // ---------------------------------------------------------------------

  datatype Spot = Top | Left | Right | Bottom

  /** A connection port of a class node: a small circle at one side. */
  class Port {
    const portId: string
    const alignment: Spot
    const alignmentFocus: Spot
    const fromSpot: Spot
    const toSpot: Spot
    const fromLinkable: bool
    const toLinkable: bool
    /** The circle's fill; None is transparent. */
    var fill: Option<string>

    /** `makePort`: links leave and enter at the port's own side. */
    constructor MakePort(name: string, spot: Spot, output: bool, input: bool)
      ensures portId == name
      ensures alignment == spot && alignmentFocus == spot && fromSpot == spot && toSpot == spot
      ensures fromLinkable == output && toLinkable == input
      ensures fill == None
    {
      portId := name;
      alignment := spot;
      alignmentFocus := spot;
      fromSpot := spot;
      toSpot := spot;
      fromLinkable := output;
      toLinkable := input;
      fill := None;
    }
  }

  /** The four ports of the class-node template, each usable both ways. */
  method ClassNodePorts() returns (ports: seq<Port>)
    ensures |ports| == 4
    ensures ports[0].portId == "T" && ports[0].alignment == Top
    ensures ports[1].portId == "L" && ports[1].alignment == Left
    ensures ports[2].portId == "R" && ports[2].alignment == Right
    ensures ports[3].portId == "B" && ports[3].alignment == Bottom
    ensures forall k :: 0 <= k < 4 ==> fresh(ports[k]) && ports[k].portId != ""
    ensures forall k :: 0 <= k < 4 ==> ports[k].fromLinkable && ports[k].toLinkable && ports[k].fill == None
    ensures forall k :: 0 <= k < 4 ==>
      ports[k].fromSpot == ports[k].alignment && ports[k].toSpot == ports[k].alignment && ports[k].alignmentFocus == ports[k].alignment
  {
    var top := new Port.MakePort("T", Top, true, true);
    var left := new Port.MakePort("L", Left, true, true);
    var right := new Port.MakePort("R", Right, true, true);
    var bottom := new Port.MakePort("B", Bottom, true, true);
    ports := [top, left, right, bottom];
  }

  /**
   * `showSmallPorts`: the named ports turn grey while shown and
   * transparent otherwise; the default port (empty id) is never touched.
   */
  method ShowSmallPorts(ports: seq<Port>, show: bool)
    modifies set p | p in ports
    ensures forall p :: p in ports ==>
      p.fill == (if p.portId != "" then (if show then Some(SmallPortFill) else None) else old(p.fill))
  {
    var i := 0;
    while i < |ports|
      invariant 0 <= i <= |ports|
      invariant forall p :: p in ports[..i] ==>
        p.fill == (if p.portId != "" then (if show then Some(SmallPortFill) else None) else old(p.fill))
      invariant forall p :: p in ports && p !in ports[..i] ==> p.fill == old(p.fill)
    {
      var port := ports[i];
      if port.portId != "" {
        port.fill := if show then Some(SmallPortFill) else None;
      }
      assert ports[..i + 1] == ports[..i] + [port];
      i := i + 1;
    }
    assert ports[..i] == ports;
  }
}
