/**
 * `shallowClone` and `deepClone` of `src/object/index.js`, on an explicit
 * heap. Objects live in the `nodes` of a `Heap`, indexed by reference; a
 * slot of an object holds either a value `typeof` does not call "object"
 * (or `null`) or a reference. The `WeakMap` `hash` of `deepClone` is a map
 * from source references to their clones.
 *
 * The references below `base` are the source objects: they are never
 * changed, and every reference they hold is below `base` too. The clones
 * are allocated from `base` on.
 */
module Objects {
  import opened Wrappers
  import opened Values
  import opened Calendar

  type Ref = nat

  /** A value that is not an object: what `typeof` reports as anything but "object", and `null`. */
  type Primitive = v: Value | !(v.Arr? || v.Obj? || v.DateVal? || v.Re?) witness Undefined

  datatype Slot = Plain(v: Primitive) | Ptr(r: Ref)

  /** An own enumerable property of a plain object. */
  datatype Prop = Prop(key: string, slot: Slot)

  /** The kinds of object `deepClone` tells apart. */
  datatype Node =
    | ArrayNode(items: seq<Slot>)
    | ObjectNode(props: seq<Prop>)
    | DateNode(time: Moment)
    | RegExpNode(source: string, flags: string)
    | SetNode(elems: seq<Slot>)
    | MapNode(entries: seq<(Slot, Slot)>)

  /** Arrays and plain objects: the objects copied key by key and recorded in the table. */
  predicate IsContainer(n: Node)
  {
    n.ArrayNode? || n.ObjectNode?
  }

  predicate SameKind(a: Node, b: Node)
  {
    (a.ArrayNode? && b.ArrayNode?) || (a.ObjectNode? && b.ObjectNode?)
  }

  /** The number of own entries of a container. */
  function Size(n: Node): nat
  {
    match n
    case ArrayNode(items) => |items|
    case ObjectNode(props) => |props|
    case _ => 0
  }

  /** The slot of entry `i` of a container. */
  function ChildSlot(n: Node, i: nat): Slot
    requires IsContainer(n) && i < Size(n)
  {
    if n.ArrayNode? then n.items[i] else n.props[i].slot
  }

  function MapKeys(entries: seq<(Slot, Slot)>): seq<Slot>
  {
    seq(|entries|, j requires 0 <= j < |entries| => entries[j].0)
  }

  function MapValues(entries: seq<(Slot, Slot)>): seq<Slot>
  {
    seq(|entries|, j requires 0 <= j < |entries| => entries[j].1)
  }

  /** Every slot of a node, keys of a `Map` included. */
  function AllSlots(n: Node): seq<Slot>
  {
    match n
    case ArrayNode(items) => items
    case ObjectNode(props) => seq(|props|, j requires 0 <= j < |props| => props[j].slot)
    case SetNode(elems) => elems
    case MapNode(entries) => MapKeys(entries) + MapValues(entries)
    case _ => []
  }

  predicate RefsBelow(n: Node, bound: nat)
  {
    forall s :: s in AllSlots(n) && s.Ptr? ==> s.r < bound
  }

  /** A plain object has each key once. */
  predicate DistinctKeys(n: Node)
  {
    n.ObjectNode? ==> forall i, j :: 0 <= i < j < |n.props| ==> n.props[i].key != n.props[j].key
  }

  /** The source objects: below `base`, closed under references, with distinct keys. */
  predicate Source(nodes: seq<Node>, base: nat)
  {
    base <= |nodes| && forall i :: 0 <= i < base ==> RefsBelow(nodes[i], base) && DistinctKeys(nodes[i])
  }

  // -----------------------------------------------------------------------
  // The relation between a source and its clone

  /**
   * `dst` is the clone of `src`: a primitive is itself; a reference is a
   * new object, which for an array or plain object is the one the table
   * records, and for the other kinds a new instance of the same content.
   * A clone is never older than the clones it holds, which is what makes
   * the relation well founded.
   */
  predicate SlotCopied(src: Slot, dst: Slot, hash: map<Ref, Ref>, nodes: seq<Node>, base: nat)
    decreases if dst.Ptr? then dst.r + 1 else 0, 2
  {
    match src
    case Plain(_) => dst == src
    case Ptr(x) =>
      x < base <= |nodes| && dst.Ptr? && base <= dst.r < |nodes| &&
      if IsContainer(nodes[x]) then x in hash && hash[x] == dst.r
      else SpecialCopied(nodes[x], dst.r, hash, nodes, base)
  }

  /**
   * The object at `d` clones the source object `a`, which is not a
   * container: the same time, the same pattern and flags, the clone of
   * each element of a `Set`, each key of a `Map` with the clone of its value.
   */
  predicate SpecialCopied(a: Node, d: Ref, hash: map<Ref, Ref>, nodes: seq<Node>, base: nat)
    decreases d + 1, 1
  {
    d < |nodes| &&
    match a
    case DateNode(_) => nodes[d] == a
    case RegExpNode(_, _) => nodes[d] == a
    case SetNode(elems) => nodes[d].SetNode? && MembersCopied(elems, nodes[d].elems, d, hash, nodes, base)
    case MapNode(entries) =>
      nodes[d].MapNode? && MapKeys(nodes[d].entries) == MapKeys(entries)
      && MembersCopied(MapValues(entries), MapValues(nodes[d].entries), d, hash, nodes, base)
    case _ => false
  }

  /** The members `dsts` of the collection at `d` are older clones of the members `srcs`. */
  predicate MembersCopied(srcs: seq<Slot>, dsts: seq<Slot>, d: Ref, hash: map<Ref, Ref>, nodes: seq<Node>, base: nat)
    decreases d + 1, 0
  {
    |dsts| == |srcs| &&
    forall j :: 0 <= j < |dsts| ==> (dsts[j].Ptr? ==> dsts[j].r < d) && SlotCopied(srcs[j], dsts[j], hash, nodes, base)
  }

  /** Each of `dsts` is the clone of the source slot at its position. */
  predicate SlotsCopied(srcs: seq<Slot>, dsts: seq<Slot>, hash: map<Ref, Ref>, nodes: seq<Node>, base: nat)
  {
    |dsts| == |srcs| && forall j :: 0 <= j < |dsts| ==> SlotCopied(srcs[j], dsts[j], hash, nodes, base)
  }

  /** The first `i` entries of container `a` are copied into `b`, under the same keys. */
  predicate PartialCopied(a: Node, b: Node, i: nat, hash: map<Ref, Ref>, nodes: seq<Node>, base: nat)
  {
    match a
    case ArrayNode(items) =>
      b.ArrayNode? && i == |b.items| <= |items| &&
      forall j :: 0 <= j < i ==> SlotCopied(items[j], b.items[j], hash, nodes, base)
    case ObjectNode(props) =>
      b.ObjectNode? && i == |b.props| <= |props| &&
      forall j :: 0 <= j < i ==> b.props[j].key == props[j].key && SlotCopied(props[j].slot, b.props[j].slot, hash, nodes, base)
    case _ => false
  }

  /** Container `b` is a complete clone of container `a`. */
  predicate NodeCopied(a: Node, b: Node, hash: map<Ref, Ref>, nodes: seq<Node>, base: nat)
  {
    PartialCopied(a, b, Size(a), hash, nodes, base)
  }

  /** The table maps source containers to clones of the same kind. */
  predicate Table(hash: map<Ref, Ref>, nodes: seq<Node>, base: nat)
  {
    forall k :: k in hash ==> k < base <= hash[k] < |nodes| && k < |nodes| && SameKind(nodes[k], nodes[hash[k]])
  }

  /** `h2` keeps every entry of `h1`. */
  predicate Extends(h1: map<Ref, Ref>, h2: map<Ref, Ref>)
  {
    forall k :: k in h1 ==> k in h2 && h2[k] == h1[k]
  }

  /** Every entry of `h` that `h0` lacks points at or above `lo` to a complete clone. */
  predicate Completed(h0: map<Ref, Ref>, h: map<Ref, Ref>, nodes: seq<Node>, base: nat, lo: nat)
  {
    forall k :: k in h && k !in h0 ==> k < base <= |nodes| && lo <= h[k] < |nodes| && NodeCopied(nodes[k], nodes[h[k]], h, nodes, base)
  }

  /** From `n1` to `n2` the heap only grows, and only clone containers change, keeping their kind. */
  predicate Evolves(n1: seq<Node>, n2: seq<Node>, base: nat)
  {
    base <= |n1| <= |n2| &&
    forall i :: 0 <= i < |n1| ==> n2[i] == n1[i] || (base <= i && IsContainer(n1[i]) && SameKind(n1[i], n2[i]))
  }

  // -----------------------------------------------------------------------
  // Writing into a clone

  /** `copy[key] = value` on a plain object: a key already there is overwritten, a new key goes last. */
  function Put(props: seq<Prop>, key: string, slot: Slot): (r: seq<Prop>)
    ensures (forall j :: 0 <= j < |props| ==> props[j].key != key) ==> r == props + [Prop(key, slot)]
  {
    if props == [] then [Prop(key, slot)]
    else if props[0].key == key then [Prop(key, slot)] + props[1..]
    else [props[0]] + Put(props[1..], key, slot)
  }

  /** `copy[i] = value` on an array, where `i` is at most the length: past the end it grows by one. */
  function SetIndex(items: seq<Slot>, i: nat, slot: Slot): (r: seq<Slot>)
    requires i <= |items|
    ensures |r| == if i == |items| then i + 1 else |items|
    ensures r[i] == slot && forall j :: 0 <= j < |items| && j != i ==> r[j] == items[j]
  {
    if i == |items| then items + [slot] else items[i := slot]
  }

  /** The clone container `b` after `copy[key] = value` for entry `i` of the source `a`. */
  function Written(a: Node, b: Node, i: nat, slot: Slot): Node
    requires IsContainer(a) && i < Size(a) && SameKind(a, b)
    requires b.ArrayNode? ==> i <= |b.items|
  {
    if b.ArrayNode? then ArrayNode(SetIndex(b.items, i, slot)) else ObjectNode(Put(b.props, a.props[i].key, slot))
  }

  // -----------------------------------------------------------------------
  // Stability of the relation as cloning goes on

  lemma EvolvesByGrowth(n1: seq<Node>, n2: seq<Node>, base: nat)
    requires base <= |n1| && n1 <= n2
    ensures Evolves(n1, n2, base)
  {
  }

  lemma EvolvesTrans(n1: seq<Node>, n2: seq<Node>, n3: seq<Node>, base: nat)
    requires Evolves(n1, n2, base) && Evolves(n2, n3, base)
    ensures Evolves(n1, n3, base)
  {
  }

  /** A clone stays a clone while the table grows and only clone containers change. */
  lemma SlotStable(src: Slot, dst: Slot, h1: map<Ref, Ref>, n1: seq<Node>, h2: map<Ref, Ref>, n2: seq<Node>, base: nat)
    requires SlotCopied(src, dst, h1, n1, base)
    requires Extends(h1, h2) && Evolves(n1, n2, base)
    ensures SlotCopied(src, dst, h2, n2, base)
    decreases if dst.Ptr? then dst.r + 1 else 0, 1
  {
    if src.Ptr? && !IsContainer(n1[src.r]) {
      var a, d := n1[src.r], dst.r;
      assert n2[src.r] == a && n2[d] == n1[d];
      if a.SetNode? {
        MembersStable(a.elems, n1[d].elems, d, h1, n1, h2, n2, base);
      } else if a.MapNode? {
        MembersStable(MapValues(a.entries), MapValues(n1[d].entries), d, h1, n1, h2, n2, base);
      }
    }
  }

  lemma MembersStable(srcs: seq<Slot>, dsts: seq<Slot>, d: Ref, h1: map<Ref, Ref>, n1: seq<Node>, h2: map<Ref, Ref>, n2: seq<Node>, base: nat)
    requires MembersCopied(srcs, dsts, d, h1, n1, base)
    requires Extends(h1, h2) && Evolves(n1, n2, base)
    ensures MembersCopied(srcs, dsts, d, h2, n2, base)
    decreases d + 1, 0
  {
    forall j | 0 <= j < |dsts|
      ensures SlotCopied(srcs[j], dsts[j], h2, n2, base)
    {
      SlotStable(srcs[j], dsts[j], h1, n1, h2, n2, base);
    }
  }

  lemma PartialStable(a: Node, b: Node, i: nat, h1: map<Ref, Ref>, n1: seq<Node>, h2: map<Ref, Ref>, n2: seq<Node>, base: nat)
    requires PartialCopied(a, b, i, h1, n1, base)
    requires Extends(h1, h2) && Evolves(n1, n2, base)
    ensures PartialCopied(a, b, i, h2, n2, base)
  {
    if a.ArrayNode? {
      forall j | 0 <= j < i
        ensures SlotCopied(a.items[j], b.items[j], h2, n2, base)
      {
        SlotStable(a.items[j], b.items[j], h1, n1, h2, n2, base);
      }
    } else {
      forall j | 0 <= j < i
        ensures SlotCopied(a.props[j].slot, b.props[j].slot, h2, n2, base)
      {
        SlotStable(a.props[j].slot, b.props[j].slot, h1, n1, h2, n2, base);
      }
    }
  }

  lemma SlotsStable(srcs: seq<Slot>, dsts: seq<Slot>, h1: map<Ref, Ref>, n1: seq<Node>, h2: map<Ref, Ref>, n2: seq<Node>, base: nat)
    requires |dsts| <= |srcs|
    requires forall j :: 0 <= j < |dsts| ==> SlotCopied(srcs[j], dsts[j], h1, n1, base)
    requires Extends(h1, h2) && Evolves(n1, n2, base)
    ensures forall j :: 0 <= j < |dsts| ==> SlotCopied(srcs[j], dsts[j], h2, n2, base)
  {
    forall j | 0 <= j < |dsts|
      ensures SlotCopied(srcs[j], dsts[j], h2, n2, base)
    {
      SlotStable(srcs[j], dsts[j], h1, n1, h2, n2, base);
    }
  }

  lemma TableStable(h: map<Ref, Ref>, n1: seq<Node>, n2: seq<Node>, base: nat)
    requires Table(h, n1, base) && Evolves(n1, n2, base)
    ensures Table(h, n2, base)
  {
    forall k | k in h
      ensures SameKind(n2[k], n2[h[k]])
    {
      assert n2[k] == n1[k];
    }
  }

  /** Completed clones stay complete when later clones are added and only fresher containers change. */
  lemma CompletedStable(h0: map<Ref, Ref>, h1: map<Ref, Ref>, n1: seq<Node>, h2: map<Ref, Ref>, n2: seq<Node>, base: nat, lo: nat, hi: nat)
    requires Completed(h0, h1, n1, base, lo)
    requires Extends(h1, h2) && Evolves(n1, n2, base)
    requires forall i :: 0 <= i < |n1| && n2[i] != n1[i] ==> i < lo || hi <= i
    requires forall k :: k in h1 && k !in h0 ==> h1[k] < hi
    ensures forall k :: k in h1 && k !in h0 ==> h2[k] < |n2| && NodeCopied(n2[k], n2[h2[k]], h2, n2, base)
  {
    forall k | k in h1 && k !in h0
      ensures h2[k] < |n2| && NodeCopied(n2[k], n2[h2[k]], h2, n2, base)
    {
      assert n2[h1[k]] == n1[h1[k]];
      assert n2[k] == n1[k];
      PartialStable(n1[k], n1[h1[k]], Size(n1[k]), h1, n1, h2, n2, base);
    }
  }

  /** The clones a child call completed join those completed before it. */
  lemma CompletedAfterChild(h0: map<Ref, Ref>, h1: map<Ref, Ref>, n1: seq<Node>, h2: map<Ref, Ref>, n2: seq<Node>, base: nat, lo: nat)
    requires Completed(h0, h1, n1, base, lo) && Completed(h1, h2, n2, base, |n1|)
    requires Extends(h0, h1) && Extends(h1, h2) && base <= |n1| && n1 <= n2 && lo <= |n1|
    ensures Completed(h0, h2, n2, base, lo)
  {
    EvolvesByGrowth(n1, n2, base);
    CompletedStable(h0, h1, n1, h2, n2, base, lo, |n1|);
  }

  /** Writing into a clone container below `lo` leaves the completed clones as they were. */
  lemma CompletedAfterWrite(h0: map<Ref, Ref>, h: map<Ref, Ref>, n1: seq<Node>, n2: seq<Node>, base: nat, lo: nat)
    requires Completed(h0, h, n1, base, lo) && Evolves(n1, n2, base) && |n2| == |n1|
    requires forall i :: 0 <= i < |n1| && n2[i] != n1[i] ==> i < lo
    ensures Completed(h0, h, n2, base, lo)
  {
    forall k | k in h && k !in h0
      ensures h[k] < |n1|
    {
    }
    CompletedStable(h0, h, n1, h, n2, base, lo, |n1|);
  }

  /** One more entry of a container copied: the clone of entry `i` written into `b` under its key. */
  lemma PartialStep(a: Node, b: Node, i: nat, slot: Slot, h: map<Ref, Ref>, n1: seq<Node>, c: Ref, base: nat)
    requires PartialCopied(a, b, i, h, n1, base) && i < Size(a) && DistinctKeys(a)
    requires SlotCopied(ChildSlot(a, i), slot, h, n1, base)
    requires base <= c < |n1| && n1[c] == b
    ensures SameKind(a, b) && Written(a, b, i, slot) == (if b.ArrayNode? then ArrayNode(b.items + [slot]) else ObjectNode(b.props + [Prop(a.props[i].key, slot)]))
    ensures Evolves(n1, n1[c := Written(a, b, i, slot)], base)
    ensures PartialCopied(a, Written(a, b, i, slot), i + 1, h, n1[c := Written(a, b, i, slot)], base)
  {
    WrittenAppends(a, b, i, slot, h, n1, base);
    var b' := Written(a, b, i, slot);
    var n2 := n1[c := b'];
    assert Evolves(n1, n2, base);
    PartialStable(a, b, i, h, n1, h, n2, base);
    SlotStable(ChildSlot(a, i), slot, h, n1, h, n2, base);
    PartialAppended(a, b, i, slot, h, n2, base);
  }

  /** Entry `i` is written past the copied prefix: under a new key, or at the end of the array. */
  lemma WrittenAppends(a: Node, b: Node, i: nat, slot: Slot, h: map<Ref, Ref>, n1: seq<Node>, base: nat)
    requires PartialCopied(a, b, i, h, n1, base) && i < Size(a) && DistinctKeys(a)
    ensures SameKind(a, b) && Written(a, b, i, slot) == (if b.ArrayNode? then ArrayNode(b.items + [slot]) else ObjectNode(b.props + [Prop(a.props[i].key, slot)]))
  {
    if b.ObjectNode? {
      forall j | 0 <= j < |b.props|
        ensures b.props[j].key != a.props[i].key
      {
        assert b.props[j].key == a.props[j].key;
      }
    }
  }

  /** A copied prefix followed by the clone of the next entry is a copied prefix one longer. */
  lemma PartialAppended(a: Node, b: Node, i: nat, slot: Slot, h: map<Ref, Ref>, n2: seq<Node>, base: nat)
    requires PartialCopied(a, b, i, h, n2, base) && i < Size(a)
    requires SlotCopied(ChildSlot(a, i), slot, h, n2, base)
    ensures SameKind(a, b)
    ensures PartialCopied(a, if b.ArrayNode? then ArrayNode(b.items + [slot]) else ObjectNode(b.props + [Prop(a.props[i].key, slot)]), i + 1, h, n2, base)
  {
  }

  /** An object no clone has touched yet is recorded with an empty clone: the table keeps its shape. */
  lemma Recorded(hash: map<Ref, Ref>, nodes: seq<Node>, x: Ref, base: nat)
    requires Table(hash, nodes, base) && Source(nodes, base)
    requires x < base && IsContainer(nodes[x]) && x !in hash
    ensures var e := if nodes[x].ArrayNode? then ArrayNode([]) else ObjectNode([]);
      Table(hash[x := |nodes|], nodes + [e], base) && Extends(hash, hash[x := |nodes|])
        && PartialCopied(nodes[x], e, 0, hash[x := |nodes|], nodes + [e], base)
  {
    var e := if nodes[x].ArrayNode? then ArrayNode([]) else ObjectNode([]);
    EvolvesByGrowth(nodes, nodes + [e], base);
    TableStable(hash, nodes, nodes + [e], base);
  }

  /** The entries of a source container are source references. */
  lemma ChildBelow(n: Node, i: nat, base: nat)
    requires IsContainer(n) && i < Size(n) && RefsBelow(n, base)
    ensures ChildSlot(n, i).Ptr? ==> ChildSlot(n, i).r < base
  {
    assert ChildSlot(n, i) == AllSlots(n)[i];
  }

  /** The elements of a `Set` and the values of a `Map` are source references. */
  lemma MemberSlotsBelow(n: Node, base: nat)
    requires (n.SetNode? || n.MapNode?) && RefsBelow(n, base)
    ensures var elems := if n.SetNode? then n.elems else MapValues(n.entries);
      forall j :: 0 <= j < |elems| && elems[j].Ptr? ==> elems[j].r < base
  {
    if n.MapNode? {
      var vs := MapValues(n.entries);
      forall j | 0 <= j < |vs| && vs[j].Ptr?
        ensures vs[j].r < base
      {
        assert vs[j] == AllSlots(n)[|n.entries| + j];
      }
    }
  }

  /** A cloned reference to a recorded container is that container's recorded clone, so cycles and sharing carry over. */
  lemma CycleKept(n: Node, b: Node, hash: map<Ref, Ref>, nodes: seq<Node>, base: nat, i: nat, x: Ref)
    requires NodeCopied(n, b, hash, nodes, base) && IsContainer(n) && i < Size(n)
    requires ChildSlot(n, i) == Ptr(x) && x < |nodes| && IsContainer(nodes[x])
    ensures x in hash && ChildSlot(b, i) == Ptr(hash[x])
  {
  }

  /** Two entries referring to the same source container refer to the same clone. */
  lemma SharingKept(n: Node, b: Node, hash: map<Ref, Ref>, nodes: seq<Node>, base: nat, i: nat, j: nat)
    requires NodeCopied(n, b, hash, nodes, base) && IsContainer(n) && i < Size(n) && j < Size(n)
    requires ChildSlot(n, i) == ChildSlot(n, j) && ChildSlot(n, i).Ptr?
    requires ChildSlot(n, i).r < |nodes| && IsContainer(nodes[ChildSlot(n, i).r])
    ensures ChildSlot(b, i) == ChildSlot(b, j)
  {
  }

  /** `shallowClone` on a node: arrays and plain objects keep their entries; the spread of any other object has no own enumerable property. */
  function ShallowCopy(n: Node): (c: Node)
    ensures IsContainer(n) ==> SameKind(n, c) && AllSlots(c) == AllSlots(n)
    ensures !IsContainer(n) ==> c == ObjectNode([])
  {
    match n
    case ArrayNode(items) => ArrayNode(items)
    case ObjectNode(props) => ObjectNode(props)
    case _ => ObjectNode([])
  }

  // -----------------------------------------------------------------------
  // The heap and the two operations

  class Heap {
    var nodes: seq<Node>

    constructor(objects: seq<Node>)
      ensures nodes == objects
    {
      nodes := objects;
    }

    /** A new object. */
    method Alloc(n: Node) returns (r: Ref)
      modifies this
      ensures nodes == old(nodes) + [n] && r == |old(nodes)|
    {
      r := |nodes|;
      nodes := nodes + [n];
    }

    /**
     * `shallowClone(obj)`: a primitive or `null` is returned as it is;
     * an object gets a new array or object holding the same top-level
     * entries, so nested objects are shared.
     */
    method ShallowClone(s: Slot) returns (r: Slot)
      requires s.Ptr? ==> s.r < |nodes|
      modifies this
      ensures s.Plain? ==> r == s && nodes == old(nodes)
      ensures s.Ptr? ==> r == Ptr(|old(nodes)|) && nodes == old(nodes) + [ShallowCopy(old(nodes)[s.r])]
    {
      if s.Plain? {
        return s;
      }
      var x := Alloc(ShallowCopy(nodes[s.r]));
      r := Ptr(x);
    }

    /**
     * `deepClone(obj)` with its default, empty table, on a heap of source
     * objects: every object the table ends up recording has a complete
     * clone, and every clone lies outside the source objects.
     */
    method DeepCloneFresh(s: Slot, fuel: nat) returns (r: Option<Slot>, ghost table: map<Ref, Ref>)
      requires Source(nodes, |nodes|) && (s.Ptr? ==> s.r < |nodes|)
      modifies this
      ensures old(nodes) <= nodes
      ensures r.Some? ==> SlotCopied(s, r.value, table, nodes, |old(nodes)|)
      ensures r.Some? ==> Completed(map[], table, nodes, |old(nodes)|, |old(nodes)|)
      ensures NoCollections(old(nodes), |old(nodes)|) && |old(nodes)| <= fuel ==> r.Some?
    {
      r, table := DeepClone(s, map[], |nodes|, fuel);
    }

    /**
     * `deepClone(obj, hash)`. A primitive or `null` is returned as it is.
     * A `Date` or `RegExp` gets a new instance with the same time, or the
     * same pattern and flags; a `Set` or `Map` is rebuilt from its cloned
     * members. These kinds are dealt with before the table is looked at and
     * are never recorded. An array or plain object already in the table
     * gives its recorded clone; otherwise an empty clone is recorded first
     * and then filled entry by entry.
     *
     * When `Set`s, `Map`s and unrecorded objects are nested deeper than
     * `fuel`, the result is `None`.
     */
    method DeepClone(s: Slot, hash: map<Ref, Ref>, ghost base: nat, fuel: nat) returns (r: Option<Slot>, hash': map<Ref, Ref>)
      requires Source(nodes, base) && Table(hash, nodes, base)
      requires s.Ptr? ==> s.r < base
      modifies this
      decreases fuel, 1
      ensures Progress(old(nodes), nodes, hash, hash', base)
      ensures NoCollections(old(nodes), base) && base <= fuel + |hash| ==> r.Some?
      ensures r.Some? ==> SlotCopied(s, r.value, hash', nodes, base) && Completed(hash, hash', nodes, base, |old(nodes)|)
      ensures s.Plain? ==> r == Some(s) && hash' == hash && nodes == old(nodes)
      ensures s.Ptr? && IsContainer(old(nodes)[s.r]) && s.r in hash ==> r == Some(Ptr(hash[s.r])) && hash' == hash && nodes == old(nodes)
      ensures s.Ptr? && r.Some? && !(IsContainer(old(nodes)[s.r]) && s.r in hash) ==> r.value.Ptr? && |old(nodes)| <= r.value.r
      ensures s.Ptr? && (old(nodes)[s.r].DateNode? || old(nodes)[s.r].RegExpNode?) ==>
        r == Some(Ptr(|old(nodes)|)) && hash' == hash && nodes == old(nodes) + [old(nodes)[s.r]]
    {
      if s.Plain? {
        return Some(s), hash;
      }
      var n := nodes[s.r];
      if n.DateNode? || n.RegExpNode? {
        var x := Alloc(if n.DateNode? then DateNode(n.time) else RegExpNode(n.source, n.flags));
        EvolvesByGrowth(old(nodes), nodes, base);
        TableStable(hash, old(nodes), nodes, base);
        return Some(Ptr(x)), hash;
      }
      if n.SetNode? || n.MapNode? {
        r, hash' := CloneCollection(s.r, hash, base, fuel);
        return;
      }
      if s.r in hash {
        return Some(Ptr(hash[s.r])), hash;
      }
      if fuel == 0 {
        KeysFewer(hash, base, s.r);
        return None, hash;
      }
      r, hash' := CopyContainer(s.r, hash, base, fuel - 1);
    }

    /** `new Set([...obj].map(...))` and `new Map([...obj].map(...))`: the members cloned in order, the keys of a `Map` kept. */
    method CloneCollection(x: Ref, hash: map<Ref, Ref>, ghost base: nat, fuel: nat) returns (r: Option<Slot>, hash': map<Ref, Ref>)
      requires Source(nodes, base) && Table(hash, nodes, base)
      requires x < base && (nodes[x].SetNode? || nodes[x].MapNode?)
      modifies this
      decreases fuel, 0
      ensures Progress(old(nodes), nodes, hash, hash', base)
      ensures r.Some? ==> r == Some(Ptr(|nodes| - 1)) && |old(nodes)| < |nodes|
      ensures r.Some? ==> SlotCopied(Ptr(x), r.value, hash', nodes, base) && Completed(hash, hash', nodes, base, |old(nodes)|)
    {
      if fuel == 0 {
        return None, hash;
      }
      var n := nodes[x];
      MemberSlotsBelow(n, base);
      var members := if n.SetNode? then n.elems else MapValues(n.entries);
      var cloned, h := CloneAll(members, hash, base, fuel - 1);
      if cloned.None? {
        return None, h;
      }
      var made := if n.SetNode? then SetNode(cloned.value) else MapNode(Pairs(MapKeys(n.entries), cloned.value));
      ghost var n1 := nodes;
      var y := Alloc(made);
      EvolvesByGrowth(n1, nodes, base);
      TableStable(h, n1, nodes, base);
      SlotsStable(members, cloned.value, h, n1, h, nodes, base);
      assert MembersCopied(members, cloned.value, y, h, nodes, base);
      CompletedAfterChild(hash, h, n1, h, nodes, base, |old(nodes)|);
      return Some(Ptr(y)), h;
    }

    /** `[...obj].map(item => deepClone(item, hash))`: the members cloned one after another, sharing the table. */
    method CloneAll(srcs: seq<Slot>, hash: map<Ref, Ref>, ghost base: nat, fuel: nat) returns (r: Option<seq<Slot>>, hash': map<Ref, Ref>)
      requires Source(nodes, base) && Table(hash, nodes, base)
      requires forall j :: 0 <= j < |srcs| && srcs[j].Ptr? ==> srcs[j].r < base
      modifies this
      decreases fuel, 3
      ensures Progress(old(nodes), nodes, hash, hash', base)
      ensures r.Some? ==> SlotsCopied(srcs, r.value, hash', nodes, base)
      ensures r.Some? ==> Completed(hash, hash', nodes, base, |old(nodes)|)
    {
      var out: seq<Slot> := [];
      var h := hash;
      while |out| < |srcs|
        invariant Cloning(old(nodes), nodes, hash, h, srcs, out, base)
        decreases |srcs| - |out|
      {
        var c, h2 := CloneMember(srcs, out, h, hash, old(nodes), base, fuel);
        if c.None? {
          return None, h2;
        }
        out, h := out + [c.value], h2;
      }
      return Some(out), h;
    }

    /** `item => deepClone(item, hash)` for the next member, `srcs[|out|]`. */
    method CloneMember(srcs: seq<Slot>, out: seq<Slot>, h: map<Ref, Ref>, ghost hash: map<Ref, Ref>, ghost n0: seq<Node>, ghost base: nat, fuel: nat)
      returns (c: Option<Slot>, h2: map<Ref, Ref>)
      requires Cloning(n0, nodes, hash, h, srcs, out, base) && |out| < |srcs|
      requires forall j :: 0 <= j < |srcs| && srcs[j].Ptr? ==> srcs[j].r < base
      modifies this
      decreases fuel, 2
      ensures Progress(n0, nodes, hash, h2, base)
      ensures c.Some? ==> Cloning(n0, nodes, hash, h2, srcs, out + [c.value], base)
    {
      ghost var n1 := nodes;
      c, h2 := DeepClone(srcs[|out|], h, base, fuel);
      ProgressTrans(n0, n1, nodes, hash, h, h2, base);
      if c.Some? {
        MemberCopied(n0, n1, nodes, hash, h, h2, srcs, out, c.value, base);
      }
    }

    /**
     * The copy of an array or plain object not yet in the table: an empty
     * array or object is recorded for it, then every own entry, in order,
     * is cloned and written under its key.
     */
    method CopyContainer(x: Ref, hash: map<Ref, Ref>, ghost base: nat, fuel: nat) returns (r: Option<Slot>, hash': map<Ref, Ref>)
      requires Source(nodes, base) && Table(hash, nodes, base)
      requires x < base && IsContainer(nodes[x]) && x !in hash
      modifies this
      decreases fuel, 3
      ensures Progress(old(nodes), nodes, hash, hash', base)
      ensures NoCollections(old(nodes), base) && base <= fuel + 1 + |hash| ==> r.Some?
      ensures r.Some? ==> r == Some(Ptr(|old(nodes)|)) && x in hash' && hash'[x] == |old(nodes)|
      ensures r.Some? ==> Completed(hash, hash', nodes, base, |old(nodes)|)
    {
      Recorded(hash, nodes, x, base);
      var c := Alloc(if nodes[x].ArrayNode? then ArrayNode([]) else ObjectNode([]));
      var h := hash[x := c];
      ghost var hs := h;
      var i := 0;
      while i < Size(nodes[x])
        invariant Filling(old(nodes), nodes, x, c, i, hs, h, base)
      {
        var ok, h' := CopyEntry(x, c, i, h, hs, old(nodes), base, fuel);
        if !ok {
          ProgressFromFilling(old(nodes), nodes, hash, hs, h', x, c, base);
          return None, h';
        }
        h := h';
        i := i + 1;
      }
      Finished(hash, hs, h, nodes, x, c, base);
      ProgressFromFilling(old(nodes), nodes, hash, hs, h, x, c, base);
      return Some(Ptr(c)), h;
    }

    /** `copy[key] = deepClone(obj[key], hash)` for entry `i` of the source `x`. */
    method CopyEntry(x: Ref, c: Ref, i: nat, h: map<Ref, Ref>, ghost hs: map<Ref, Ref>, ghost n0: seq<Node>, ghost base: nat, fuel: nat) returns (ok: bool, h': map<Ref, Ref>)
      requires Filling(n0, nodes, x, c, i, hs, h, base) && i < Size(nodes[x])
      modifies this
      decreases fuel, 2
      ensures ok ==> Filling(n0, nodes, x, c, i + 1, hs, h', base)
      ensures !ok ==> n0 <= nodes && Source(nodes, base) && Extends(hs, h') && Table(h', nodes, base)
      ensures NoCollections(n0, base) && base <= fuel + |hs| ==> ok
    {
      ExtendsCard(hs, h);
      ghost var n1 := nodes;
      ChildBelow(nodes[x], i, base);
      var v, h2 := DeepClone(ChildSlot(nodes[x], i), h, base, fuel);
      if v.None? {
        return false, h2;
      }
      EntryCopied(n0, n1, nodes, x, c, i, hs, h, h2, v.value, base);
      nodes := nodes[c := Written(nodes[x], nodes[c], i, v.value)];
      return true, h2;
    }
  }

  /** No source object is a `Set` or a `Map`. */
  predicate NoCollections(nodes: seq<Node>, base: nat)
  {
    base <= |nodes| && forall i :: 0 <= i < base ==> !(nodes[i].SetNode? || nodes[i].MapNode?)
  }

  lemma SubsetCard(a: set<Ref>, b: set<Ref>)
    requires a <= b
    ensures |a| <= |b|
    decreases a
  {
    if a != {} {
      var e :| e in a;
      SubsetCard(a - {e}, b - {e});
    }
  }

  /** A table only grows in size as it is extended. */
  lemma ExtendsCard(h1: map<Ref, Ref>, h2: map<Ref, Ref>)
    requires Extends(h1, h2)
    ensures |h1| <= |h2|
  {
    SubsetCard(h1.Keys, h2.Keys);
  }

  function Below(n: nat): (s: set<Ref>)
    ensures |s| == n && forall k: Ref :: k in s <==> k < n
  {
    if n == 0 then {} else Below(n - 1) + {n - 1}
  }

  /** A table of source references that lacks `x` has fewer entries than there are source objects. */
  lemma KeysFewer(hash: map<Ref, Ref>, base: nat, x: Ref)
    requires (forall k :: k in hash ==> k < base) && x < base && x !in hash
    ensures |hash| < base
  {
    SubsetCard(hash.Keys + {x}, Below(base));
  }

  /** From `n1` and `h1` the heap has only grown and the table keeps its entries and its shape. */
  predicate Progress(n1: seq<Node>, n2: seq<Node>, h1: map<Ref, Ref>, h2: map<Ref, Ref>, base: nat)
  {
    n1 <= n2 && Source(n2, base) && Extends(h1, h2) && Table(h2, n2, base)
  }

  /** While the members `srcs` are cloned: the first `|out|` are copied, and every clone made since `n0` is complete. */
  predicate Cloning(n0: seq<Node>, nodes: seq<Node>, hash: map<Ref, Ref>, h: map<Ref, Ref>, srcs: seq<Slot>, out: seq<Slot>, base: nat)
  {
    |out| <= |srcs| && Progress(n0, nodes, hash, h, base)
    && (forall j :: 0 <= j < |out| ==> SlotCopied(srcs[j], out[j], h, nodes, base))
    && Completed(hash, h, nodes, base, |n0|)
  }

  /** Two stretches of progress make one. */
  lemma ProgressTrans(n0: seq<Node>, n1: seq<Node>, n2: seq<Node>, h0: map<Ref, Ref>, h1: map<Ref, Ref>, h2: map<Ref, Ref>, base: nat)
    requires Progress(n0, n1, h0, h1, base) && Progress(n1, n2, h1, h2, base)
    ensures Progress(n0, n2, h0, h2, base)
  {
  }

  /** The clone of the next member extends the cloning by one member. */
  lemma MemberCopied(n0: seq<Node>, n1: seq<Node>, n2: seq<Node>, hash: map<Ref, Ref>, h: map<Ref, Ref>, h2: map<Ref, Ref>,
                     srcs: seq<Slot>, out: seq<Slot>, v: Slot, base: nat)
    requires Cloning(n0, n1, hash, h, srcs, out, base) && |out| < |srcs|
    requires Progress(n1, n2, h, h2, base) && Progress(n0, n2, hash, h2, base)
    requires SlotCopied(srcs[|out|], v, h2, n2, base) && Completed(h, h2, n2, base, |n1|)
    ensures Cloning(n0, n2, hash, h2, srcs, out + [v], base)
  {
    EvolvesByGrowth(n1, n2, base);
    SlotsStable(srcs, out, h, n1, h2, n2, base);
    CompletedAfterChild(hash, h, n1, h2, n2, base, |n0|);
  }

  /**
   * While the clone `c` of source container `x` is filled: the objects
   * before it are as they were, its first `i` entries are copied, and the
   * clones recorded since `x` are complete.
   */
  predicate Filling(n0: seq<Node>, nodes: seq<Node>, x: Ref, c: Ref, i: nat, hs: map<Ref, Ref>, h: map<Ref, Ref>, base: nat)
  {
    base <= c == |n0| < |nodes| && x < base && n0 == nodes[..c] && Source(nodes, base) && i <= Size(nodes[x])
    && Extends(hs, h) && Table(h, nodes, base) && PartialCopied(nodes[x], nodes[c], i, h, nodes, base)
    && Completed(hs, h, nodes, base, c + 1)
  }

  /** The clone of entry `i`, once written into `c`, extends the filling by one entry. */
  lemma EntryCopied(n0: seq<Node>, n1: seq<Node>, n2: seq<Node>, x: Ref, c: Ref, i: nat, hs: map<Ref, Ref>, h: map<Ref, Ref>, h2: map<Ref, Ref>, v: Slot, base: nat)
    requires Filling(n0, n1, x, c, i, hs, h, base) && i < Size(n1[x])
    requires Progress(n1, n2, h, h2, base) && Completed(h, h2, n2, base, |n1|)
    requires SlotCopied(ChildSlot(n1[x], i), v, h2, n2, base)
    ensures x < |n2| && c < |n2| && n2[x] == n1[x] && IsContainer(n2[x]) && i < Size(n2[x]) && SameKind(n2[x], n2[c])
    ensures n2[c].ArrayNode? ==> i <= |n2[c].items|
    ensures Filling(n0, n2[c := Written(n2[x], n2[c], i, v)], x, c, i + 1, hs, h2, base)
  {
    EvolvesByGrowth(n1, n2, base);
    PartialStable(n1[x], n1[c], i, h, n1, h2, n2, base);
    CompletedAfterChild(hs, h, n1, h2, n2, base, c + 1);
    PartialStep(n2[x], n2[c], i, v, h2, n2, c, base);
    var n3 := n2[c := Written(n2[x], n2[c], i, v)];
    TableStable(h2, n2, n3, base);
    CompletedAfterWrite(hs, h2, n2, n3, base, c + 1);
    assert n3[..c] == n2[..c];
  }

  lemma ProgressFromFilling(n0: seq<Node>, nodes: seq<Node>, hash: map<Ref, Ref>, hs: map<Ref, Ref>, h: map<Ref, Ref>, x: Ref, c: Ref, base: nat)
    requires hs == hash[x := c] && x !in hash
    requires n0 <= nodes && Source(nodes, base) && Extends(hs, h) && Table(h, nodes, base)
    ensures Progress(n0, nodes, hash, h, base)
  {
  }

  /** The pairs of a new `Map`: each original key with the clone of its value. */
  function Pairs(keys: seq<Slot>, vals: seq<Slot>): (r: seq<(Slot, Slot)>)
    requires |keys| == |vals|
    ensures MapKeys(r) == keys && MapValues(r) == vals
  {
    seq(|keys|, j requires 0 <= j < |keys| => (keys[j], vals[j]))
  }

  /** Once its last entry is written, the recorded clone is complete as well. */
  lemma Finished(hash: map<Ref, Ref>, hs: map<Ref, Ref>, h: map<Ref, Ref>, nodes: seq<Node>, x: Ref, c: Ref, base: nat)
    requires hs == hash[x := c] && x !in hash && Extends(hs, h)
    requires x < base <= |nodes| && c < |nodes| && NodeCopied(nodes[x], nodes[c], h, nodes, base)
    requires Completed(hs, h, nodes, base, c + 1)
    ensures Completed(hash, h, nodes, base, c)
  {
  }
}
