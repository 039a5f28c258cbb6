/**
  The device map on the heap: records linked by parent, first child and next sibling,
  edited in place. A ghost tree of the records, in first-child/next-sibling form, gives the
  shape; reading the records' fields along it gives the network as a value.
*/
module DeviceMap {
  import opened Wrappers
  import opened LogicalAddress
  import opened PhysicalAddress
  import opened Trees
  import opened Network

  /** The allocator's view of device records: which of them have not been freed. */
  class Memory {
    ghost var live: set<Device>

    constructor ()
      ensures live == {}
    {
      live := {};
    }

    /** Only a live record may be freed, so nothing is freed twice. */
    method Free(d: Device)
      requires d in live
      modifies this
      ensures live == old(live) - {d}
    {
      live := live - {d};
    }
  }

  /** The links of one record. */
  datatype Linkage = Linkage(parent: Device?, firstChild: Device?, nextSibling: Device?)

  class Device {
    const name: string
    const kind: DeviceType
    const port: Word
    const numberChildren: nat

    var parent: Device?
    var firstChild: Device?
    var nextSibling: Device?
    var pa: Word
    var la: Address

    constructor (p: Profile, mem: Memory)
      modifies mem
      ensures Record() == Loaded(p)
      ensures parent == null && firstChild == null && nextSibling == null
      ensures mem.live == old(mem.live) + {this}
    {
      name, kind, port, numberChildren := p.name, p.kind, p.port, |p.children|;
      pa, la := NO_PHYSICAL_ADDRESS, UNKNOWN;
      parent, firstChild, nextSibling := null, null, null;
      new;
      mem.live := mem.live + {this};
    }

    ghost function Record(): (d: Info)
      reads this`pa, this`la
    {
      Info(name, kind, port, numberChildren, pa, la)
    }

    ghost function Links(): (links: Linkage)
      reads this`parent, this`firstChild, this`nextSibling
    {
      Linkage(parent, firstChild, nextSibling)
    }
  }

  // ----- shape and contents -----

  ghost function Nodes(f: Tree<Device>): (ds: set<Device>) {
    if f.Nil? then {} else {f.val} + Nodes(f.kids) + Nodes(f.rest)
  }

  /** Each record occurs once. */
  ghost predicate Linear(f: Tree<Device>) {
    f.Node? ==>
      && f.val !in Nodes(f.kids) && f.val !in Nodes(f.rest) && Nodes(f.kids) !! Nodes(f.rest)
      && Linear(f.kids) && Linear(f.rest)
  }

  /** The chain starting at `first`, with parent `above`, has shape `f`. */
  ghost predicate Linked(first: Device?, above: Device?, f: Tree<Device>)
    reads Nodes(f)`parent, Nodes(f)`firstChild, Nodes(f)`nextSibling
    decreases f
  {
    match f
    case Nil => first == null
    case Node(d, kids, rest) =>
      && first == d && d.parent == above
      && Linked(d.firstChild, d, kids)
      && Linked(d.nextSibling, above, rest)
  }

  ghost function Contents(f: Tree<Device>): (t: Tree<Info>)
    reads Nodes(f)`pa, Nodes(f)`la
    ensures t.Node? == f.Node?
  {
    match f
    case Nil => Nil
    case Node(d, kids, rest) => Node(d.Record(), Contents(kids), Contents(rest))
  }

  lemma {:induction false} ContentsAt(f: Tree<Device>, p: Pos)
    ensures Has(Contents(f), p) == Has(f, p)
    ensures Has(f, p) ==> At(f, p) in Nodes(f) && At(Contents(f), p) == At(f, p).Record()
  {
    if f.Node? {
      match p
      case Here =>
      case Down(q) => ContentsAt(f.kids, q);
      case Across(q) => ContentsAt(f.rest, q);
    }
  }

  lemma {:induction false} ContentsInsert(f: Tree<Device>, p: Pos, sub: Tree<Device>)
    requires Has(f, p) && sub.Node? && sub.rest.Nil?
    ensures Has(Contents(f), p)
    ensures Nodes(InsertUnder(f, p, sub)) == Nodes(f) + Nodes(sub)
    ensures Contents(InsertUnder(f, p, sub)) == InsertUnder(Contents(f), p, Contents(sub))
  {
    match p
    case Here =>
    case Down(q) => ContentsInsert(f.kids, q, sub);
    case Across(q) => ContentsInsert(f.rest, q, sub);
  }

  lemma {:induction false} LinearInsert(f: Tree<Device>, p: Pos, sub: Tree<Device>)
    requires Has(f, p) && sub.Node? && sub.rest.Nil?
    requires Linear(f) && Linear(sub) && Nodes(f) !! Nodes(sub)
    ensures Linear(InsertUnder(f, p, sub)) && Nodes(InsertUnder(f, p, sub)) == Nodes(f) + Nodes(sub)
  {
    match p
    case Here =>
    case Down(q) => LinearInsert(f.kids, q, sub);
    case Across(q) => LinearInsert(f.rest, q, sub);
  }

  lemma {:induction false} ContentsDrop(f: Tree<Device>, k: nat)
    requires k < Siblings(f) && Linear(f)
    ensures Siblings(Contents(f)) == Siblings(f)
    ensures Contents(DropSibling(f, k)) == DropSibling(Contents(f), k)
    ensures Contents(Sibling(f, k)) == Sibling(Contents(f), k)
    ensures Linear(DropSibling(f, k)) && Linear(Sibling(f, k))
    ensures Nodes(DropSibling(f, k)) == Nodes(f) - Nodes(Sibling(f, k))
    ensures Nodes(Sibling(f, k)) <= Nodes(f)
  {
    ContentsSiblings(f);
    if k > 0 {
      ContentsDrop(f.rest, k - 1);
    }
  }

  lemma {:induction false} ContentsSiblings(f: Tree<Device>)
    ensures Siblings(Contents(f)) == Siblings(f)
  {
    if f.Node? {
      ContentsSiblings(f.rest);
    }
  }

  /** A record occurs at one position only. */
  lemma {:induction false} PositionUnique(f: Tree<Device>, p: Pos, q: Pos)
    requires Linear(f) && Has(f, p) && Has(f, q) && At(f, p) == At(f, q)
    ensures p == q
  {
    ContentsAt(f, p);
    ContentsAt(f, q);
    match (p, q)
    case (Down(a), Down(b)) => PositionUnique(f.kids, a, b);
    case (Across(a), Across(b)) => PositionUnique(f.rest, a, b);
    case (Here, Here) =>
    case (Here, Down(b)) => ContentsAt(f.kids, b);
    case (Here, Across(b)) => ContentsAt(f.rest, b);
    case (Down(a), Here) => ContentsAt(f.kids, a);
    case (Across(a), Here) => ContentsAt(f.rest, a);
    case (Down(a), Across(b)) => ContentsAt(f.kids, a); ContentsAt(f.rest, b);
    case (Across(a), Down(b)) => ContentsAt(f.rest, a); ContentsAt(f.kids, b);
  }

  // ----- shape as a property of the links alone -----

  type LinkMap = map<Device, Linkage>

  /** The links of a set of records, as they are now. */
  ghost function Snapshot(ds: set<Device>): (m: LinkMap)
    reads ds`parent, ds`firstChild, ds`nextSibling
  {
    map d <- ds :: d.Links()
  }

  lemma SnapshotIs(ds: set<Device>, m: LinkMap)
    requires m.Keys == ds && forall d <- ds :: d.Links() == m[d]
    ensures Snapshot(ds) == m
  {
  }

  ghost predicate Shaped(m: LinkMap, first: Device?, above: Device?, f: Tree<Device>)
    decreases f
  {
    match f
    case Nil => first == null
    case Node(d, kids, rest) =>
      && first == d && d in m && m[d].parent == above
      && Shaped(m, m[d].firstChild, d, kids)
      && Shaped(m, m[d].nextSibling, above, rest)
  }

  lemma {:induction false} LinkedIsShaped(first: Device?, above: Device?, f: Tree<Device>, ds: set<Device>)
    requires Nodes(f) <= ds
    ensures Linked(first, above, f) <==> Shaped(Snapshot(ds), first, above, f)
    decreases f
  {
    if f.Node? {
      LinkedIsShaped(f.val.firstChild, f.val, f.kids, ds);
      LinkedIsShaped(f.val.nextSibling, above, f.rest, ds);
    }
  }

  /** Relinking other records does not disturb a chain. */
  lemma {:induction false} ShapedFrame(m: LinkMap, m': LinkMap, first: Device?, above: Device?, f: Tree<Device>)
    requires Shaped(m, first, above, f)
    requires forall d :: d in Nodes(f) && d in m ==> d in m' && m'[d] == m[d]
    ensures Shaped(m', first, above, f)
    decreases f
  {
    if f.Node? {
      ShapedFrame(m, m', m[f.val].firstChild, f.val, f.kids);
      ShapedFrame(m, m', m[f.val].nextSibling, above, f.rest);
    }
  }

  /** The links after `child` was made the first child of `parent`. */
  ghost function Relinked(m: LinkMap, parent: Device, child: Device): (relinked: LinkMap)
    requires parent in m && child in m
  {
    m[parent := m[parent].(firstChild := child)]
     [child := m[child].(parent := parent, nextSibling := m[parent].firstChild)]
  }

  /** Relinking a lone map under a record inserts its shape there. */
  lemma {:induction false} ShapedInsert(m: LinkMap, first: Device?, above: Device?, f: Tree<Device>, p: Pos,
                                        sub: Tree<Device>, parent: Device, child: Device)
    requires Linear(f) && Linear(sub) && Nodes(f) !! Nodes(sub)
    requires Shaped(m, first, above, f) && Has(f, p) && At(f, p) == parent
    requires Shaped(m, child, null, sub) && sub.Node? && sub.rest.Nil?
    ensures parent in m && child in m
    ensures Shaped(Relinked(m, parent, child), first, above, InsertUnder(f, p, sub))
    decreases f
  {
    match p
    case Here =>
      var m' := Relinked(m, parent, child);
      ShapedFrame(m, m', m[child].firstChild, child, sub.kids);
      ShapedFrame(m, m', m[parent].firstChild, parent, f.kids);
      ShapedFrame(m, m', m[parent].nextSibling, above, f.rest);
    case Down(q) =>
      PositionInNodes(f.kids, q);
      ShapedInsert(m, m[f.val].firstChild, f.val, f.kids, q, sub, parent, child);
      ShapedFrame(m, Relinked(m, parent, child), m[f.val].nextSibling, above, f.rest);
    case Across(q) =>
      PositionInNodes(f.rest, q);
      ShapedInsert(m, m[f.val].nextSibling, above, f.rest, q, sub, parent, child);
      ShapedFrame(m, Relinked(m, parent, child), m[f.val].firstChild, f.val, f.kids);
  }

  lemma {:induction false} PositionInNodes(f: Tree<Device>, p: Pos)
    requires Has(f, p)
    ensures At(f, p) in Nodes(f)
  {
    match p
    case Here =>
    case Down(q) => PositionInNodes(f.kids, q);
    case Across(q) => PositionInNodes(f.rest, q);
  }

  /** The links after the k-th record of a chain was bypassed; the chain's owner is not in `m`'s care when k is 0. */
  ghost function Bypassed(m: LinkMap, f: Tree<Device>, k: nat): (bypassed: LinkMap)
    requires k < Siblings(f) && Sibling(f, k).val in m
    requires 0 < k ==> Sibling(f, k - 1).val in m
  {
    var removed := Sibling(f, k).val;
    var cut := m[removed := m[removed].(nextSibling := null)];
    if k == 0 then cut
    else
      var prev := Sibling(f, k - 1).val;
      cut[prev := m[prev].(nextSibling := m[removed].nextSibling)]
  }

  lemma {:induction false} ShapedSiblings(m: LinkMap, first: Device?, above: Device?, f: Tree<Device>, k: nat)
    requires Shaped(m, first, above, f) && k < Siblings(f)
    ensures Sibling(f, k).val in m && Sibling(f, k).val in Nodes(f)
    decreases f
  {
    if k > 0 {
      ShapedSiblings(m, m[f.val].nextSibling, above, f.rest, k - 1);
    }
  }

  /** Bypassing a record cuts its whole tree off, and nothing else. */
  lemma {:induction false} ShapedDrop(m: LinkMap, first: Device?, above: Device?, f: Tree<Device>, k: nat)
    requires Linear(f) && k < Siblings(f) && Shaped(m, first, above, f)
    ensures forall i :: 0 <= i <= k ==> Sibling(f, i).val in m
    ensures var removed, m' := Sibling(f, k).val, Bypassed(m, f, k);
            && Shaped(m', if k == 0 then m[removed].nextSibling else first, above, DropSibling(f, k))
            && Shaped(m', removed, above, Sibling(f, k))
    decreases f
  {
    forall i | 0 <= i <= k
      ensures Sibling(f, i).val in m && Sibling(f, i).val in Nodes(f)
    {
      ShapedSiblings(m, first, above, f, i);
    }
    var m' := Bypassed(m, f, k);
    if k == 0 {
      ShapedFrame(m, m', m[f.val].nextSibling, above, f.rest);
      ShapedFrame(m, m', m[f.val].firstChild, f.val, f.kids);
    } else {
      var next := m[f.val].nextSibling;
      forall i | 0 <= i < k
        ensures Sibling(f.rest, i).val in Nodes(f.rest)
      {
        ShapedSiblings(m, next, above, f.rest, i);
      }
      ShapedDrop(m, next, above, f.rest, k - 1);
      ShapedFrame(m, m', m[f.val].firstChild, f.val, f.kids);
      var inner := Bypassed(m, f.rest, k - 1);
      if k == 1 {
        ShapedFrame(inner, m', m[next].nextSibling, above, DropSibling(f.rest, 0));
        ShapedFrame(inner, m', next, above, Sibling(f.rest, 0));
      } else {
        assert m' == inner;
      }
    }
  }

  // ----- insertion -----

  ghost function Only(d: Device?): (ds: set<Device>) {
    if d == null then {} else {d}
  }

  /** Makes `child` the first child of `parent`; with either missing, does nothing. */
  method InsertChild(parent: Device?, child: Device?)
    modifies Only(parent)`firstChild, Only(child)`parent, Only(child)`nextSibling
    ensures parent == null && child != null ==> child.Links() == old(child.Links())
    ensures child == null && parent != null ==> parent.Links() == old(parent.Links())
    ensures parent != null && child != null && parent != child ==>
              && parent.Links() == old(parent.Links()).(firstChild := child)
              && child.Links() == old(child.Links()).(parent := parent, nextSibling :=
                   if old(parent.firstChild) == null then old(child.nextSibling) else old(parent.firstChild))
  {
    if parent == null {
      return;
    }
    if child == null {
      return;
    }
    child.parent := parent;
    if parent.firstChild == null {
      parent.firstChild := child;
    } else {
      child.nextSibling := parent.firstChild;
      parent.firstChild := child;
    }
  }

  /** The same insertion, as a change of the links of a set of records. */
  method Relink(parent: Device, child: Device, ghost nodes: set<Device>)
    requires parent in nodes && child in nodes && parent != child && child.nextSibling == null
    modifies parent`firstChild, child`parent, child`nextSibling
    ensures Snapshot(nodes) == Relinked(old(Snapshot(nodes)), parent, child)
  {
    ghost var m := Snapshot(nodes);
    InsertChild(parent, child);
    assert forall d <- nodes :: d == parent || d == child || d.Links() == m[d];
    SnapshotIs(nodes, Relinked(m, parent, child));
  }

  /**
    Insertion keeps the shape. `f` is the shape of the chain starting at `first` that holds
    `parent` at `p`; `sub` is the shape of the lone map starting at `child`.
  */
  method InsertMap(parent: Device, child: Device, ghost first: Device?, ghost above: Device?,
                   ghost f: Tree<Device>, ghost p: Pos, ghost sub: Tree<Device>)
    requires Linked(first, above, f) && Linear(f) && Has(f, p) && At(f, p) == parent
    requires Linked(child, null, sub) && Linear(sub) && sub.Node? && sub.rest.Nil?
    requires Nodes(f) !! Nodes(sub)
    modifies parent`firstChild, child`parent, child`nextSibling
    ensures var grown := InsertUnder(f, p, sub);
            && Linked(first, above, grown) && Linear(grown) && Nodes(grown) == Nodes(f) + Nodes(sub)
            && Has(old(Contents(f)), p) && Contents(grown) == InsertUnder(old(Contents(f)), p, old(Contents(sub)))
  {
    ghost var nodes, grown := Nodes(f) + Nodes(sub), InsertUnder(f, p, sub);
    ghost var m, contents := Snapshot(nodes), Contents(grown);
    assert Linear(grown) && Nodes(grown) == nodes && Has(Contents(f), p)
           && contents == InsertUnder(Contents(f), p, Contents(sub)) by {
      LinearInsert(f, p, sub);
      ContentsInsert(f, p, sub);
    }
    assert parent in nodes && child in nodes && parent != child && child.nextSibling == null by {
      PositionInNodes(f, p);
      assert Linked(child.nextSibling, null, sub.rest);
    }
    ghost var m' := Relinked(m, parent, child);
    assert Shaped(m', first, above, grown) by {
      LinkedIsShaped(first, above, f, nodes);
      LinkedIsShaped(child, null, sub, nodes);
      ShapedInsert(m, first, above, f, p, sub, parent, child);
    }
    assert allocated(nodes);
    Relink(parent, child, nodes);
    assert Contents(grown) == contents;
    LinkedIsShaped(first, above, grown, nodes);
  }

  /** Loads a profile into a fresh map. */
  method CreateMapFromProfile(p: Profile, mem: Memory) returns (device: Device, ghost f: Tree<Device>)
    modifies mem
    ensures fresh(Nodes(f)) && Linear(f) && f.Node? && f.val == device && f.rest.Nil?
    ensures Linked(device, null, f)
    ensures Contents(f) == Build(p)
    ensures mem.live == old(mem.live) + Nodes(f)
    decreases p, 0
  {
    device := new Device(p, mem);
    f := Node(device, Nil, Nil);
    ghost var nodes := {device};
    var j := 0;
    while j < |p.children|
      invariant 0 <= j <= |p.children|
      invariant nodes == Nodes(f) && fresh(nodes)
      invariant Linear(f) && f.Node? && f.val == device && f.rest.Nil?
      invariant Linked(device, null, f)
      invariant Contents(f) == Node(Loaded(p), BuildChildren(p.children[..j]), Nil)
      invariant mem.live == old(mem.live) + nodes
    {
      InsertBuilt(Loaded(p), p.children, j);
      ghost var added;
      f, added := AddFromProfile(device, p.children[j], mem, f);
      nodes := nodes + added;
      j := j + 1;
    }
    assert p.children[..j] == p.children;
  }

  /** One turn of that loop: loads a child and inserts it. */
  method AddFromProfile(device: Device, p: Profile, mem: Memory, ghost f: Tree<Device>)
    returns (ghost grown: Tree<Device>, ghost added: set<Device>)
    requires Linear(f) && f.Node? && f.val == device && f.rest.Nil? && Linked(device, null, f)
    modifies mem, device`firstChild
    ensures Linear(grown) && grown.Node? && grown.val == device && grown.rest.Nil? && Linked(device, null, grown)
    ensures Contents(grown) == InsertUnder(old(Contents(f)), Here, Build(p))
    ensures fresh(added) && Nodes(grown) == Nodes(f) + added
    ensures mem.live == old(mem.live) + added
    decreases p, 1
  {
    ghost var before, nodes := Contents(f), Nodes(f);
    assert allocated(Nodes(f));
    var child, sub := CreateMapFromProfile(p, mem);
    assert nodes !! Nodes(sub);
    assert Linked(device, null, f) && Contents(f) == before;
    InsertMap(device, child, device, null, f, Here, sub);
    grown, added := InsertUnder(f, Here, sub), Nodes(sub);
  }

  // ----- removal -----

  /** Frees every record of a chain, children and siblings first. */
  method DestroyMap(node: Device?, mem: Memory, ghost above: Device?, ghost f: Tree<Device>)
    requires Linked(node, above, f) && Linear(f) && Nodes(f) <= mem.live
    modifies mem
    ensures mem.live == old(mem.live) - Nodes(f)
    decreases f
  {
    if node == null {
      return;
    }
    DestroyMap(node.firstChild, mem, node, f.kids);
    DestroyMap(node.nextSibling, mem, above, f.rest);
    mem.Free(node);
  }

  ghost function Tail(f: Tree<Device>, k: nat): (tail: Tree<Device>)
    requires k <= Siblings(f)
  {
    if k == 0 then f else Tail(f.rest, k - 1)
  }

  lemma {:induction false} TailStep(f: Tree<Device>, k: nat)
    requires k < Siblings(f)
    ensures Tail(f, k).Node? && Tail(f, k).rest == Tail(f, k + 1)
    ensures Sibling(f, k) == Tail(f, k).(rest := Nil)
    ensures Tail(f, k).val in Nodes(f)
  {
    if k > 0 {
      TailStep(f.rest, k - 1);
    }
  }

  lemma {:induction false} TailEnd(f: Tree<Device>, k: nat)
    requires k <= Siblings(f)
    ensures Tail(f, k).Nil? <==> k == Siblings(f)
  {
    if k > 0 {
      TailEnd(f.rest, k - 1);
    }
  }

  lemma {:induction false} FirstNamedInTail(f: Tree<Device>, name: string, k: nat)
    requires k <= Siblings(f)
    requires forall i :: 0 <= i < k ==> Sibling(f, i).val.name != name
    ensures FirstNamed(Contents(f), name) ==
            match FirstNamed(Contents(Tail(f, k)), name) { case Some(j) => Some(k + j) case None => None }
  {
    if k > 0 {
      assert Sibling(f, 0).val.name != name;
      forall i | 0 <= i < k - 1
        ensures Sibling(f.rest, i).val.name != name
      {
        assert Sibling(f, i + 1).val.name != name;
      }
      FirstNamedInTail(f.rest, name, k - 1);
    }
  }

  /** Walks a chain to the first record with this name, remembering the one before it. */
  method FindNamed(first: Device?, name: string, ghost above: Device?, ghost f: Tree<Device>)
    returns (found: Device?, prev: Device?)
    requires Linked(first, above, f)
    ensures found == null <==> FirstNamed(Contents(f), name).None?
    ensures found != null ==>
              var k := FirstNamed(Contents(f), name).value;
              && k < Siblings(f) && found == Sibling(f, k).val
              && prev == if k == 0 then null else Sibling(f, k - 1).val
  {
    found, prev := first, null;
    ghost var k := 0;
    while found != null && found.name != name
      invariant k <= Siblings(f) && Linked(found, above, Tail(f, k))
      invariant forall i :: 0 <= i < k ==> Sibling(f, i).val.name != name
      invariant prev == if k == 0 then null else Sibling(f, k - 1).val
      decreases Siblings(f) - k
    {
      TailEnd(f, k);
      TailStep(f, k);
      prev := found;
      found := found.nextSibling;
      k := k + 1;
    }
    FirstNamedInTail(f, name, k);
    TailEnd(f, k);
    if found != null {
      TailStep(f, k);
    }
  }

  lemma {:induction false} NeighboursDiffer(f: Tree<Device>, k: nat)
    requires Linear(f) && 0 < k < Siblings(f)
    ensures Sibling(f, k - 1).val != Sibling(f, k).val
  {
    if k == 1 {
      assert Sibling(f, 1).val in Nodes(f.rest);
    } else {
      NeighboursDiffer(f.rest, k - 1);
    }
  }

  /** Takes the k-th child of `node`, with its subtree, out of the map. */
  method Unlink(node: Device, found: Device, prev: Device?, ghost kids: Tree<Device>, ghost k: nat)
    requires Linked(node.firstChild, node, kids) && Linear(kids) && node !in Nodes(kids)
    requires k < Siblings(kids) && found == Sibling(kids, k).val
    requires prev == if k == 0 then null else Sibling(kids, k - 1).val
    modifies node`firstChild, Nodes(kids)`nextSibling
    ensures Linked(node.firstChild, node, DropSibling(kids, k))
    ensures Linked(found, node, Sibling(kids, k))
  {
    ghost var nodes := Nodes(kids);
    ghost var m := Snapshot(nodes);
    ghost var dropped, cut := DropSibling(kids, k), Sibling(kids, k);
    ghost var next := if k == 0 then found.nextSibling else node.firstChild;
    assert found in nodes && (prev != null ==> prev in nodes) && prev != found && Nodes(dropped) <= nodes && Nodes(cut) <= nodes by {
      LinkedIsShaped(node.firstChild, node, kids, nodes);
      ContentsDrop(kids, k);
      ShapedSiblings(m, node.firstChild, node, kids, k);
      if 0 < k {
        ShapedSiblings(m, node.firstChild, node, kids, k - 1);
        NeighboursDiffer(kids, k);
      }
    }
    ghost var m' := Bypassed(m, kids, k);
    assert Shaped(m', next, node, dropped) && Shaped(m', found, node, cut) by {
      LinkedIsShaped(node.firstChild, node, kids, nodes);
      ShapedDrop(m, node.firstChild, node, kids, k);
    }
    Bypass(node, found, prev, kids, k);
    LinkedIsShaped(next, node, dropped, nodes);
    LinkedIsShaped(found, node, cut, nodes);
  }

  /** The assignments that take a record out of its chain. */
  method Bypass(node: Device, found: Device, prev: Device?, ghost kids: Tree<Device>, ghost k: nat)
    requires k < Siblings(kids) && found == Sibling(kids, k).val && found in Nodes(kids)
    requires prev == if k == 0 then null else Sibling(kids, k - 1).val
    requires prev != null ==> prev in Nodes(kids) && prev != found
    modifies node`firstChild, Nodes(kids)`nextSibling
    ensures node.firstChild == if prev == null then old(found.nextSibling) else old(node.firstChild)
    ensures node !in Nodes(kids) ==>
              Snapshot(Nodes(kids)) == Bypassed(old(Snapshot(Nodes(kids))), kids, k)
  {
    ghost var m := Snapshot(Nodes(kids));
    if prev == null {
      node.firstChild := found.nextSibling;
    } else {
      prev.nextSibling := found.nextSibling;
    }
    found.nextSibling := null;
    if node !in Nodes(kids) {
      SnapshotIs(Nodes(kids), Bypassed(m, kids, k));
    }
  }

  /** Unlinks a child and frees its whole subtree. */
  method RemoveFound(node: Device, found: Device, prev: Device?, mem: Memory, ghost kids: Tree<Device>, ghost k: nat)
    requires Linked(node.firstChild, node, kids) && Linear(kids) && node !in Nodes(kids) && Nodes(kids) <= mem.live
    requires k < Siblings(kids) && found == Sibling(kids, k).val
    requires prev == if k == 0 then null else Sibling(kids, k - 1).val
    modifies node`firstChild, Nodes(kids)`nextSibling, mem
    ensures Linked(node.firstChild, node, DropSibling(kids, k)) && Linear(DropSibling(kids, k))
    ensures mem.live == old(mem.live) - Nodes(Sibling(kids, k))
  {
    ghost var dropped, cut := DropSibling(kids, k), Sibling(kids, k);
    assert Linear(dropped) && Linear(cut) && Nodes(cut) <= Nodes(kids) by {
      ContentsDrop(kids, k);
    }
    assert allocated(Nodes(dropped)) && allocated(Nodes(cut));
    Unlink(node, found, prev, kids, k);
    DestroyMap(found, mem, node, cut);
    assert Linked(node.firstChild, node, dropped);
  }

  /**
    Removes the first direct child with this name, with everything below it, and frees
    exactly those records; does nothing if no direct child has the name.
  */
  method RemoveChild(node: Device?, name: string, mem: Memory, ghost above: Device?, ghost f: Tree<Device>)
    requires Linked(node, above, f) && Linear(f) && Nodes(f) <= mem.live
    modifies Nodes(f)`firstChild, Nodes(f)`nextSibling, mem
    ensures f.Nil? || FirstNamed(old(Contents(f.kids)), name).None? ==>
              mem.live == old(mem.live) && Linked(node, above, f)
    ensures f.Node? && FirstNamed(old(Contents(f.kids)), name).Some? ==>
              var k := FirstNamed(old(Contents(f.kids)), name).value;
              && k < Siblings(f.kids)
              && Linked(node, above, f.(kids := DropSibling(f.kids, k)))
              && Linear(f.(kids := DropSibling(f.kids, k)))
              && mem.live == old(mem.live) - Nodes(Sibling(f.kids, k))
  {
    if node == null || node.firstChild == null {
      return;
    }
    ghost var kids, rest := f.kids, f.rest;
    assert allocated(Nodes(kids)) && allocated(Nodes(rest)) && Nodes(f) == {node} + Nodes(kids) + Nodes(rest);
    assert Linked(node.firstChild, node, kids) && Linked(node.nextSibling, above, rest);
    assert allocated(Nodes(f));
    var found, prev := FindNamed(node.firstChild, name, node, kids);
    if found == null {
      return;
    }
    ghost var k := FirstNamed(Contents(kids), name).value;
    RemoveFound(node, found, prev, mem, kids, k);
    assert Linked(node.nextSibling, above, rest);
    assert Nodes(DropSibling(kids, k)) <= Nodes(kids) by {
      ContentsDrop(kids, k);
    }
  }

  // ----- lookup -----

  method Get(node: Device?, name: string, ghost above: Device?, ghost f: Tree<Device>) returns (device: Device?)
    requires Linked(node, above, f)
    ensures device == null <==> Find(Contents(f), name).None?
    ensures device != null ==>
              var p := Find(Contents(f), name).value;
              Has(f, p) && device == At(f, p) && device in Nodes(f)
    decreases f
  {
    if node == null {
      return null;
    }
    if node.name == name {
      return node;
    }
    assert allocated(Nodes(f.kids)) && allocated(Nodes(f.rest));
    assert Linked(node.nextSibling, above, f.rest);
    ghost var kids, rest := Contents(f.kids), Contents(f.rest);
    device := Get(node.firstChild, name, node, f.kids);
    assert Contents(f.kids) == kids && Contents(f.rest) == rest;
    if device != null {
      return;
    }
    device := Get(node.nextSibling, name, above, f.rest);
    assert Contents(f.kids) == kids && Contents(f.rest) == rest;
  }

  // ----- allocation -----

  ghost function ParentAddress(above: Device?): (pa: Option<Word>)
    reads above
  {
    if above == null then None else Some(above.pa)
  }

  /** The addresses of one record, from its parent's address and the pool. */
  method AllocateOne(node: Device, emulated: Device, pool: AddressPool, ghost above: Device?)
    requires pool.Valid() && node.parent == above && above != node
    modifies node`pa, node`la, pool.taken
    ensures node.Record() == old(node.Record()).(pa := PhysicalFor(old(ParentAddress(above)), node.port),
              la := LogicalFor(old(ParentAddress(above)), old(node.Record()), emulated.name, old(pool.Slots())))
    ensures pool.Slots() == PoolAfter(old(ParentAddress(above)), old(node.Record()), old(pool.Slots()))
  {
    if node.parent == null {
      node.pa := 0;
    } else {
      node.pa := ChildAddress(node.parent.pa, node.port);
    }
    if node.la == UNKNOWN {
      if node.parent == null {
        if node.name == emulated.name {
          node.la := BROADCAST;
        }
      } else {
        node.la := pool.Allocate(node.kind);
      }
    }
  }

  /** The in-place pass computes exactly the pass on the network's value. */
  method AllocatePhysicalLogicalAddresses(node: Device?, emulated: Device?, pool: AddressPool,
                                          ghost above: Device?, ghost f: Tree<Device>)
    requires pool.Valid() && Linked(node, above, f) && Linear(f) && above !in Nodes(f)
    modifies Nodes(f)`pa, Nodes(f)`la, pool.taken
    ensures emulated == null ==> pool.Slots() == old(pool.Slots()) && Contents(f) == old(Contents(f))
    ensures emulated != null ==>
              Allocation(Contents(f), pool.Slots()) ==
              Pass(old(Contents(f)), old(ParentAddress(above)), emulated.name, old(pool.Slots()))
    decreases f
  {
    if emulated == null || node == null {
      return;
    }
    ghost var d, parent, slots := node.Record(), ParentAddress(above), pool.Slots();
    ghost var kids, rest, below, beside := f.kids, f.rest, Contents(f.kids), Contents(f.rest);
    assert allocated(Nodes(kids)) && allocated(Nodes(rest));
    assert node !in Nodes(kids) && node !in Nodes(rest) && Nodes(kids) !! Nodes(rest);
    assert Linked(node.firstChild, node, kids) && Linked(node.nextSibling, above, rest);
    AllocateOne(node, emulated, pool, above);
    ghost var updated := d.(pa := PhysicalFor(parent, d.port), la := LogicalFor(parent, d, emulated.name, slots));
    assert Contents(rest) == beside && Contents(kids) == below;
    AllocatePhysicalLogicalAddresses(node.nextSibling, emulated, pool, above, rest);
    ghost var siblings := Pass(beside, parent, emulated.name, PoolAfter(parent, d, slots));
    assert Contents(kids) == below && Allocation(Contents(rest), pool.Slots()) == siblings;
    AllocatePhysicalLogicalAddresses(node.firstChild, emulated, pool, node, kids);
    ghost var children := Pass(below, Some(updated.pa), emulated.name, siblings.pool);
    assert Allocation(Contents(kids), pool.Slots()) == children && Contents(rest) == siblings.tree;
  }

  // ----- whole maps -----

  /** Mentioning `Seen(f)` unfolds `Represents` for `f`; elsewhere it stays folded, which keeps callers' proofs small. */
  ghost predicate Seen(f: Tree<Device>) {
    true
  }

  /** `root` is a whole map of shape `f` with contents `t`. */
  ghost predicate Represents(root: Device, f: Tree<Device>, t: Tree<Info>)
    reads Nodes(f)
  {
    forall g {:trigger Seen(g)} :: g == f ==>
      && Linear(g) && g.Node? && g.val == root && g.rest.Nil?
      && Linked(root, null, g) && Contents(g) == t
  }

  method CreateMap(p: Profile, mem: Memory) returns (device: Device, ghost f: Tree<Device>)
    modifies mem
    ensures fresh(Nodes(f)) && mem.live == old(mem.live) + Nodes(f)
    ensures Represents(device, f, Build(p))
  {
    device, f := CreateMapFromProfile(p, mem);
  }

  method FreeMap(root: Device, mem: Memory, ghost f: Tree<Device>, ghost t: Tree<Info>)
    requires Represents(root, f, t) && Nodes(f) <= mem.live
    modifies mem
    ensures mem.live == old(mem.live) - Nodes(f)
  {
    assert Seen(f);
    DestroyMap(root, mem, null, f);
  }

  /** Lookup in a whole map, by its contents. */
  method FindDevice(root: Device, name: string, ghost f: Tree<Device>, ghost t: Tree<Info>) returns (device: Device?)
    requires Represents(root, f, t)
    ensures Represents(root, f, t)
    ensures device == null <==> Find(t, name).None?
    ensures device != null ==>
              var p := Find(t, name).value;
              Has(f, p) && device == At(f, p) && device in Nodes(f) && device.Record() == At(t, p)
  {
    assert Seen(f);
    assert allocated(Nodes(f));
    device := Get(root, name, null, f);
    if device != null {
      ContentsAt(f, Find(t, name).value);
    }
  }

  /** Inserts a map under a record of another and runs the pass over the result. */
  method InsertAndAllocate(root: Device, parent: Device, child: Device, emulated: Device, pool: AddressPool,
                           ghost f: Tree<Device>, ghost t: Tree<Info>, ghost p: Pos,
                           ghost sub: Tree<Device>, ghost u: Tree<Info>)
    requires pool.Valid() && Represents(root, f, t) && Represents(child, sub, u) && Nodes(f) !! Nodes(sub)
    requires Has(f, p) && At(f, p) == parent
    modifies Nodes(f), Nodes(sub), pool.taken
    ensures Has(t, p) && u.Node? && Has(f, p) && sub.Node?
    ensures var grown, after := InsertUnder(f, p, sub), Pass(InsertUnder(t, p, u), None, emulated.name, old(pool.Slots()));
            && Nodes(grown) == Nodes(f) + Nodes(sub)
            && pool.Slots() == after.pool && Represents(root, grown, after.tree)
  {
    assert Seen(f) && Seen(sub);
    ghost var grown := InsertUnder(f, p, sub);
    ContentsInsert(f, p, sub);
    PositionInNodes(f, p);
    assert child in Nodes(sub);
    assert allocated(Nodes(grown));
    InsertMap(parent, child, root, null, f, p, sub);
    AllocatePhysicalLogicalAddresses(root, emulated, pool, null, grown);
    InsertedRoot(f, p, sub);
  }

  /** The pass over a whole map, from its root. */
  method AllocateMap(root: Device, emulated: Device, pool: AddressPool, ghost f: Tree<Device>, ghost t: Tree<Info>)
    requires pool.Valid() && Represents(root, f, t)
    modifies Nodes(f), pool.taken
    ensures var after := Pass(t, None, emulated.name, old(pool.Slots()));
            pool.Slots() == after.pool && Represents(root, f, after.tree)
  {
    assert Seen(f);
    assert allocated(Nodes(f));
    AllocatePhysicalLogicalAddresses(root, emulated, pool, null, f);
  }

  lemma InsertedRoot<T>(f: Tree<T>, p: Pos, sub: Tree<T>)
    requires Has(f, p) && sub.Node?
    ensures InsertUnder(f, p, sub).Node? && InsertUnder(f, p, sub).val == f.val
    ensures f.rest.Nil? ==> InsertUnder(f, p, sub).rest.Nil?
  {
  }

  /** Removes a direct child of the root by name; `g` is the shape afterwards. */
  method RemoveFromRoot(root: Device, name: string, mem: Memory, ghost f: Tree<Device>, ghost t: Tree<Info>)
    returns (ghost g: Tree<Device>)
    requires Represents(root, f, t) && mem.live == Nodes(f)
    modifies Nodes(f), mem
    ensures f.Node? && f.rest.Nil? && t.Node? && Siblings(t.kids) == Siblings(f.kids)
    ensures mem.live == Nodes(g) && Nodes(g) <= Nodes(f)
    ensures match FirstNamed(t.kids, name)
            case None => g == f && Represents(root, g, t)
            case Some(k) =>
              g == f.(kids := DropSibling(f.kids, k)) && Represents(root, g, t.(kids := DropSibling(t.kids, k)))
  {
    assert Seen(f);
    assert allocated(Nodes(f));
    ContentsSiblings(f.kids);
    RemoveChild(root, name, mem, null, f);
    assert Contents(f) == t;
    g := f;
    if FirstNamed(t.kids, name).Some? {
      ghost var k := FirstNamed(t.kids, name).value;
      ContentsDrop(f.kids, k);
      g := f.(kids := DropSibling(f.kids, k));
      assert Contents(g) == t.(kids := DropSibling(t.kids, k));
      assert Nodes(g) == Nodes(f) - Nodes(Sibling(f.kids, k));
    }
  }

  // ----- changing one record's addresses -----

  ghost function Records(ds: set<Device>): (m: map<Device, Info>)
    reads ds`pa, ds`la
  {
    map d <- ds :: d.Record()
  }

  ghost function Recorded(m: map<Device, Info>, f: Tree<Device>): (t: Tree<Info>)
    requires Nodes(f) <= m.Keys
  {
    match f
    case Nil => Nil
    case Node(d, kids, rest) => Node(m[d], Recorded(m, kids), Recorded(m, rest))
  }

  lemma {:induction false} ContentsRecorded(f: Tree<Device>, ds: set<Device>)
    requires Nodes(f) <= ds
    ensures Contents(f) == Recorded(Records(ds), f)
  {
    if f.Node? {
      ContentsRecorded(f.kids, ds);
      ContentsRecorded(f.rest, ds);
    }
  }

  lemma {:induction false} RecordedFrame(m: map<Device, Info>, f: Tree<Device>, d: Device, r: Info)
    requires Nodes(f) <= m.Keys && d !in Nodes(f)
    ensures Recorded(m[d := r], f) == Recorded(m, f)
  {
    if f.Node? {
      RecordedFrame(m, f.kids, d, r);
      RecordedFrame(m, f.rest, d, r);
    }
  }

  /** Changing one record changes the contents at its position only. */
  lemma {:induction false} RecordedPut(m: map<Device, Info>, f: Tree<Device>, p: Pos, d: Device, r: Info)
    requires Nodes(f) <= m.Keys && Linear(f) && Has(f, p) && At(f, p) == d
    ensures d in m && Has(Recorded(m, f), p) && Recorded(m[d := r], f) == Put(Recorded(m, f), p, r)
  {
    PositionInNodes(f, p);
    match p
    case Here =>
      RecordedFrame(m, f.kids, d, r);
      RecordedFrame(m, f.rest, d, r);
    case Down(q) =>
      PositionInNodes(f.kids, q);
      RecordedFrame(m, f.rest, d, r);
      RecordedPut(m, f.kids, q, d, r);
    case Across(q) =>
      PositionInNodes(f.rest, q);
      RecordedFrame(m, f.kids, d, r);
      RecordedPut(m, f.rest, q, d, r);
  }

  method SetAddresses(root: Device, device: Device, pa: Word, la: Address,
                      ghost f: Tree<Device>, ghost t: Tree<Info>, ghost p: Pos)
    requires Represents(root, f, t) && Has(f, p) && At(f, p) == device
    modifies device`pa, device`la
    ensures Has(t, p) && Represents(root, f, Put(t, p, At(t, p).(pa := pa, la := la)))
  {
    assert Seen(f);
    assert allocated(Nodes(f));
    ghost var m, r := Records(Nodes(f)), device.Record().(pa := pa, la := la);
    ContentsAt(f, p);
    ContentsRecorded(f, Nodes(f));
    RecordedPut(m, f, p, device, r);
    device.pa := pa;
    device.la := la;
    assert Records(Nodes(f)) == m[device := r];
    ContentsRecorded(f, Nodes(f));
  }
}
