/**
  The CEC network as a value: device records, profiles, and the allocation pass that gives
  every device a physical and a logical address.
*/
module Network {
  import opened Wrappers
  import opened LogicalAddress
  import opened PhysicalAddress
  import opened Trees

  datatype Info = Info(name: string, kind: DeviceType, port: Word, numberChildren: nat, pa: Word, la: Address)

  // ----- building from a profile -----

  /** A device entry of a profile. The profile's number_children is the length of `children`. */
  datatype Profile = Profile(name: string, kind: DeviceType, port: Word, children: seq<Profile>)

  const NO_PHYSICAL_ADDRESS: Word := 0xFFFF

  /** A device record as it is loaded, before any address is given. */
  function Loaded(p: Profile): (d: Info) {
    Info(p.name, p.kind, p.port, |p.children|, NO_PHYSICAL_ADDRESS, UNKNOWN)
  }

  function Build(p: Profile): (t: Tree<Info>)
    ensures t.Node? && t.rest.Nil?
  {
    Node(Loaded(p), BuildChildren(p.children), Nil)
  }

  /** The child chain after all of `ps` were inserted, one after the other, at its head. */
  function BuildChildren(ps: seq<Profile>): (t: Tree<Info>) {
    if ps == [] then Nil
    else
      var last := ps[|ps| - 1];
      Node(Loaded(last), BuildChildren(last.children), BuildChildren(ps[..|ps| - 1]))
  }

  /** Inserting the j-th built child is building with one more child. */
  lemma InsertBuilt(d: Info, ps: seq<Profile>, j: nat)
    requires j < |ps|
    ensures InsertUnder(Node(d, BuildChildren(ps[..j]), Nil), Here, Build(ps[j])) ==
            Node(d, BuildChildren(ps[..j + 1]), Nil)
  {
    assert ps[..j + 1][..j] == ps[..j];
  }

  /** A sibling chain read back as profiles, in chain order. */
  function ToProfiles(t: Tree<Info>): (ps: seq<Profile>) {
    if t.Nil? then []
    else [Profile(t.val.name, t.val.kind, t.val.port, ToProfiles(t.kids))] + ToProfiles(t.rest)
  }

  /** The profile with every child list reversed. */
  function Mirror(p: Profile): (m: Profile)
    decreases p, 1
  {
    p.(children := MirrorAll(p.children))
  }

  function MirrorAll(ps: seq<Profile>): (r: seq<Profile>)
    ensures |r| == |ps|
    ensures forall i :: 0 <= i < |ps| ==> r[i] == Mirror(ps[|ps| - 1 - i])
    decreases ps, 0
  {
    if ps == [] then [] else [Mirror(ps[|ps| - 1])] + MirrorAll(ps[..|ps| - 1])
  }

  lemma {:induction false} MirrorInvolutive(p: Profile)
    ensures Mirror(Mirror(p)) == p
    decreases p
  {
    forall i | 0 <= i < |p.children|
      ensures MirrorAll(MirrorAll(p.children))[i] == p.children[i]
    {
      MirrorInvolutive(p.children[i]);
    }
    assert MirrorAll(MirrorAll(p.children)) == p.children;
  }

  /** Building yields the profile's own tree with every child list reversed. */
  lemma {:induction false} BuildReverses(p: Profile)
    ensures ToProfiles(Build(p)) == [Mirror(p)]
    decreases p, 1
  {
    BuildChildrenReverses(p.children);
  }

  lemma {:induction false} BuildChildrenReverses(ps: seq<Profile>)
    ensures ToProfiles(BuildChildren(ps)) == MirrorAll(ps)
    decreases ps, 0
  {
    if ps != [] {
      BuildReverses(ps[|ps| - 1]);
      BuildChildrenReverses(ps[..|ps| - 1]);
      assert ToProfiles(Build(ps[|ps| - 1]))[0] == Mirror(ps[|ps| - 1]);
    }
  }

  /** So the profile can be read back from the built tree, and building is injective. */
  lemma BuildRoundTrip(p: Profile)
    ensures Mirror(ToProfiles(Build(p))[0]) == p
  {
    BuildReverses(p);
    MirrorInvolutive(p);
  }

  /** Every node's child chain is as long as its number_children. */
  predicate CountsAgree(t: Tree<Info>) {
    t.Node? ==> Siblings(t.kids) == t.val.numberChildren && CountsAgree(t.kids) && CountsAgree(t.rest)
  }

  lemma {:induction false} BuildCounts(p: Profile)
    ensures CountsAgree(Build(p))
    decreases p, 1
  {
    BuildChildrenCounts(p.children);
  }

  lemma {:induction false} BuildChildrenCounts(ps: seq<Profile>)
    ensures CountsAgree(BuildChildren(ps)) && Siblings(BuildChildren(ps)) == |ps|
    decreases ps, 0
  {
    if ps != [] {
      BuildCounts(ps[|ps| - 1]);
      BuildChildrenCounts(ps[..|ps| - 1]);
    }
  }

  // ----- lookup by name -----

  /** The first device with this name in node-children-siblings order. */
  function Find(t: Tree<Info>, name: string): (p: Option<Pos>)
    ensures p.Some? ==> Has(t, p.value) && At(t, p.value).name == name
  {
    if t.Nil? then None
    else if t.val.name == name then Some(Here)
    else
      match Find(t.kids, name)
      case Some(q) => Some(Down(q))
      case None =>
        match Find(t.rest, name)
        case Some(q) => Some(Across(q))
        case None => None
  }

  /** The index of a position in the lookup order. */
  function Rank<T>(t: Tree<T>, p: Pos): (i: nat)
    requires Has(t, p)
    ensures i < |Preorder(t)| && Preorder(t)[i] == At(t, p)
  {
    match p
    case Here => 0
    case Down(q) => 1 + Rank(t.kids, q)
    case Across(q) => 1 + |Preorder(t.kids)| + Rank(t.rest, q)
  }

  /** Lookup finds the first match of the lookup order, and fails only if there is none. */
  lemma {:induction false} FindIsFirst(t: Tree<Info>, name: string)
    ensures Find(t, name).None? ==> forall i :: 0 <= i < |Preorder(t)| ==> Preorder(t)[i].name != name
    ensures Find(t, name).Some? ==>
              var r := Rank(t, Find(t, name).value);
              Preorder(t)[r].name == name && forall i :: 0 <= i < r ==> Preorder(t)[i].name != name
  {
    if t.Node? && t.val.name != name {
      FindIsFirst(t.kids, name);
      FindIsFirst(t.rest, name);
    }
  }

  lemma {:induction false} RankInjective<T>(t: Tree<T>, p: Pos, q: Pos)
    requires Has(t, p) && Has(t, q) && Rank(t, p) == Rank(t, q)
    ensures p == q
  {
    match (p, q)
    case (Down(a), Down(b)) => RankInjective(t.kids, a, b);
    case (Across(a), Across(b)) => RankInjective(t.rest, a, b);
    case (Here, _) =>
    case (Down(_), _) =>
    case (Across(_), _) =>
  }

  ghost predicate UniqueNames(t: Tree<Info>) {
    forall i, j :: 0 <= i < j < |Preorder(t)| ==> Preorder(t)[i].name != Preorder(t)[j].name
  }

  /** With unique names, lookup inverts naming. */
  lemma FindInvertsNaming(t: Tree<Info>, p: Pos)
    requires UniqueNames(t) && Has(t, p)
    ensures Find(t, At(t, p).name) == Some(p)
  {
    FindIsFirst(t, At(t, p).name);
    assert Preorder(t)[Rank(t, p)].name == At(t, p).name;
    RankInjective(t, p, Find(t, At(t, p).name).value);
  }

  /** The index of the first tree of a chain whose own record has this name. */
  function FirstNamed(t: Tree<Info>, name: string): (k: Option<nat>)
    ensures k.Some? ==> k.value < Siblings(t) && Sibling(t, k.value).val.name == name
    ensures k.Some? ==> forall i :: 0 <= i < k.value ==> Sibling(t, i).val.name != name
    ensures k.None? ==> forall i :: 0 <= i < Siblings(t) ==> Sibling(t, i).val.name != name
  {
    if t.Nil? then None
    else if t.val.name == name then Some(0)
    else
      match FirstNamed(t.rest, name)
      case Some(k) => Some(k + 1)
      case None => None
  }

  // ----- the allocation pass -----

  /** `parent` is the address of the parent, or nothing for the root. */
  function PhysicalFor(parent: Option<Word>, port: Word): (pa: Word) {
    match parent
    case None => 0
    case Some(pa) => Extend(pa, port)
  }

  /** Only a device without an address is given one; the root gets 15 if it is the emulated device. */
  function LogicalFor(parent: Option<Word>, d: Info, emulated: string, pool: Pool): (la: Address) {
    if d.la != UNKNOWN then d.la
    else if parent.None? then (if d.name == emulated then BROADCAST else UNKNOWN)
    else FirstFit(pool, d.kind)
  }

  function PoolAfter(parent: Option<Word>, d: Info, pool: Pool): (after: Pool) {
    if d.la == UNKNOWN && parent.Some? then Taken(pool, d.kind) else pool
  }

  datatype Allocation = Allocation(tree: Tree<Info>, pool: Pool)

  /** The pass over a sibling chain: node, then siblings, then children. */
  function Pass(t: Tree<Info>, parent: Option<Word>, emulated: string, pool: Pool): (r: Allocation)
    ensures r.tree.Node? == t.Node?
  {
    match t
    case Nil => Allocation(Nil, pool)
    case Node(d, kids, rest) =>
      var pa := PhysicalFor(parent, d.port);
      var la := LogicalFor(parent, d, emulated, pool);
      var siblings := Pass(rest, parent, emulated, PoolAfter(parent, d, pool));
      var children := Pass(kids, Some(pa), emulated, siblings.pool);
      Allocation(Node(d.(pa := pa, la := la), children.tree, siblings.tree), children.pool)
  }

  /** The pass from the root: the root is at 0, and the pool goes to the children. */
  lemma PassFromRoot(t: Tree<Info>, emulated: string, pool: Pool)
    requires t.Node? && t.rest.Nil?
    ensures var children := Pass(t.kids, Some(0), emulated, pool);
            Pass(t, None, emulated, pool) ==
            Allocation(Node(t.val.(pa := 0, la := LogicalFor(None, t.val, emulated, pool)), children.tree, Nil), children.pool)
  {
    assert Pass(t.rest, None, emulated, pool) == Allocation(Nil, pool);
  }

  /** The pass changes addresses only. */
  lemma {:induction false} PassKeeps(t: Tree<Info>, parent: Option<Word>, emulated: string, pool: Pool, p: Pos)
    ensures var after := Pass(t, parent, emulated, pool).tree;
            && Has(after, p) == Has(t, p)
            && (Has(t, p) ==>
                  At(after, p) == At(t, p).(pa := At(after, p).pa, la := At(after, p).la)
                  && (At(t, p).la != UNKNOWN ==> At(after, p).la == At(t, p).la))
  {
    if t.Node? {
      var d := t.val;
      var siblings := Pass(t.rest, parent, emulated, PoolAfter(parent, d, pool));
      match p
      case Here =>
      case Down(q) => PassKeeps(t.kids, Some(PhysicalFor(parent, d.port)), emulated, siblings.pool, q);
      case Across(q) => PassKeeps(t.rest, parent, emulated, PoolAfter(parent, d, pool), q);
    }
  }

  /** A chain with its addresses taken away. */
  function Erased(t: Tree<Info>): (u: Tree<Info>)
    ensures u.Node? == t.Node?
  {
    match t
    case Nil => Nil
    case Node(d, kids, rest) => Node(d.(pa := NO_PHYSICAL_ADDRESS, la := UNKNOWN), Erased(kids), Erased(rest))
  }

  lemma {:induction false} PassErased(t: Tree<Info>, parent: Option<Word>, emulated: string, pool: Pool)
    ensures Erased(Pass(t, parent, emulated, pool).tree) == Erased(t)
  {
    if t.Node? {
      var siblings := Pass(t.rest, parent, emulated, PoolAfter(parent, t.val, pool));
      PassErased(t.rest, parent, emulated, PoolAfter(parent, t.val, pool));
      PassErased(t.kids, Some(PhysicalFor(parent, t.val.port)), emulated, siblings.pool);
    }
  }

  lemma {:induction false} InsertErased(t: Tree<Info>, p: Pos, sub: Tree<Info>)
    requires Has(t, p) && sub.Node?
    ensures Has(Erased(t), p) && Erased(InsertUnder(t, p, sub)) == InsertUnder(Erased(t), p, Erased(sub))
  {
    match p
    case Here =>
    case Down(q) => InsertErased(t.kids, q, sub);
    case Across(q) => InsertErased(t.rest, q, sub);
  }

  /** A freshly built map has no addresses. */
  lemma {:induction false} BuildErased(ps: seq<Profile>)
    ensures Erased(BuildChildren(ps)) == BuildChildren(ps)
  {
    if ps != [] {
      BuildErased(ps[|ps| - 1].children);
      BuildErased(ps[..|ps| - 1]);
    }
  }

  // ----- physical addresses are port paths -----

  /** The ports walked through to reach a node of a chain of children. */
  function Ports(t: Tree<Info>, p: Pos): (path: seq<Word>)
    requires Has(t, p)
  {
    match p
    case Here => [t.val.port]
    case Down(q) => [t.val.port] + Ports(t.kids, q)
    case Across(q) => Ports(t.rest, q)
  }

  /** The port path of a node of a map: the ports walked through below the root. */
  function PortPath(t: Tree<Info>, p: Pos): (path: seq<Word>)
    requires Has(t, p)
  {
    match p
    case Here => []
    case Down(q) => Ports(t.kids, q)
    case Across(q) => PortPath(t.rest, q)
  }

  lemma {:induction false} ChainAddresses(t: Tree<Info>, parent: Word, emulated: string, pool: Pool, p: Pos)
    requires Has(t, p)
    ensures var after := Pass(t, Some(parent), emulated, pool).tree;
            Has(after, p) && At(after, p).pa == Along(parent, Ports(t, p))
  {
    var d := t.val;
    var siblings := Pass(t.rest, Some(parent), emulated, PoolAfter(Some(parent), d, pool));
    match p
    case Here =>
    case Down(q) =>
      ChainAddresses(t.kids, Extend(parent, d.port), emulated, siblings.pool, q);
      assert Ports(t, p)[1..] == Ports(t.kids, q);
    case Across(q) => ChainAddresses(t.rest, parent, emulated, PoolAfter(Some(parent), d, pool), q);
  }

  /** After a pass from the root, every device's physical address is the one its port path stands for. */
  lemma {:induction false} PhysicalAddressIsPath(t: Tree<Info>, emulated: string, pool: Pool, p: Pos)
    requires Has(t, p)
    ensures var after := Pass(t, None, emulated, pool).tree;
            Has(after, p) && At(after, p).pa == AddressOf(PortPath(t, p))
  {
    AlongFromRoot(PortPath(t, p));
    match p
    case Here =>
    case Down(q) =>
      var siblings := Pass(t.rest, None, emulated, pool);
      ChainAddresses(t.kids, 0, emulated, siblings.pool, q);
    case Across(q) => PhysicalAddressIsPath(t.rest, emulated, pool, q);
  }

  /** No two siblings share a port. */
  predicate DistinctPorts(t: Tree<Info>) {
    t.Node? ==> !PortUsed(t.rest, t.val.port) && DistinctPorts(t.kids) && DistinctPorts(t.rest)
  }

  predicate PortUsed(t: Tree<Info>, port: Word) {
    t.Node? && (t.val.port == port || PortUsed(t.rest, port))
  }

  lemma {:induction false} FirstPortUsed(t: Tree<Info>, p: Pos)
    requires Has(t, p)
    ensures Ports(t, p) != [] && PortUsed(t, Ports(t, p)[0])
  {
    match p
    case Here =>
    case Down(_) =>
    case Across(q) => FirstPortUsed(t.rest, q);
  }

  lemma {:induction false} PortsIdentify(t: Tree<Info>, p: Pos, q: Pos)
    requires DistinctPorts(t) && Has(t, p) && Has(t, q)
    requires Ports(t, p) == Ports(t, q)
    ensures p == q
  {
    match (p, q)
    case (Here, Here) =>
    case (Down(a), Down(b)) =>
      assert Ports(t.kids, a) == Ports(t, p)[1..] && Ports(t.kids, b) == Ports(t, q)[1..];
      PortsIdentify(t.kids, a, b);
    case (Across(a), Across(b)) => PortsIdentify(t.rest, a, b);
    case (Across(a), _) => FirstPortUsed(t.rest, a);
    case (_, Across(b)) => FirstPortUsed(t.rest, b);
    case (Here, Down(b)) => FirstPortUsed(t.kids, b);
    case (Down(a), Here) => FirstPortUsed(t.kids, a);
  }

  /** `p` is the position of `q` or of one of its ancestors. */
  predicate Ancestor(p: Pos, q: Pos) {
    match p
    case Here => q.Here? || q.Down?
    case Down(a) => q.Down? && Ancestor(a, q.below)
    case Across(a) => q.Across? && Ancestor(a, q.beside)
  }

  /** Where sibling ports differ, ancestors are the prefixes of the port path. */
  lemma {:induction false} AncestorIsPrefix(t: Tree<Info>, p: Pos, q: Pos)
    requires DistinctPorts(t) && Has(t, p) && Has(t, q)
    ensures Ancestor(p, q) <==> Ports(t, p) <= Ports(t, q)
  {
    FirstPortUsed(t, p);
    FirstPortUsed(t, q);
    match (p, q)
    case (Down(a), Down(b)) =>
      AncestorIsPrefix(t.kids, a, b);
      PrefixAfterFirst(t.val.port, Ports(t.kids, a), Ports(t.kids, b));
    case (Across(a), Across(b)) => AncestorIsPrefix(t.rest, a, b);
    case (Across(a), _) => FirstPortUsed(t.rest, a);
    case (_, Across(b)) => FirstPortUsed(t.rest, b);
    case (Here, _) =>
    case (Down(a), Here) => FirstPortUsed(t.kids, a);
  }

  lemma PrefixAfterFirst(x: Word, a: seq<Word>, b: seq<Word>)
    ensures [x] + a <= [x] + b <==> a <= b
  {
    assert ([x] + a)[1..] == a && ([x] + b)[1..] == b;
    if [x] + a <= [x] + b {
      assert forall i :: 0 <= i < |a| ==> a[i] == ([x] + a)[i + 1] == ([x] + b)[i + 1] == b[i];
    }
  }

  /** After a pass, to depth 4, ancestors in the map are the nibble-prefixes of the address. */
  lemma AncestorsByAddress(t: Tree<Info>, emulated: string, pool: Pool, p: Pos, q: Pos)
    requires t.Node? && t.rest.Nil? && DistinctPorts(t.kids)
    requires Has(t, p) && Has(t, q)
    requires PortsInRange(PortPath(t, p)) && |PortPath(t, p)| <= DEPTH
    requires PortsInRange(PortPath(t, q)) && |PortPath(t, q)| <= DEPTH
    ensures var after := Pass(t, None, emulated, pool).tree;
            && Has(after, p) && Has(after, q)
            && (Ancestor(p, q) <==> NibblePrefix(At(after, p).pa, At(after, q).pa))
  {
    PhysicalAddressIsPath(t, emulated, pool, p);
    PhysicalAddressIsPath(t, emulated, pool, q);
    AncestorIsNibblePrefix(PortPath(t, p), PortPath(t, q));
    match (p, q) {
      case (Here, _) =>
      case (Down(a), Here) => FirstPortUsed(t.kids, a);
      case (Down(a), Down(b)) => AncestorIsPrefix(t.kids, a, b);
      case _ =>
    }
  }

  /** With ports 1..15 that differ between siblings, devices to depth 4 have different addresses. */
  lemma PhysicalAddressesUnique(t: Tree<Info>, emulated: string, pool: Pool, p: Pos, q: Pos)
    requires t.Node? && t.rest.Nil? && DistinctPorts(t.kids)
    requires Has(t, p) && Has(t, q)
    requires PortsInRange(PortPath(t, p)) && |PortPath(t, p)| <= DEPTH
    requires PortsInRange(PortPath(t, q)) && |PortPath(t, q)| <= DEPTH
    ensures var after := Pass(t, None, emulated, pool).tree;
            && Has(after, p) && Has(after, q)
            && (At(after, p).pa == At(after, q).pa <==> p == q)
  {
    PhysicalAddressIsPath(t, emulated, pool, p);
    PhysicalAddressIsPath(t, emulated, pool, q);
    var a, b := PortPath(t, p), PortPath(t, q);
    SameAddress(a, b);
    PrefixOfSignificant(a);
    PrefixOfSignificant(b);
    if AddressOf(a) == AddressOf(b) {
      assert |Digits(a)| == |Digits(b)|;
      assert forall i :: 0 <= i < |a| ==> a[i] == Digits(a)[i] == Digits(b)[i] == b[i];
      assert a == b;
      match (p, q) {
        case (Here, Here) =>
        case (Down(c), Down(d)) => PortsIdentify(t.kids, c, d);
        case (Here, Down(d)) => FirstPortUsed(t.kids, d);
        case (Down(c), Here) => FirstPortUsed(t.kids, c);
        case _ =>
      }
    }
  }

  lemma {:induction false} AncestorPorts(t: Tree<Info>, p: Pos, q: Pos)
    requires Has(t, p) && Has(t, q) && Ancestor(p, q)
    ensures Ports(t, p) <= Ports(t, q)
  {
    match p
    case Here =>
    case Down(a) =>
      AncestorPorts(t.kids, a, q.below);
      PrefixAfterFirst(t.val.port, Ports(t.kids, a), Ports(t.kids, q.below));
    case Across(a) => AncestorPorts(t.rest, a, q.beside);
  }

  /**
    Below a device with four significant ports on its path, which for ports 1..15 is a device
    at depth 4, every device repeats its physical address.
  */
  lemma DeeperRepeats(t: Tree<Info>, emulated: string, pool: Pool, p: Pos, q: Pos)
    requires t.Node? && t.rest.Nil? && Has(t, p) && Has(t, q) && Ancestor(p, q)
    requires var path := PortPath(t, p);
             DEPTH <= |Significant(path)| || (PortsInRange(path) && DEPTH <= |path|)
    ensures var after := Pass(t, None, emulated, pool).tree;
            Has(after, p) && Has(after, q) && At(after, q).pa == At(after, p).pa
  {
    var above, below := PortPath(t, p), PortPath(t, q);
    PhysicalAddressIsPath(t, emulated, pool, p);
    PhysicalAddressIsPath(t, emulated, pool, q);
    if p.Down? {
      AncestorPorts(t.kids, p.below, q.below);
    }
    if PortsInRange(above) {
      PrefixOfSignificant(above);
    }
    SignificantPrefix(above, below);
    SameAddress(above, below);
  }

  // ----- re-running the pass -----

  /** What a pass leaves behind at every node. */
  predicate Settled(t: Tree<Info>, parent: Option<Word>, emulated: string) {
    t.Node? ==>
      && t.val.pa == PhysicalFor(parent, t.val.port)
      && (t.val.la == UNKNOWN ==> parent.None? && t.val.name != emulated)
      && Settled(t.rest, parent, emulated)
      && Settled(t.kids, Some(t.val.pa), emulated)
  }

  lemma {:induction false} PassSettles(t: Tree<Info>, parent: Option<Word>, emulated: string, pool: Pool)
    ensures Settled(Pass(t, parent, emulated, pool).tree, parent, emulated)
  {
    if t.Node? {
      var siblings := Pass(t.rest, parent, emulated, PoolAfter(parent, t.val, pool));
      PassSettles(t.rest, parent, emulated, PoolAfter(parent, t.val, pool));
      PassSettles(t.kids, Some(PhysicalFor(parent, t.val.port)), emulated, siblings.pool);
    }
  }

  lemma {:induction false} SettledIsFixed(t: Tree<Info>, parent: Option<Word>, emulated: string, pool: Pool)
    requires Settled(t, parent, emulated)
    ensures Pass(t, parent, emulated, pool) == Allocation(t, pool)
  {
    if t.Node? {
      SettledIsFixed(t.rest, parent, emulated, pool);
      SettledIsFixed(t.kids, Some(t.val.pa), emulated, pool);
    }
  }

  /** A pass changes no node and no slot exactly when the map is what a pass leaves behind. */
  lemma UnchangedIffSettled(t: Tree<Info>, parent: Option<Word>, emulated: string, pool: Pool)
    ensures Settled(t, parent, emulated) <==> Pass(t, parent, emulated, pool) == Allocation(t, pool)
  {
    PassSettles(t, parent, emulated, pool);
    if Settled(t, parent, emulated) {
      SettledIsFixed(t, parent, emulated, pool);
    }
  }

  /** Running the pass again on its own result changes no node and no pool slot. */
  lemma PassIdempotent(t: Tree<Info>, parent: Option<Word>, emulated: string, pool: Pool)
    ensures var once := Pass(t, parent, emulated, pool);
            Pass(once.tree, parent, emulated, once.pool) == once
  {
    var once := Pass(t, parent, emulated, pool);
    PassSettles(t, parent, emulated, pool);
    SettledIsFixed(once.tree, parent, emulated, once.pool);
  }

  /**
    After a subtree was inserted into a settled map, a pass over the whole map allocates
    the subtree alone, as a child of its parent, and leaves every old device as it was.
  */
  lemma {:induction false} InsertStable(t: Tree<Info>, parent: Option<Word>, emulated: string, pool: Pool, p: Pos, sub: Tree<Info>)
    requires Settled(t, parent, emulated) && Has(t, p)
    requires sub.Node? && sub.rest.Nil?
    ensures var added := Pass(sub, Some(At(t, p).pa), emulated, pool);
            Pass(InsertUnder(t, p, sub), parent, emulated, pool) ==
            Allocation(InsertUnder(t, p, added.tree), added.pool)
  {
    SettledIsFixed(t.rest, parent, emulated, pool);
    match p
    case Here =>
      var pa := Some(t.val.pa);
      SettledIsFixed(t.kids, pa, emulated, PoolAfter(pa, sub.val, pool));
    case Down(q) => InsertStable(t.kids, Some(t.val.pa), emulated, pool, q, sub);
    case Across(q) =>
      InsertStable(t.rest, parent, emulated, pool, q, sub);
      var added := Pass(sub, Some(At(t, p).pa), emulated, pool);
      SettledIsFixed(t.kids, Some(t.val.pa), emulated, added.pool);
  }

  lemma {:induction false} DropSettled(t: Tree<Info>, parent: Option<Word>, emulated: string, k: nat)
    requires Settled(t, parent, emulated) && k < Siblings(t)
    ensures Settled(DropSibling(t, k), parent, emulated)
  {
    if k > 0 {
      DropSettled(t.rest, parent, emulated, k - 1);
    }
  }

  // ----- logical addresses: the pass is a fold over the visit order -----

  datatype Assignment = Assignment(devices: seq<Address>, pool: Pool)

  /** What one device of the list does: it keeps its address or takes the first fit. */
  function AddressStep(d: Info, pool: Pool): (la: Address) {
    if d.la == UNKNOWN then FirstFit(pool, d.kind) else d.la
  }

  function PoolStep(d: Info, pool: Pool): (after: Pool) {
    if d.la == UNKNOWN then Taken(pool, d.kind) else pool
  }

  /** First fit over a list of devices, one after the other. */
  function AssignAll(ds: seq<Info>, pool: Pool): (r: Assignment)
    ensures |r.devices| == |ds|
  {
    if ds == [] then Assignment([], pool)
    else
      var others := AssignAll(ds[1..], PoolStep(ds[0], pool));
      Assignment([AddressStep(ds[0], pool)] + others.devices, others.pool)
  }

  function Addresses(ds: seq<Info>): (las: seq<Address>)
    ensures |las| == |ds| && forall i :: 0 <= i < |ds| ==> las[i] == ds[i].la
  {
    seq(|ds|, i requires 0 <= i < |ds| => ds[i].la)
  }

  lemma {:induction false} AssignAppend(a: seq<Info>, b: seq<Info>, pool: Pool)
    ensures var first := AssignAll(a, pool);
            var second := AssignAll(b, first.pool);
            AssignAll(a + b, pool) == Assignment(first.devices + second.devices, second.pool)
  {
    if a == [] {
      assert a + b == b;
    } else {
      AssignAppend(a[1..], b, PoolStep(a[0], pool));
      AppendTail(a, b);
    }
  }

  lemma AppendTail(a: seq<Info>, b: seq<Info>)
    requires a != []
    ensures (a + b)[1..] == a[1..] + b && (a + b)[0] == a[0]
  {
  }

  lemma AddressesAppend(a: seq<Info>, b: seq<Info>)
    ensures Addresses(a + b) == Addresses(a) + Addresses(b)
  {
  }

  /** The recursive pass refines the fold over the visit order. */
  lemma {:induction false} PassIsFold(t: Tree<Info>, parent: Word, emulated: string, pool: Pool)
    ensures var r := Pass(t, Some(parent), emulated, pool);
            AssignAll(VisitOrder(t), pool) == Assignment(Addresses(VisitOrder(r.tree)), r.pool)
  {
    if t.Node? {
      var d, after := t.val, Pass(t, Some(parent), emulated, pool).tree;
      var pool' := PoolAfter(Some(parent), d, pool);
      var siblings := Pass(t.rest, Some(parent), emulated, pool');
      var pa := PhysicalFor(Some(parent), d.port);
      PassIsFold(t.rest, parent, emulated, pool');
      PassIsFold(t.kids, pa, emulated, siblings.pool);
      AssignAppend([d], VisitOrder(t.rest), pool);
      AssignAppend([d] + VisitOrder(t.rest), VisitOrder(t.kids), pool);
      assert AssignAll([d], pool) == Assignment(Addresses([after.val]), pool') by {
        assert [d][1..] == [];
      }
      AddressesAppend([after.val], VisitOrder(after.rest));
      AddressesAppend([after.val] + VisitOrder(after.rest), VisitOrder(after.kids));
    }
  }

  /** How many devices of this class in the list still need an address. */
  function Pending(ds: seq<Info>, kind: DeviceType): (n: nat) {
    if ds == [] then 0
    else Bit(ds[0].la == UNKNOWN && SameClass(ds[0].kind, kind)) + Pending(ds[1..], kind)
  }

  /** The k-th address of a list, or 15 past its end. */
  function Nth(free: seq<Slot>, k: nat): (address: Slot) {
    if k < |free| then free[k] else UNREGISTERED
  }

  /**
    The fold gives the k-th pending device of a class the k-th address of that class that
    was free at the start, and 15 once those run out.
  */
  lemma {:induction false} AssignByRank(ds: seq<Info>, pool: Pool, i: nat)
    requires i < |ds| && ds[i].la == UNKNOWN
    ensures AssignAll(ds, pool).devices[i]
         == Nth(Free(Candidates(ds[i].kind), pool), Pending(ds[..i], ds[i].kind))
  {
    if i > 0 {
      var kind := ds[i].kind;
      AssignByRank(ds[1..], PoolStep(ds[0], pool), i - 1);
      PendingFirst(ds, i, kind);
      NthAfterStep(ds[0], pool, kind, Pending(ds[1..][..i - 1], kind));
    }
  }

  lemma PendingFirst(ds: seq<Info>, i: nat, kind: DeviceType)
    requires 0 < i <= |ds|
    ensures Pending(ds[..i], kind) == Bit(ds[0].la == UNKNOWN && SameClass(ds[0].kind, kind)) + Pending(ds[1..][..i - 1], kind)
  {
    assert ds[..i][1..] == ds[1..][..i - 1];
  }

  /** Serving one device moves every later device of its class one place down the free list. */
  lemma NthAfterStep(d: Info, pool: Pool, kind: DeviceType, k: nat)
    ensures Nth(Free(Candidates(kind), PoolStep(d, pool)), k) ==
            Nth(Free(Candidates(kind), pool), Bit(d.la == UNKNOWN && SameClass(d.kind, kind)) + k)
  {
    FreeAfterTaken(pool, d.kind, kind);
  }

  /** From a fresh pool: each class's candidates go to its first devices in visit order, and 15 to the others. */
  lemma FreshAllocationByRank(t: Tree<Info>, parent: Word, emulated: string, i: nat)
    requires i < |VisitOrder(t)|
    ensures var ds := VisitOrder(t);
            var after := VisitOrder(Pass(t, Some(parent), emulated, FRESH_POOL).tree);
            && |after| == |ds|
            && after[i].la == if ds[i].la != UNKNOWN then ds[i].la
                              else Nth(Candidates(ds[i].kind), Pending(ds[..i], ds[i].kind))
  {
    var ds := VisitOrder(t);
    var after := VisitOrder(Pass(t, Some(parent), emulated, FRESH_POOL).tree);
    PassIsFold(t, parent, emulated, FRESH_POOL);
    assert |after| == |Addresses(after)| == |ds|;
    if ds[i].la == UNKNOWN {
      AssignByRank(ds, FRESH_POOL, i);
      AllFree(Candidates(ds[i].kind));
    } else {
      AssignKeeps(ds, FRESH_POOL, i);
    }
  }

  /** The nodes visited before the one at `q`. */
  function VisitedBefore<T>(t: Tree<T>, q: Pos): (before: seq<T>)
    requires Has(t, q)
    ensures before + [At(t, q)] <= VisitOrder(t)
  {
    match q
    case Here => []
    case Across(r) => [t.val] + VisitedBefore(t.rest, r)
    case Down(r) => [t.val] + VisitOrder(t.rest) + VisitedBefore(t.kids, r)
  }

  lemma {:induction false} VisitedAfterPass(t: Tree<Info>, parent: Word, emulated: string, pool: Pool, q: Pos)
    requires Has(t, q)
    ensures var u := Pass(t, Some(parent), emulated, pool).tree;
            Has(u, q) && |VisitedBefore(u, q)| == |VisitedBefore(t, q)|
  {
    PassKeeps(t, Some(parent), emulated, pool, q);
    var pool' := PoolAfter(Some(parent), t.val, pool);
    match q
    case Here =>
    case Across(r) => VisitedAfterPass(t.rest, parent, emulated, pool', r);
    case Down(r) =>
      PassIsFold(t.rest, parent, emulated, pool');
      var siblings := Pass(t.rest, Some(parent), emulated, pool');
      assert |Addresses(VisitOrder(siblings.tree))| == |VisitOrder(t.rest)|;
      VisitedAfterPass(t.kids, PhysicalFor(Some(parent), t.val.port), emulated, siblings.pool, r);
  }

  /** The same at a position: the address depends on how many of the class are visited before. */
  lemma AddressAtRank(t: Tree<Info>, parent: Word, emulated: string, q: Pos)
    requires Has(t, q) && At(t, q).la == UNKNOWN
    ensures var u := Pass(t, Some(parent), emulated, FRESH_POOL).tree;
            Has(u, q) && At(u, q).la == Nth(Candidates(At(t, q).kind), Pending(VisitedBefore(t, q), At(t, q).kind))
  {
    var ds, before := VisitOrder(t), VisitedBefore(t, q);
    var u := Pass(t, Some(parent), emulated, FRESH_POOL).tree;
    VisitedAfterPass(t, parent, emulated, FRESH_POOL, q);
    assert ds[..|before|] == before && ds[|before|] == At(t, q);
    assert VisitOrder(u)[|before|] == At(u, q);
    FreshAllocationByRank(t, parent, emulated, |before|);
  }

  /** How many devices of this very type in the list still need an address. */
  function Waiting(ds: seq<Info>, kind: DeviceType): (n: nat) {
    if ds == [] then 0 else Bit(ds[0].la == UNKNOWN && ds[0].kind == kind) + Waiting(ds[1..], kind)
  }

  lemma {:induction false} WaitingIsPending(ds: seq<Info>, kind: DeviceType)
    requires kind != Reserved && kind != UnknownType
    ensures Waiting(ds, kind) == Pending(ds, kind)
  {
    if ds != [] {
      WaitingIsPending(ds[1..], kind);
      assert SameClass(ds[0].kind, kind) <==> ds[0].kind == kind by {
        OwnClass(ds[0].kind, kind);
      }
    }
  }

  lemma OwnClass(a: DeviceType, b: DeviceType)
    requires b != Reserved && b != UnknownType
    ensures SameClass(a, b) <==> a == b
  {
    if SameClass(a, b) {
      assert Candidates(a)[0] == Candidates(b)[0];
    }
  }

  /**
    From a fresh pool, in plain addresses: below the root, in visit order, the first three
    playback devices that wait for an address get 4, 8 and 11, the first three recorders 1, 2
    and 9, the first four tuners 3, 6, 7 and 10, the first audio system 5, the first two TVs 0
    and 14, and all others 15.
  */
  lemma FirstServed(t: Tree<Info>, parent: Word, emulated: string, i: nat)
    requires i < |VisitOrder(t)| && VisitOrder(t)[i].la == UNKNOWN
    ensures var ds, after := VisitOrder(t), VisitOrder(Pass(t, Some(parent), emulated, FRESH_POOL).tree);
            var k := Waiting(ds[..i], ds[i].kind);
            && |after| == |ds|
            && after[i].la ==
               match ds[i].kind
               case Playback => (if k == 0 then 4 else if k == 1 then 8 else if k == 2 then 11 else 15)
               case Recorder => (if k == 0 then 1 else if k == 1 then 2 else if k == 2 then 9 else 15)
               case Tuner => (if k == 0 then 3 else if k == 1 then 6 else if k == 2 then 7 else if k == 3 then 10 else 15)
               case AudioSystem => (if k == 0 then 5 else 15)
               case TV => (if k == 0 then 0 else if k == 1 then 14 else 15)
               case Reserved => 15
               case UnknownType => 15
  {
    var ds := VisitOrder(t);
    FreshAllocationByRank(t, parent, emulated, i);
    if ds[i].kind != Reserved && ds[i].kind != UnknownType {
      WaitingIsPending(ds[..i], ds[i].kind);
    }
  }

  lemma {:induction false} AssignKeeps(ds: seq<Info>, pool: Pool, i: nat)
    requires i < |ds| && ds[i].la != UNKNOWN
    ensures AssignAll(ds, pool).devices[i] == ds[i].la
  {
    if i > 0 {
      AssignKeeps(ds[1..], PoolStep(ds[0], pool), i - 1);
    }
  }

  // ----- logical addresses: conservation -----

  /** How many devices of a chain hold this logical address. */
  function Holders(t: Tree<Info>, address: int): (n: nat) {
    if t.Nil? then 0 else Bit(t.val.la == address) + Holders(t.kids, address) + Holders(t.rest, address)
  }

  /** Below 15, a pass allocates a slot exactly when it gives that address to one more device. */
  lemma {:induction false} PassConserves(t: Tree<Info>, parent: Word, emulated: string, pool: Pool, address: int)
    requires 0 <= address < UNREGISTERED
    ensures var r := Pass(t, Some(parent), emulated, pool);
            Holders(r.tree, address) + Bit(pool[address]) == Holders(t, address) + Bit(r.pool[address])
  {
    if t.Node? {
      var d := t.val;
      var pool' := PoolAfter(Some(parent), d, pool);
      var siblings := Pass(t.rest, Some(parent), emulated, pool');
      TakenConserves(pool, d.kind, address);
      PassConserves(t.rest, parent, emulated, pool', address);
      PassConserves(t.kids, PhysicalFor(Some(parent), d.port), emulated, siblings.pool, address);
    }
  }

  lemma {:induction false} InsertAddsHolders(t: Tree<Info>, p: Pos, sub: Tree<Info>, address: int)
    requires Has(t, p) && sub.Node? && sub.rest.Nil?
    ensures Holders(InsertUnder(t, p, sub), address) == Holders(t, address) + Holders(sub, address)
  {
    match p
    case Here =>
    case Down(q) => InsertAddsHolders(t.kids, q, sub, address);
    case Across(q) => InsertAddsHolders(t.rest, q, sub, address);
  }

  lemma {:induction false} DropRemovesHolders(t: Tree<Info>, k: nat, address: int)
    requires k < Siblings(t)
    ensures Holders(DropSibling(t, k), address) + Holders(Sibling(t, k), address) == Holders(t, address)
  {
    if k > 0 {
      DropRemovesHolders(t.rest, k - 1, address);
    }
  }

  lemma {:induction false} HolderCounted(t: Tree<Info>, p: Pos)
    requires Has(t, p)
    ensures 1 <= Holders(t, At(t, p).la)
  {
    match p
    case Here =>
    case Down(q) => HolderCounted(t.kids, q);
    case Across(q) => HolderCounted(t.rest, q);
  }

  /** An address held once is held by one device. */
  lemma {:induction false} SoleHolder(t: Tree<Info>, p: Pos, q: Pos)
    requires Has(t, p) && Has(t, q) && At(t, p).la == At(t, q).la
    requires Holders(t, At(t, p).la) <= 1
    ensures p == q
  {
    match (p, q)
    case (Here, Here) =>
    case (Down(a), Down(b)) => SoleHolder(t.kids, a, b);
    case (Across(a), Across(b)) => SoleHolder(t.rest, a, b);
    case (Down(a), Across(b)) => HolderCounted(t.kids, a); HolderCounted(t.rest, b);
    case (Across(a), Down(b)) => HolderCounted(t.rest, a); HolderCounted(t.kids, b);
    case (Here, Down(b)) => HolderCounted(t.kids, b);
    case (Here, Across(b)) => HolderCounted(t.rest, b);
    case (Down(a), Here) => HolderCounted(t.kids, a);
    case (Across(a), Here) => HolderCounted(t.rest, a);
  }

  /** Every address a device holds belongs to the class of its type, or is 15 or not yet set. */
  predicate InClass(t: Tree<Info>) {
    t.Node? ==>
      && (t.val.la == UNKNOWN || t.val.la == UNREGISTERED || t.val.la in Candidates(t.val.kind))
      && InClass(t.kids) && InClass(t.rest)
  }

  lemma {:induction false} PassInClass(t: Tree<Info>, parent: Word, emulated: string, pool: Pool)
    requires InClass(t)
    ensures InClass(Pass(t, Some(parent), emulated, pool).tree)
  {
    if t.Node? {
      var d := t.val;
      var pool' := PoolAfter(Some(parent), d, pool);
      TakenConserves(pool, d.kind, 0);
      PassInClass(t.rest, parent, emulated, pool');
      var siblings := Pass(t.rest, Some(parent), emulated, pool');
      PassInClass(t.kids, PhysicalFor(Some(parent), d.port), emulated, siblings.pool);
    }
  }

  lemma {:induction false} InsertInClass(t: Tree<Info>, p: Pos, sub: Tree<Info>)
    requires Has(t, p) && sub.Node? && sub.rest.Nil? && InClass(t) && InClass(sub)
    ensures InClass(InsertUnder(t, p, sub))
  {
    match p
    case Here =>
    case Down(q) => InsertInClass(t.kids, q, sub);
    case Across(q) => InsertInClass(t.rest, q, sub);
  }

  lemma {:induction false} DropInClass(t: Tree<Info>, k: nat)
    requires k < Siblings(t) && InClass(t)
    ensures InClass(DropSibling(t, k))
  {
    if k > 0 {
      DropInClass(t.rest, k - 1);
    }
  }

  lemma {:induction false} InClassAt(t: Tree<Info>, p: Pos)
    requires InClass(t) && Has(t, p)
    ensures At(t, p).la in [UNKNOWN, UNREGISTERED] || At(t, p).la in Candidates(At(t, p).kind)
  {
    match p
    case Here =>
    case Down(q) => InClassAt(t.kids, q);
    case Across(q) => InClassAt(t.rest, q);
  }

  /** A freshly built map holds no address at all. */
  lemma {:induction false} BuildHoldsNothing(p: Profile, address: int)
    requires address != UNKNOWN
    ensures Holders(Build(p), address) == 0 && InClass(Build(p))
    decreases p, 1
  {
    BuildChildrenHoldNothing(p.children, address);
  }

  lemma {:induction false} BuildChildrenHoldNothing(ps: seq<Profile>, address: int)
    requires address != UNKNOWN
    ensures Holders(BuildChildren(ps), address) == 0 && InClass(BuildChildren(ps))
    decreases ps, 0
  {
    if ps != [] {
      BuildHoldsNothing(ps[|ps| - 1], address);
      BuildChildrenHoldNothing(ps[..|ps| - 1], address);
    }
  }
}
