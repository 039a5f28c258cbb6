/**
  Trees in first-child/next-sibling form. A value is a whole sibling chain: `kids` is the
  chain of the first node's children and `rest` the chain of its later siblings.
*/
module Trees {
  import opened Wrappers

  datatype Tree<T> = Nil | Node(val: T, kids: Tree<T>, rest: Tree<T>)

  /** A way to walk to a node of a chain. */
  datatype Pos = Here | Down(below: Pos) | Across(beside: Pos)

  predicate Has<T>(t: Tree<T>, p: Pos) {
    t.Node? &&
    match p
    case Here => true
    case Down(q) => Has(t.kids, q)
    case Across(q) => Has(t.rest, q)
  }

  function At<T>(t: Tree<T>, p: Pos): (val: T)
    requires Has(t, p)
  {
    match p
    case Here => t.val
    case Down(q) => At(t.kids, q)
    case Across(q) => At(t.rest, q)
  }

  /** `t` with `val` stored at `p`. */
  function Put<T>(t: Tree<T>, p: Pos, val: T): (u: Tree<T>)
    requires Has(t, p)
  {
    match p
    case Here => t.(val := val)
    case Down(q) => t.(kids := Put(t.kids, q, val))
    case Across(q) => t.(rest := Put(t.rest, q, val))
  }

  /** `t` with the single tree `sub` as new first child of the node at `p`. */
  function InsertUnder<T>(t: Tree<T>, p: Pos, sub: Tree<T>): (u: Tree<T>)
    requires Has(t, p) && sub.Node?
  {
    match p
    case Here => t.(kids := sub.(rest := t.kids))
    case Down(q) => t.(kids := InsertUnder(t.kids, q, sub))
    case Across(q) => t.(rest := InsertUnder(t.rest, q, sub))
  }

  /** Where the node at `q` is after an insertion under `p`. */
  function AfterInsert(p: Pos, q: Pos): (after: Pos) {
    match p
    case Here => (match q case Down(r) => Down(Across(r)) case _ => q)
    case Down(a) => (match q case Down(b) => Down(AfterInsert(a, b)) case _ => q)
    case Across(a) => (match q case Across(b) => Across(AfterInsert(a, b)) case _ => q)
  }

  /** Where the root of the inserted tree is. */
  function Inserted(p: Pos): (at: Pos) {
    match p
    case Here => Down(Here)
    case Down(q) => Down(Inserted(q))
    case Across(q) => Across(Inserted(q))
  }

  function Siblings<T>(t: Tree<T>): (n: nat) {
    if t.Nil? then 0 else 1 + Siblings(t.rest)
  }

  /** The k-th tree of a chain, on its own. */
  function Sibling<T>(t: Tree<T>, k: nat): (s: Tree<T>)
    requires k < Siblings(t)
    ensures s.Node? && s.rest.Nil?
  {
    if k == 0 then t.(rest := Nil) else Sibling(t.rest, k - 1)
  }

  /** A chain without its k-th tree. */
  function DropSibling<T>(t: Tree<T>, k: nat): (u: Tree<T>)
    requires k < Siblings(t)
  {
    if k == 0 then t.rest else t.(rest := DropSibling(t.rest, k - 1))
  }

  /** Where the node at `q` of a chain is once the k-th tree is dropped, if it is still there. */
  function AfterDrop(k: nat, q: Pos): (after: Option<Pos>) {
    match q
    case Across(r) =>
      if k == 0 then Some(r)
      else (match AfterDrop(k - 1, r) case Some(s) => Some(Across(s)) case None => None)
    case _ => if k == 0 then None else Some(q)
  }

  /** Node, children, siblings: the order in which names are looked up. */
  function Preorder<T>(t: Tree<T>): (vals: seq<T>) {
    if t.Nil? then [] else [t.val] + Preorder(t.kids) + Preorder(t.rest)
  }

  /** Node, siblings, children: the order in which addresses are allocated. */
  function VisitOrder<T>(t: Tree<T>): (vals: seq<T>) {
    if t.Nil? then [] else [t.val] + VisitOrder(t.rest) + VisitOrder(t.kids)
  }

  lemma {:induction false} InsertedIsThere<T>(t: Tree<T>, p: Pos, sub: Tree<T>)
    requires Has(t, p) && sub.Node?
    ensures Has(InsertUnder(t, p, sub), Inserted(p)) && At(InsertUnder(t, p, sub), Inserted(p)) == sub.val
  {
    match p
    case Here =>
    case Down(q) => InsertedIsThere(t.kids, q, sub);
    case Across(q) => InsertedIsThere(t.rest, q, sub);
  }

  /** Insertion keeps every node, at the place `AfterInsert` says. */
  lemma {:induction false} InsertKeeps<T>(t: Tree<T>, p: Pos, sub: Tree<T>, q: Pos)
    requires Has(t, p) && Has(t, q) && sub.Node?
    ensures Has(InsertUnder(t, p, sub), AfterInsert(p, q))
    ensures At(InsertUnder(t, p, sub), AfterInsert(p, q)) == At(t, q)
  {
    match (p, q)
    case (Down(a), Down(b)) => InsertKeeps(t.kids, a, sub, b);
    case (Across(a), Across(b)) => InsertKeeps(t.rest, a, sub, b);
    case (Here, _) =>
    case (Down(_), _) =>
    case (Across(_), _) =>
  }

  /** The index of the tree of a chain that holds the node at `q`. */
  function Branch(q: Pos): (k: nat) {
    match q
    case Across(r) => 1 + Branch(r)
    case _ => 0
  }

  /** A node goes exactly when its own branch is dropped. */
  lemma {:induction false} DroppedIff(k: nat, q: Pos)
    ensures AfterDrop(k, q).None? <==> k == Branch(q)
  {
    match q
    case Across(r) =>
      if k > 0 {
        DroppedIff(k - 1, r);
      }
    case Here =>
    case Down(_) =>
  }

  /** A drop keeps every node outside the dropped tree. */
  lemma {:induction false} DropKeeps<T>(t: Tree<T>, k: nat, q: Pos)
    requires k < Siblings(t) && Has(t, q) && AfterDrop(k, q).Some?
    ensures Has(DropSibling(t, k), AfterDrop(k, q).value)
    ensures At(DropSibling(t, k), AfterDrop(k, q).value) == At(t, q)
  {
    match q
    case Across(r) =>
      if k > 0 {
        DropKeeps(t.rest, k - 1, r);
      }
    case Here =>
    case Down(_) =>
  }
}
