/**
  The pool of CEC logical addresses and its first-fit allocator.

  The pool is indexed 0..15, one slot per logical address including 15, which is both
  "unregistered" and "broadcast".
*/
module LogicalAddress {

  const UNKNOWN := -1
  const UNREGISTERED := 15
  const BROADCAST := 15
  const POOL_SIZE := 16

  type Address = x: int | UNKNOWN <= x <= UNREGISTERED

  /** An address that indexes the pool. */
  type Slot = x: int | 0 <= x <= UNREGISTERED

  datatype DeviceType = TV | Recorder | Reserved | Tuner | Playback | AudioSystem | UnknownType

  /** The code carried by the device type operand of a CEC frame. */
  function TypeCode(kind: DeviceType): (code: int)
    ensures 0 <= code <= 6
  {
    match kind
    case TV => 0
    case Recorder => 1
    case Reserved => 2
    case Tuner => 3
    case Playback => 4
    case AudioSystem => 5
    case UnknownType => 6
  }

  type Pool = p: seq<bool> | |p| == POOL_SIZE witness seq(16, _ => false)

  const FRESH_POOL: Pool := [
    false, false, false, false, false, false, false, false,
    false, false, false, false, false, false, false, false
  ]

  /** The addresses a device of the given type may take, in order of preference. */
  function Candidates(kind: DeviceType): (addresses: seq<Slot>)
    ensures |addresses| <= 4
  {
    match kind
    case TV => [0, 14]
    case Playback => [4, 8, 11]
    case AudioSystem => [5]
    case Recorder => [1, 2, 9]
    case Tuner => [3, 6, 7, 10]
    case Reserved => [15]
    case UnknownType => [15]
  }

  /** Types that draw on the same candidates. */
  predicate SameClass(a: DeviceType, b: DeviceType) {
    Candidates(a) == Candidates(b)
  }

  /** The members of `addresses` that the pool still has, in the same order. */
  function Free(addresses: seq<Slot>, pool: Pool): (free: seq<Slot>)
    ensures forall a: Slot :: a in free <==> a in addresses && !pool[a]
  {
    if addresses == [] then []
    else (if pool[addresses[0]] then [] else [addresses[0]]) + Free(addresses[1..], pool)
  }

  /** The address a device of this type is given: the first free one of its class, or 15. */
  function FirstFit(pool: Pool, kind: DeviceType): (address: Slot) {
    var free := Free(Candidates(kind), pool);
    if free == [] then UNREGISTERED else free[0]
  }

  /** The pool after that address was given out. */
  function Taken(pool: Pool, kind: DeviceType): (after: Pool) {
    var free := Free(Candidates(kind), pool);
    if free == [] then pool else pool[free[0] := true]
  }

  function Released(pool: Pool, address: Address): (after: Pool) {
    if 0 <= address then pool[address := false] else pool
  }

  function Bit(b: bool): (n: nat) {
    if b then 1 else 0
  }

  // ----- properties of the allocator -----

  ghost predicate Distinct(addresses: seq<Slot>) {
    forall i, j :: 0 <= i < j < |addresses| ==> addresses[i] != addresses[j]
  }

  /** Address classes never overlap below 15. */
  lemma ClassesDisjoint(a: DeviceType, b: DeviceType, address: Address)
    requires address in Candidates(a) && address in Candidates(b)
    ensures SameClass(a, b)
  {
    match a { case TV => case Playback => case AudioSystem => case Recorder => case Tuner => case Reserved => case UnknownType => }
  }

  lemma {:induction false} FreeAfterOther(addresses: seq<Slot>, pool: Pool, taken: Slot)
    requires taken !in addresses
    ensures Free(addresses, pool[taken := true]) == Free(addresses, pool)
  {
    if addresses != [] {
      assert addresses[0] in addresses;
      FreeAfterOther(addresses[1..], pool, taken);
    }
  }

  lemma {:induction false} FreeAfterFirst(addresses: seq<Slot>, pool: Pool)
    requires Distinct(addresses)
    requires Free(addresses, pool) != []
    ensures Free(addresses, pool[Free(addresses, pool)[0] := true]) == Free(addresses, pool)[1..]
  {
    var first := Free(addresses, pool)[0];
    if pool[addresses[0]] {
      assert first in addresses[1..];
      FreeAfterFirst(addresses[1..], pool);
    } else {
      FreeAfterOther(addresses[1..], pool, first);
      assert Free(addresses, pool)[1..] == Free(addresses[1..], pool);
    }
  }

  /** Serving a device consumes the head of its own class's free list and no other list. */
  lemma FreeAfterTaken(pool: Pool, served: DeviceType, kind: DeviceType)
    ensures var free := Free(Candidates(kind), pool);
            Free(Candidates(kind), Taken(pool, served)) ==
            if SameClass(served, kind) && free != [] then free[1..] else free
  {
    var free := Free(Candidates(served), pool);
    if free != [] {
      if SameClass(served, kind) {
        FreeAfterFirst(Candidates(kind), pool);
      } else {
        if free[0] in Candidates(kind) {
          ClassesDisjoint(served, kind, free[0]);
        }
        FreeAfterOther(Candidates(kind), pool, free[0]);
      }
    }
  }

  lemma {:induction false} AllFree(addresses: seq<Slot>)
    ensures Free(addresses, FRESH_POOL) == addresses
  {
    if addresses != [] {
      AllFree(addresses[1..]);
    }
  }

  /**
    Releasing the address just allocated restores the pool exactly when that address is
    below 15 or slot 15 was free before: otherwise slot 15, taken by another device, is lost.
  */
  lemma ReleaseUndoesAllocate(pool: Pool, kind: DeviceType)
    ensures Released(Taken(pool, kind), FirstFit(pool, kind)) == pool
       <==> FirstFit(pool, kind) < UNREGISTERED || !pool[UNREGISTERED]
  {
    var a := FirstFit(pool, kind);
    var free := Free(Candidates(kind), pool);
    if free != [] {
      assert a in free;
      assert Released(Taken(pool, kind), a) == pool;
    } else {
      assert Released(pool, 15)[15] == false;
      if !pool[15] {
        assert Released(pool, 15) == pool;
      }
    }
  }

  /** One allocation moves exactly one slot below 15 from free to allocated, or none. */
  lemma TakenConserves(pool: Pool, kind: DeviceType, address: int)
    requires 0 <= address < UNREGISTERED
    ensures Bit(Taken(pool, kind)[address]) == Bit(pool[address]) + Bit(FirstFit(pool, kind) == address)
    ensures FirstFit(pool, kind) in Candidates(kind) || FirstFit(pool, kind) == UNREGISTERED
  {
    var free := Free(Candidates(kind), pool);
    if free != [] {
      assert free[0] in free;
    }
  }

  // ----- the allocator in plain addresses -----

  /** The first of these addresses that the pool still has, or 15. */
  function FirstFree(pool: Pool, addresses: seq<Slot>): (a: Slot)
    ensures a == UNREGISTERED || (a in addresses && !pool[a])
  {
    if addresses == [] then UNREGISTERED
    else if !pool[addresses[0]] then addresses[0]
    else FirstFree(pool, addresses[1..])
  }

  lemma {:induction false} FreeStartsWithFirst(pool: Pool, addresses: seq<Slot>)
    ensures FirstFree(pool, addresses) == if Free(addresses, pool) == [] then UNREGISTERED else Free(addresses, pool)[0]
  {
    if addresses != [] {
      FreeStartsWithFirst(pool, addresses[1..]);
    }
  }

  /**
    The addresses of each type in order: a device gets the first that is free, whose slot is
    then taken, or 15, which takes a slot only from a device that can have nothing else.
  */
  lemma AllocatedAddress(pool: Pool, kind: DeviceType)
    ensures FirstFit(pool, kind) ==
            match kind
            case TV => FirstFree(pool, [0, 14])
            case Playback => FirstFree(pool, [4, 8, 11])
            case Recorder => FirstFree(pool, [1, 2, 9])
            case Tuner => FirstFree(pool, [3, 6, 7, 10])
            case AudioSystem => FirstFree(pool, [5])
            case Reserved => 15
            case UnknownType => 15
    ensures Taken(pool, kind) ==
            if FirstFit(pool, kind) == 15 && kind != Reserved && kind != UnknownType then pool
            else pool[FirstFit(pool, kind) := true]
  {
    FreeStartsWithFirst(pool, Candidates(kind));
    var free := Free(Candidates(kind), pool);
    if free != [] {
      assert free[0] in free;
    } else if kind == Reserved || kind == UnknownType {
      assert 15 !in free && 15 in Candidates(kind);
    }
  }

  // ----- the pool as it is updated in place -----

  class AddressPool {
    const taken: array<bool>

    ghost predicate Valid()
    {
      taken.Length == POOL_SIZE
    }

    ghost function Slots(): (slots: Pool)
      requires Valid()
      reads taken
    {
      taken[..]
    }

    constructor ()
      ensures Valid() && fresh(taken)
    {
      taken := new bool[POOL_SIZE];
    }

    method Init()
      requires Valid()
      modifies taken
      ensures Slots() == FRESH_POOL
    {
      for i := 0 to POOL_SIZE
        invariant forall k :: 0 <= k < i ==> !taken[k]
      {
        taken[i] := false;
      }
    }

    method Allocate(kind: DeviceType) returns (address: Slot)
      requires Valid()
      modifies taken
      ensures address == FirstFit(old(Slots()), kind)
      ensures Slots() == Taken(old(Slots()), kind)
      ensures kind == Playback ==> address == FirstFree(old(Slots()), [4, 8, 11])
      ensures kind == Recorder ==> address == FirstFree(old(Slots()), [1, 2, 9])
      ensures kind == Tuner ==> address == FirstFree(old(Slots()), [3, 6, 7, 10])
      ensures kind == TV ==> address == FirstFree(old(Slots()), [0, 14])
      ensures kind == AudioSystem ==> address == FirstFree(old(Slots()), [5])
    {
      AllocatedAddress(Slots(), kind);
      var possible := Candidates(kind);
      for i := 0 to |possible|
        invariant Slots() == old(Slots())
        invariant Free(possible, old(Slots())) == Free(possible[i..], old(Slots()))
      {
        if !taken[possible[i]] {
          taken[possible[i]] := true;
          return possible[i];
        }
      }
      return UNREGISTERED;
    }

    method Release(address: Address)
      requires Valid()
      modifies taken
      ensures Slots() == Released(old(Slots()), address)
      ensures forall a :: 0 <= a < POOL_SIZE ==> Slots()[a] == (old(Slots())[a] && a != address)
    {
      if 0 <= address <= BROADCAST {
        taken[address] := false;
      }
    }
  }
}
