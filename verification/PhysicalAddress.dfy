/**
  Physical addresses: 16-bit words of four nibbles, one port number per tree level.
  Shifts and masks by constants are written as division and remainder.
*/
module PhysicalAddress {

  const DEPTH := 4

  type Word = x: int | 0 <= x < 0x1_0000

  /** A nibble that stands for a port. */
  type Digit = x: int | 1 <= x <= 15 witness 1

  ghost predicate PortsInRange(path: seq<Word>) {
    forall i :: 0 <= i < |path| ==> 1 <= path[i] <= 15
  }

  function Nibbles(pa: Word): (n: seq<nat>)
    ensures |n| == DEPTH
  {
    [pa / 0x1000 % 16, pa / 0x100 % 16, pa / 0x10 % 16, pa % 16]
  }

  /** Each entry is masked to four bits before it is shifted into place. */
  function Pack(n: seq<nat>): (pa: Word)
    requires |n| == DEPTH
  {
    n[0] % 16 * 0x1000 + n[1] % 16 * 0x100 + n[2] % 16 * 0x10 + n[3] % 16
  }

  /** Four digits below 16 come back from the number they make up. */
  lemma DigitsOf(a: nat, b: nat, c: nat, d: nat)
    requires a < 16 && b < 16 && c < 16 && d < 16
    ensures var pa := a * 0x1000 + b * 0x100 + c * 0x10 + d;
            pa / 0x1000 == a && pa / 0x100 == a * 0x10 + b && pa / 0x10 == a * 0x100 + b * 0x10 + c
  {
  }

  lemma LowDigit(q: nat, d: nat)
    requires d < 16
    ensures (q * 0x10 + d) % 0x10 == d
  {
  }

  lemma PackNibbles(n: seq<nat>)
    requires |n| == DEPTH && forall i :: 0 <= i < DEPTH ==> n[i] < 16
    ensures Nibbles(Pack(n)) == n
  {
    var a, b, c, d := n[0], n[1], n[2], n[3];
    assert Pack(n) == a * 0x1000 + b * 0x100 + c * 0x10 + d;
    NibblesOf(a, b, c, d);
  }

  lemma NibblesOf(a: nat, b: nat, c: nat, d: nat)
    requires a < 16 && b < 16 && c < 16 && d < 16
    ensures Nibbles(a * 0x1000 + b * 0x100 + c * 0x10 + d) == [a, b, c, d]
  {
    DigitsOf(a, b, c, d);
    LowDigit(a, b);
    LowDigit(a * 0x10 + b, c);
    LowDigit(a * 0x100 + b * 0x10 + c, d);
  }

  lemma NibblesDetermine(p: Word, q: Word)
    requires Nibbles(p) == Nibbles(q)
    ensures p == q
  {
    assert p == Pack(Nibbles(p)) && q == Pack(Nibbles(q)) by {
      PackOfNibbles(p);
      PackOfNibbles(q);
    }
  }

  lemma PackOfNibbles(p: Word)
    ensures Pack(Nibbles(p)) == p
  {
    var n := Nibbles(p);
    assert n[0] == p / 0x1000;
    assert p / 0x100 == p / 0x1000 * 16 + n[1];
    assert p / 0x10 == p / 0x100 * 16 + n[2];
    assert p == p / 0x10 * 16 + n[3];
  }

  /** Overwrites the first zero entry, if there is one. */
  function PlaceFirstZero(n: seq<nat>, v: nat): (r: seq<nat>)
    ensures |r| == |n|
  {
    if n == [] then []
    else if n[0] == 0 then [v] + n[1..]
    else [n[0]] + PlaceFirstZero(n[1..], v)
  }

  /** The address of a device on port `port` of a parent at address `parent`. */
  function Extend(parent: Word, port: Word): (pa: Word) {
    Pack(PlaceFirstZero(Nibbles(parent), port % 0x100))
  }

  /** In plain arithmetic: the low nibble of the port goes to the first zero nibble of the parent's address. */
  lemma ExtendIsSum(parent: Word, port: Word)
    ensures Extend(parent, port) ==
            if parent / 0x1000 == 0 then parent + port % 16 * 0x1000
            else if parent / 0x100 % 16 == 0 then parent + port % 16 * 0x100
            else if parent / 0x10 % 16 == 0 then parent + port % 16 * 0x10
            else if parent % 16 == 0 then parent + port % 16
            else parent
  {
    var n := Nibbles(parent);
    PlaceIsSum(n, port % 0x100);
    PackOfNibbles(parent);
    LowNibble(port);
    FirstNibble(parent);
  }

  lemma LowNibble(port: Word)
    ensures port % 0x100 % 16 == port % 16
  {
  }

  lemma FirstNibble(pa: Word)
    ensures pa / 0x1000 % 16 == pa / 0x1000
  {
  }

  lemma PlaceIsSum(n: seq<nat>, v: nat)
    requires |n| == DEPTH
    ensures Pack(PlaceFirstZero(n, v)) ==
            if n[0] == 0 then Pack(n) + v % 16 * 0x1000
            else if n[1] == 0 then Pack(n) + v % 16 * 0x100
            else if n[2] == 0 then Pack(n) + v % 16 * 0x10
            else if n[3] == 0 then Pack(n) + v % 16
            else Pack(n)
  {
    SumWithDigit(n[0], n[1], n[2], n[3], v);
    assert n == [n[0], n[1], n[2], n[3]];
    PlacesAt(n, v, if n[0] == 0 then 0 else if n[1] == 0 then 1 else if n[2] == 0 then 2 else if n[3] == 0 then 3 else 4);
  }

  /** Storing a digit in the place of a zero adds it there. */
  lemma SumWithDigit(a: nat, b: nat, c: nat, d: nat, v: nat)
    ensures a == 0 ==> Pack([v, b, c, d]) == Pack([a, b, c, d]) + v % 16 * 0x1000
    ensures b == 0 ==> Pack([a, v, c, d]) == Pack([a, b, c, d]) + v % 16 * 0x100
    ensures c == 0 ==> Pack([a, b, v, d]) == Pack([a, b, c, d]) + v % 16 * 0x10
    ensures d == 0 ==> Pack([a, b, c, v]) == Pack([a, b, c, d]) + v % 16
  {
  }

  /** Placing goes to the first zero, at `i`, or nowhere if `i` is past the end. */
  lemma {:induction false} PlacesAt(n: seq<nat>, v: nat, i: nat)
    requires i <= |n| && (forall k :: 0 <= k < i ==> n[k] != 0) && (i < |n| ==> n[i] == 0)
    ensures PlaceFirstZero(n, v) == if i < |n| then n[i := v] else n
  {
    if 0 < i {
      PlacesAt(n[1..], v, i - 1);
    }
  }

  /** The loop over the four bytes of the parent's address. */
  method FillFirstZero(address: array<nat>, port: nat)
    modifies address
    ensures address[..] == PlaceFirstZero(old(address[..]), port)
  {
    ghost var before := address[..];
    var i := 0;
    while i < address.Length
      invariant 0 <= i <= address.Length
      invariant address[..] == before
      invariant forall k :: 0 <= k < i ==> before[k] != 0
    {
      if address[i] == 0 {
        PlacesAt(before, port, i);
        address[i] := port;
        return;
      }
      i := i + 1;
    }
    PlacesAt(before, port, i);
  }

  method ChildAddress(parent: Word, port: Word) returns (pa: Word)
    ensures pa == Extend(parent, port)
    ensures parent / 0x1000 == 0 ==> pa == parent + port % 16 * 0x1000
    ensures parent / 0x1000 != 0 && parent / 0x100 % 16 == 0 ==> pa == parent + port % 16 * 0x100
    ensures parent / 0x1000 != 0 && parent / 0x100 % 16 != 0 && parent / 0x10 % 16 == 0 ==> pa == parent + port % 16 * 0x10
  {
    var address := new nat[] [parent / 0x1000 % 16, parent / 0x100 % 16, parent / 0x10 % 16, parent % 16];
    assert address[..] == Nibbles(parent);
    FillFirstZero(address, port % 0x100);
    ghost var filled := address[..];
    pa := address[0] % 16 * 0x1000 + address[1] % 16 * 0x100 + address[2] % 16 * 0x10 + address[3] % 16;
    assert pa == Pack(filled);
    ExtendIsSum(parent, port);
  }

  // ----- what the addresses mean -----

  /** The port numbers of a path as nibbles, without those whose nibble is zero. */
  function Significant(path: seq<Word>): (digits: seq<Digit>)
    ensures |digits| <= |path|
  {
    if path == [] then []
    else
      Significant(path[..|path| - 1]) + PortDigit(path[|path| - 1])
  }

  function Prefix<T>(s: seq<T>): (p: seq<T>)
    ensures |p| <= DEPTH
  {
    if |s| <= DEPTH then s else s[..DEPTH]
  }

  function DigitAt(digits: seq<Digit>, i: nat): (n: nat) {
    if i < |digits| then digits[i] else 0
  }

  function Pad(digits: seq<Digit>): (n: seq<nat>)
    ensures |n| == DEPTH
    ensures forall i :: 0 <= i < DEPTH ==> n[i] == DigitAt(digits, i)
  {
    [DigitAt(digits, 0), DigitAt(digits, 1), DigitAt(digits, 2), DigitAt(digits, 3)]
  }

  /** The address a port path stands for: its first four significant ports, zero-padded. */
  function AddressOf(path: seq<Word>): (pa: Word)
  {
    Pack(Pad(Prefix(Significant(path))))
  }

  lemma AddressNibbles(path: seq<Word>)
    ensures Nibbles(AddressOf(path)) == Pad(Prefix(Significant(path)))
  {
    PackNibbles(Pad(Prefix(Significant(path))));
  }

  lemma PackCongruent(m: seq<nat>, n: seq<nat>)
    requires |m| == |n| == DEPTH
    requires forall i :: 0 <= i < DEPTH ==> m[i] % 16 == n[i] % 16
    ensures Pack(m) == Pack(n)
  {
    assert m[0] % 16 == n[0] % 16 && m[1] % 16 == n[1] % 16 && m[2] % 16 == n[2] % 16 && m[3] % 16 == n[3] % 16;
  }

  /** The nibble of a port, unless it is zero. */
  function PortDigit(port: Word): (digits: seq<Digit>) {
    if port % 16 == 0 then [] else [port % 16]
  }

  lemma PlacePort(s: seq<Digit>, port: Word)
    ensures var placed := PlaceFirstZero(Pad(Prefix(s)), port % 0x100);
            var padded := Pad(Prefix(s + PortDigit(port)));
            forall i :: 0 <= i < DEPTH ==> placed[i] % 16 == padded[i] % 16
  {
    var n := Pad(Prefix(s));
    PlacesAt(n, port % 0x100, |Prefix(s)|);
    if |s| < DEPTH {
      LowNibble(port);
      assert forall i :: 0 <= i < DEPTH && i != |s| ==> DigitAt(s, i) == DigitAt(s + PortDigit(port), i);
    } else {
      assert Prefix(s + PortDigit(port)) == Prefix(s);
    }
  }

  /** One step of the allocation pass appends one port to the path. */
  lemma ExtendAppends(path: seq<Word>, port: Word)
    ensures Extend(AddressOf(path), port) == AddressOf(path + [port])
  {
    var s := Significant(path);
    AddressNibbles(path);
    PlacePort(s, port);
    assert Significant(path + [port]) == s + PortDigit(port) by {
      assert (path + [port])[..|path|] == path;
    }
    PackCongruent(PlaceFirstZero(Pad(Prefix(s)), port % 0x100), Pad(Prefix(s + PortDigit(port))));
  }

  /** The address reached from `parent` by going through these ports, one level each. */
  function Along(parent: Word, path: seq<Word>): (pa: Word)
    decreases path
  {
    if path == [] then parent else Along(Extend(parent, path[0]), path[1..])
  }

  lemma {:induction false} AlongAppends(path: seq<Word>, more: seq<Word>)
    ensures Along(AddressOf(path), more) == AddressOf(path + more)
    decreases more
  {
    if more == [] {
      assert path + more == path;
    } else {
      ExtendAppends(path, more[0]);
      AlongAppends(path + [more[0]], more[1..]);
      MoveFirst(path, more);
    }
  }

  lemma MoveFirst(path: seq<Word>, more: seq<Word>)
    requires more != []
    ensures path + [more[0]] + more[1..] == path + more
  {
  }

  /** Level by level from the root's address 0, a path leads to the address it stands for. */
  lemma AlongFromRoot(path: seq<Word>)
    ensures Along(0, path) == AddressOf(path)
  {
    assert AddressOf([]) == 0;
    AlongAppends([], path);
    assert [] + path == path;
  }

  /** The ports of a path, all in range, as nibbles. */
  function Digits(path: seq<Word>): (digits: seq<Digit>)
    requires PortsInRange(path)
    ensures |digits| == |path|
    ensures forall i :: 0 <= i < |path| ==> digits[i] == path[i]
  {
    seq(|path|, i requires 0 <= i < |path| => path[i])
  }

  lemma {:induction false} PrefixOfSignificant(path: seq<Word>)
    requires PortsInRange(path)
    ensures Significant(path) == Digits(path)
  {
    if path != [] {
      var n := |path| - 1;
      PrefixOfSignificant(path[..n]);
      assert path[n] % 16 == path[n];
      DigitsLast(path);
    }
  }

  lemma {:induction false} SignificantPrefix(path: seq<Word>, longer: seq<Word>)
    requires path <= longer
    ensures Significant(path) <= Significant(longer)
    decreases longer
  {
    if path != longer {
      SignificantPrefix(path, longer[..|longer| - 1]);
    }
  }

  lemma DigitsLast(path: seq<Word>)
    requires PortsInRange(path) && path != []
    ensures Digits(path) == Digits(path[..|path| - 1]) + [path[|path| - 1]]
  {
  }

  /**
    For ports 1..15, the nibbles of an address are the first four ports of the path padded
    with zeros; so a node deeper than four levels repeats its depth-4 ancestor's address.
  */
  lemma NibblesAreThePath(path: seq<Word>)
    requires PortsInRange(path)
    ensures Nibbles(AddressOf(path)) == Pad(Prefix(Digits(path)))
    ensures DEPTH < |path| ==> AddressOf(path) == AddressOf(path[..DEPTH])
  {
    PrefixOfSignificant(path);
    AddressNibbles(path);
    if DEPTH < |path| {
      PrefixOfSignificant(path[..DEPTH]);
    }
  }

  /** Read as hexadecimal digits, the address is the first four ports of the path. */
  lemma AddressInHex(path: seq<Word>)
    requires PortsInRange(path)
    ensures AddressOf(path) == (if 0 < |path| then path[0] else 0) * 0x1000 + (if 1 < |path| then path[1] else 0) * 0x100
                               + (if 2 < |path| then path[2] else 0) * 0x10 + (if 3 < |path| then path[3] else 0)
  {
    PrefixOfSignificant(path);
    PadInHex(Prefix(Digits(path)));
  }

  lemma PadInHex(s: seq<Digit>)
    ensures Pack(Pad(s)) == DigitAt(s, 0) * 0x1000 + DigitAt(s, 1) * 0x100 + DigitAt(s, 2) * 0x10 + DigitAt(s, 3)
  {
  }

  lemma PadInjective(a: seq<Digit>, b: seq<Digit>)
    requires |a| <= DEPTH && |b| <= DEPTH
    ensures Pad(a) == Pad(b) <==> a == b
  {
    if Pad(a) == Pad(b) {
      assert forall i :: 0 <= i < DEPTH ==> DigitAt(a, i) == Pad(a)[i] == DigitAt(b, i);
      assert |a| <= |b| by {
        assert |b| < DEPTH ==> DigitAt(b, |b|) == 0 == DigitAt(a, |b|);
      }
      assert |b| <= |a| by {
        assert |a| < DEPTH ==> DigitAt(a, |a|) == 0 == DigitAt(b, |a|);
      }
      assert forall i :: 0 <= i < |a| ==> a[i] == DigitAt(a, i) == b[i];
    }
  }

  /** Two paths share an address exactly when their first four significant ports agree. */
  lemma SameAddress(p: seq<Word>, q: seq<Word>)
    ensures AddressOf(p) == AddressOf(q) <==> Prefix(Significant(p)) == Prefix(Significant(q))
  {
    var a, b := Prefix(Significant(p)), Prefix(Significant(q));
    AddressNibbles(p);
    AddressNibbles(q);
    PadInjective(a, b);
    if a == b {
      NibblesDetermine(AddressOf(p), AddressOf(q));
    }
  }

  /** `a` is a nibble-prefix of `b`: they agree wherever `a` has a port. */
  predicate NibblePrefix(a: Word, b: Word) {
    forall i :: 0 <= i < DEPTH && Nibbles(a)[i] != 0 ==> Nibbles(a)[i] == Nibbles(b)[i]
  }

  /** To depth 4, being an ancestor in the tree is being a nibble-prefix of the address. */
  lemma AncestorIsNibblePrefix(p: seq<Word>, q: seq<Word>)
    requires PortsInRange(p)
    requires PortsInRange(q)
    requires |p| <= DEPTH && |q| <= DEPTH
    ensures p <= q <==> NibblePrefix(AddressOf(p), AddressOf(q))
  {
    NibblesAreThePath(p);
    NibblesAreThePath(q);
    PrefixNibbles(Digits(p), Digits(q));
    if Digits(p) <= Digits(q) {
      assert forall i :: 0 <= i < |p| ==> Digits(p)[i] == Digits(q)[i];
    }
    if p <= q {
      assert forall i :: 0 <= i < |p| ==> p[i] == q[i];
    }
  }

  lemma PrefixNibbles(a: seq<Digit>, b: seq<Digit>)
    requires |a| <= DEPTH && |b| <= DEPTH
    ensures a <= b <==> forall i :: 0 <= i < DEPTH && Pad(a)[i] != 0 ==> Pad(a)[i] == Pad(b)[i]
  {
    if forall i :: 0 <= i < DEPTH && Pad(a)[i] != 0 ==> Pad(a)[i] == Pad(b)[i] {
      assert forall i :: 0 <= i < |a| ==> Pad(a)[i] == a[i] != 0 && DigitAt(b, i) == a[i];
      assert |a| <= |b| by {
        assert DigitAt(b, |b|) == 0;
      }
    }
  }
}
