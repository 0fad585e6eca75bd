/**
 The cuckoo cache over arrays, with its bit-packed collection flags, refining the
 operations on values.
 */
module CuckooCache {
  import opened Cuckoo

  // ---------------------------------------------------------------------------
  // Bit-packed flags
  // ---------------------------------------------------------------------------

  /** 1 << k. */
  function Mask(k: nat): (m: bv8)
    requires k < 8
    ensures m != 0
  {
    match k
    case 0 => 1
    case 1 => 2
    case 2 => 4
    case 3 => 8
    case 4 => 16
    case 5 => 32
    case 6 => 64
    case _ => 128
  }

  predicate BitAt(b: bv8, k: nat)
    requires k < 8
  {
    b & Mask(k) != 0
  }

  function With(b: bv8, k: nat): (r: bv8)
    requires k < 8
  {
    b | Mask(k)
  }

  function Without(b: bv8, k: nat): (r: bv8)
    requires k < 8
  {
    b & !Mask(k)
  }

  lemma SetBit(b: bv8, k: nat, j: nat)
    requires k < 8 && j < 8
    ensures BitAt(With(b, k), j) == (j == k || BitAt(b, j))
  {
    hide Mask;
    if j != k { MasksApart(k, j); OrApart(b, Mask(k), Mask(j)); } else { OrSame(b, Mask(k)); }
  }

  lemma ClearBit(b: bv8, k: nat, j: nat)
    requires k < 8 && j < 8
    ensures BitAt(Without(b, k), j) == (j != k && BitAt(b, j))
  {
    hide Mask;
    if j != k { MasksApart(k, j); AndApart(b, Mask(k), Mask(j)); } else { AndSame(b, Mask(k)); }
  }

  lemma MasksApart(k: nat, j: nat)
    requires k < 8 && j < 8 && k != j
    ensures Mask(k) & Mask(j) == 0
  {
  }

  lemma OrApart(b: bv8, m: bv8, n: bv8)
    requires m & n == 0
    ensures (b | m) & n == b & n
  {
  }

  lemma OrSame(b: bv8, m: bv8)
    ensures (b | m) & m == m
  {
  }

  lemma AndApart(b: bv8, m: bv8, n: bv8)
    requires m & n == 0
    ensures (b & !m) & n == b & n
  {
  }

  lemma AndSame(b: bv8, m: bv8)
    ensures (b & !m) & m == 0
  {
  }

  lemma AllOnes(k: nat)
    requires k < 8
    ensures BitAt(0xFF, k)
  {
    assert 0xFF & Mask(k) == Mask(k);
  }

  /** The first `n` flags held by some bytes. */
  function Flags(mem: seq<bv8>, n: nat): (f: seq<bool>)
    requires n <= 8 * |mem|
    ensures |f| == n
  {
    seq(n, i requires 0 <= i < n => BitAt(mem[i / 8], i % 8))
  }

  /** Bytes allocated for `size` flags: a 32-bit computation. */
  function Bytes(size: nat): (n: nat) { (size + 7) % 0x1_0000_0000 / 8 }

  /** Every index below `size` has a byte, up to the sizes whose rounding up wraps. */
  lemma BytesSuffice(size: nat)
    requires size < 0x1_0000_0000
    ensures size <= 8 * Bytes(size) <==> size + 7 < 0x1_0000_0000
  {
  }

  class BitFlags {
    const mem: array<bv8>

    ghost function Bits(n: nat): (f: seq<bool>)
      requires n <= 8 * mem.Length
      reads mem
      ensures |f| == n
    {
      Flags(mem[..], n)
    }

    constructor (size: nat)
      ensures fresh(mem) && mem.Length == Bytes(size)
      ensures forall n :: 0 <= n <= 8 * mem.Length ==> forall i :: 0 <= i < n ==> Bits(n)[i]
    {
      mem := new bv8[Bytes(size)](i => 0xFF);
      new;
      forall n, i | 0 <= n <= 8 * mem.Length && 0 <= i < n ensures Bits(n)[i] {
        AllOnes(i % 8);
      }
    }

    method Set(s: nat, ghost n: nat)
      requires s < n <= 8 * mem.Length
      modifies mem
      ensures Bits(n) == old(Bits(n))[s := true]
    {
      hide With, Without, BitAt;
      ghost var was := mem[..];
      mem[s / 8] := With(mem[s / 8], s % 8);
      forall i | 0 <= i < n ensures Bits(n)[i] == Flags(was, n)[s := true][i] {
        SetBit(was[s / 8], s % 8, i % 8);
        SameIndex(s, i);
      }
    }

    method Unset(s: nat, ghost n: nat)
      requires s < n <= 8 * mem.Length
      modifies mem
      ensures Bits(n) == old(Bits(n))[s := false]
    {
      hide With, Without, BitAt;
      ghost var was := mem[..];
      mem[s / 8] := Without(mem[s / 8], s % 8);
      forall i | 0 <= i < n ensures Bits(n)[i] == Flags(was, n)[s := false][i] {
        ClearBit(was[s / 8], s % 8, i % 8);
        SameIndex(s, i);
      }
    }

    method IsSet(s: nat, ghost n: nat) returns (b: bool)
      requires s < n <= 8 * mem.Length
      ensures b == Bits(n)[s]
    {
      b := BitAt(mem[s / 8], s % 8);
    }
  }

  lemma SameIndex(s: nat, i: nat)
    ensures s == i <==> s / 8 == i / 8 && s % 8 == i % 8
  {
  }

  // ---------------------------------------------------------------------------
  // The cache
  // ---------------------------------------------------------------------------

  class CuckooTable {
    const hash: (nat, Element) -> nat
    const size: nat
    const table: array<Element>
    const flags: BitFlags
    const epoch: array<bool>
    var counter: nat
    const epochSize: nat
    const depthLimit: nat

    ghost predicate Valid() {
      && 2 <= size == table.Length == epoch.Length && size <= 8 * flags.mem.Length
      && flags.mem as object != table && flags.mem as object != epoch && epoch as object != table
    }

    ghost function State(): (c: Cache)
      requires Valid()
      reads this, table, flags.mem, epoch
      ensures c.Valid()
    {
      Cache(hash, table[..], flags.Bits(size), epoch[..], counter, epochSize, depthLimit)
    }

    constructor (hash: (nat, Element) -> nat, newSize: nat)
      requires newSize < 0x1_0000_0000
      ensures Valid() <==> newSize + 7 < 0x1_0000_0000
      ensures Valid() ==> State() == Setup(hash, newSize)
      ensures fresh(table) && fresh(flags) && fresh(flags.mem) && fresh(epoch)
    {
      var size := Max(2, newSize);
      BytesSuffice(size);
      var flags := new BitFlags(size);
      var epochSize := Max(1, 45 * size % 0x1_0000_0000 / 100);
      this.hash, this.size, this.flags := hash, size, flags;
      table := new Element[size](i => DEFAULT);
      epoch := new bool[size](i => false);
      this.epochSize, counter, depthLimit := epochSize, epochSize, Log2(size);
      new;
      if Valid() {
        ghost var s := Setup(hash, newSize);
        assert table[..] == s.table && epoch[..] == s.epoch && flags.Bits(size) == s.collected;
      }
    }

    function ComputeHash(e: Element, i: nat): (l: nat)
      requires size > 0
      ensures l < size
    {
      FastRange32(hash(i, e), size)
    }

    /** The loop over the eight places shared by lookup and insertion. */
    method Locate(e: Element) returns (k: nat)
      requires Valid()
      ensures k == Find(State(), e, 0)
    {
      hide FastRange32;
      k := 0;
      while k < LOCATIONS && table[ComputeHash(e, k)] != e
        invariant k <= LOCATIONS && Find(State(), e, 0) == Find(State(), e, k)
      {
        k := k + 1;
      }
    }

    method Vacancy(e: Element) returns (k: nat)
      requires Valid()
      ensures k == FindCollected(State(), e, 0)
    {
      hide FastRange32;
      k := 0;
      while k < LOCATIONS
        invariant k <= LOCATIONS && FindCollected(State(), e, 0) == FindCollected(State(), e, k)
      {
        var free := flags.IsSet(ComputeHash(e, k), size);
        if free { return; }
        k := k + 1;
      }
    }

    /** std::find over the eight places. */
    method IndexOf(e: Element, loc: nat) returns (k: nat)
      requires Valid()
      ensures k == FindLoc(State(), e, loc, 0)
    {
      hide FastRange32;
      k := 0;
      while k < LOCATIONS && ComputeHash(e, k) != loc
        invariant k <= LOCATIONS && FindLoc(State(), e, loc, 0) == FindLoc(State(), e, loc, k)
      {
        k := k + 1;
      }
    }

    method Contains(e: Element, erase: bool) returns (found: bool)
      requires Valid()
      modifies flags.mem
      ensures (State(), found) == Cuckoo.Contains(old(State()), e, erase)
    {
      hide Flags, FastRange32, Find;
      var k := Locate(e);
      found := k < LOCATIONS;
      if found && erase {
        flags.Set(ComputeHash(e, k), size);
        assert table[..] == old(table[..]) && epoch[..] == old(epoch[..]);
      }
    }

    method CountRecent() returns (n: nat)
      requires Valid()
      ensures n == Recent(State(), size)
    {
      hide Flags;
      n := 0;
      for i := 0 to size
        invariant n == Recent(State(), i)
      {
        var collected := flags.IsSet(i, size);
        if epoch[i] && !collected { n := n + 1; }
      }
    }

    /** The pass that makes old elements erasable and current ones old. */
    method Age()
      requires Valid()
      modifies flags.mem, epoch
      ensures var was := old(State());
              State() == was.(collected := seq(size, i requires 0 <= i < size => was.collected[i] || !was.epoch[i]),
                              epoch := seq(size, i => false))
    {
      hide Flags;
      ghost var was := State();
      for i := 0 to size
        invariant table[..] == was.table && counter == was.counter
        invariant forall j :: 0 <= j < i ==> !epoch[j] && flags.Bits(size)[j] == (was.collected[j] || !was.epoch[j])
        invariant forall j :: i <= j < size ==> epoch[j] == was.epoch[j] && flags.Bits(size)[j] == was.collected[j]
      {
        assert table[..] == was.table;
        if epoch[i] {
          epoch[i] := false;
        } else {
          flags.Set(i, size);
        }
      }
    }

    method EpochCheck()
      requires Valid()
      modifies `counter, flags.mem, epoch
      ensures State() == Cuckoo.EpochCheck(old(State()))
    {
      hide Flags, Recent;
      if counter != 0 {
        counter := counter - 1;
        return;
      }
      var unused := CountRecent();
      if unused >= epochSize {
        Age();
        counter := epochSize;
      } else {
        counter := Max(1, Max(epochSize / 16, epochSize - unused));
      }
    }

    /** Writes an element into a slot and marks the slot as one to keep. */
    method Place(l: nat, e: Element, recent: bool)
      requires Valid() && l < size
      modifies table, flags.mem, epoch
      ensures State() == Put(old(State()), l, e, recent)
    {
      hide Flags;
      table[l] := e;
      flags.Unset(l, size);
      epoch[l] := recent;
      assert table[..] == old(table[..])[l := e] && epoch[..] == old(epoch[..])[l := recent];
    }

    method Insert(e: Element)
      requires Valid()
      modifies `counter, table, flags.mem, epoch
      ensures State() == Cuckoo.Insert(old(State()), e).0
    {
      hide Flags, FastRange32, Find, Displace, Cuckoo.EpochCheck, Put;
      EpochCheck();
      var k := Locate(e);
      if k < LOCATIONS {
        Place(ComputeHash(e, k), e, true);
        return;
      }
      Push(e);
    }

    /** Exchanges the element in hand, with its generation, for what a slot holds. */
    method Exchange(l: nat, e: Element, recent: bool) returns (out: Element, outRecent: bool)
      requires Valid() && l < size
      modifies table, epoch
      ensures State() == Swap(old(State()), l, e, recent)
      ensures out == old(State()).table[l] && outRecent == old(State()).epoch[l]
    {
      out, outRecent := table[l], epoch[l];
      table[l], epoch[l] := e, recent;
      assert table[..] == old(table[..])[l := e] && epoch[..] == old(epoch[..])[l := recent];
    }

    /** The displacement loop. */
    method Push(e: Element)
      requires Valid()
      modifies table, flags.mem, epoch
      ensures State() == Displace(old(State()), e, true, INVALID, depthLimit).0
    {
      hide Displace, Flags, FastRange32, FindCollected, FindLoc, Put, Swap;
      ghost var s := State();
      var hand, recent := e, true;
      var lastLoc: nat := INVALID;
      var depth := 0;
      while depth < depthLimit
        invariant depth <= depthLimit
        invariant Displace(State(), hand, recent, lastLoc, depthLimit - depth) == Displace(s, e, true, INVALID, depthLimit)
      {
        DisplaceOnce(State(), hand, recent, lastLoc, depthLimit - depth);
        var k := Vacancy(hand);
        if k < LOCATIONS {
          Place(ComputeHash(hand, k), hand, recent);
          return;
        }
        var at := IndexOf(hand, lastLoc);
        lastLoc := ComputeHash(hand, (1 + at) % LOCATIONS);
        hand, recent := Exchange(lastLoc, hand, recent);
        depth := depth + 1;
      }
      DisplaceEnds(State(), hand, recent, lastLoc);
    }
  }

  lemma DisplaceEnds(c: Cache, hand: Element, recent: bool, lastLoc: int)
    requires c.Valid()
    ensures Displace(c, hand, recent, lastLoc, 0).0 == c
  {
  }

  lemma DisplaceOnce(c: Cache, hand: Element, recent: bool, lastLoc: int, depth: nat)
    requires c.Valid() && depth > 0
    ensures var k := FindCollected(c, hand, 0);
            Displace(c, hand, recent, lastLoc, depth) ==
            if k < LOCATIONS then (Put(c, c.Loc(hand, k), hand, recent), Placed)
            else
              var l := c.Loc(hand, (1 + FindLoc(c, hand, lastLoc, 0)) % LOCATIONS);
              Displace(Swap(c, l, hand, recent), c.table[l], c.epoch[l], l, depth - 1)
  {
  }
}
