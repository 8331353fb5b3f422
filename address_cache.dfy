/** The address cache of section 5.1 of RFC 3284, as `AddressCache` implements it: a
    ring of `nearSize` recent addresses and a table of `sameSize * 256` addresses
    hashed by value, from which COPY addresses are decoded (section 5.3). */
module AddressModes {
  import opened JavaInt
  import opened Errors
  import opened Stores
  import Varint
  /** The cache's state: the near ring with its cursor and the same table. */
  datatype Cache = Cache(near: seq<i32>, nextSlot: nat, same: seq<i32>, sameSize: nat)
  {
    /** The sizes come from single bytes, the same table has `sameSize` planes of 256
        and the cursor is a slot of the ring (0 when there is none). */
    predicate Valid()
    {
      |near| < 256 && sameSize < 256 && |same| == sameSize * 256
      && (nextSlot < |near| || nextSlot == 0)
    }
  }

  function Zeros(n: nat): (z: seq<i32>)
    ensures |z| == n && forall i :: 0 <= i < n ==> z[i] == 0
  {
    seq(n, _ => 0)
  }

  /** `reset`: every slot of both tables back to 0 and the cursor to the first slot. */
  function Reset(c: Cache): (r: Cache)
    ensures c.Valid() ==> r.Valid()
    ensures |r.near| == |c.near| && r.sameSize == c.sameSize && |r.same| == |c.same|
    ensures r.nextSlot == 0
    ensures forall i :: 0 <= i < |r.near| ==> r.near[i] == 0
    ensures forall j :: 0 <= j < |r.same| ==> r.same[j] == 0
  {
    Cache(Zeros(|c.near|), 0, Zeros(|c.same|), c.sameSize)
  }

  /** `new AddressCache(nearSize, sameSize)`: tables of the given sizes, already in the
      state `reset` leaves. */
  function Fresh(nearSize: byte, sameSize: byte): (c: Cache)
    ensures c.Valid() && |c.near| == nearSize && c.sameSize == sameSize
    ensures Reset(c) == c
  {
    Cache(Zeros(nearSize), 0, Zeros(sameSize * 256), sameSize)
  }

  /** `update(address)`: the address enters the near ring at the cursor, which moves on
      round the ring, and the same table at the slot of its value modulo the table
      size; nothing else changes. Java's `%` keeps the sign of a negative address, and
      a negative slot is an ArrayIndexOutOfBoundsException. */
  function Update(c: Cache, addr: i32): (r: Result<Cache>)
    requires c.Valid()
    ensures r.Ok? <==> c.sameSize == 0 || JavaRem(addr, c.sameSize * 256) >= 0
    ensures r.Err? ==> r.error == Bounds
    ensures r.Ok? ==> r.value.Valid() && |r.value.near| == |c.near| && r.value.sameSize == c.sameSize
    ensures r.Ok? && |c.near| > 0 ==>
      r.value.near[c.nextSlot] == addr && r.value.nextSlot == (c.nextSlot + 1) % |c.near|
    ensures r.Ok? ==> forall i :: 0 <= i < |c.near| && i != c.nextSlot ==> r.value.near[i] == c.near[i]
    ensures r.Ok? && |c.near| == 0 ==> r.value.nextSlot == 0
    ensures r.Ok? && c.sameSize > 0 ==> r.value.same[JavaRem(addr, c.sameSize * 256)] == addr
    ensures r.Ok? ==> forall j :: 0 <= j < |c.same| && (c.sameSize == 0 || j != JavaRem(addr, c.sameSize * 256)) ==>
      r.value.same[j] == c.same[j]
  {
    var c1 := if |c.near| > 0 then c.(near := c.near[c.nextSlot := addr], nextSlot := (c.nextSlot + 1) % |c.near|) else c;
    if c.sameSize == 0 then Ok(c1)
    else
      var k := JavaRem(addr, c.sameSize * 256);
      if k < 0 then Err(Bounds) else Ok(c1.(same := c.same[k := addr]))
  }

  /** The address a COPY of mode `mode` denotes, read from the address section `s`,
      before the cache is updated: mode 0 is the address itself, mode 1 its distance
      back from `here`, the near modes an offset from a ring slot and the same modes a
      single byte naming a same-table slot. Java's `int` arithmetic wraps. */
  function LookUp(c: Cache, s: Store, here: i32, mode: int8): (r: Result<(i32, Store)>)
    requires c.Valid() && s.Valid()
    ensures r.Ok? ==> r.value.1.Valid() && r.value.1 == s.(pos := r.value.1.pos) && s.pos < r.value.1.pos
    ensures mode > |c.near| + c.sameSize + 1 ==> r == Err(BadAddressMode)
    ensures |c.near| + 2 <= mode <= |c.near| + c.sameSize + 1 ==>
      (r.Ok? <==> s.pos < |s.bytes|) && (r.Ok? ==> r.value.1.pos == s.pos + 1)
    ensures mode < 0 ==> r == Err(Bounds)
  {
    if mode == 0 then
      ReadVarint(s)
    else if mode == 1 then
      var (v, s') :- ReadVarint(s);
      Ok((Wrap32(here - v), s'))
    else if mode <= |c.near| + 1 then
      if mode < 2 then Err(Bounds)  // `near[mode - 2]` with a negative mode
      else
        var (v, s') :- ReadVarint(s);
        Ok((Wrap32(c.near[mode - 2] + v), s'))
    else if mode <= |c.near| + c.sameSize + 1 then
      var (b, s') :- ReadByte(s);
      Ok((c.same[(mode - (|c.near| + 2)) * 256 + b], s'))
    else
      Err(BadAddressMode)
  }

  /** `decodeAddress(here, mode)`: the address, then the cache updated with it. */
  function DecodeAddress(c: Cache, s: Store, here: i32, mode: int8): (r: Result<(i32, Cache, Store)>)
    requires c.Valid() && s.Valid()
    ensures r.Ok? ==> LookUp(c, s, here, mode) == Ok((r.value.0, r.value.2)) && Update(c, r.value.0) == Ok(r.value.1)
    ensures r.Err? ==> LookUp(c, s, here, mode).Err? || Update(c, LookUp(c, s, here, mode).value.0).Err?
  {
    var (addr, s') :- LookUp(c, s, here, mode);
    var c' :- Update(c, addr);
    Ok((addr, c', s'))
  }

  /** Mode 0 round trip: an address written as a varint by itself decodes to itself. */
  lemma LookUpSelf(c: Cache, s: Store, here: i32, addr: nat)
    requires c.Valid() && s.Valid() && addr < 0x8000_0000
    requires s.pos + |Varint.Encode(addr)| <= |s.bytes|
    requires s.bytes[s.pos..s.pos + |Varint.Encode(addr)|] == Varint.Encode(addr)
    ensures LookUp(c, s, here, 0) == Ok((addr, s.(pos := s.pos + |Varint.Encode(addr)|)))
  {
    ReadVarintEncoded(s, addr);
  }

  /** Mode 1 round trip: an address at or before `here`, written as `here - addr`,
      decodes to itself. */
  lemma LookUpHere(c: Cache, s: Store, here: i32, addr: nat)
    requires c.Valid() && s.Valid() && addr <= here
    requires s.pos + |Varint.Encode(here - addr)| <= |s.bytes|
    requires s.bytes[s.pos..s.pos + |Varint.Encode(here - addr)|] == Varint.Encode(here - addr)
    ensures LookUp(c, s, here, 1) == Ok((addr, s.(pos := s.pos + |Varint.Encode(here - addr)|)))
  {
    ReadVarintEncoded(s, here - addr);
  }

  /** Near-mode round trip: an address at or after the `m`-th ring slot, written as its
      offset from that slot, decodes to itself with mode `m + 2`. */
  lemma LookUpNear(c: Cache, s: Store, here: i32, m: nat, addr: i32)
    requires c.Valid() && s.Valid() && m < |c.near| && m + 2 < 0x80
    requires var d := addr as int - c.near[m] as int;
      && 0 <= d < 0x8000_0000
      && s.pos + |Varint.Encode(d)| <= |s.bytes| && s.bytes[s.pos..s.pos + |Varint.Encode(d)|] == Varint.Encode(d)
    ensures var d := addr as int - c.near[m] as int;
      LookUp(c, s, here, m + 2) == Ok((addr, s.(pos := s.pos + |Varint.Encode(d)|)))
  {
    ReadVarintEncoded(s, addr as int - c.near[m] as int);
  }

  /** Same-mode round trip: once `addr` has been decoded and the cache updated, the
      same mode and byte naming its slot decode to `addr` again. */
  lemma LookUpSameAfterUpdate(c: Cache, addr: i32, s: Store, here: i32)
    requires c.Valid() && s.Valid() && c.sameSize > 0 && Update(c, addr).Ok?
    requires var k := JavaRem(addr, c.sameSize * 256);
      |c.near| + 2 + k / 256 < 0x80 && s.pos < |s.bytes| && s.bytes[s.pos] == k % 256
    ensures var k := JavaRem(addr, c.sameSize * 256);
      LookUp(Update(c, addr).value, s, here, |c.near| + 2 + k / 256) == Ok((addr, s.(pos := s.pos + 1)))
  {
    var k := JavaRem(addr, c.sameSize * 256);
    var c' := Update(c, addr).value;
    assert (k / 256) * 256 + k % 256 == k;
    assert c'.same[k] == addr;
  }
}

/** The `AddressCache` class, proved against the cache state of `AddressModes`. */
module AddressCaches {
  import opened JavaInt
  import opened Errors
  import opened Stores
  import opened ByteArrayStreams
  import LegacyIO
  import opened AddressModes

  /** `AddressCache`: the two tables are arrays updated in place, and the address
      section is read through a stream that `reset` replaces. */
  class AddressCache {
    const nearSize: nat
    const sameSize: nat
    const near: array<i32>
    var nextNearSlot: nat
    const same: array<i32>
    var addressStream: ByteArrayStream?

    ghost predicate Valid()
      reads this, addressStream
    {
      && near.Length == nearSize < 256 && sameSize < 256 && same.Length == sameSize * 256 && near != same
      && (nextNearSlot < nearSize || nextNearSlot == 0)
      && (addressStream != null ==> addressStream.Valid())
    }

    /** The cache as the decoder sees it. */
    function Abs(): (c: Cache)
      reads this, near, same
      ensures Valid() ==> c.Valid()
    {
      Cache(near[..], nextNearSlot, same[..], sameSize)
    }

    /** `new AddressCache(nearSize, sameSize)`. */
    constructor (nearSize: byte, sameSize: byte)
      ensures Valid() && Abs() == Fresh(nearSize, sameSize) && addressStream == null
      ensures fresh(near) && fresh(same)
    {
      this.nearSize, this.sameSize := nearSize, sameSize;
      near := new i32[nearSize](_ => 0);
      same := new i32[sameSize * 256](_ => 0);
      nextNearSlot := 0;
      addressStream := null;
    }

    /** `reset(addresses)`: both tables cleared, the cursor back to the first slot, and
        a new stream over the window's address section (a `ByteArrayInputStream`,
        modelled as a read-only `ByteArrayStream`). */
    method Reset(addresses: array<byte>)
      requires Valid() && addresses.Length < 0x8000_0000
      modifies this, near, same
      ensures Valid() && Abs() == AddressModes.Reset(old(Abs()))
      ensures fresh(addressStream) && addressStream.data == addresses && addressStream.Abs() == Store(addresses[..], 0, true)
    {
      nextNearSlot := 0;
      Fill(near);
      Fill(same);
      addressStream := new ByteArrayStream(addresses, true);
    }

    /** `Arrays.fill(a, 0)`. */
    static method Fill(a: array<i32>)
      modifies a
      ensures a[..] == Zeros(a.Length)
    {
      for i := 0 to a.Length
        invariant a[..i] == Zeros(i)
      {
        a[i] := 0;
      }
    }

    /** `update(address)`, on the arrays. */
    method Update(address: i32) returns (o: Outcome)
      requires Valid()
      modifies this, near, same
      ensures Valid() && addressStream == old(addressStream)
      ensures o.Pass? ==> AddressModes.Update(old(Abs()), address) == Ok(Abs())
      ensures o.Fail? ==> AddressModes.Update(old(Abs()), address) == Err(o.error)
    {
      if nearSize > 0 {
        near[nextNearSlot] := address;
        nextNearSlot := (nextNearSlot + 1) % nearSize;
      }
      if sameSize > 0 {
        var k := JavaRem(address, sameSize * 256);
        if k < 0 {
          return Fail(Bounds);
        }
        same[k] := address;
      }
      o := Pass;
    }

    /** The first half of `decodeAddress(here, mode)`: the address the mode and the
        address section denote. */
    method LookUp(here: i32, mode: int8) returns (r: Result<i32>)
      requires Valid() && addressStream != null
      modifies addressStream
      ensures Valid()
      ensures r.Ok? ==> AddressModes.LookUp(Abs(), old(addressStream.Abs()), here, mode) == Ok((r.value, addressStream.Abs()))
      ensures r.Err? ==> AddressModes.LookUp(Abs(), old(addressStream.Abs()), here, mode) == Err(r.error)
    {
      if mode == 0 {
        r := LegacyIO.Read7bitIntBE(addressStream);
      } else if mode == 1 {
        var v :- LegacyIO.Read7bitIntBE(addressStream);
        r := Ok(Wrap32(here as int - v));
      } else if mode <= nearSize + 1 {
        if mode < 2 {
          return Err(Bounds);
        }
        var v :- LegacyIO.Read7bitIntBE(addressStream);
        r := Ok(Wrap32(near[mode - 2] as int + v));
      } else if mode <= nearSize + sameSize + 1 {
        var m := mode - (nearSize + 2);
        var b :- LegacyIO.ReadByte(addressStream);
        r := Ok(same[m * 256 + b]);
      } else {
        r := Err(BadAddressMode);
      }
    }

    /** `decodeAddress(here, mode)`: reads the address section through the stream
        `reset` installed (its absence is a NullPointerException, so callers reset
        first), then updates the cache with the address. */
    method DecodeAddress(here: i32, mode: int8) returns (r: Result<i32>)
      requires Valid() && addressStream != null
      modifies this, near, same, addressStream
      ensures Valid() && addressStream == old(addressStream)
      ensures r.Ok? ==>
        AddressModes.DecodeAddress(old(Abs()), old(addressStream.Abs()), here, mode) == Ok((r.value, Abs(), addressStream.Abs()))
      ensures r.Err? ==> AddressModes.DecodeAddress(old(Abs()), old(addressStream.Abs()), here, mode) == Err(r.error)
    {
      var address :- LookUp(here, mode);
      var o := Update(address);
      if o.Fail? {
        return Err(o.error);
      }
      r := Ok(address);
    }
  }
}
