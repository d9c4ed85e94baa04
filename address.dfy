/**
  BUS_TO_PHYS in rpi3-gpiovirtbuf.c: the firmware reports addresses in the
  VideoCore bus address space, whose top two bits select a cache alias of
  the same memory; the ARM physical address is the address with those two
  bits cleared.
*/
module Address {

  /** The bus alias selector: bits 31 and 30. */
  const ALIAS_BITS: bv32 := 0xC000_0000

  /**
    `addr & ~0xc0000000`. The result has no alias bit set and differs from
    the bus address only in the alias bits.
  */
  function BusToPhys(addr: bv32): (r: bv32)
    ensures r & ALIAS_BITS == 0
    ensures r | (addr & ALIAS_BITS) == addr
  {
    addr & !ALIAS_BITS
  }

  /** The translation keeps exactly the low 30 bits. */
  lemma BusToPhysMask(addr: bv32)
    ensures BusToPhys(addr) == addr & 0x3FFF_FFFF
  {
  }

  /** The translated address is never above the bus address. */
  lemma BusToPhysBelow(addr: bv32)
    ensures BusToPhys(addr) <= addr
  {
  }

  /** Translating an address that is already physical changes nothing. */
  lemma BusToPhysIdempotent(addr: bv32)
    ensures BusToPhys(BusToPhys(addr)) == BusToPhys(addr)
  {
  }

  /** Each of the four aliases of a physical address translates to it. */
  lemma BusAliasesAgree(phys: bv32, alias: bv32)
    requires phys & ALIAS_BITS == 0
    requires alias & !ALIAS_BITS == 0
    ensures BusToPhys(phys | alias) == phys
  {
  }
}
