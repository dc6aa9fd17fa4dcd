/** Bounds-checked physical memory (src/runtime/real_mode_memory.cpp, include/dosrecomp/runtime/segmented_address.hpp). */
module RealModeMemory {
  import opened Outcome
  import opened Words

  const SIZE: nat := 0x11_0000

  datatype MemoryError = AddressOutside | WordCrossesEnd | RangeOutside

  function Physical(segment: u16, offset: u16): u32 {
    segment * 16 + offset
  }

  /** Segments start every 16 bytes, so one byte has many addresses. */
  lemma SegmentsOverlap(segment: u16, offset: u16)
    ensures Physical(0, offset) == offset
    ensures segment < 0xFFFF && offset + 16 <= 0xFFFF ==> Physical(segment + 1, offset) == Physical(segment, offset + 16)
  {
  }

  /** No segmented word access is ever out of bounds. */
  lemma SegmentedWordInside(segment: u16, offset: u16)
    ensures Physical(segment, offset) + 2 <= SIZE
  {
  }

  class Memory {
    const bytes: array<u8>

    ghost predicate Valid() {
      bytes.Length == SIZE
    }

    constructor ()
      ensures Valid() && fresh(bytes) && bytes.Length == 0x11_0000 && bytes[..] == Zeros(SIZE)
    {
      bytes := new u8[SIZE](_ => 0);
    }

    method Read8(address: u32) returns (r: Result<u8, MemoryError>)
      requires Valid()
      ensures r == if address < SIZE then Ok(bytes[..][address]) else Err(AddressOutside)
    {
      if address >= bytes.Length {
        return Err(AddressOutside);
      }
      return Ok(bytes[address]);
    }

    method Write8(address: u32, value: u8) returns (r: Option<MemoryError>)
      requires Valid()
      modifies bytes
      ensures r == if address < SIZE then None else Some(AddressOutside)
      ensures bytes[..] == if address < SIZE then old(bytes[..])[address := value] else old(bytes[..])
    {
      if address >= bytes.Length {
        return Some(AddressOutside);
      }
      bytes[address] := value;
      return None;
    }

    method Read16(address: u32) returns (r: Result<u16, MemoryError>)
      requires Valid()
      ensures r == if address + 2 <= SIZE then Ok(WordAt(bytes[..], address)) else Err(WordCrossesEnd)
    {
      if address >= bytes.Length || bytes.Length - address < 2 {
        return Err(WordCrossesEnd);
      }
      return Ok(Word(bytes[address], bytes[address + 1]));
    }

    method Write16(address: u32, value: u16) returns (r: Option<MemoryError>)
      requires Valid()
      modifies bytes
      ensures r == if address + 2 <= SIZE then None else Some(WordCrossesEnd)
      ensures bytes[..] == if address + 2 <= SIZE then WithWord(old(bytes[..]), address, value) else old(bytes[..])
    {
      if address >= bytes.Length || bytes.Length - address < 2 {
        return Some(WordCrossesEnd);
      }
      bytes[address] := value % 0x100;
      bytes[address + 1] := value / 0x100;
      return None;
    }

    method Write(address: u32, data: seq<u8>) returns (r: Option<MemoryError>)
      requires Valid()
      modifies bytes
      ensures r == if address + |data| <= SIZE then None else Some(RangeOutside)
      ensures bytes[..] == if address + |data| <= SIZE
                           then old(bytes[..])[..address] + data + old(bytes[..])[address + |data|..]
                           else old(bytes[..])
    {
      if address > bytes.Length || |data| > bytes.Length - address {
        return Some(RangeOutside);
      }
      for i := 0 to |data|
        invariant bytes[..] == old(bytes[..])[..address] + data[..i] + old(bytes[..])[address + i..]
      {
        bytes[address + i] := data[i];
      }
      return None;
    }

    method ReadAt(segment: u16, offset: u16) returns (r: Result<u16, MemoryError>)
      requires Valid()
      ensures 16 * segment + offset + 2 <= bytes.Length
      ensures r == Ok(WordAt(bytes[..], 16 * segment + offset))
    {
      r := Read16(Physical(segment, offset));
    }

    method WriteAt(segment: u16, offset: u16, value: u16) returns (r: Option<MemoryError>)
      requires Valid()
      modifies bytes
      ensures 16 * segment + offset + 2 <= bytes.Length
      ensures r == None && bytes[..] == WithWord(old(bytes[..]), 16 * segment + offset, value)
    {
      r := Write16(Physical(segment, offset), value);
    }
  }
}
