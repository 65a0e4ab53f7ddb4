/**
 * Finding the Root System Description Pointer (`tbxfroot.c`): the RSDP
 * validity check and the 16-byte-step search of the two low-memory windows
 * where section 5.2.5.1 of the ACPI standard allows it to live.
 */
module TbxfRoot {
  import opened Machine
  import opened AcTypes
  import opened TbPrint

  const EBDA_PTR_LOCATION: nat := 0x40E
  const EBDA_WINDOW_SIZE: nat := 1024
  const HI_RSDP_WINDOW_BASE: nat := 0xE0000
  const HI_RSDP_WINDOW_SIZE: nat := 0x20000
  const RSDP_SCAN_STEP: nat := 16
  /** Bytes covered by the ACPI 1.0 checksum and by the extended (revision 2) checksum. */
  const RSDP_CHECKSUM_LENGTH: nat := 20
  const RSDP_XCHECKSUM_LENGTH: nat := 36

  /** Offsets of the RSDP fields the code reads. */
  const RSDP_CHECKSUM_OFFSET: nat := 8
  const RSDP_REVISION_OFFSET: nat := 15
  const RSDP_RSDT_OFFSET: nat := 16
  const RSDP_XSDT_OFFSET: nat := 24
  const RSDP_XCHECKSUM_OFFSET: nat := 32

  /**
   * `acpi_tb_validate_rsdp`: the 8-byte signature "RSD PTR " comes first,
   * then the checksum of the first 20 bytes, then, for revision 2 and
   * later, the checksum of the first 36 bytes.
   */
  function ValidateRsdp(mem: seq<u8>, rsdp: nat): (r: Status)
    ensures r == AE_OK || r == AE_BAD_SIGNATURE || r == AE_BAD_CHECKSUM
    ensures r == AE_BAD_SIGNATURE <==> Bytes(mem, rsdp, 8) != SIG_RSDP
    ensures r == AE_OK ==> Checksum(mem, rsdp, RSDP_CHECKSUM_LENGTH) == 0
    ensures r == AE_OK && Peek(mem, rsdp + RSDP_REVISION_OFFSET) >= 2 ==>
      Checksum(mem, rsdp, RSDP_XCHECKSUM_LENGTH) == 0
  {
    if Bytes(mem, rsdp, 8) != SIG_RSDP then AE_BAD_SIGNATURE
    else if Checksum(mem, rsdp, RSDP_CHECKSUM_LENGTH) != 0 then AE_BAD_CHECKSUM
    else if Peek(mem, rsdp + RSDP_REVISION_OFFSET) >= 2
      && Checksum(mem, rsdp, RSDP_XCHECKSUM_LENGTH) != 0 then AE_BAD_CHECKSUM
    else AE_OK
  }

  /**
   * A structure with the RSDP signature becomes a valid RSDP once its
   * checksum byte (offset 8) and then its extended checksum byte (offset
   * 32) are repaired with the "should be" values.
   */
  lemma RsdpRepair(mem: seq<u8>, rsdp: nat)
    requires rsdp + RSDP_XCHECKSUM_LENGTH <= |mem| && Bytes(mem, rsdp, 8) == SIG_RSDP
    ensures ValidateRsdp(Repaired(Repaired(mem, rsdp, 20, 8), rsdp, 36, 32), rsdp) == AE_OK
  {
    var m1 := Repaired(mem, rsdp, 20, 8);
    var m2 := Repaired(m1, rsdp, 36, 32);
    ChecksumRepair(mem, rsdp, 20, 8);
    ChecksumRepair(m1, rsdp, 36, 32);
    BytesOutside(mem, rsdp, 8, rsdp + 8, m1[rsdp + 8]);
    BytesOutside(m1, rsdp, 8, rsdp + 32, m2[rsdp + 32]);
    BytesOutside(m1, rsdp, 20, rsdp + 32, m2[rsdp + 32]);
    assert Checksum(m2, rsdp, 20) == Checksum(m1, rsdp, 20);
  }

  /** Writing a byte outside [a, a + n) leaves the n bytes at a as they were. */
  lemma BytesOutside(mem: seq<u8>, a: nat, n: nat, x: nat, v: u8)
    requires x < |mem| && (x < a || a + n <= x)
    ensures Bytes(mem[x := v], a, n) == Bytes(mem, a, n)
  {
    var b, c := Bytes(mem[x := v], a, n), Bytes(mem, a, n);
    assert forall i :: 0 <= i < n ==> b[i] == c[i];
  }

  /** Step j of a window starting at start: the address start + 16 * j. */
  function StepAt(start: nat, j: nat): nat
  {
    start + RSDP_SCAN_STEP * j
  }

  /**
   * The step `acpi_tb_scan_memory_for_rsdp(start, length)` stops at once its
   * rover has reached step j: the first step j, j + 1, ... inside the window
   * that holds a valid RSDP.
   */
  function ScanFrom(mem: seq<u8>, start: nat, length: nat, j: nat): Option<nat>
    decreases if 16 * j < length then length - 16 * j else 0
  {
    if 16 * j >= length then None
    else if ValidateRsdp(mem, StepAt(start, j)) == AE_OK then Some(j)
    else ScanFrom(mem, start, length, j + 1)
  }

  /** The address the whole scan of a window returns, or None for NULL. */
  function Scan(mem: seq<u8>, start: nat, length: nat): Option<nat>
  {
    match ScanFrom(mem, start, length, 0)
    case None => None
    case Some(j) => Some(StepAt(start, j))
  }

  /** `acpi_tb_scan_memory_for_rsdp`: the loop stepping a rover 16 bytes at a time. */
  method ScanMemoryForRsdp(mem: seq<u8>, start: nat, length: u32) returns (r: Option<nat>)
    ensures r == Scan(mem, start, length)
  {
    var rover := start;
    var end := start + length;
    ghost var j := 0;
    while rover < end
      invariant rover == StepAt(start, j)
      invariant ScanFrom(mem, start, length, 0) == ScanFrom(mem, start, length, j)
      decreases end - rover
    {
      var status := ValidateRsdp(mem, rover);
      if status == AE_OK {
        return Some(rover);
      }
      rover := rover + RSDP_SCAN_STEP;
      j := j + 1;
    }
    return None;
  }

  /** A hit of the scan from step j is a valid step inside the window, and no step between j and it is valid. */
  lemma {:induction false} ScanFromFound(mem: seq<u8>, start: nat, length: nat, j: nat)
    requires ScanFrom(mem, start, length, j).Some?
    ensures var i := ScanFrom(mem, start, length, j).value;
      j <= i && 16 * i < length && ValidateRsdp(mem, StepAt(start, i)) == AE_OK &&
      forall k :: j <= k < i ==> ValidateRsdp(mem, StepAt(start, k)) != AE_OK
    decreases if 16 * j < length then length - 16 * j else 0
  {
    if ValidateRsdp(mem, StepAt(start, j)) != AE_OK {
      ScanFromFound(mem, start, length, j + 1);
    }
  }

  /** The scan from step j finds nothing only when no step from j on inside the window is valid. */
  lemma {:induction false} ScanFromNone(mem: seq<u8>, start: nat, length: nat, j: nat)
    requires ScanFrom(mem, start, length, j).None?
    ensures forall k :: j <= k && 16 * k < length ==> ValidateRsdp(mem, StepAt(start, k)) != AE_OK
    decreases if 16 * j < length then length - 16 * j else 0
  {
    if 16 * j < length {
      ScanFromNone(mem, start, length, j + 1);
    }
  }

  /** Conversely, when step k is the first valid step from j on, the scan from j stops at k. */
  lemma {:induction false} ScanFromHit(mem: seq<u8>, start: nat, length: nat, j: nat, k: nat)
    requires j <= k && 16 * k < length && ValidateRsdp(mem, StepAt(start, k)) == AE_OK
    requires forall i :: j <= i < k ==> ValidateRsdp(mem, StepAt(start, i)) != AE_OK
    ensures ScanFrom(mem, start, length, j) == Some(k)
    decreases k - j
  {
    if j < k {
      ScanFromHit(mem, start, length, j + 1, k);
    }
  }

  /** With no valid step from j on inside the window, the scan from j finds nothing. */
  lemma {:induction false} ScanFromMiss(mem: seq<u8>, start: nat, length: nat, j: nat)
    requires forall i :: j <= i && 16 * i < length ==> ValidateRsdp(mem, StepAt(start, i)) != AE_OK
    ensures ScanFrom(mem, start, length, j) == None
    decreases if 16 * j < length then length - 16 * j else 0
  {
    if 16 * j < length {
      ScanFromMiss(mem, start, length, j + 1);
    }
  }

  /**
   * The scan of a window returns the first 16-byte step holding a valid
   * RSDP, and NULL exactly when no step holds one.
   */
  lemma ScanFirst(mem: seq<u8>, start: nat, length: nat)
    ensures Scan(mem, start, length).Some? ==>
      var p := Scan(mem, start, length).value;
      start <= p < start + length && (p - start) % 16 == 0 && ValidateRsdp(mem, p) == AE_OK
    ensures Scan(mem, start, length).Some? ==> forall k :: 0 <= k && StepAt(start, k) < Scan(mem, start, length).value ==>
      ValidateRsdp(mem, StepAt(start, k)) != AE_OK
    ensures Scan(mem, start, length).None? <==>
      forall k :: 0 <= k && 16 * k < length ==> ValidateRsdp(mem, StepAt(start, k)) != AE_OK
  {
    if ScanFrom(mem, start, length, 0).Some? {
      ScanFromFound(mem, start, length, 0);
      var i := ScanFrom(mem, start, length, 0).value;
      DivModUnique(16 * i, 16, i, 0);
      assert forall k :: 0 <= k && StepAt(start, k) < StepAt(start, i) ==> k < i;
    } else {
      ScanFromNone(mem, start, length, 0);
    }
  }

  /** `(ACPI_EBDA_PTR_LOCATION) << 4`, the low window the code as written searches. */
  const LOW_WINDOW: nat := 0x40E0

  /**
   * The address `acpi_find_root_pointer` returns, or None for AE_NOT_FOUND:
   * the 1024-byte window at 0x40E << 4 first (0x40E0 > 0x400, so it is
   * always searched), then 0xE0000 to 0xFFFFF.
   */
  function RootPointer(mem: seq<u8>): Option<nat>
  {
    if LOW_WINDOW > 0x400 && Scan(mem, LOW_WINDOW, EBDA_WINDOW_SIZE).Some?
    then Scan(mem, LOW_WINDOW, EBDA_WINDOW_SIZE)
    else Scan(mem, HI_RSDP_WINDOW_BASE, HI_RSDP_WINDOW_SIZE)
  }

  /** `acpi_find_root_pointer`: scan the low window, then the upper one. */
  method FindRootPointer(mem: seq<u8>) returns (status: Status, tableAddress: nat)
    ensures status == AE_OK || status == AE_NOT_FOUND
    ensures status == AE_OK <==> RootPointer(mem).Some?
    ensures status == AE_OK ==> tableAddress == RootPointer(mem).value
  {
    var physicalAddress := EBDA_PTR_LOCATION;
    physicalAddress := physicalAddress * 16;
    if physicalAddress > 0x400 {
      var memRover := ScanMemoryForRsdp(mem, physicalAddress, EBDA_WINDOW_SIZE);
      if memRover.Some? {
        return AE_OK, physicalAddress + (memRover.value - physicalAddress);
      }
    }
    var memRover := ScanMemoryForRsdp(mem, HI_RSDP_WINDOW_BASE, HI_RSDP_WINDOW_SIZE);
    if memRover.Some? {
      return AE_OK, HI_RSDP_WINDOW_BASE + (memRover.value - HI_RSDP_WINDOW_BASE);
    }
    return AE_NOT_FOUND, 0;
  }

  /**
   * What acpi_find_root_pointer finds is a valid RSDP on a 16-byte boundary
   * in one of its two windows, and a hit in the low window wins.
   */
  lemma RootPointerFound(mem: seq<u8>)
    ensures RootPointer(mem).Some? ==>
      var p := RootPointer(mem).value;
      ValidateRsdp(mem, p) == AE_OK && p % 16 == 0 &&
      (LOW_WINDOW <= p < LOW_WINDOW + EBDA_WINDOW_SIZE || HI_RSDP_WINDOW_BASE <= p < 0x100000)
    ensures Scan(mem, LOW_WINDOW, EBDA_WINDOW_SIZE).Some? ==>
      RootPointer(mem) == Scan(mem, LOW_WINDOW, EBDA_WINDOW_SIZE)
  {
    ScanAligned(mem, LOW_WINDOW, EBDA_WINDOW_SIZE, 0x40E);
    ScanAligned(mem, HI_RSDP_WINDOW_BASE, HI_RSDP_WINDOW_SIZE, 0xE000);
  }

  /** A scan of a window on a 16-byte boundary returns a 16-byte aligned address inside it. */
  lemma ScanAligned(mem: seq<u8>, start: nat, length: nat, q: nat)
    requires start == 16 * q
    ensures Scan(mem, start, length).Some? ==>
      var p := Scan(mem, start, length).value;
      ValidateRsdp(mem, p) == AE_OK && p % 16 == 0 && start <= p < start + length
  {
    if ScanFrom(mem, start, length, 0).Some? {
      ScanFromFound(mem, start, length, 0);
      var i := ScanFrom(mem, start, length, 0).value;
      DivModUnique(StepAt(start, i), 16, q + i, 0);
    }
  }

  /** AE_NOT_FOUND: no 16-byte step of either window holds a valid RSDP. */
  lemma RootPointerMissing(mem: seq<u8>)
    ensures RootPointer(mem).None? <==>
      (forall k :: 0 <= k < 64 ==> ValidateRsdp(mem, StepAt(LOW_WINDOW, k)) != AE_OK) &&
      (forall k :: 0 <= k < 0x2000 ==> ValidateRsdp(mem, StepAt(HI_RSDP_WINDOW_BASE, k)) != AE_OK)
  {
    ScanFirst(mem, LOW_WINDOW, EBDA_WINDOW_SIZE);
    ScanFirst(mem, HI_RSDP_WINDOW_BASE, HI_RSDP_WINDOW_SIZE);
  }

  // ---------------------------------------------------------------------
  // The EBDA window, as the ACPI standard describes it

  /** The EBDA's base: the 16-bit real-mode segment stored at 0x40E, shifted left by 4. */
  function EbdaBase(mem: seq<u8>): nat
  {
    Le16(mem, EBDA_PTR_LOCATION) * 16
  }

  /**
   * The search section 5.2.5.1 of the ACPI standard asks for: the
   * first 1024 bytes of the EBDA when it lies above 0x400, then the upper
   * window.
   */
  function RootPointerEbda(mem: seq<u8>): Option<nat>
  {
    if EbdaBase(mem) > 0x400 && Scan(mem, EbdaBase(mem), EBDA_WINDOW_SIZE).Some?
    then Scan(mem, EbdaBase(mem), EBDA_WINDOW_SIZE)
    else Scan(mem, HI_RSDP_WINDOW_BASE, HI_RSDP_WINDOW_SIZE)
  }

  /**
   * The corrected search finds an RSDP in the first KiB of the EBDA: when
   * the EBDA lies above 0x400 and step k of that window is its first valid
   * step, that step is the address returned.
   */
  lemma RootPointerEbdaFound(mem: seq<u8>, k: nat)
    requires EbdaBase(mem) > 0x400 && k < 64
    requires ValidateRsdp(mem, StepAt(EbdaBase(mem), k)) == AE_OK
    requires forall j :: 0 <= j < k ==> ValidateRsdp(mem, StepAt(EbdaBase(mem), j)) != AE_OK
    ensures RootPointerEbda(mem) == Some(StepAt(EbdaBase(mem), k))
  {
    ScanFromHit(mem, EbdaBase(mem), EBDA_WINDOW_SIZE, 0, k);
  }

  /**
   * The code as written misses an RSDP that lives only in the EBDA: with a
   * valid RSDP at the start of an EBDA above 0x400 and none on the steps of
   * the window at 0x40E0 or of the upper window, it reports AE_NOT_FOUND
   * where the corrected search returns the EBDA's.
   */
  lemma EbdaMissed(mem: seq<u8>)
    requires EbdaBase(mem) > 0x400
    requires ValidateRsdp(mem, EbdaBase(mem)) == AE_OK
    requires forall k :: 0 <= k < 64 ==> ValidateRsdp(mem, StepAt(LOW_WINDOW, k)) != AE_OK
    requires forall k :: 0 <= k < 0x2000 ==> ValidateRsdp(mem, StepAt(HI_RSDP_WINDOW_BASE, k)) != AE_OK
    ensures RootPointer(mem) == None
    ensures RootPointerEbda(mem) == Some(EbdaBase(mem))
  {
    ScanFromMiss(mem, LOW_WINDOW, EBDA_WINDOW_SIZE, 0);
    ScanFromMiss(mem, HI_RSDP_WINDOW_BASE, HI_RSDP_WINDOW_SIZE, 0);
    assert StepAt(EbdaBase(mem), 0) == EbdaBase(mem);
    RootPointerEbdaFound(mem, 0);
  }

  /**
   * A revision-0 RSDP with a zero OEM id and RSDT address: the signature,
   * then the checksum byte 0xE1, which brings the sum of the 20 bytes to 0x300.
   */
  const WITNESS_RSDP: seq<u8> := SIG_RSDP + [0xE1] + seq(11, _ => 0)

  /** Memory whose EBDA segment at 0x40E is 0x9FC0 and whose only RSDP sits at 0x9FC00, the EBDA's start. */
  function WitnessMemory(): (mem: seq<u8>)
    ensures |mem| == 0x9FC00 + RSDP_CHECKSUM_LENGTH
  {
    seq(0x9FC00 + RSDP_CHECKSUM_LENGTH, a =>
      if a == 0x40E then 0xC0 else if a == 0x40F then 0x9F
      else if 0x9FC00 <= a < 0x9FC00 + RSDP_CHECKSUM_LENGTH then WITNESS_RSDP[a - 0x9FC00] else 0)
  }

  /** One memory the code as written gets wrong: the EBDA's RSDP is found by the corrected search only. */
  lemma EbdaMissedWitness()
    ensures var mem := WitnessMemory();
      EbdaBase(mem) == 0x9FC00 && RootPointer(mem) == None && RootPointerEbda(mem) == Some(0x9FC00)
  {
    var mem := WitnessMemory();
    assert EbdaBase(mem) == 0x9FC00;
    WitnessRsdpValid();
    WitnessLowMiss();
    WitnessHighMiss();
    EbdaMissed(mem);
  }

  lemma WitnessRsdpValid()
    ensures ValidateRsdp(WitnessMemory(), 0x9FC00) == AE_OK
  {
    WitnessRsdpBytes();
    WitnessSignature();
    WitnessRsdpSum();
    assert Peek(WitnessMemory(), 0x9FC00 + RSDP_REVISION_OFFSET) == 0;
  }

  lemma WitnessRsdpBytes()
    ensures Bytes(WitnessMemory(), 0x9FC00, RSDP_CHECKSUM_LENGTH) == WITNESS_RSDP
  {
    var mem := WitnessMemory();
    var rsdp := Bytes(mem, 0x9FC00, RSDP_CHECKSUM_LENGTH);
    forall i | 0 <= i < RSDP_CHECKSUM_LENGTH
      ensures rsdp[i] == WITNESS_RSDP[i]
    {
      assert Peek(mem, 0x9FC00 + i) == mem[0x9FC00 + i];
    }
  }

  lemma WitnessSignature()
    ensures Bytes(WitnessMemory(), 0x9FC00, 8) == SIG_RSDP
  {
    var mem := WitnessMemory();
    var sig := Bytes(mem, 0x9FC00, 8);
    forall i | 0 <= i < 8
      ensures sig[i] == SIG_RSDP[i]
    {
      assert Peek(mem, 0x9FC00 + i) == mem[0x9FC00 + i];
    }
  }

  /** The window at 0x40E0 holds only zeros. */
  lemma WitnessLowMiss()
    ensures forall k :: 0 <= k < 64 ==> ValidateRsdp(WitnessMemory(), StepAt(LOW_WINDOW, k)) != AE_OK
  {
    var mem := WitnessMemory();
    forall k | 0 <= k < 64
      ensures ValidateRsdp(mem, StepAt(LOW_WINDOW, k)) != AE_OK
    {
      assert Bytes(mem, StepAt(LOW_WINDOW, k), 8)[0] == Peek(mem, StepAt(LOW_WINDOW, k)) == 0;
    }
  }

  /** The upper window lies past the end of the memory, where every byte reads 0. */
  lemma WitnessHighMiss()
    ensures forall k :: 0 <= k < 0x2000 ==> ValidateRsdp(WitnessMemory(), StepAt(HI_RSDP_WINDOW_BASE, k)) != AE_OK
  {
    var mem := WitnessMemory();
    forall k | 0 <= k < 0x2000
      ensures ValidateRsdp(mem, StepAt(HI_RSDP_WINDOW_BASE, k)) != AE_OK
    {
      assert Bytes(mem, StepAt(HI_RSDP_WINDOW_BASE, k), 8)[0] == 0;
    }
  }

  lemma WitnessRsdpSum()
    ensures Sum(WITNESS_RSDP) == 0x300
  {
    SumZeros(SIG_RSDP + [0xE1], 11);
    SumAppend(SIG_RSDP, 0xE1);
    var sig := SIG_RSDP;
    assert sig[..0] == [];
    SumPrefixStep(sig, 0);
    SumPrefixStep(sig, 1);
    SumPrefixStep(sig, 2);
    SumPrefixStep(sig, 3);
    SumPrefixStep(sig, 4);
    SumPrefixStep(sig, 5);
    SumPrefixStep(sig, 6);
    SumPrefixStep(sig, 7);
    assert sig[..8] == sig;
  }

  lemma SumPrefixStep(b: seq<u8>, k: nat)
    requires k < |b|
    ensures Sum(b[..k + 1]) == Sum(b[..k]) + b[k]
  {
    assert b[..k + 1][..k] == b[..k];
  }

  /** Trailing zero bytes leave a sum unchanged. */
  lemma {:induction false} SumZeros(b: seq<u8>, n: nat)
    ensures Sum(b + seq(n, _ => 0)) == Sum(b)
  {
    if n > 0 {
      assert b + seq(n, _ => 0) == (b + seq(n - 1, _ => 0)) + [0];
      SumAppend(b + seq(n - 1, _ => 0), 0);
      SumZeros(b, n - 1);
    } else {
      assert b + seq(n, _ => 0) == b;
    }
  }
}
