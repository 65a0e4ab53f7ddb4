# lvisor in Dafny

lvisor is a small x86-64 hypervisor written in C, with a Python test harness. This project models the deterministic parts of it and proves properties of them. These are the table, buffer and bit-field code that the kernel, the VMM and the guest firmware run around the hardware, plus the harness's text and bookkeeping logic. Each core source file has its own Dafny module. Code that updates state in place (the E820 table, the string routines, the IDT, the VGA screen, the apic id table, the VMCS, the loaders' memory) becomes methods on arrays and classes. Each such method is proved against a specification function, and lemmas state what those functions achieve. Pure macros and decisions become functions with lemmas.

| module | file | models |
|---|---|---|
| Machine, Types, Mmu, BitFacts | machine.dfy, types.dfy, mmu.dfy, bit_facts.dfy | fixed-width unsigned integers, little-endian bytes, `include/sys/types.h` and `include/asm/mmu.h` |
| Bitops | bitops.dfy | `include/asm/bitops.h` and `include/sys/bitops.h`: bitmaps, `__ffs`/`ffz`/`__fls`, `ror32`, the find_* searches and the for_each_* iterations |
| E820Map, E820Sanitize, E820Update, E820 | e820_map.dfy, e820_sanitize.dfy, e820_update.dfy, e820.dfy | `kernel/e820.c`: the 128-slot table, append, sanitize, range update, coverage and end pfn |
| StringLib, WordAtATime | string_lib.dfy, word_at_a_time.dfy | `lib/string.c` and `include/asm/word-at-a-time.h` |
| AcTypes, TbPrint, TbxfRoot, Acpi, Apic | actypes.dfy, tbprint.dfy, tbxfroot.dfy, acpi.dfy, apic.dfy | ACPI table discovery and the MADT-driven APIC id allocation |
| KvmHost, Vmx, Kvm | kvm_host.dfy, vmx.dfy, kvm.dfy | the vCPU register file, the VMX back end, and the VMM core (CPUID, EPT, guest_params, real-mode entry) |
| Setup, MultibootLayout, VmmMultiboot | setup.dfy, multiboot_layout.dfy, vmm_multiboot.dfy | `struct guest_params`, the Multiboot memory map, and `multiboot_init` |
| ElfLoad, FwMultiboot | elf_load.dfy, fw_multiboot.dfy | the firmware's ELF and Multiboot loaders |
| Desc, Idt, VgaCon | desc.dfy, idt.dfy, vgacon.dfy | descriptors, the IDT, and the VGA text console |
| Cpu, CpuBrand, Tsc, Delay | cpu.dfy, cpu_brand.dfy, tsc.dfy, delay.dfy | CPU identification, brand trimming, TSC calibration, and delay conversions |
| KernelTestText, KernelTest | kerneltest_text.dfy, kerneltest.dfy | `tests/kerneltest.py` |

Physical memory is a byte sequence or byte array indexed by physical address. The kernel's `__va`/`__pa` are the identity. A `panic` or a failed `BUG_ON` is either a failure outcome (`ok == false`, `None`, an error status) or, where callers guarantee it, a precondition. Instructions that read hardware are parameters: `cpuid`, `rdmsr`, `rdtsc`, VMREAD of exit information, and the PIT measurement.

Some behaviour is modelled as the code has it:
- `acpi_find_table` reads the signature through empty (NULL) slots, in the identity mapping at address 0.
- `get_model_name` leaves a single space when the brand string is all blanks.
- `kvm_init` checks the firmware header by comparing all eight bytes of `magic` (`sizeof` of the array), not only the three bytes it sets.

## Model

| member | source | states |
|---|---|---|
| Types.Min | include/sys/types.h:34-48 | the result is one of x and y and no larger than either |
| Types.Max | include/sys/types.h:50-64 | the result is one of x and y and no smaller than either |
| Types.DoDiv | include/sys/types.h:88-94 | with the divisor narrowed to 32 bits, n is quotient times divisor plus remainder, and the remainder is below the divisor |
| Types.Roundup | include/sys/types.h:96-101 | when x + y - 1 does not wrap, the result is a multiple of y in [x, x + y) |
| Types.Rounddown | include/sys/types.h:103-108 | the result is a multiple of y in (x - y, x] |
| Types.DivRoundUp | include/sys/types.h:117 | when n + d - 1 does not wrap, the result is the least r with n <= r * d |
| Types.BitsToLongs | include/sys/types.h:114-118 | the least number of 64-bit words holding nr bits, when nr + 63 does not wrap |
| Types.AlignIsRoundup | include/sys/types.h:110-111 | for a power of two a and no wrap, ALIGN gives a multiple of a in [x, x + a) and equals roundup |
| Types.VaPaInverse | include/sys/types.h:135-145 | `__va` and `__pa` are inverse identity maps |
| Types.NibbleMasks | include/sys/types.h:148-149 | the masks and shift of hex_asc_hi/hex_asc_lo select the quotient and remainder by 16 |
| Types.HexBytePackRoundTrip | include/sys/types.h:147-156 | the two digits written denote the byte they came from |
| Types.HexBytePack | include/sys/types.h:151-156 | the high digit goes at buf[pos], the low digit at buf[pos + 1], nothing else changes, and the position after them is returned |
| Mmu.IndexBounds | include/asm/mmu.h:15-29 | each of the four table indices is below 512 |
| Mmu.IndexBitsLow | include/asm/mmu.h:15-21 | bit j of pt_index and pd_index is bit 12 + j and 21 + j of the address |
| Mmu.IndexBitsHigh | include/asm/mmu.h:23-29 | bit j of pdpt_index and pml4_index is bit 30 + j and 39 + j of the address |
| Mmu.IndexDecomposition | include/asm/mmu.h:15-29 | a 48-bit address is the four indices shifted back into place plus its page offset |
| Mmu.PageMaskClearsOffset | include/asm/mmu.h:5-7 | PAGE_MASK clears the 12 offset bits and keeps every other bit |
| Mmu.PtePfnMaskBits | include/asm/mmu.h:9-12 | PTE_PFN_MASK is exactly bits 12 to 45 |
| Mmu.MaxmemPfnValue | include/asm/mmu.h:31-33 | MAXMEM_PFN is 2^34 |
| Bitops.TestBitForms | include/asm/bitops.h:25-46 | the constant and variable forms of test_bit read the same bit: bit nr mod 64 of word nr / 64 |
| Bitops.SetWordBits | include/asm/bitops.h:15-18 | after set_bit, bit j is set exactly when j is nr or it was set before |
| Bitops.ClearWordBits | include/asm/bitops.h:20-23 | after clear_bit, bit j is set exactly when j is not nr and it was set before |
| Bitops.SetBit | include/asm/bitops.h:15-18 | the array afterwards is the bitmap with word nr / 64 ORed with the bit's mask |
| Bitops.ClearBit | include/asm/bitops.h:20-23 | the array afterwards is the bitmap with word nr / 64 ANDed with the complement of the mask |
| Bitops.TestAfterSetClear | include/asm/bitops.h:15-46 | test_bit reads true after set_bit and false after clear_bit |
| Bitops.ViewAfterSetClear | include/asm/bitops.h:15-23 | set_bit and clear_bit change exactly one entry of the bitmap's bit sequence |
| Bitops.Ffs | include/asm/bitops.h:48-60 | for a nonzero word, the result is a set bit below 64 and no lower bit is set |
| Bitops.Ffz | include/asm/bitops.h:62-74 | for a word other than ~0, the result is a clear bit below 64 and every lower bit is set |
| Bitops.Fls | include/asm/bitops.h:76-88 | for a nonzero word, the result is a set bit below 64 and no higher bit is set |
| Bitops.Ror32Bit | include/sys/bitops.h:25-33 | bit i of ror32(w, s) is bit (i + s) mod 32 of w |
| Bitops.Ror32Inverse | include/sys/bitops.h:25-33 | rotating right by s and then by 32 - s gives the word back |
| Bitops.FindNext | include/sys/bitops.h:35-57 | the first bit number in [offset, size) holding the wanted value, or size when there is none |
| Bitops.FindNextBit | include/sys/bitops.h:35-45 | the first set bit at or after offset, or size; every bit skipped is clear |
| Bitops.FindNextZeroBit | include/sys/bitops.h:47-57 | the first clear bit at or after offset, or size; every bit skipped is set |
| Bitops.FindFirstBit | include/sys/bitops.h:59-68 | the first set bit, or size; every bit before it is clear |
| Bitops.FindFirstZeroBit | include/sys/bitops.h:70-79 | the first clear bit, or size; every bit before it is set |
| Bitops.VisitsExactly | include/sys/bitops.h:8-23 | the _from loops visit every bit number in [bit, size) holding the wanted value, and no other, in strictly ascending order |
| Bitops.VisitsMember | include/sys/bitops.h:8-23 | a bit number is visited exactly when it is in [bit, size) and holds the wanted value |
| Bitops.VisitsAscending | include/sys/bitops.h:8-23 | the visits are strictly ascending, so none is repeated |
| Bitops.ForEachFromZero | include/sys/bitops.h:3-17 | for_each_set_bit and for_each_clear_bit start at find_first_bit / find_first_zero_bit and visit nothing exactly when that returns size |
| WordAtATime.ConstantValues | include/asm/word-at-a-time.h:14-16 | REPEAT_BYTE(0x01) and REPEAT_BYTE(0x80) are the one_bits and high_bits constants |
| WordAtATime.LoadStore | include/asm/word-at-a-time.h:10-12 | loading eight bytes as a little-endian word and storing it back gives the bytes |
| WordAtATime.NoZeroByte | include/asm/word-at-a-time.h:29-35 | has_zero of a word with no zero byte is 0 |
| WordAtATime.ZeroByteAt | include/asm/word-at-a-time.h:29-46 | when byte k is the first zero byte, has_zero is nonzero and create_zero_mask gives the mask of the k low bytes |
| WordAtATime.HasZeroMask | include/asm/word-at-a-time.h:29-46 | has_zero is nonzero exactly when the word has a zero byte, and the mask then covers the bytes before the first one |
| WordAtATime.FindZeroCounts | include/asm/word-at-a-time.h:24-54 | find_zero of the mask of the k low bytes is k |
| WordAtATime.MaskedStore | include/asm/word-at-a-time.h:48-49 | masking a word with zero_bytemask of the k-byte mask keeps its first k bytes and zeroes the rest |
| WordAtATime.FirstZeroByte | include/asm/word-at-a-time.h:24-54 | the whole chain has_zero, prep_zero_mask, create_zero_mask, find_zero returns the index of the first zero byte, or has_zero is 0 when there is none |
| StringLib.StrLenIsFirstNul | lib/string.c:195-206 | the string at s holds no NUL, and the byte after it is the terminating NUL |
| StringLib.FirstMismatchIsFirst | lib/string.c:11-20 | the two byte strings agree before the first mismatch, differ at it, and it is their length exactly when they are equal |
| StringLib.LexLessIrreflexive | lib/string.c:153-171 | no string sorts before itself |
| StringLib.LexLessTotal | lib/string.c:153-171 | of two different strings exactly one sorts first |
| StringLib.CompareAntisymmetric | lib/string.c:153-171 | swapping the operands of the three-way comparison negates it |
| StringLib.CompareAt | lib/string.c:158-193 | once two strings agree on a prefix, the comparison is decided by the next pair of characters (NUL past the end) |
| StringLib.MemDiffSign | lib/string.c:11-20 | memcmp's difference is 0 exactly for equal areas and changes sign with the operands |
| StringLib.MemCmp | lib/string.c:11-20 | the result is the difference of the first differing byte pair, 0 exactly when the areas are equal |
| StringLib.MemCpy | lib/string.c:31-39 | dest receives the count source bytes, nothing else changes, and dest is returned |
| StringLib.CopyForward | lib/string.c:65-69 | the ascending copy writes the original source bytes when dest is at or below src or the areas are apart |
| StringLib.CopyBackward | lib/string.c:70-77 | the descending copy writes the original source bytes when dest is at or above src or the areas are apart |
| StringLib.MemMove | lib/string.c:60-79 | for any overlap, dest receives the original count source bytes, nothing else changes, and dest is returned |
| StringLib.MemSet | lib/string.c:89-96 | the count bytes from s become the low byte of c, nothing else changes, and s is returned |
| StringLib.MemFind64 | lib/string.c:41-50 | the index of the first word equal to v, or n when none of the first n is |
| StringLib.StrLenOf | lib/string.c:195-206 | the number of bytes before the first NUL |
| StringLib.StrNLen | lib/string.c:208-220 | the string's length capped at count |
| StringLib.StrCmp | lib/string.c:153-171 | 0 for equal strings, -1 when the first sorts before the second by unsigned bytes, 1 otherwise |
| StringLib.StrNCmp | lib/string.c:173-193 | the three-way comparison of the two strings cut to count characters |
| StringLib.StrChr | lib/string.c:140-151 | the address of the first occurrence of (char)c, the terminating NUL included, or none when it does not occur |
| StringLib.StrRChr | lib/string.c:222-235 | the address of the last occurrence of (char)c, the terminating NUL included, or none when it does not occur |
| StringLib.FindFromIsFirst | lib/string.c:307-327 | the search returns the first position at or after k where the needle occurs, or none when it occurs nowhere there |
| StringLib.StrStr | lib/string.c:307-327 | found exactly when the needle occurs in the haystack, at the address of its first occurrence |
| StringLib.StrStrFirst | lib/string.c:316-318 | an empty needle is found at the start; a found position is an occurrence and no earlier position is one |
| StringLib.ScpyString | lib/string.c:237-259 | after copying into a non-empty buffer, dest holds the source cut to count - 1 characters and NUL-terminated, and the result is the length exactly when the whole source fit |
| StringLib.StrScpy | lib/string.c:260-305 | -E2BIG and nothing written for count 0; otherwise the whole string plus NUL and its length, or the first count - 1 bytes plus NUL and -E2BIG, through the word-at-a-time loop and the byte loop |
| StringLib.CopyWordStep | lib/string.c:273-287 | one aligned word step either ends the copy at the word's NUL with the right result or copies eight NUL-free bytes |
| StringLib.CopyByteStep | lib/string.c:289-298 | one byte step either copies the NUL and returns the length or copies one more byte |
| StringLib.ForceNul | lib/string.c:300-304 | a source that fills the buffer is cut by a NUL in the last byte and -E2BIG is returned |
| StringLib.StrLen | lib/string.c:195-206 | the length counts bytes before the first NUL and stays within memory |
| StringLib.MatchesAt | lib/string.c:319-326 | the memcmp test of strstr's loop is true exactly when the needle occurs at that offset of the haystack |
| E820.Table.constructor | kernel/e820.c:7 | the global table starts empty |
| E820.Table.RangeAdd | kernel/e820.c:49-67 | the entry is stored in the next free slot and counted; with all 128 slots in use nothing changes |
| E820.Table.UpdateTable | kernel/e820.c:186-284 | -1 with the table untouched when fewer than two entries are in use or one wraps past 2^64; otherwise 0, with the sanitized map in the first slots and later slots untouched |
| E820.Table.CopyBack | kernel/e820.c:279-281 | the new entries replace the first slots and become the count; later slots are untouched |
| E820.Table.UpdateTableOrPanic | kernel/e820.c:286-290 | panics exactly when the sanitizer refuses the table; otherwise the table is its sanitized form |
| E820.Table.UpdateSlot | kernel/e820.c:318-363 | one pass of the range-update loop over slot i leaves the table and the added size as the functional update of that slot prescribes |
| E820.Table.SplitSlot | kernel/e820.c:335-342 | an entry that strictly contains the range is cut in three: head kept, the range retyped and the tail appended |
| E820.Table.TrimSlot | kernel/e820.c:344-362 | an entry that partly overlaps the range loses the overlap, which is appended with the new type |
| E820.Table.RangeUpdate | kernel/e820.c:300-370 | the table and the returned size are those of the functional range update of the old table |
| E820.Table.UpdateStep | kernel/e820.c:318-363 | one loop turn keeps the final outcome of the remaining turns unchanged |
| E820.Table.MappedAll | kernel/e820.c:9-44 | true only when [start, end) is covered by entries of the type; on a sorted table without wrapping entries, true whenever it is covered |
| E820.Table.EndPfn | kernel/e820.c:372-406 | the highest end page frame of an entry of the type below the limit (the limit when an entry crosses it), capped at MAXMEM_PFN |
| E820.Table.EndOfRamPfn | kernel/e820.c:408-411 | EndPfn for RAM below MAXMEM_PFN, so never above MAXMEM_PFN |
| E820.Table.RangeAddMultiboot | kernel/e820.c:413-425 | every record of the multiboot memory map is added in order (up to the table's capacity), then the table is sanitized or the kernel panics |
| E820.Table.AddRecord | kernel/e820.c:417-422 | one turn of the multiboot walk adds the record at i and moves past its size field and body |
| E820.AppendAll | kernel/e820.c:49-62 | adding records one by one fills the table up to 128 entries and drops the rest |
| E820.AddRecordStep | kernel/e820.c:417-422 | adding the record at i and the records after it is adding all the records from i |
| E820.MoveStart | kernel/e820.c:33-34 | moving start to the end of an entry that begins at or before start keeps the range covered so far covered |
| E820.CoverageStep | kernel/e820.c:19-42 | each loop turn of e820_mapped_all keeps the remaining range coverable by the remaining entries of a sorted map |
| E820.NoGapBefore | kernel/e820.c:12-13 | in a sorted map an address below entry i is covered by no entry from i on |
| E820.LastPfnReachesLimit | kernel/e820.c:392-395 | an entry of the type that crosses the limit makes the limit the last page frame |
| E820.AnyWraps | kernel/e820.c:201-205 | true exactly when some entry in use wraps past 2^64 |
| E820.RecordChangePoints | kernel/e820.c:207-224 | the change points recorded are a start and an end for every non-empty entry in order |
| E820.CurrentType | kernel/e820.c:254-258 | the current type is the largest type among the overlapping entries, 0 if none |
| E820.RemoveFromOverlap | kernel/e820.c:242-247 | the end point's entry is removed from the overlap list by the swap-with-last loop |
| E820.AdvanceOverlap | kernel/e820.c:237-248 | a start point adds its entry to the overlap list and an end point removes it |
| E820.EmitChange | kernel/e820.c:261-276 | a change of type closes the open entry when it is non-empty, stops when the new table is full, and opens an entry of the new type |
| E820.SweepOne | kernel/e820.c:236-277 | one loop turn over a change point gives the sweep state the functional sweep prescribes |
| E820.OverlapOne | kernel/e820.c:237-258 | one turn's overlap update and current type agree with the functional ones |
| E820.SweepChangePoints | kernel/e820.c:229-277 | the new table built from the sorted change points is that of the functional sweep |
| E820Map.TypeAt | kernel/e820.c:96-102 | the type of an address is the highest-numbered type among the entries covering it, 0 when none does |
| E820Map.CoverTypeAppend | include/asm/e820.h:21-29 | an appended entry decides the covering type of the addresses it covers and leaves the others alone |
| E820Map.CoverTypeBeyond | include/asm/e820.h:21-29 | an address at or beyond every entry's end is covered by none |
| E820Map.CoverTypeUnique | kernel/e820.c:12-13 | in a sorted map without overlap the entry covering an address gives its type |
| E820Map.CoverTypeIsCovering | include/asm/e820.h:21-29 | a non-zero covering type belongs to an entry that covers the address |
| E820Map.LastPfnIsMax | kernel/e820.c:372-398 | the last page frame bounds every candidate entry's end frame (capped at the limit) and is one of them, or 0 |
| E820Map.LastPfnStep | kernel/e820.c:379-398 | one more entry raises the last page frame to its capped end frame when that is larger |
| E820Sanitize.CpCompare | kernel/e820.c:169-184 | change points are ordered by address, and at the same address a start sorts before an end; the result is the sign of their rank difference |
| E820Sanitize.ChangePointsMembers | kernel/e820.c:211-224 | the change points are distinct, and are exactly the start and the end of every non-empty entry |
| E820Sanitize.Insert | kernel/e820.c:226-227 | inserting into a sorted change-point list keeps it sorted and adds exactly that point |
| E820Sanitize.SortChangePoints | kernel/e820.c:226-227 | the sorted list is a permutation of the change points in cpcompare order |
| E820Sanitize.OverlapType | kernel/e820.c:249-258 | the current type is the largest type of the entries in the overlap list, 0 for an empty list |
| E820Sanitize.RemoveOverlapDistinct | kernel/e820.c:241-248 | removing an entry from a list without duplicates by swapping with the last one drops exactly that entry and shortens the list by one |
| E820Sanitize.SwapScanNoMatch | kernel/e820.c:243-246 | the swap loop leaves a list without the entry unchanged |
| E820Sanitize.SweepStepIsEmit | kernel/e820.c:236-277 | one sweep step is the overlap update followed by emitting the new current type at the point's address |
| E820Sanitize.SanitizedEntries | kernel/e820.c:229-281 | the sanitized map has at most 128 entries |
| E820Sanitize.OverlapIsTypeAt | kernel/e820.c:249-258 | when the overlap list holds exactly the entries covering an address, the current type is that address's type in the original map |
| E820Sanitize.FullPersists | kernel/e820.c:266-268 | once the new table is full the sweep stops and later change points change nothing |
| E820Sanitize.SweepCorrect | kernel/e820.c:96-156 | the sweep's output is sorted and disjoint, has at most 128 entries, is full exactly when it stopped early, never gives an address a type other than the original's highest covering type, and gives every address that type when it did not stop |
| E820Sanitize.SanitizedEntriesCorrect | kernel/e820.c:96-156 | the sanitized map is sorted and disjoint, fits in 128 entries, and agrees with the highest-type resolution of the original map wherever it covers an address, and everywhere when it is not full |
| E820Sanitize.SanitizedNoWrap | kernel/e820.c:115-120 | no sanitized entry wraps past 2^64, so sanitizing a sanitized map is accepted |
| E820Update.ClampSize | kernel/e820.c:308-309 | the size is cut so that start + size does not pass 2^64 - 1, and is left alone when it already fits |
| E820Update.MakeUpdate | kernel/e820.c:306-311 | the clamped range with distinct old and new types is a well-formed update |
| E820Update.UpdateEntry | kernel/e820.c:318-363 | one slot's update keeps the existing entries and appends at most two, never beyond 128 |
| E820Update.UpdateEntryFacts | kernel/e820.c:318-363 | one slot's update changes no other existing slot, leaves an entry of another type and the count alone, gives slot i the old or new type, and appends only entries the rest of the loop leaves alone |
| E820Update.InertUnchanged | kernel/e820.c:323-348 | an entry of another type, or one of the old type outside the range, is skipped |
| E820Update.UpdateFrom | kernel/e820.c:318-363 | the remaining loop turns keep the entries present and stay within 128 |
| E820Update.UpdateFromStep | kernel/e820.c:318-363 | the loop from slot i is the update of slot i followed by the loop from i + 1 on the new table |
| E820Update.RangeUpdateFrame | kernel/e820.c:300-365 | the range update keeps entries of other types, only grows the table up to 128 entries, and leaves every touched or added entry with the old or the new type |
| E820Update.EntryValue | kernel/e820.c:329-352 | the size one slot adds to the result is the length of its old-type entry's overlap with the range |
| E820Update.RangeUpdateValue | kernel/e820.c:300-365 | the size returned is the total overlap of the old-type entries with the clamped range, modulo 2^64 |
| E820Update.SplitPieces | kernel/e820.c:335-342 | head, retyped range and tail of a split entry cover the entry's addresses exactly once, with the new type inside the range |
| E820Update.HeadPieces | kernel/e820.c:344-360 | trimming the tail of an entry that starts before the range covers each of its addresses exactly once, retyped inside the range |
| E820Update.TailPieces | kernel/e820.c:344-362 | trimming the head of an entry that ends after the range covers each of its addresses exactly once, retyped inside the range |
| E820Update.EntryCoverage | kernel/e820.c:318-363 | after one slot's update, that slot and the appended entries cover the old entry's addresses with the retyped types |
| E820Update.RangeUpdateCoverage | kernel/e820.c:300-365 | while the table does not fill up, the types covering each address after the update are those before it with the old type replaced by the new one inside the range |
| TbPrint.SumAppend | kernel/acpica/tbprint.c:168-179 | the byte sum grows by each byte added |
| TbPrint.TbChecksum | kernel/acpica/tbprint.c:168-179 | the circular checksum is the sum of the length bytes from buffer modulo 256 |
| TbPrint.VerifyChecksum | kernel/acpica/tbprint.c:127-153 | AE_OK exactly when the table is FACS or S3PT or its bytes sum to 0 modulo 256, AE_BAD_CHECKSUM otherwise |
| TbPrint.SumUpdate | kernel/acpica/tbprint.c:144-148 | replacing one byte changes the sum by the difference |
| TbPrint.ChecksumRepair | kernel/acpica/tbprint.c:144-148 | writing the suggested "should be" value into a byte of the table makes its checksum 0 |
| TbPrint.FixString | kernel/acpica/tbprint.c:18-29 | the repaired string has the original length |
| TbPrint.FixStringAt | kernel/acpica/tbprint.c:18-29 | before the first NUL every byte is kept when printable and becomes '?' otherwise; the NUL and what follows are untouched |
| TbPrint.FixStringNul | kernel/acpica/tbprint.c:21 | the repair moves no NUL |
| TbPrint.FixStringPrintable | kernel/acpica/tbprint.c:13-14 | every byte before the first NUL of a repaired string is printable |
| TbPrint.FixStringIdempotent | kernel/acpica/tbprint.c:18-29 | repairing twice is repairing once |
| TbPrint.FixField | kernel/acpica/tbprint.c:18-29 | repairing a field in place keeps the buffer's length |
| TbPrint.FixStringIn | kernel/acpica/tbprint.c:18-29 | the in-place loop leaves the buffer with the field repaired and everything else untouched |
| TbPrint.CleanHeader | kernel/acpica/tbprint.c:45-55 | the cleaned header has the header's size |
| TbPrint.CleanupTableHeader | kernel/acpica/tbprint.c:45-55 | out_header receives the copy of the header with its four name fields repaired |
| TbPrint.FixFieldParts | kernel/acpica/tbprint.c:18-29 | a field repaired in place is the repaired string, and bytes outside it are unchanged |
| TbPrint.CleanHeaderFields | kernel/acpica/tbprint.c:51-54 | signature, OEM id, OEM table id and compiler id are each repaired |
| TbPrint.CleanHeaderKeepsNumbers | kernel/acpica/tbprint.c:49-54 | the length, revision, checksum and the other numeric fields are copied unchanged |
| TbPrint.CleanHeaderIdempotent | kernel/acpica/tbprint.c:45-55 | cleaning a cleaned header changes nothing |
| AcTypes.Bytes | include/acpi/actbl.h:46-56 | the n bytes of a field read from memory, in address order |
| AcTypes.Le16IsLittleEndian | include/acpi/actbl.h:46-56 | a 16-bit table field is its two bytes read least significant first |
| AcTypes.Le32IsLittleEndian | include/acpi/actbl.h:46-56 | a 32-bit table field is its four bytes read least significant first |
| AcTypes.Le64IsLittleEndian | include/acpi/actbl.h:46-56 | a 64-bit table field is its eight bytes read least significant first |
| AcTypes.CompareNameLiteral | include/acpi/actypes.h:19 | ACPI_COMPARE_NAME against a 4-character name without NUL is equality of the first 4 bytes |
| TbxfRoot.ValidateRsdp | kernel/acpica/tbxfroot.c:15-40 | AE_BAD_SIGNATURE exactly when the first 8 bytes are not "RSD PTR "; AE_OK only when the 20-byte checksum and, from revision 2 on, the 36-byte checksum are 0 |
| TbxfRoot.RsdpRepair | kernel/acpica/tbxfroot.c:28-37 | an RSDP with the right signature validates once its checksum byte and its extended checksum byte are set to the repair values |
| TbxfRoot.ScanMemoryForRsdp | kernel/acpica/tbxfroot.c:119-139 | the scan returns the reference search of the 16-byte steps below length |
| TbxfRoot.ScanFromFound | kernel/acpica/tbxfroot.c:128-133 | a hit is a valid RSDP step inside the window with no valid step before it |
| TbxfRoot.ScanFromNone | kernel/acpica/tbxfroot.c:137-138 | no hit means no step of the window validates |
| TbxfRoot.ScanFromHit | kernel/acpica/tbxfroot.c:128-133 | the first valid step in the window is the one returned |
| TbxfRoot.ScanFromMiss | kernel/acpica/tbxfroot.c:128-138 | a window without a valid step gives NULL |
| TbxfRoot.ScanFirst | kernel/acpica/tbxfroot.c:119-139 | the scan returns an aligned valid RSDP inside the window with no valid RSDP on an earlier step, and NULL exactly when no step validates |
| TbxfRoot.FindRootPointer | kernel/acpica/tbxfroot.c:62-105 | AE_OK with the address of the search, or AE_NOT_FOUND exactly when the search finds nothing |
| TbxfRoot.RootPointerFound | kernel/acpica/tbxfroot.c:62-105 | the address found is a valid RSDP on a 16-byte boundary in the window at 0x40E0 or in 0xE0000-0xFFFFF, and a hit in the low window wins |
| TbxfRoot.ScanAligned | kernel/acpica/tbxfroot.c:119-139 | scanning a 16-byte aligned window returns an aligned valid RSDP inside it |
| TbxfRoot.RootPointerMissing | kernel/acpica/tbxfroot.c:103-104 | AE_NOT_FOUND exactly when none of the 64 low steps and none of the 8192 upper steps validates |
| TbxfRoot.RootPointerEbdaFound | kernel/acpica/tbxfroot.c:68-89 | the corrected search, which reads the EBDA segment stored at 0x40E, returns the first valid step of the EBDA's first KiB |
| TbxfRoot.EbdaMissed | kernel/acpica/tbxfroot.c:69-72 | with a valid RSDP only at the start of an EBDA above 0x400, the code as written reports AE_NOT_FOUND while the corrected search finds it |
| TbxfRoot.EbdaMissedWitness | kernel/acpica/tbxfroot.c:69-72 | one such memory exists: EBDA segment 0x9FC0 at 0x40E and a valid revision-0 RSDP at 0x9FC00 give AE_NOT_FOUND as written and 0x9FC00 from the corrected search |
| Acpi.RootTableEntryWidth | kernel/acpi.c:50-71 | a 4-byte RSDT entry is read as a 32-bit address and any other size as a 64-bit address |
| Acpi.RootTableEntryRoundTrip | kernel/acpi.c:50-71 | an address stored in little-endian order as an RSDT or XSDT entry reads back as itself |
| Acpi.Entries | kernel/acpi.c:141-170 | the root table yields table_count entries |
| Acpi.Accept | kernel/acpi.c:152-159 | filtering keeps at most the entries given |
| Acpi.AcceptMembers | kernel/acpi.c:152-161 | the tables kept are exactly the non-NULL entries whose tables pass the checksum check |
| Acpi.ParseRootTable | kernel/acpi.c:90-173 | AE_INVALID_TABLE_LENGTH for a root table shorter than the header plus one entry, AE_BAD_CHECKSUM for a bad root checksum, both with no slot written; otherwise AE_OK with the accepted tables of the XSDT (revision above 1, non-zero address) or RSDT stored in order from slot 0, at most 128 |
| Acpi.StoreTables | kernel/acpi.c:141-170 | the loop stores the first min(n, 128) accepted tables in order from slot 0 and leaves the other slots alone |
| Acpi.StoreEntry | kernel/acpi.c:150-164 | an entry is stored in the next slot exactly when it is accepted |
| Acpi.StoreStep | kernel/acpi.c:147-170 | one loop turn moves an accepted entry from the work still to do to the slots filled |
| Acpi.FullTables | kernel/acpi.c:164-166 | stopping when the 128th slot is filled records all that the parse promises |
| Acpi.FindTable | kernel/acpi.c:175-186 | the lookup over all 128 slots returns the first slot whose signature matches, or NULL |
| Acpi.FindInSound | kernel/acpi.c:180-185 | a table found comes from a slot and has the name asked for |
| Acpi.FindInFirst | kernel/acpi.c:180-185 | the first matching slot wins |
| Acpi.FindInMissing | kernel/acpi.c:185 | with no matching slot the result is NULL |
| Acpi.FindInNullSlot | kernel/acpi.c:180-183 | an empty slot is read at address 0, so when those bytes match the name the lookup stops there and returns NULL |
| Acpi.TableParse | kernel/acpi.c:188-197 | -ENODEV without calling the handler when the table is absent, otherwise 0 with the handler called once on the table found |
| Acpi.ProcFrom | kernel/acpi.c:224-231 | the proc chosen lies in range |
| Acpi.ProcFromFirst | kernel/acpi.c:224-231 | the subtable goes to the first proc whose id is its type, or to none |
| Acpi.Here | kernel/acpi.c:224-234 | a subtable causes at most one handler call |
| Acpi.ParseEntriesArray | kernel/acpi.c:199-241 | -ENODEV with no call and no count changed when the table is absent; otherwise the calls of the subtable walk, each proc's count raised by its calls, and the number of matched entries returned |
| Acpi.WalkEntries | kernel/acpi.c:214-240 | the loop makes exactly the calls of the walk, counts its matched entries and raises each proc's count by its calls |
| Acpi.DispatchEntry | kernel/acpi.c:224-234 | the subtable goes to its first matching proc, whose count goes up by one, and matched says whether one was found |
| Acpi.WalkStep | kernel/acpi.c:220-237 | a walk step makes the subtable's call and moves on by its length; a zero length is the BUG_ON |
| Acpi.WalkStops | kernel/acpi.c:220-222 | the walk ends with no call once no whole subtable header lies below the table's end or max_entries entries matched |
| Acpi.WalkDispatch | kernel/acpi.c:220-237 | every call hands a subtable inside the table to the first proc whose id is its type |
| Acpi.WalkAscending | kernel/acpi.c:237 | subtables are handed over at strictly increasing addresses, each at most once |
| Acpi.WalkBound | kernel/acpi.c:221-222 | with max_entries non-zero at most max_entries entries are matched |
| Apic.InitialMap | kernel/apic.c:18-33 | at boot one logical id is in use, every slot of cpuid_to_apicid holds BAD_APICID and the boot CPU's APIC id is unknown |
| Apic.InitialMapValid | kernel/apic.c:18-33 | the boot state satisfies the map invariant |
| Apic.Register | kernel/apic.c:44-71 | registering keeps the slot count, the boot id and the logical id count within NR_CPUS |
| Apic.RegisterPanics | kernel/apic.c:44-71 | registration panics exactly for a disabled processor, or for a new APIC id other than the boot CPU's when NR_CPUS logical ids are in use |
| Apic.RegisterKeepsValid | kernel/apic.c:44-71 | registration keeps the invariant and allocates the id: the boot CPU's id goes to slot 0, a new id to the next logical id, a known id changes nothing, and other slots are untouched |
| Apic.RegisterKeepsAllocated | kernel/apic.c:44-71 | an APIC id once allocated stays allocated |
| Apic.RegisterIdempotent | kernel/apic.c:51-61 | registering the same processor a second time changes nothing |
| Apic.Handle | kernel/apic.c:73-105 | handling a local APIC or x2APIC subtable keeps the map's shape |
| Apic.ApplyCalls | kernel/apic.c:73-105 | handling the walk's subtables in order keeps the map's shape |
| Apic.ApplyRegisters | kernel/apic.c:73-121 | after the handlers run, the invariant holds, nothing allocated before is lost, and every enabled processor handed over is allocated |
| Apic.BadIdShadowed | kernel/apic.c:51-61 | a subtable carrying BAD_APICID is taken as already present by the duplicate check, so nothing is allocated |
| Apic.MadtDiscoveryIs | kernel/apic.c:107-121 | MADT discovery is the subtable walk with the two handlers, followed by the boot CPU check |
| Apic.BootDiscoverySound | kernel/apic.c:244-265 | when the boot CPU path succeeds the MADT exists, the boot id is the one read from the APIC, slot 0 holds it, acpi_lapic_addr is the MADT's address, and every processor of the MADT walk is registered |
| Apic.MadtDiscoverySound | kernel/apic.c:254-263 | a successful discovery keeps the invariant and the boot id in slot 0, sets acpi_lapic_addr from the MADT, and registers every processor handed over |
| Apic.MadtWalkDispatched | kernel/apic.c:107-121 | the MADT walk hands each local APIC and x2APIC subtable to its handler |
| Apic.MadtEntries | kernel/apic.c:107-121 | the walk over the MADT's subtables from its 44-byte header on, with at most MAX_LOCAL_APIC matches |
| Apic.ApicState.constructor | kernel/apic.c:18-33 | the globals at boot: one logical id, all slots BAD_APICID, boot id unknown |
| Apic.ApicState.IsAllocated | kernel/apic.c:57-61 | the duplicate check finds exactly the APIC ids held by the logical ids in use |
| Apic.ApicState.RegisterLapic | kernel/apic.c:44-71 | the globals become the functional registration's map, or the call reports the panic |
| Apic.ApicState.ParseProcessor | kernel/apic.c:73-105 | the subtable is bounds-checked (BAD_MADT_ENTRY), its APIC id and enabled bit read, and it is registered |
| Apic.ApicState.ApplyWalk | kernel/apic.c:73-121 | the handlers applied in walk order give the functional map |
| Apic.ApicState.ApicInit | kernel/apic.c:244-265 | on an AP the APIC map is untouched; on the BSP the globals become those of boot discovery, or the call reports the panic or BUG |
| Apic.ApicState.ParseMadt | kernel/apic.c:254-263 | parsing the MADT's entries gives the globals of MADT discovery, or reports failure |
| KvmHost.EdxEax | include/asm/kvm_host.h:77-83 | the 64-bit value read from EDX:EAX has EAX's low 32 bits below and EDX's low 32 bits above |
| KvmHost.SplitEdxEax | include/asm/kvm_host.h:92-96 | a 64-bit value is written as two 32-bit halves that reassemble it |
| KvmHost.EdxEaxRoundTrip | include/asm/kvm_host.h:77-96 | writing a value to EDX:EAX and reading the pair back gives the value |
| KvmHost.SplitOfEdxEax | include/asm/kvm_host.h:77-96 | reading EDX:EAX and writing the result back leaves the two registers truncated to 32 bits |
| KvmHost.Vcpu.constructor | include/asm/kvm_host.h:43-48 | a vCPU has the NR_VCPU_REGS general-purpose registers |
| KvmHost.Vcpu.RegisterWrite | include/asm/kvm_host.h:85-90 | only the register written changes, and it then reads as the value |
| KvmHost.Vcpu.WriteEdxEax | include/asm/kvm_host.h:92-96 | RAX receives the low 32 bits and RDX the high 32 bits, nothing else changes, and EDX:EAX reads back the value |
| Vmx.FieldWidth | vmm/vmx.c:123-165 | a field encoding's width bits decide which accessor checks accept it: 16-bit, 32-bit (which also takes the high half of a 64-bit field), full 64-bit, or natural width |
| Vmx.VmWrite | vmm/vmx.c:200-233 | after a VMWRITE the field reads back as the value written, and every other field is unchanged |
| Vmx.AdjustControlsPanics | vmm/vmx.c:252-269 | adjusting a control word fails exactly when a required bit is neither allowed to be 1 nor forced to 1 |
| Vmx.MissingControls | vmm/vmx.c:263-266 | the required bits missing from the adjusted word are those neither allowed nor forced |
| Vmx.AdjustControlsBits | vmm/vmx.c:252-269 | an adjusted word has every forced-1 bit and every required bit, only allowed or forced bits, only wanted or forced bits, and every wanted bit that is allowed |
| Vmx.AdjustControlsUnique | vmm/vmx.c:252-269 | the adjusted word is the only control word with those four properties |
| Vmx.InterceptionBitsDistinct | vmm/vmx.c:389-418 | the read and write bits of the low and high MSR ranges lie inside the bitmap page, a read bit never coincides with a write bit, and distinct MSRs have distinct bits |
| Vmx.Intercept | vmm/vmx.c:395-417 | setting or clearing one bitmap bit keeps the bitmap's size |
| Vmx.MsrInterception | vmm/vmx.c:389-418 | a change of an MSR's interception keeps the bitmap's size |
| Vmx.MsrInterceptionBits | vmm/vmx.c:389-418 | an MSR outside both ranges leaves the bitmap unchanged; otherwise its read bit becomes read, its write bit becomes write, and every other bit is unchanged |
| Vmx.SetMsrInterception | vmm/vmx.c:389-423 | updating the bitmap in place leaves it equal to the interception function of its old contents |
| Vmx.SetReadWriteBits | vmm/vmx.c:402-417 | the read bit is set or cleared, then the write bit, in place |
| Vmx.SetOrClearBit | vmm/vmx.c:402-417 | one bit of the bitmap is set or cleared in place and nothing else changes |
| Vmx.BitmapMsrNumbers | vmm/vmx.c:440-466 | the three MSRs set up one by one are IA32_APICBASE, the x2APIC ICR (APIC_BASE_MSR + (APIC_ICR >> 4), 0x830) and EFER |
| Vmx.InterceptRangeBits | vmm/vmx.c:462-463 | after the loop over [lo, hi) the read and write bits of every MSR in the range are set and every other bit is unchanged |
| Vmx.HardwareSetupBits | vmm/vmx.c:440-466 | after the four bitmap updates the read bits of APICBASE, the ICR and EFER are clear, their write bits are set, both bits of every MSR from 0x480 to 0x491 are set, and no other bit changes |
| Vmx.HardwareSetupMsrs | vmm/vmx.c:437-466 | by MSR: the VMX capability MSRs 0x480-0x491 exit on both reads and writes; APICBASE, the ICR and EFER exit on writes only; every other MSR keeps its interception |
| Vmx.HardwareSetup | vmm/vmx.c:425-469 | setup fails exactly when the EPT capabilities lack 2 MiB pages or 4-level walks, and then the bitmap is unchanged; otherwise the bitmap becomes the set-up function of its old contents |
| Vmx.SegmentFieldsOf | vmm/vmx.c:36-58 | each segment register has four distinct fields: a 16-bit selector, 32-bit limit and access rights, and a natural-width base |
| Vmx.SetSegment | vmm/vmx.c:807-815 | writing a segment changes only that segment's four fields |
| Vmx.SetSegmentAvlBit | vmm/vmx.c:787-805 | only bit 0 of avl reaches the VMCS: a segment and the same segment with avl reduced to its low bit write the same fields |
| Vmx.AccessRightsRoundTrip | vmm/vmx.c:768-805 | packing a present, usable segment's attributes into access rights and unpacking them gives the segment back |
| Vmx.UnusableAccessRights | vmm/vmx.c:791-792 | an unusable or absent segment packs to just the unusable bit, and unpacks as unusable and not present |
| Vmx.SegmentRoundTrip | vmm/vmx.c:768-815 | reading a segment register after writing it gives the segment written |
| Vmx.SetIa32eMode | vmm/vmx.c:528-529 | setting the IA-32e mode entry control changes only the entry controls |
| Vmx.ClearIa32eMode | vmm/vmx.c:548-549 | clearing the IA-32e mode entry control changes only the entry controls |
| Vmx.SetLma | vmm/vmx.c:531-532 | setting EFER.LMA changes only the guest EFER |
| Vmx.ClearLma | vmm/vmx.c:551-552 | clearing EFER.LMA changes only the guest EFER |
| Vmx.MarkTrBusy | vmm/vmx.c:534-540 | marking TR as a busy 64-bit TSS changes only TR's access rights |
| Vmx.SetIa32eModeEffects | vmm/vmx.c:528-529 | the IA-32e mode control is on afterwards and the other entry-control bits are unchanged |
| Vmx.ClearIa32eModeEffects | vmm/vmx.c:548-549 | the IA-32e mode control is off afterwards and the other entry-control bits are unchanged |
| Vmx.SetLmaEffects | vmm/vmx.c:531-532 | EFER.LMA is on afterwards and EFER.LME is unchanged |
| Vmx.ClearLmaEffects | vmm/vmx.c:551-552 | EFER.LMA is off afterwards and EFER.LME is unchanged |
| Vmx.MarkTrBusyEffects | vmm/vmx.c:534-540 | TR's type becomes a busy 64-bit TSS and its other access-right bits are unchanged |
| Vmx.EnterLmodeEffects | vmm/vmx.c:522-541 | entering long mode turns on IA-32e mode and EFER.LMA and marks TR busy, keeps EFER.LME, CR0 and TR's other access rights, and changes no other field |
| Vmx.ExitLmodeEffects | vmm/vmx.c:543-553 | leaving long mode turns off IA-32e mode and EFER.LMA, keeps EFER.LME and CR0, and changes no other field |
| Vmx.WriteCr0 | vmm/vmx.c:566 | writing the guest CR0 changes only the CR0 field |
| Vmx.WriteCr0Value | vmm/vmx.c:566 | the written CR0 has WP and NE on and every other bit as the guest asked |
| Vmx.WriteCr0Paging | vmm/vmx.c:566 | the written CR0 has paging on exactly when the guest asked for it |
| Vmx.SetCr0Value | vmm/vmx.c:555-567 | after vmx_set_cr0 the guest CR0 has WP and NE on, every other bit as asked, and paging on exactly when asked |
| Vmx.SetCr0LongMode | vmm/vmx.c:516-567 | with EFER.LME set, turning paging on enters long mode and turning it off leaves it; otherwise the entry controls and EFER are unchanged |
| Vmx.SetCr0KeepsConsistent | vmm/vmx.c:516-567 | vmx_set_cr0 keeps the consistency rules: EFER.LMA equals the IA-32e mode control, and equals CR0.PG and EFER.LME |
| Vmx.SetCr3 | vmm/vmx.c:569-572 | the guest CR3 becomes the value given and no other field changes |
| Vmx.SetCr4 | vmm/vmx.c:574-577 | writing the guest CR4 changes only the CR4 field |
| Vmx.SetCr4Value | vmm/vmx.c:574-577 | the written CR4 has VMXE on and every other bit as the guest asked |
| Vmx.EptIndices | vmm/vmx.c:1203-1214 | the shifts and masks of the EPT walk pick the same PML4, PDPT, PD and PT indices as the page-table index macros |
| Vmx.PageAddressBits | vmm/vmx.c:1229-1232 | a 4-KiB translation takes the frame from the entry and the page offset from the guest address |
| Vmx.LargePageOffsetBits | vmm/vmx.c:1224-1226 | a large-page translation keeps the guest address's bits below the page size |
| Vmx.LargePageFrameBits | vmm/vmx.c:1224-1226 | a large-page translation takes the bits above the page size from the entry |
| Vmx.EptWalkOffset | vmm/vmx.c:1216-1233 | every successful EPT walk keeps the guest address's 12-bit page offset |
| Vmx.EptLargePage | vmm/vmx.c:1221-1226 | a present large-page entry at the PDPT or PD level ends the walk with the large-page translation |
| Vmx.EptMisplacedLargePage | vmm/vmx.c:1224-1225 | a large-page bit at the PML4 or PT level makes the walk fail |
| Vmx.Gpa2Hpa | vmm/vmx.c:1216-1233 | the loop succeeds exactly when the EPT walk does, and then returns the walk's host physical address |
| Vmx.SkipInstruction | vmm/vmx.c:1384-1397 | skipping an emulated instruction changes only the guest RIP and the interruptibility state |
| Vmx.SkipInstructionRip | vmm/vmx.c:1389-1391 | the guest RIP advances by the exit's instruction length |
| Vmx.SkipInstructionBlocking | vmm/vmx.c:1394-1396 | blocking by STI and by MOV SS is cleared and the other interruptibility bits are kept |
| Vmx.SameSegment | vmm/vmx.c:768-785 | a segment register reads the same from two VMCS states that agree on its four fields |
| Vmx.CsThenSs | vmm/vmx.c:1296-1297 | writing SS after CS leaves CS as written |
| Vmx.SegmentsStepFrame | vmm/vmx.c:1296-1297 | writing CS and SS keeps the guest RIP and RFLAGS |
| Vmx.SegmentsStepValue | vmm/vmx.c:1296-1297 | after writing CS then SS both read back as written |
| Vmx.Syscall | vmm/vmx.c:1257-1298 | the emulated SYSCALL keeps the register file's size; SyscallRegisters, SyscallControl and SyscallSegments state its effect |
| Vmx.Sysret | vmm/vmx.c:1300-1336 | the emulated SYSRET leaves the general-purpose registers unchanged |
| Vmx.SyscallRegisters | vmm/vmx.c:1263-1268 | SYSCALL saves the next RIP in RCX and RFLAGS in R11 and changes no other register |
| Vmx.SyscallControl | vmm/vmx.c:1263-1270 | SYSCALL jumps to the guest's LSTAR and clears the RFLAGS bits set in its SYSCALL_MASK |
| Vmx.SyscallSegments | vmm/vmx.c:1271-1297 | SYSCALL loads the flat 64-bit kernel CS and SS whose selectors come from STAR bits 32-47, whatever the uninitialised avl members hold, with avl read back as its low bit |
| Vmx.SysretControl | vmm/vmx.c:1304-1305 | SYSRET returns to RCX with RFLAGS rebuilt from R11 under the mask 0x3c7fd7, bit 1 set |
| Vmx.SysretSegments | vmm/vmx.c:1307-1334 | SYSRET loads the flat user CS and SS whose selectors come from STAR bits 48-63, with RPL 3, whatever the uninitialised avl members hold, with avl read back as its low bit |
| Vmx.StarSelectors | kernel/traps.c:116 | with the STAR value the kernel writes, SYSCALL loads KERNEL_CS and KERNEL_DS and SYSRET loads USER_CS and USER_DS |
| Vmx.WrmsrPanics | vmm/vmx.c:1150-1192 | a guest WRMSR panics exactly for an MSR other than APIC_BASE, x2APIC ICR and EFER, or for a write that disables the local APIC |
| Vmx.WrmsrPassThrough | vmm/vmx.c:1158-1180 | APIC_BASE writes reach the host MSR; ICR writes do so unless they send INIT or STARTUP; EFER writes never do; anything passed on is the guest's own index and value |
| Vmx.WrmsrVmcs | vmm/vmx.c:1179-1191 | an EFER write stores the value without EFER.SCE in the guest EFER; any other accepted write only skips the instruction |
| Vmx.VcpuVmx.State | vmm/vmx.c:83-92 | the state of a vCPU has the full register file |
| Vmx.VcpuVmx.constructor | vmm/vmx.c:83-92 | a vCPU's VMX state pairs its registers with the guest MSR save area and an empty VMCS |
| Vmx.VcpuVmx.SkipEmulatedInstruction | vmm/vmx.c:1384-1397 | the VMCS becomes the skip function of the old VMCS |
| Vmx.VcpuVmx.SetSegmentOf | vmm/vmx.c:807-815 | the VMCS becomes the old one with the segment written |
| Vmx.VcpuVmx.SetCr0Of | vmm/vmx.c:555-567 | the VMCS becomes vmx_set_cr0's function of the old one |
| Vmx.VcpuVmx.SetCr4Of | vmm/vmx.c:574-577 | the VMCS becomes the old one with the guest CR4 written |
| Vmx.VcpuVmx.HandleSyscall | vmm/vmx.c:1257-1298 | registers and VMCS become the SYSCALL function of the old state and the saved MSRs |
| Vmx.VcpuVmx.HandleSysret | vmm/vmx.c:1300-1336 | registers and VMCS become the SYSRET function of the old state and the saved MSRs |
| Vmx.VcpuVmx.HandleWrmsr | vmm/vmx.c:1150-1192 | the handler succeeds exactly when the WRMSR function does, then stores its VMCS and reports the host write it passes on; on a panic the VMCS is unchanged |
| Kvm.BitModulo | vmm/kvm.c:153-156 | bit() depends only on the bit number modulo 32, negative numbers included |
| Kvm.FeatureBits | vmm/kvm.c:175-185 | VMX, x2APIC and HYPERVISOR are ECX bits 5, 21 and 31 of leaf 1 |
| Kvm.CpuidLeaf1 | vmm/kvm.c:170-186 | leaf 1 reports VMX off and x2APIC and HYPERVISOR on, and keeps EAX, EBX and EDX as the processor answered |
| Kvm.CpuidLeaf1Others | vmm/kvm.c:175-185 | leaf 1 keeps every ECX bit other than those three |
| Kvm.CpuidHiddenLeaves | vmm/kvm.c:187-215 | leaves 4 and 0x40000001 answer zeros in all four registers |
| Kvm.CpuidNativeLeaves | vmm/kvm.c:216-217 | every other leaf passes the processor's answer through unchanged |
| Kvm.SignatureBytes | vmm/kvm.c:204-206 | EBX, ECX and EDX of leaf 0x40000000 hold the bytes of "KVMKVMKVM" and three zero bytes |
| Kvm.CpuidSignature | vmm/kvm.c:201-207 | leaf 0x40000000 reports 0x40000001 as the highest hypervisor leaf and "KVMKVMKVM" as the signature |
| Kvm.Truncate32Extend | vmm/kvm.c:164-166 | a 32-bit value written to a register reads back unchanged as uint32_t, with the upper half zero |
| Kvm.CpuidResult | vmm/kvm.c:158-225 | CPUID leaves the leaf's answer in RAX, RBX, RCX and RDX, changes no other register, and skips the instruction |
| Kvm.EmulateCpuid | vmm/kvm.c:158-225 | the vCPU's state becomes the CPUID function of its old state |
| Kvm.TableEntryBits | vmm/kvm.c:38-41 | a table entry is readable, writable and executable, is not a large page, and leads to the table |
| Kvm.LeafEntryBits | vmm/kvm.c:43-44 | a 2 MiB entry is readable, writable and executable and is a large page |
| Kvm.LeafAddress | vmm/kvm.c:43-44 | a 2 MiB entry maps a guest address to the page base plus the address's offset in its 2 MiB page |
| Kvm.LowWalk | vmm/kvm.c:36-45 | below 1 GiB the walk goes through PML4[0] and PDPT[0] and ends at the 2 MiB page of the PD entry, same offset |
| Kvm.FirmwareWalk | vmm/kvm.c:43 | every guest address below 2 MiB maps to the same offset of the firmware page |
| Kvm.KernelWalk | vmm/kvm.c:44 | for kernel_start below 1 GiB, every guest address in kernel_start's 2 MiB frame maps to the same offset of the kernel page |
| Kvm.KernelUnmapped | vmm/kvm.c:41-44 | as written, for kernel_start in [1 GiB, 4 GiB) with PDPT[kernel_start >> 30] still 0, no guest address of the kernel's 2 MiB frame translates |
| Kvm.KernelAt1GiBUnmapped | vmm/kvm.c:36-45 | with the tables at 0x1000, 0x2000 and 0x3000 and kernel_start 0x4000_0000, the words construct_tdp writes leave kernel_start without a translation |
| Kvm.CorrectedPdpt | vmm/kvm.c:41 | the corrected PDPT points entries 0 to 3 at the four 4 KiB pages of the PD and keeps every other entry |
| Kvm.KernelWalkCorrected | vmm/kvm.c:41-44 | with PDPT[kernel_start >> 30] pointing at that GiB's PD page, every guest address in kernel_start's 2 MiB frame maps to the same offset of the kernel page, for every kernel_start below 4 GiB |
| Kvm.ConstructPd | vmm/kvm.c:43-44 | filling the PD keeps its 2048 entries; ConstructPdEntries states which entries it sets |
| Kvm.ConstructPdEntries | vmm/kvm.c:43-44 | PD entry 0 maps the firmware page unless kernel_start is below 2 MiB, when the kernel leaf replaces it; entry kernel_start / 2 MiB maps the kernel page; no other entry changes |
| Kvm.RealModeSplit | vmm/kvm.c:117-120 | CS.base plus RIP gives back any 32-bit start_ip, CS.base has no low 16 bits and RIP no high ones |
| Kvm.RealModeSelector | vmm/kvm.c:117-118 | below 1 MiB the CS selector is the real-mode paragraph of the base |
| Kvm.RealModeSelectorTruncated | vmm/kvm.c:117-118 | from 1 MiB on the 16-bit selector is truncated: start_ip 0x100000 gets base 0x100000 and selector 0 |
| Kvm.RealModeCsEncodable | vmm/kvm.c:110-118 | the CS of run_vcpu is a present, usable code segment the access-rights encoding keeps |
| Kvm.EnterRealModeState | vmm/kvm.c:108-121 | after run_vcpu the guest's CS reads back as built and RIP is start_ip's low 16 bits |
| Kvm.BootProcessorStart | vmm/kvm.c:125-131 | the boot processor starts at CS base 0, selector 0, RIP 0x1000 |
| Kvm.RunVcpu | vmm/kvm.c:108-121 | the VMCS becomes the old one with CS and RIP set for start_ip |
| Kvm.Header | vmm/kvm.c:71-74 | the header keeps guest_params.magic's eight bytes |
| Kvm.HeaderJumpsOverParams | vmm/kvm.c:71-74 | the header is a near jump whose little-endian displacement plus its own 3 bytes is sizeof(guest_params), 3628 bytes |
| Kvm.OverwriteFront | vmm/kvm.c:81 | copying data to the front of a buffer gives the data followed by the buffer's old rest |
| Kvm.CopyIn | vmm/kvm.c:64-83 | the copy leaves the array equal to its old contents overwritten with the data at the offset |
| Kvm.FirmwareMagic | vmm/kvm.c:77 | the magic check reads 8 bytes of firmware memory |
| Kvm.FirmwareMagicOfImage | vmm/kvm.c:64-77 | for a firmware of at least 8 bytes the check compares the firmware image's own first 8 bytes |
| Kvm.ParamsOverFirmware | vmm/kvm.c:64-81 | guest_params overwrite the front of the firmware, the rest of the image stays, and memory outside the image is unchanged |
| Kvm.Hypervisor.constructor | vmm/kvm.c:19-26 | the EPT tables and the 2 MiB guest pages are distinct buffers of the sizes declared |
| Kvm.Hypervisor.ConstructTdp | vmm/kvm.c:36-45 | PML4[0] and PDPT[0] are set to the next tables and the PD gets the firmware and kernel leaves; nothing else changes |
| Kvm.Hypervisor.ConstructTdpCorrected | vmm/kvm.c:36-45 | the corrected construct_tdp writes PML4 and PD as construct_tdp does and leaves the PDPT equal to the corrected PDPT |
| Kvm.Hypervisor.KvmInit | vmm/kvm.c:47-84 | kvm_init succeeds exactly when VMX is supported, not disabled by the BIOS, the EPT capability word has both the 2 MiB-page and the 4-level-walk bit, the e820 table fits guest_params and the firmware magic matches; then the MSR bitmap is the one hardware_setup programs, and EPT, guest_params, firmware and kernel memory hold what it copies |
| Kvm.Hypervisor.SetUpGuest | vmm/kvm.c:62-84 | the steps after hardware_setup succeed exactly when the e820 table fits and the firmware magic matches; then EPT, guest_params, firmware and kernel memory hold what they copy |
| Kvm.Hypervisor.InstallGuest | vmm/kvm.c:76-83 | the magic check passes exactly when the firmware starts with the header; then guest_params overwrite the firmware and the kernel image goes to its offset in the kernel page |
| Kvm.Hypervisor.LoadFirmware | vmm/kvm.c:63-64 | the firmware image is copied to FIRMWARE_START of the firmware page |
| Kvm.Hypervisor.InitGuestParams | vmm/kvm.c:66-74 | it panics exactly when the e820 table has more entries than guest_params holds; otherwise the entries and their count are copied and the header set, and the kernel and initrd fields are unchanged |
| Kvm.Hypervisor.SetHeader | vmm/kvm.c:71-74 | guest_params.magic becomes the header |
| Setup.EncodeEntry | include/asm/e820.h:25-29 | a packed e820 entry takes 20 bytes |
| Setup.EncodeEntries | include/asm/setup.h:32 | an array of packed entries takes 20 bytes per entry |
| Setup.Octets | vmm/kvm.c:81 | copying host bytes keeps their number and value |
| Setup.GuestParams.Cmdline | include/asm/setup.h:30 | the command-line buffer holds CMDLINE_SIZE bytes |
| Setup.GuestParams.constructor | include/asm/setup.h:24-35 | the static guest_params start zeroed, with the command-line buffer at its place in host memory |
| Setup.GuestParams.Bytes | include/asm/setup.h:24-33 | the packed structure is 3628 bytes long and starts with its eight magic bytes |
| MultibootLayout.EncodeMmapEntry | firmware/multiboot.c:86-90 | a memory-map record takes 24 bytes |
| MultibootLayout.MmapEntryRoundTrip | kernel/e820.c:413-425 | the VMM reads back the record the firmware wrote, whatever follows it |
| MultibootLayout.EncodeMmap | firmware/multiboot.c:82-92 | the firmware's map takes 24 bytes per entry, as mmap_length says |
| MultibootLayout.EncodeMmapSuffix | firmware/multiboot.c:83-90 | the bytes from record k on encode the entries from k on |
| MultibootLayout.EncodedWalk | kernel/e820.c:413-425 | stepping by size + 4 through the map the firmware writes stays in bounds and visits exactly its records, in order |
| VmmMultiboot.MultibootInit | vmm/multiboot.c:5-34 | multiboot_init succeeds exactly when the loader magic, info block, memory map, module, command line and VMM image checks pass; then the e820 table is the sanitized map with the VMM reserved, the kernel and initrd ranges come from modules 0 and 1, the command line is copied, and no other host memory changes |
| VmmMultiboot.LoadKernel | vmm/multiboot.c:16-27 | the kernel range comes from module 0 and the initrd range from module 1 when there is one; the step panics exactly when the command line does not fit |
| VmmMultiboot.CopyCmdline | vmm/multiboot.c:21-22 | the copy succeeds exactly when the string with its NUL fits the buffer, then the buffer holds the same string; no byte outside the buffer changes |
| VmmMultiboot.VmmIsRam | vmm/multiboot.c:32 | on a sanitized map the check answers whether every byte of the VMM image is RAM |
| VmmMultiboot.ReserveVmmImage | vmm/multiboot.c:33 | the table becomes the map with the VMM image retyped from RAM to reserved |
| VmmMultiboot.RetypedKindsUncovered | kernel/e820.c:318-363 | an address no entry covers gets no type from the update |
| VmmMultiboot.RetypedKindsUnique | kernel/e820.c:318-363 | on a disjoint map an address gets the type of the one entry covering it, after the update |
| VmmMultiboot.RetypedRange | kernel/e820.c:300-370 | retyping a range the map gives the old type throughout leaves every address of it with the new type and no other |
| VmmMultiboot.VmmRangeReserved | vmm/multiboot.c:29-33 | once the VMM image is reserved, every address of it is reserved and nothing else, so it is not RAM the guest can use |
| ElfLoad.LeBound | firmware/elfload.h:12-15 | an n-byte little-endian field holds a number below 256^n |
| ElfLoad.LoadSegment | firmware/elfload.h:20-22 | loading a segment keeps the size of memory |
| ElfLoad.Step | firmware/elfload.h:15-25 | one loop step keeps the size of memory |
| ElfLoad.LoadFrom | firmware/elfload.h:15-26 | the loop keeps the size of memory |
| ElfLoad.LoadElf | firmware/elfload.h:8-29 | the loop leaves memory and the entry point as the walk over the program headers says |
| ElfLoad.VisitHeader | firmware/elfload.h:16-25 | a header that is not PT_LOAD is skipped; a PT_LOAD one is loaded and may move the entry |
| ElfLoad.LoadFromStep | firmware/elfload.h:15-26 | the walk from header i is one step followed by the walk from header i + 1 |
| ElfLoad.LoadOne | firmware/elfload.h:20-22 | memory becomes the copied file bytes followed by the zero fill |
| ElfLoad.LoadSegmentContents | firmware/elfload.h:20-22 | a PT_LOAD segment's file bytes land at p_paddr, the rest of p_memsz is zero, and every other byte is unchanged |
| ElfLoad.VisitedStep | firmware/elfload.h:15-26 | one step moves the entry only for a PT_LOAD header and changes no byte outside that header's destination |
| ElfLoad.LoadFromFrame | firmware/elfload.h:15-26 | a byte outside every loaded segment's destination keeps its value |
| ElfLoad.LoadFromEntryKept | firmware/elfload.h:24-25 | an entry no loaded segment's virtual range holds is returned as e_entry |
| ElfLoad.LoadFromEntryTranslated | firmware/elfload.h:24-25 | an entry in a segment's virtual range is translated to the same offset of its physical range, as a uint32_t |
| ElfLoad.LoadFromEntryBound | firmware/elfload.h:12-25 | the entry stays a uint32_t value through the loop |
| ElfLoad.LoadElfEntryBound | firmware/elfload.h:8-29 | load_elf32 and load_elf64 return a uint32_t |
| FwMultiboot.WordsInWindow | firmware/multiboot.c:17-21 | the scan visits exactly the 32-bit words whose offset is below the window |
| FwMultiboot.Word32Bound | firmware/multiboot.c:22 | a word read is a uint32_t |
| FwMultiboot.ScanFrom | firmware/multiboot.c:21-24 | the scan from word j returns the first word from j on that holds the header magic, or none when no word does |
| FwMultiboot.FirstHeader | firmware/multiboot.c:15-27 | find_multiboot_header returns the first word in the window holding the magic, and NULL exactly when no word holds it |
| FwMultiboot.FindHeader | firmware/multiboot.c:15-27 | the loop returns the first magic word of the window |
| FwMultiboot.AoutCopied | firmware/multiboot.c:45 | the image copy keeps the size of memory |
| FwMultiboot.AoutLoad | firmware/multiboot.c:44-47 | the kludge path keeps the size of memory and returns a uint32_t entry |
| FwMultiboot.AoutMemory | firmware/multiboot.c:45-46 | the kludge path copies the image to load_addr, then zeroes the bss with bounds read after the copy |
| FwMultiboot.AoutContents | firmware/multiboot.c:45-46 | byte by byte: the bss is zero, the copied range holds the image, and every other byte is unchanged |
| FwMultiboot.CopyThenZero | firmware/multiboot.c:45-46 | a copy followed by a zero fill, byte by byte |
| FwMultiboot.HeaderFieldsKept | firmware/multiboot.c:45-47 | the header's fields depend only on its own 32 bytes |
| FwMultiboot.AoutHeaderKept | firmware/multiboot.c:45-47 | when the copy and the fill miss the header, the bss bounds and entry are the header's own |
| FwMultiboot.CopyAout | firmware/multiboot.c:45 | memory becomes the image copied to load_addr |
| FwMultiboot.ZeroBss | firmware/multiboot.c:46 | the bss range read from the header is zeroed and nothing else changes |
| FwMultiboot.LoadAout | firmware/multiboot.c:44-47 | memory and entry become the kludge path's result |
| FwMultiboot.ElfBoot | firmware/multiboot.c:48-63 | the ELF path returns a uint32_t entry, and fails for a wrong magic or a class other than ELFCLASS32 and ELFCLASS64 |
| FwMultiboot.BootAt | firmware/multiboot.c:44-64 | the header's flags choose the kludge or the ELF path, and the entry is a uint32_t |
| FwMultiboot.Boot | firmware/multiboot.c:38-64 | loading fails when there is no header or the ELF path fails; otherwise the entry is a uint32_t |
| FwMultiboot.LoadElfImage | firmware/multiboot.c:48-63 | memory is unchanged on a rejected image, else it and the entry are the ELF path's result |
| FwMultiboot.LoadAt | firmware/multiboot.c:44-64 | memory and entry follow the path the header selects |
| FwMultiboot.LoadImage | firmware/multiboot.c:38-64 | memory is unchanged on an early return, else it and the entry are the load's result |
| FwMultiboot.Mirror | firmware/multiboot.c:86-89 | a record's size field is sizeof the record less its size field |
| FwMultiboot.MmapOf | firmware/multiboot.c:82-90 | record i mirrors e820 entry i, one record per entry |
| FwMultiboot.MmapHandOff | firmware/multiboot.c:82-92 | the VMM-side walk over the n records the firmware writes visits exactly them, and appending them gives back the e820 entries |
| FwMultiboot.AppendMirrors | kernel/e820.c:413-425 | appending the firmware's records to an e820 table appends the entries they mirror |
| FwMultiboot.InfoFlagsValid | firmware/multiboot.c:66-73 | the boot information announces memory, command line, modules and memory map, and 0x3fc00 KiB of upper memory |
| FwMultiboot.Firmware.constructor | firmware/multiboot.c:11-13 | the static boot information, module entry and memory map start zeroed |
| FwMultiboot.Firmware.FillMmap | firmware/multiboot.c:82-90 | record i mirrors e820 entry i for i < n, and the rest of the map is unchanged |
| FwMultiboot.Firmware.DescribeBoot | firmware/multiboot.c:66-92 | the boot information holds the flags, upper memory, command line, the initrd module when initrd_start < initrd_end, and the memory map mirroring the guest's e820 table |
| FwMultiboot.Firmware.LoadMultiboot | firmware/multiboot.c:31-95 | an early return changes nothing; otherwise the image is loaded, the boot information filled in, and the entry handed to the start routine |
| Desc.GdtEntryInit | include/asm/desc.h:15-30 | GDT_ENTRY_INIT yields fields that fit their bit widths |
| Desc.FourBits | include/asm/desc.h:22-29 | four one-bit fields read back as the four-bit group they came from |
| Desc.GdtEntryRoundTrip | include/asm/desc.h:15-30 | the descriptor stands for base mod 2^32, limit mod 2^20 and flags & 0xf0ff, and keeps nothing else of its arguments |
| Desc.EncodeSegment | include/asm/desc.h:8-13 | a segment descriptor takes 8 bytes |
| Desc.DecodeSegment | include/asm/desc.h:8-13 | the fields read from 8 bytes fit their bit widths |
| Desc.UnpackAccessByte | include/asm/desc.h:11 | the byte of type, s, dpl and p unpacks to them |
| Desc.UnpackFlagsByte | include/asm/desc.h:12 | the byte of limit1, avl, l, d and g unpacks to them |
| Desc.SegmentRoundTrip | include/asm/desc.h:8-13 | decoding an encoded segment descriptor gives it back |
| Desc.SetTssLdtDescriptor | include/asm/desc.h:131-143 | set_tssldt_descriptor yields fields that fit their bit widths |
| Desc.TssRoundTrip | include/asm/desc.h:131-143 | the descriptor gives back the whole 64-bit address, the limit mod 2^20 and the type mod 2^5; it is present, and every other field is zero whatever the old contents |
| Desc.EncodeLdtTss | include/asm/desc.h:45-53 | a TSS or LDT descriptor takes 16 bytes |
| Desc.UnpackTypeByte | include/asm/desc.h:49 | the byte of type, dpl and p unpacks to them |
| Desc.UnpackLimitByte | include/asm/desc.h:50 | the byte of limit1, zero0 and g unpacks to them |
| Desc.LdtTssRoundTrip | include/asm/desc.h:45-53 | decoding an encoded TSS or LDT descriptor gives it back |
| Desc.GdtEntrySize | include/asm/desc.h:120-126 | write_gdt_entry copies 16 bytes for a TSS or LDT and 8 for any other type |
| Desc.WriteGdtEntry | include/asm/desc.h:118-129 | the GDT becomes its old bytes overwritten at slot entry with the type's size of the descriptor |
| Desc.WriteGdtSlots | include/asm/desc.h:118-129 | slot entry, and slot entry + 1 for a TSS or LDT, hold the descriptor's bytes; every other slot is unchanged |
| Desc.WriteIdtEntry | include/asm/desc.h:113-116 | slot entry of the IDT holds the gate and no other slot changes |
| Idt.Vectors | kernel/idt.c:8-13 | the vectors of a table are exactly those its entries name |
| Idt.TablesWellFormed | kernel/idt.c:47-81 | the three static tables name vectors the IDT has, each at most once, and the default traps are present interrupt gates on KERNEL_CS on the default stack |
| Idt.OnlyOverflowIsDpl3 | kernel/idt.c:47-64 | of the default traps only the overflow trap is callable from ring 3 |
| Idt.InitDescRoundTrip | kernel/idt.c:92-102 | the gate's three offset pieces fit 16, 16 and 32 bits and recombine to the handler's entry alias; the segment is truncated to 16 bits, the bits are copied and reserved is 0 |
| Idt.Installed | kernel/idt.c:104-114 | installing a table keeps the IDT's 256 entries |
| Idt.MarkAll | kernel/idt.c:111-112 | marking a table's vectors keeps the bitmap's size |
| Idt.InstalledElsewhere | kernel/idt.c:104-114 | a slot no entry names keeps its gate |
| Idt.InstalledAt | kernel/idt.c:104-114 | with distinct vectors the slot of each entry holds that entry's gate |
| Idt.MarkAllBits | kernel/idt.c:111-112 | a vector is marked afterwards exactly when it was marked before or the table names it |
| Idt.IntrGateShape | kernel/idt.c:116-130 | set_intr_gate installs a present DPL-0 interrupt gate on KERNEL_CS, on the current stack, entering at the handler's alias |
| Idt.TrapGates | kernel/idt.c:135-147 | after the default and IST traps, double fault runs on stack DOUBLEFAULT_STACK, and overflow is the only ring-3 default trap |
| Idt.IdtDescr | kernel/idt.c:85-88 | the IDT pointer's limit covers exactly the 256 sixteen-byte gates and fits 16 bits |
| Idt.InterruptTable.constructor | kernel/idt.c:83-90 | the IDT and the system-vector bitmap start zeroed |
| Idt.InterruptTable.SetupFromTable | kernel/idt.c:104-114 | the table's gates are installed in order and, when sys, its vectors marked |
| Idt.InterruptTable.SetIntrGate | kernel/idt.c:116-130 | one gate is replaced and the bitmap is left alone |
| Idt.InterruptTable.SetupTraps | kernel/idt.c:135-139 | the default traps are installed and marked |
| Idt.InterruptTable.SetupIstTraps | kernel/idt.c:144-147 | the IST traps are installed and marked |
| Idt.InterruptTable.ClaimVector | kernel/idt.c:155-158 | vector i is marked and given the spurious-interrupt gate; nothing else changes |
| Idt.InterruptTable.SetupApicAndIrqGates | kernel/idt.c:149-159 | the APIC gates are installed and marked; every external vector ends marked, and those not marked before get the spurious-interrupt gate while the others keep theirs |
| Idt.InterruptTable.UpdateIntrGate | kernel/idt.c:161-165 | only a vector marked in the bitmap is redirected, and only its gate changes |
| Idt.ErrorReasons | kernel/idt.c:233-239 | the loop reports the reasons the walk over the low ESR byte gives |
| Idt.ReasonsFromBits | kernel/idt.c:234-239 | the loop reports exactly the positions of the set bits, offset by the start index, in ascending order |
| Idt.ErrorReasonsMeaning | kernel/idt.c:213-242 | reason k is reported exactly when ESR bit k is set with k < 8, in ascending order, so every index names one of the eight reasons |
| Idt.ReasonNames | kernel/idt.c:215-236 | each reported index is printed as its reason's name |
| VgaCon.ScreenSize | kernel/vgacon.c:7-15 | the console uses 80 by 24 cells of the 80 by 25 text screen |
| VgaCon.CellHalves | kernel/vgacon.c:39 | a cell holds the byte in its low half and the attribute 0x07 in its high half |
| VgaCon.Scroll | kernel/vgacon.c:43-49 | a scroll keeps the screen's size |
| VgaCon.Putc | kernel/vgacon.c:29-52 | vgacon_putc keeps the screen's size |
| VgaCon.PutcCursor | kernel/vgacon.c:29-52 | the cursor stays on the screen; after a newline it is at a row start, and after another byte it moves one cell on unless the screen scrolls |
| VgaCon.PutcWithoutScroll | kernel/vgacon.c:34-41 | without a scroll only the cell at the old cursor can change, to the byte's cell, and a newline changes nothing |
| VgaCon.ScrollCells | kernel/vgacon.c:43-48 | a scroll moves rows 1 to 23 up one row, clears row 23 and leaves row 24 alone |
| VgaCon.PutcScrollKeepsByte | kernel/vgacon.c:39-48 | a byte written in the last cell is kept one row up by the scroll it triggers, and the cursor goes to the start of the cleared row |
| VgaCon.Write | kernel/vgacon.c:62-63 | writing bytes keeps the screen's size and the cursor on the screen |
| VgaCon.WriteConcat | kernel/vgacon.c:62-63 | writing a + b is writing a, then b from where a left the cursor |
| VgaCon.CursorRegistersRoundTrip | kernel/vgacon.c:59-66 | writing the cursor to the two CRTC registers and reading them back gives the same position |
| VgaCon.Screen.constructor | kernel/vgacon.c:7 | the console draws into the video memory given |
| VgaCon.Screen.ScrollUp | kernel/vgacon.c:44-47 | the cells become their scrolled contents |
| VgaCon.Screen.PutChar | kernel/vgacon.c:29-52 | cells and cursor become what vgacon_putc gives |
| VgaCon.Screen.WriteString | kernel/vgacon.c:54-67 | cells and cursor become what writing the message byte by byte gives |
| Cpu.NibbleAt | kernel/cpu.c:47-71 | a value packed around a 4-bit field at some position unpacks to that field and to the part above it |
| Cpu.SignatureRoundTrip | kernel/cpu.c:43-72 | the decoded stepping is the encoded one; the family is the base family plus the extended family when the base is 0xf; the model gains the extended model as its high nibble when the family is 6 or more |
| Cpu.ModelField | kernel/cpu.c:61 | bits 4-7 of the signature are the base model |
| Cpu.FamilyField | kernel/cpu.c:47 | bits 8-11 are the base family |
| Cpu.ExtModelField | kernel/cpu.c:64 | bits 16-19 are the extended model |
| Cpu.ExtFamilyField | kernel/cpu.c:50 | bits 20-27 are the extended family |
| Cpu.SignatureBounds | kernel/cpu.c:43-72 | the model fits the 8-bit x86_model, the stepping 4 bits, and the family is at most 0xf + 0xff |
| Cpu.AsInt32 | kernel/cpu.c:77 | leaf 0's EAX read as int cpuid_level is a 32-bit signed value, non-negative exactly when bit 31 is clear |
| Cpu.VendorIdBytes | kernel/cpu.c:77-80 | the vendor field keeps its 16 bytes |
| Cpu.VendorCases | kernel/cpu.c:94-114 | the vendor is Intel exactly for "GenuineIntel", AMD exactly for "AuthenticAMD", and unknown for any other string |
| Cpu.IntelLeaf0 | kernel/cpu.c:77-109 | an Intel processor's leaf 0 in a zeroed field is identified as Intel |
| Cpu.VendorIdPrefix | kernel/cpu.c:77-80 | the vendor field holds EBX, EDX, ECX as little-endian bytes at offsets 0, 4 and 8, and byte 12 is kept |
| Cpu.IntelVendor | kernel/cpu.c:105-108 | "GenuineIntel" followed by a NUL is Intel |
| Cpu.FourBytes | kernel/cpu.c:77-80 | a 32-bit register is stored as its four little-endian bytes |
| Cpu.BasicCapsWords | kernel/cpu.c:120-155 | a basic capability word is stored exactly when cpuid_level reaches its leaf (word CPUID_F_1_EDX also needs CQM_LLC), with that leaf's register; other words are unchanged |
| Cpu.ExtendedCapsWords | kernel/cpu.c:157-176 | an extended capability word is stored exactly when the extended level reaches its leaf (leaf 0x80000001 also needs the range check), with that leaf's register; other words are unchanged |
| Cpu.CapsWords | kernel/cpu.c:116-177 | get_cpu_cap stores word k exactly when its leaf is reached, with the register of that leaf and sub-leaf, and leaves every other word as it was |
| Cpu.BrandBytes | kernel/cpu.c:188-190 | the three brand leaves give 48 bytes |
| Cpu.LeafBytes | kernel/cpu.c:188-190 | each brand leaf gives 16 bytes |
| Cpu.StoreBrand | kernel/cpu.c:187-190 | the brand overwrites the first 48 bytes of x86_model_id and nothing else |
| Cpu.CpuInfo.constructor | include/asm/processor.h:20-35 | the per-CPU information starts zeroed |
| Cpu.CpuInfo.CpuDetect | kernel/cpu.c:74-92 | cpuid_level and the vendor come from leaf 0; the family is 4 unless level 1 is reached, when family, model and stepping come from the leaf 1 signature; nothing else changes |
| Cpu.CpuInfo.GetCpuVendor | kernel/cpu.c:94-114 | the vendor becomes that of the first matching entry, else unknown, and nothing else changes |
| Cpu.CpuInfo.GetCpuCap | kernel/cpu.c:116-177 | the capability words become what the leaves give, the extended level is leaf 0x80000000's EAX, and nothing else changes |
| Cpu.CpuInfo.GetModelName | kernel/cpu.c:179-208 | below extended level 0x80000004 x86_model_id is unchanged; otherwise it holds the brand with a NUL at byte 48, trimmed |
| Cpu.CpuInfo.CpuInit | kernel/cpu.c:33-41 | detection, vendor, capabilities and brand string run in order: the level, vendor string, vendor, family, model, stepping, capability words, extended level and x86_model_id are each what their step computes from the state the previous steps left |
| CpuBrand.CStrOf | kernel/cpu.c:199 | a NUL-free prefix followed by a NUL is the C string |
| CpuBrand.SkipBlanks | kernel/cpu.c:196-197 | the first loop stops at the first byte that is not ' ', within the 48 brand bytes |
| CpuBrand.StrEnd | kernel/cpu.c:199 | the second loop stops at the first NUL, within the 48 brand bytes |
| CpuBrand.Unblanked | kernel/cpu.c:196-205 | the string after the leading blanks is NUL-free, at most 48 bytes, and does not start with ' ' |
| CpuBrand.LastMark | kernel/cpu.c:200-202 | s ends on the last byte that is not white space, or on 0, and only white space follows it |
| CpuBrand.Trimmed | kernel/cpu.c:194-207 | trimming keeps the 64-byte field |
| CpuBrand.TrimmedEnds | kernel/cpu.c:194-207 | a brand with a byte other than white space trims to a non-empty string of at most 48 bytes that starts with no ' ' and ends with no white space |
| CpuBrand.LeadingBlanks | kernel/cpu.c:196-197 | the bytes the first loop skips are all ' ' |
| CpuBrand.TrailingSpace | kernel/cpu.c:207 | the bytes the final NUL cuts off are all white space |
| CpuBrand.TrimmedWithin | kernel/cpu.c:194-207 | the brand is its leading blanks, then the trimmed string, then white space, so trimming removes nothing else |
| CpuBrand.MarkSplit | kernel/cpu.c:199-207 | a string is its part up to the last mark followed by white space |
| CpuBrand.TrimmedCStr | kernel/cpu.c:199-207 | the trimmed string runs from the first byte after the blanks up to and including the last mark |
| CpuBrand.UnblankedSplit | kernel/cpu.c:196-199 | the brand's C string is its leading blanks followed by the rest |
| CpuBrand.TrimmedBlank | kernel/cpu.c:194-207 | a brand of only white space is not emptied: unless it is empty, one white-space byte remains |
| CpuBrand.TrimModelName | kernel/cpu.c:194-207 | the loops leave x86_model_id equal to the trimmed buffer |
| CpuBrand.SkipLeading | kernel/cpu.c:196-197 | the first loop returns the index of the first byte that is not ' ' |
| CpuBrand.ShiftDown | kernel/cpu.c:199-205 | the second loop copies the string from p down to the start of the field and returns the index of its last mark |
| CpuBrand.StrEndAt | kernel/cpu.c:199 | the first NUL from p on is where the loop stops |
| CpuBrand.ShiftStep | kernel/cpu.c:204 | copying one more byte down extends the copied prefix |
| CpuBrand.LastMarkInSlice | kernel/cpu.c:200-202 | the mark the loop tracks is the last mark of the copied bytes |
| CpuBrand.Shifted | kernel/cpu.c:199-205 | after the second loop the field starts with the unblanked string and the rest is unchanged |
| Tsc.MaxQuickPitIterations | kernel/tsc.c:123-124 | MAX_QUICK_PIT_ITERATIONS is 2330, and that many steps of 256 PIT ticks take at most 500 ms |
| Tsc.CrystalCases | kernel/tsc.c:28-46 | the crystal is ECX / 1000 kHz whenever ECX reports at least 1 MHz; below that it is 24, 25 or 19.2 MHz for the listed models and 0 exactly for the others |
| Tsc.NativeCalibrateRatio | kernel/tsc.c:9-49 | a nonzero result needs an Intel CPU, leaf 0x15, a nonzero ratio and a known crystal; it is then the 32-bit product of crystal and numerator divided by the denominator, rounded down, and nonzero when that product fits and reaches the denominator |
| Tsc.PitKhzQuotient | kernel/tsc.c:204-211 | the divisor fits do_div's 32 bits, so the result is the 64-bit product of delta and PIT_TICK_RATE divided by i * 256 * 1000, rounded down, exactly so when the product does not wrap |
| Tsc.InitKhz | kernel/tsc.c:214-227 | tsc_khz is never 0 after tsc_init: the native calibration when it gives a result, else the PIT one, else 2 GHz |
| Tsc.UptimeMicroseconds | kernel/tsc.c:229-242 | the uptime is 0 without a frequency; with one, and no overflow of cycles * 1000, it is the cycle count in microseconds rounded down |
| Tsc.UptimeMonotone | kernel/tsc.c:229-242 | while cycles * 1000 does not wrap, a later cycle count never gives a smaller uptime |
| Tsc.UdelayWaitsUsecs | kernel/tsc.c:244-253 | a delay started at a nonzero uptime t0 is over exactly once the uptime reaches t0 + usecs, while it has not wrapped |
| Tsc.Clock.constructor | kernel/tsc.c:7 | the frequency is 0 before tsc_init |
| Tsc.Clock.TscInit | kernel/tsc.c:214-227 | tsc_khz becomes the first calibration that gives a result, else 2 GHz, and is not 0 |
| Tsc.Clock.GetUptime | kernel/tsc.c:229-242 | the uptime is read from the counter value and the stored frequency |
| Delay.NdelayRoundsUp | include/sys/delay.h:7-10 | ndelay waits the nanoseconds rounded up to whole microseconds: never less than asked and less than a microsecond more, while nsecs + 999 does not wrap |
| Delay.MdelayExact | include/sys/delay.h:12-15 | mdelay converts milliseconds to microseconds exactly while the product fits 64 bits, and waits less once it wraps |
| Delay.SleepsAreDelays | include/sys/delay.h:17-18 | msleep waits as long as mdelay, and usleep_range waits its lower bound whatever the upper bound |
| KernelTestText.SpanEnd | tests/kerneltest.py:52 | the end of an escape span lies after its ESC and within the line |
| KernelTestText.SpanEndIsFirst | tests/kerneltest.py:52 | `[^m]*m` stops at the first 'm' after the ESC |
| KernelTestText.StripAnsiKeeps | tests/kerneltest.py:52 | removing the colour escapes only deletes characters, it never adds one |
| KernelTestText.CleanTail | tests/kerneltest.py:52 | a line with no escape span left keeps none without its first character |
| KernelTestText.CleanCons | tests/kerneltest.py:52 | a character put in front of such a line adds no span unless it is an ESC before an 'm' |
| KernelTestText.CleanUnchanged | tests/kerneltest.py:52 | a line with no escape span is left unchanged by the substitution |
| KernelTestText.StripAnsiClean | tests/kerneltest.py:52 | after the substitution no ESC is followed by an 'm' anywhere: no span is missed |
| KernelTestText.StripAnsiIdempotent | tests/kerneltest.py:52 | removing the escapes twice gives the same line as once |
| KernelTestText.EscFreeUnchanged | tests/kerneltest.py:52 | a line without ESC is recorded as it was read |
| KernelTestText.StripRed | tests/kerneltest.py:74 | the harness's red escape and reset around a word leave just the word |
| KernelTestText.RStripNewlines | tests/kerneltest.py:50 | `rstrip('\n')` keeps a prefix of the line, removes only newlines, and leaves none at the end |
| KernelTestText.Split | tests/kerneltest.py:78 | `split` always gives at least one piece |
| KernelTestText.SplitJoin | tests/kerneltest.py:78-81 | splitting a join of separator-free pieces gives the pieces back |
| KernelTestText.JoinSplit | tests/kerneltest.py:78-81 | joining the pieces of a split gives the string back |
| KernelTestText.SplitSepFree | tests/kerneltest.py:78 | no piece of a split contains the separator |
| KernelTestText.Decimal | tests/kerneltest.py:85 | `%d` of a count is a nonempty string of decimal digits |
| KernelTestText.DecimalRoundTrip | tests/kerneltest.py:85 | the digits `%d` prints read back as the count |
| KernelTestText.EncodeChar | tests/kerneltest.py:64 | `encode()` writes each character as one to four bytes |
| KernelTestText.EncodeAppend | tests/kerneltest.py:64 | encoding text in two parts gives the bytes of encoding it whole |
| KernelTestText.EncodeAscii | tests/kerneltest.py:64 | ASCII text is written one byte per character, each byte the character's code |
| KernelTestText.CodePoints | tests/kerneltest.py:64 | a string has one code point per character |
| KernelTestText.SixBits | tests/kerneltest.py:64 | a scalar value splits into the 6-bit groups that UTF-8 continuation bytes carry |
| KernelTestText.EncodeCharRoundTrip | tests/kerneltest.py:64 | the lead byte of a character's encoding announces its length, and the sequence decodes to the character |
| KernelTestText.DecodeFront | tests/kerneltest.py:64 | a complete sequence in front of more bytes decodes to its value and then the rest |
| KernelTestText.DecodeEncode | tests/kerneltest.py:64 | decoding the bytes `encode()` wrote gives back the text's code points |
| KernelTest.ScanRecords | tests/kerneltest.py:41-57 | every line `_assertOutput` records is the next line read, newlines and escapes removed, in stream order |
| KernelTest.ScanFirstMatch | tests/kerneltest.py:41-57 | the call succeeds exactly when the last recorded line matches, and no earlier one does |
| KernelTest.ScanStops | tests/kerneltest.py:41-57 | the loop stops right after the matching line, at end of file, or after a timeout, and nowhere else |
| KernelTest.ScanStep | tests/kerneltest.py:42-55 | one iteration: a timeout or end of file ends the loop unmatched, a matching line ends it matched, any other line goes on |
| KernelTest.ConsumedStep | tests/kerneltest.py:53 | a read adds its processed line to the output exactly when it delivers one |
| KernelTest.ScanConsumed | tests/kerneltest.py:41-57 | one call appends to `output` exactly the lines of the reads it used up |
| KernelTest.SequentialScans | tests/test_vmm.py:16-17 | two assertions in a row see the guest's lines in the order it printed them, the second starting right after the first's match |
| KernelTest.LastLines | tests/kerneltest.py:56 | `output[-10:]` is the last min(10, length) lines |
| KernelTest.ProcessedNewlineFree | tests/kerneltest.py:50-52 | a line read by `readline` has no newline once processed |
| KernelTest.ConsumedNewlineFree | tests/kerneltest.py:50-53 | when every read is one line, no recorded line holds a newline |
| KernelTest.FailureMessageParts | tests/kerneltest.py:56 | the failure message names the pattern and ends with the last ten recorded lines, which splitting at newlines gives back |
| KernelTest.InputConcat | tests/kerneltest.py:62-65 | two `input` calls write the bytes of the concatenated text: nothing is added between them |
| KernelTest.InputDecodes | tests/kerneltest.py:62-65 | the guest decodes exactly the characters of the text written |
| KernelTest.KernelTestCase.constructor | tests/kerneltest.py:27-30 | a test starts with nothing read, recorded or written |
| KernelTest.KernelTestCase.AssertOutput | tests/kerneltest.py:41-60 | the lines read are appended to `output` and the stream advances past them; the result is None on a match and otherwise the failure message over the new output |
| KernelTest.KernelTestCase.Input | tests/kerneltest.py:62-65 | the encoded bytes are appended to the guest's input and nothing else changes |
| KernelTest.DescriptionOfId | tests/kerneltest.py:77-81 | the description of module.Class.test_method is Class.method, whatever the module path |
| KernelTest.DropTestPrefixSpec | tests/kerneltest.py:79-80 | a leading "test_" is dropped, and a name without one is kept |
| KernelTest.DescriptionDefined | tests/kerneltest.py:78 | the unpacking succeeds exactly when the id has a dot |
| KernelTest.PluralSpec | tests/kerneltest.py:85 | the "s" appears exactly when the count is not one |
| KernelTest.ListingLines | tests/kerneltest.py:115-116 | the listing has one line per failure, the k-th naming the k-th failed test |
| KernelTest.ReportListsFailures | tests/kerneltest.py:108-116 | `printErrors` writes two lines when nothing failed, otherwise three header lines followed by every failure in order |
| KernelTest.KernelTestResult.constructor | tests/kerneltest.py:68-75 | no test run, no pass, no failure and nothing written yet |
| KernelTest.KernelTestResult.StartTestRun | tests/kerneltest.py:83-86 | the Running line with the test count is written and the counts stay |
| KernelTest.KernelTestResult.StartTest | tests/kerneltest.py:88-91 | one more test run and its RUN line written |
| KernelTest.KernelTestResult.AddSuccess | tests/kerneltest.py:93-97 | one more pass and its OK line written; the failures stay |
| KernelTest.KernelTestResult.AddFailure | tests/kerneltest.py:102-106 | the failure is recorded, its error is written and then the FAILED line; passes stay |
| KernelTest.KernelTestResult.AddError | tests/kerneltest.py:99-100 | an error is recorded and written as a failure |
| KernelTest.KernelTestResult.RunTest | tests/kerneltest.py:88-106 | a test started and given one outcome adds one to exactly one of passes and failures |
| KernelTest.KernelTestResult.PrintErrors | tests/kerneltest.py:108-116 | the report is written after the log and the counts stay |
| KernelTest.FirstFound | tests/kerneltest.py:13 | the index found holds the file and no earlier directory does |
| KernelTest.ImagePathResolves | tests/kerneltest.py:12-13 | an image is found exactly when one of the three TESTDIR entries holds it, and then in the first of them that does |
| KernelTest.CommandLayout | tests/kerneltest.py:14-19 | the command exists exactly when both images are found; it is `make qemu KERNEL=` and the path, then the APPEND argument when given, then the INITRD argument when given |

## Left out

- Hardware instructions: VMXON/VMPTRLD/VMLAUNCH, the register save and restore of `vmx_vcpu_run`, `rdmsr`/`wrmsr`, `cpuid`, `rdtsc`, port I/O, MMIO and control-register moves. Their results are parameters of the operations that use them.
- `setup_vmcs_config`, `vcpu_enable`, `vcpu_setup`, `vcpu_run`, `disabled_by_bios` and `get_cpl` in vmm/vmx.c: these are MSR reads of the processor's capabilities and sequences of VMWRITEs of hardware-dependent values. `disabled_by_bios` enters `kvm_init` as a parameter.
- Vmx.HardwareSetup: the `setup_vmcs_config` call at its start is left out, and the EPT capability word it leaves in `vmx_capability.ept` is a parameter. The MSR numbers are those of Linux's msr-index.h, which is not part of this model.
- Kvm.KernelWalk: stated for kernel_start below 1 GiB only, because construct_tdp as written maps nothing above that (Kvm.KernelUnmapped and the first finding below).
- `handle_cr`, `handle_rdtsc`, `handle_rdmsr`, `handle_ept_violation`, `gva2hva`, the exception/NMI handler and the dispatch of `vmx_handle_exit`: they only read exit information from hardware and route it. The exit handlers the model has (SYSCALL, SYSRET, WRMSR, instruction skip) are modelled directly.
- `dump_vmcs`, `print_vmx_controls`, `acpi_table_print_madt_entry`, `acpi_tb_print_table_header`, `e820_print_*`, printk and panic messages: these only print text.
- `kvm_loop` and `create_vcpu`: the loop never returns, and the vCPU allocation is plumbing around `vmx_create_vcpu`.
- `acpi_table_init` composes `acpi_find_root_pointer` and `acpi_tb_parse_root_table`, and both of those are modelled.
- `clear_local_apic`, `setup_local_apic`, `lapic_setup_esr`, `verify_apic`, the x2APIC and xAPIC register accessors and the LAPIC timer: these are register I/O.
- Vmx.VmWrite: the VMCS map stores the 64-bit value written. The wrappers pass the value as an unsigned long; the processor's truncation to a narrower field, and the panic on a failed VMWRITE (vmm/vmx.c:206-208), are not modelled. A field never written reads as 0.
- Vmx.SyscallCs, Vmx.SyscallSs, Vmx.SysretCs, Vmx.SysretSs: `avl` is an uninitialised member of the C local `struct kvm_segment`, so it is a free parameter of any value. Vmx.SyscallSegments and Vmx.SysretSegments hold for every value and read back its low bit, the only one the access rights keep.
- Kvm.Hypervisor.ConstructTdp: the PD slot is indexed with kernel_start / 2 MiB, and Kvm.KernelWalk takes the entry at the address pd + (kernel_start >> 21) * 8. These two are not proved to be the same slot, because relating the array index to the 64-bit address is beyond the bit-vector reasoning used here.
- Kvm.Hypervisor.KvmInit: the requires are the buffer bounds that the C code's `memcpy` calls rely on without checking them.
- FwMultiboot.Firmware.LoadMultiboot: through `Bootable` and `FwMultiboot.AoutOk`, it requires the a.out-kludge copy and the zeroed bss to lie inside memory. The C code computes `load_end_addr - load_addr` and `bss_end_addr - load_end_addr` as uint32_t and checks neither. Section 3.1.3 of version 0.6.96 of the Multiboot standard lets `load_end_addr = 0` mean "the whole file" and `bss_end_addr = 0` mean "no bss". firmware/multiboot.c:45-46 does not treat those cases specially: it copies or zeroes (0 - x) mod 2^32 bytes. Headers using them, and any other header whose ranges leave memory, are excluded from the model.
- ElfLoad.LoadElf: through `ElfLoadable` and `ElfLoad.SegmentOk`, it requires p_filesz <= p_memsz for every PT_LOAD segment, both the file range and the destination range inside memory, and an overlap the upward copy handles. firmware/elfload.h checks none of these; images that break them are excluded.
- Idt.InterruptTable.SetIntrGate, Idt.InterruptTable.UpdateIntrGate: the `BUG_ON(n > 0xFF)` of kernel/idt.c:120 and the `BUG_ON(!test_bit(n, system_vectors))` of kernel/idt.c:163 are preconditions. The halt they cause is not modelled.
- TbPrint.IsPrint, CpuBrand.IsSpace: these assume that ctype classifies ASCII only, as in the C locale. sys/ctype.h is not part of this model. With a Linux-style `_ctype` table, isprint is also true on 0xA0-0xFF and isspace on 0xA0, and TbPrint.FixString and CpuBrand.TrimModelName would then keep or trim those bytes differently.
- StringLib.MemCpy: it requires dest <= src or disjoint regions. For those, the forward byte copy is exactly a copy; an overlap the other way is undefined behaviour in C.
- StringLib.StrScpy: it requires the source and destination windows of count bytes to be disjoint and within memory. The word-at-a-time loads can read up to count bytes past the NUL.
- `memset64` is `rep stosq`. `memzero_explicit` is `memset(s, 0, count)` followed by a compiler barrier, so it adds nothing beyond StringLib.MemSet.
- FwMultiboot.Firmware: the static `multiboot_info`, `mod_list` and `mmap[]` are fields of the firmware object, separate from the memory array. An image loaded over the firmware's own .bss therefore cannot overwrite them. Their physical addresses, and that of the "initrd" string, are parameters.
- Desc.SetTssLdtDescriptor: it returns the descriptor as a value. The `memset` and field stores into the caller's struct are the same result, written out in place by Desc.WriteGdtEntry.
- The `load_idt`, `lidt`, `lgdt` and `ltr` instructions, and kernel/traps.c's GDT/TSS/MSR loading: these are hardware loads.
- VgaCon.Screen: the hardware cursor moves through the CRTC ports. Only the split of the 16-bit position into its two register bytes is modelled.
- `udelay`'s spin, `mdelay`'s call to it, and the PIT calibration (`pit_verify_msb`, `pit_expect_msb`, `quick_pit_calibrate`'s busy loops): only the arithmetic is modelled. The PIT measurement enters `tsc_init` as a parameter.
- Cpu.CpuInfo.CpuDetect: the per-leaf `cpuid` results come from one oracle function. Repeated executions of the same leaf are assumed to return the same values.
- `sort()` from include/sys/sort.h is not part of this model. It is specified by its result, a permutation ordered by `cpcompare`, and the sweep is proved from that.
- `load_linux`, kernel/porte9.c, kernel/uart8250.c and kernel/i8259.c: these are device drivers and a boot path the model does not cover.
- Headers that are not part of this model: asm/cpufeatures.h, asm/vmx.h, asm/apic.h, sys/multiboot.h, sys/elf.h, sys/sizes.h, sys/ctype.h, sys/errno.h, asm/intel-family.h and asm/msr-index.h. Their constants are taken from the Intel SDM, version 0.6.96 of the Multiboot standard, the System V ABI and Linux's values, as the doc comments say.
- Concurrency and per-CPU state: spinlocks, the atomic activity state and %gs-relative per-CPU data.
- Harness, process side: `asyncio` subprocess spawning, `os.setsid`, the `tearDown` kill, and the `wait_for` timeout timer. A timeout is a `Timeout` read in the stream.
- Harness, oracles: the regular-expression engine and `Path.is_file` are predicate parameters. `time.time()` timings are strings as `%.3f` prints them.
- Harness, runner: the unittest runner and `_exc_info_to_string` are not modelled. An error text is a parameter.
- Harness, decoding: UTF-8 decoding of guest output is not modelled; a read is already a string. `input` is modelled including its encoding. The model's strings hold Unicode scalar values only, so the UnicodeEncodeError that `str.encode()` raises on a lone surrogate is not modelled.
- Harness, timeout: the 5-second `TIMEOUT` per line is not a value in the model; a wait that runs out is a Timeout read in the stream.
- KernelTest.KernelTestResult.StartTest, AddSuccess, AddFailure, AddError: they require a `module.Class.method` id, the form unittest gives. `getDescription` on an id without a dot raises, and that case is modelled by KernelTest.Description returning None.
- KernelTest.ImagePath: `next()` raising StopIteration is None.
- KernelTest.KernelTestCase.AssertOutput: `self.output` is assigned once after the loop rather than appended to in the loop. The value is the same, since nothing reads it before the call returns.

## Findings

| source | as written | input that shows it | evidently intended | confidence | as-written member | corrected member |
|---|---|---|---|---|---|---|
| vmm/kvm.c:41-44 | only PDPT[0] points at `ept_pd_0_4g`, so the PD's pages 1 to 3 are never reached, although kernel_start / 2 MiB indexes all four | kernel_start 0x4000_0000: the EPT walk of kernel_start reads PDPT[1], which is still 0, so the kernel's first address has no translation (Kvm.KernelAt1GiBUnmapped) | also point PDPT[k] at `ept_pd_0_4g + k * 512` for k = 1, 2, 3, so every kernel_start below 4 GiB reaches its PD slot | not executed | Kvm.KernelUnmapped | Kvm.KernelWalkCorrected |
| kernel/acpica/tbxfroot.c:69-72 | the low search window is the constant 0x40E shifted left by 4, so it is always [0x40E0, 0x44E0) | memory whose 16-bit EBDA segment at 0x40E is 0x9FC0. A valid RSDP sits at 0x9FC00, the EBDA's start, and none is on a 16-byte step of [0x40E0, 0x44E0) or of 0xE0000-0xFFFFF: the result is AE_NOT_FOUND | read the 16-bit segment stored at 0x40E and search the first KiB of the EBDA at segment << 4, as section 5.2.5.1 of the ACPI standard says | not executed | TbxfRoot.EbdaMissed | TbxfRoot.RootPointerEbdaFound |
