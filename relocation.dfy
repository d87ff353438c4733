// ppc_amigaos_relocate_sections: after the loader has placed the program,
// each section GDB knows about is looked up by name in the loaded ELF image.
// With a symbol file, the per-section offset (loaded address minus the
// section's current address, in 64-bit CORE_ADDR arithmetic) is collected
// and applied; without one, the executable's sections are given their loaded
// addresses directly.
module SectionRelocation {
  import opened NatDefs

  /** A section as GDB records it: its name, its link-time address (vma) and
      its current displacement from the vma, that is the offset its objfile
      is relocated by, or for an executable's section the distance its
      target-section entry was moved (0 when it was never relocated). */
  datatype Section = Section(name: string, vma: CoreAddr, offset: CoreAddr)

  /** What the loader reports, by section name: the address the section
      was loaded at, as a CORE_ADDR. A name it does not know, or a NULL
      address, leaves the section alone. */
  type LoadedImage = map<string, CoreAddr>

  datatype Relocation =
    | NoRelocation
    | SymfileRelocated(offsets: seq<CoreAddr>)
    | ExecRelocated(addresses: seq<CoreAddr>)

  /** The loader's address of a section; 0 (NULL) when it has none. */
  function LoadedAddress(image: LoadedImage, name: string): CoreAddr
  {
    if name in image then image[name] else 0
  }

  /** Where GDB currently has a section (`obj_section::addr`): its vma
      plus its objfile's current offset. */
  function CurrentAddress(s: Section): CoreAddr
  {
    ToCoreAddr(s.vma as int + s.offset as int)
  }

  /** The offset of one section: loaded address minus the section's current
      address, wrapping modulo 2^64; 0 when the loader has no address for it. */
  function SectionOffset(s: Section, image: LoadedImage): (r: CoreAddr)
    ensures LoadedAddress(image, s.name) != 0 ==>
      ToCoreAddr(CurrentAddress(s) as int + r as int) == LoadedAddress(image, s.name)
    ensures LoadedAddress(image, s.name) == 0 ==> r == 0
  {
    var address := LoadedAddress(image, s.name);
    if address != 0 then
      OffsetRoundTrip(CurrentAddress(s) as int, address as int);
      ToCoreAddr(address as int - CurrentAddress(s) as int)
    else 0
  }

  /** The address a section has once the executable branch has run: a
      placed section is moved to its loaded address, an unplaced one gets
      no call and stays where it currently is. */
  function ExecAddress(s: Section, image: LoadedImage): (r: CoreAddr)
    ensures LoadedAddress(image, s.name) != 0 ==> r == LoadedAddress(image, s.name)
    ensures LoadedAddress(image, s.name) == 0 ==> r == CurrentAddress(s)
  {
    var address := LoadedAddress(image, s.name);
    if address != 0 then address else CurrentAddress(s)
  }

  /** Where `objfile_relocate` puts a section given its new offset: the
      offsets it receives are measured from the vma. */
  function RelocatedAddress(s: Section, newOffset: CoreAddr): CoreAddr
  {
    ToCoreAddr(s.vma as int + newOffset as int)
  }

  /** Values that differ by a multiple of 2^64 wrap to the same address. */
  lemma {:induction false} WrapShift(x: int, q: int)
    ensures ToCoreAddr(x + q * 0x1_0000_0000_0000_0000) == ToCoreAddr(x)
    decreases if q < 0 then -q else q
  {
    var m := 0x1_0000_0000_0000_0000;
    if q > 0 {
      WrapShift(x, q - 1);
      assert x + q * m == (x + (q - 1) * m) + m;
    } else if q < 0 {
      WrapShift(x, q + 1);
      assert x + q * m == (x + (q + 1) * m) - m;
    }
  }

  /** The offset from `c` to `a`, added back to `c`, gives `a`. */
  lemma OffsetRoundTrip(c: int, a: int)
    requires 0 <= a < 0x1_0000_0000_0000_0000
    ensures ToCoreAddr(c + ToCoreAddr(a - c) as int) as int == a
  {
    WrapCancels(c, a - c);
    assert c + (a - c) == a;
  }

  /** Adding or subtracting a wrapped value wraps like the value itself. */
  lemma WrapCancels(a: int, b: int)
    ensures ToCoreAddr(a + ToCoreAddr(b) as int) == ToCoreAddr(a + b)
    ensures ToCoreAddr(a - ToCoreAddr(b) as int) == ToCoreAddr(a - b)
  {
    var m := 0x1_0000_0000_0000_0000;
    var q := b / m;
    assert ToCoreAddr(b) as int == b - q * m;
    WrapShift(a + b, -q);
    WrapShift(a - b, q);
  }

  /** The symbol-file loop: a zeroed offset table with one entry per
      section, filled in for every section the loader placed. The table is
      indexed by position in `sections`, which stands for the objfile's
      section slots; slots without a BFD section, which the source's loop
      skips and leaves at 0, are not represented. */
  method SymfileOffsets(sections: seq<Section>, image: LoadedImage) returns (offsets: seq<CoreAddr>)
    ensures |offsets| == |sections|
    ensures forall i :: 0 <= i < |sections| ==> offsets[i] == SectionOffset(sections[i], image)
  {
    offsets := seq(|sections|, _ => 0);
    var i := 0;
    while i < |sections|
      invariant 0 <= i <= |sections| && |offsets| == |sections|
      invariant forall k :: 0 <= k < i ==> offsets[k] == SectionOffset(sections[k], image)
      invariant forall k :: i <= k < |sections| ==> offsets[k] == 0
    {
      var address := LoadedAddress(image, sections[i].name);
      if address != 0 {
        offsets := offsets[i := ToCoreAddr(address as int - CurrentAddress(sections[i]) as int)];
      }
      i := i + 1;
    }
  }

  /** The executable loop: every section the loader placed gets its loaded
      address; the others keep their current one. */
  method ExecSectionAddresses(sections: seq<Section>, image: LoadedImage) returns (addresses: seq<CoreAddr>)
    ensures |addresses| == |sections|
    ensures forall i :: 0 <= i < |sections| ==> addresses[i] == ExecAddress(sections[i], image)
  {
    addresses := seq(|sections|, i requires 0 <= i < |sections| => CurrentAddress(sections[i]));
    var i := 0;
    while i < |sections|
      invariant 0 <= i <= |sections| && |addresses| == |sections|
      invariant forall k :: 0 <= k < i ==> addresses[k] == ExecAddress(sections[k], image)
      invariant forall k :: i <= k < |sections| ==> addresses[k] == CurrentAddress(sections[k])
    {
      var address := LoadedAddress(image, sections[i].name);
      if address != 0 {
        addresses := addresses[i := address];
      }
      i := i + 1;
    }
  }

  /** The whole routine: nothing happens unless the seglist has an ELF
      handle and the image opens; then the symbol file is relocated by
      offsets if there is one, else the executable's sections are placed. */
  method RelocateSections(hasElfHandle: bool, elfOpens: bool, symfile: Option<seq<Section>>,
                          execSections: Option<seq<Section>>, image: LoadedImage) returns (r: Relocation)
    ensures !(hasElfHandle && elfOpens) ==> r == NoRelocation
    ensures hasElfHandle && elfOpens && symfile.Some? ==>
      r.SymfileRelocated? && |r.offsets| == |symfile.value| &&
      forall i :: 0 <= i < |symfile.value| ==> r.offsets[i] == SectionOffset(symfile.value[i], image)
    ensures hasElfHandle && elfOpens && symfile.None? && execSections.Some? ==>
      r.ExecRelocated? && |r.addresses| == |execSections.value| &&
      forall i :: 0 <= i < |execSections.value| ==> r.addresses[i] == ExecAddress(execSections.value[i], image)
    ensures hasElfHandle && elfOpens && symfile.None? && execSections.None? ==> r == NoRelocation
  {
    r := NoRelocation;
    if hasElfHandle && elfOpens {
      if symfile.Some? {
        var offsets := SymfileOffsets(symfile.value, image);
        r := SymfileRelocated(offsets);
      } else if execSections.Some? {
        var addresses := ExecSectionAddresses(execSections.value, image);
        r := ExecRelocated(addresses);
      }
    }
  }

  /** Where the symbol-file branch leaves each section once
      `objfile_relocate` has applied the offsets: a placed section lands at
      its loaded address minus the offset its objfile already had, an
      unplaced one goes back to its vma. The executable branch leaves each
      section at its loaded address or where it was, so the two agree on a
      section exactly when it had not been relocated before. */
  lemma {:induction false} RelocatedPlacement(sections: seq<Section>, offsets: seq<CoreAddr>, image: LoadedImage)
    requires |offsets| == |sections|
    requires forall i :: 0 <= i < |sections| ==> offsets[i] == SectionOffset(sections[i], image)
    ensures forall i :: 0 <= i < |sections| && LoadedAddress(image, sections[i].name) != 0 ==>
      RelocatedAddress(sections[i], offsets[i]) ==
        ToCoreAddr(LoadedAddress(image, sections[i].name) as int - sections[i].offset as int)
    ensures forall i :: 0 <= i < |sections| && LoadedAddress(image, sections[i].name) == 0 ==>
      RelocatedAddress(sections[i], offsets[i]) == sections[i].vma
    ensures forall i :: 0 <= i < |sections| ==>
      (RelocatedAddress(sections[i], offsets[i]) == ExecAddress(sections[i], image) <==>
       sections[i].offset == 0)
  {
    forall i | 0 <= i < |sections|
      ensures LoadedAddress(image, sections[i].name) != 0 ==>
        RelocatedAddress(sections[i], offsets[i]) ==
          ToCoreAddr(LoadedAddress(image, sections[i].name) as int - sections[i].offset as int)
      ensures LoadedAddress(image, sections[i].name) == 0 ==>
        RelocatedAddress(sections[i], offsets[i]) == sections[i].vma
      ensures RelocatedAddress(sections[i], offsets[i]) == ExecAddress(sections[i], image) <==>
        sections[i].offset == 0
    {
      var s, loaded := sections[i], LoadedAddress(image, sections[i].name) as int;
      if loaded != 0 {
        PlacedSection(s, loaded);
      } else {
        WrapOfSum(s.vma as int, s.offset as int);
        assert RelocatedAddress(s, offsets[i]) == s.vma;
      }
    }
  }

  /** One placed section: vma + (loaded - (vma + offset)) wraps to
      loaded - offset, which is the loaded address iff the offset is 0. */
  lemma PlacedSection(s: Section, loaded: int)
    requires 0 < loaded < 0x1_0000_0000_0000_0000
    ensures RelocatedAddress(s, ToCoreAddr(loaded - CurrentAddress(s) as int)) == ToCoreAddr(loaded - s.offset as int)
    ensures ToCoreAddr(loaded - s.offset as int) as int == loaded <==> s.offset == 0
  {
    PlacedWrap(s.vma as int, s.offset as int, loaded);
    WrapOfDifference(loaded, s.offset as int);
  }

  /** The wrap arithmetic of one placed section, on plain integers. */
  lemma PlacedWrap(v: int, o: int, loaded: int)
    ensures ToCoreAddr(v + ToCoreAddr(loaded - ToCoreAddr(v + o) as int) as int) == ToCoreAddr(loaded - o)
  {
    var c := ToCoreAddr(v + o) as int;
    calc {
      ToCoreAddr(v + ToCoreAddr(loaded - c) as int);
      { WrapCancels(v, loaded - c); }
      ToCoreAddr(v + (loaded - c));
      { assert v + (loaded - c) == (v + loaded) - c; }
      ToCoreAddr((v + loaded) - ToCoreAddr(v + o) as int);
      { WrapCancels(v + loaded, v + o); }
      ToCoreAddr((v + loaded) - (v + o));
      { assert (v + loaded) - (v + o) == loaded - o; }
      ToCoreAddr(loaded - o);
    }
  }

  /** Adding an offset below 2^64 to an address leaves it in place only
      when the offset is 0. */
  lemma WrapOfSum(a: int, o: int)
    requires 0 <= a < 0x1_0000_0000_0000_0000 && 0 <= o < 0x1_0000_0000_0000_0000
    ensures ToCoreAddr(a + o) as int == a <==> o == 0
  {
    var m := 0x1_0000_0000_0000_0000;
    if a + o >= m {
      WrapShift(a + o, -1);
      assert 0 <= a + o - m < m;
    }
  }

  /** Subtracting an offset below 2^64 from an address leaves it in place
      only when the offset is 0. */
  lemma WrapOfDifference(a: int, o: int)
    requires 0 <= a < 0x1_0000_0000_0000_0000 && 0 <= o < 0x1_0000_0000_0000_0000
    ensures ToCoreAddr(a - o) as int == a <==> o == 0
  {
    var m := 0x1_0000_0000_0000_0000;
    if a - o < 0 {
      WrapShift(a - o, 1);
      assert 0 <= a - o + m < m;
    }
  }
}
