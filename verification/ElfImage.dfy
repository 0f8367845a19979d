/** What the loader keeps of an ELF file: its loadable segments and their span. */
module ElfImage {
  import opened Words

  datatype Segment = Segment(
    fileOffset: u64, virtualAddress: u64, physicalAddress: u64,
    fileBytes: u64, memoryBytes: u64, flags: u32)
  {
    /** ELF_FLAG_EXECUTE */
    predicate Executable() { flags % 2 == 1 }

    /** ELF_FLAG_WRITE */
    predicate Writable() { flags / 2 % 2 == 1 }

    /** What the parser checks of a loadable segment on its own. */
    predicate Sound() {
      && fileBytes <= memoryBytes && memoryBytes != 0
      && fileOffset + fileBytes < U64_LIMIT
      && physicalAddress + memoryBytes < U64_LIMIT
      && virtualAddress + memoryBytes < U64_LIMIT
    }

    predicate Covers(physical: int) {
      physicalAddress <= physical < physicalAddress + memoryBytes
    }
  }

  datatype Image = Image(entry: u64, segments: seq<Segment>, lowest: u64, highest: u64)
}
