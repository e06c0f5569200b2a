/**
 What the ELF parser hands to the loader: the load plan (crates/mcr-elf/src/plan.rs).
 */
module ElfPlans {
  import opened Ranges

  const PAGE_SIZE: nat := 4096

  datatype ObjectType = Executable | SharedObject

  datatype Permissions = Permissions(read: bool, write: bool, execute: bool) {
    /** The flags of a program header with these permissions. */
    function Flags(): nat {
      (if read then 4 else 0) + (if write then 2 else 0) + (if execute then 1 else 0)
    }
  }

  datatype ProgramHeaderTable = ProgramHeaderTable(fileOffset: U64, entrySize: nat, entryCount: nat,
                                                   virtualAddress: Option<U64>)

  /** A page-aligned guest range and the part of the file that fills its beginning. */
  datatype MemoryMapping = MemoryMapping(start: U64, end: U64, fileOffset: U64, fileSize: U64, permissions: Permissions)

  datatype LoadSegment = LoadSegment(
    index: nat,
    fileOffset: U64,
    virtualAddress: U64,
    fileSize: U64,
    memorySize: U64,
    permissions: Permissions,
    mapping: MemoryMapping
  )

  datatype LoadPlan = LoadPlan(
    objectType: ObjectType,
    entrypoint: U64,
    programHeaders: ProgramHeaderTable,
    interpreter: Option<seq<Byte>>,
    segments: seq<LoadSegment>
  )
}
