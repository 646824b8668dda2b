/** ELF identification constants and the member-width aliases (src/types.js). */
module Types {
  import opened Utility
  import opened BinaryMembers

  // Sizes and values of the identification bytes, section "ELF Identification"
  // of chapter 4 of the System V ABI.
  const EI_NIDENT: nat := 16
  const EI_MAG0: byte := 0x7f
  const EI_MAG1: byte := 'E' as int
  const EI_MAG2: byte := 'L' as int
  const EI_MAG3: byte := 'F' as int

  // EI_CLASS
  const ELFCLASSNONE: byte := 0
  const ELFCLASS32: byte := 1
  const ELFCLASS64: byte := 2

  // EI_DATA
  const ELFDATANONE: byte := 0
  const ELFDATA2LSB: byte := 1
  const ELFDATA2MSB: byte := 2

  const EI_VERSION: byte := 1

  // EI_OSABI
  const ELFOSABI_SYSV: byte := 0
  const ELFOSABI_HPUX: byte := 1
  const ELFOSABI_NETBSD: byte := 2
  const ELFOSABI_LINUX: byte := 3
  const ELFOSABI_SOLARIS: byte := 6
  const ELFOSABI_AIX: byte := 7
  const ELFOSABI_FREEBSD: byte := 9
  const ELFOSABI_OPENBSD: byte := 12

  const EI_ABIVERSION: byte := 0
  const EI_PAD: byte := 0

  // Each alias allocates a new, zero-filled member of its type's width.

  method Uint8T() returns (m: BinaryMember)
    ensures fresh(m) && m.maxSize == 1 && m.value == Zeros(1)
  {
    m := new BinaryMember(1);
  }

  method Uint16T() returns (m: BinaryMember)
    ensures fresh(m) && m.maxSize == 2 && m.value == Zeros(2)
  {
    m := new BinaryMember(2);
  }

  method Uint32T() returns (m: BinaryMember)
    ensures fresh(m) && m.maxSize == 4 && m.value == Zeros(4)
  {
    m := new BinaryMember(4);
  }

  method Uint8TArray(size: Capacity) returns (m: BinaryMember)
    ensures fresh(m) && m.maxSize == size && m.value == Zeros(size)
  {
    m := new BinaryMember(size);
  }

  method ElfNAddr() returns (m: BinaryMember)
    ensures fresh(m) && m.maxSize == 4 && m.value == Zeros(4)
  {
    m := Uint32T();
  }

  method ElfNOff() returns (m: BinaryMember)
    ensures fresh(m) && m.maxSize == 4 && m.value == Zeros(4)
  {
    m := Uint32T();
  }

  method ElfNSection() returns (m: BinaryMember)
    ensures fresh(m) && m.maxSize == 2 && m.value == Zeros(2)
  {
    m := Uint16T();
  }

  method ElfNVersym() returns (m: BinaryMember)
    ensures fresh(m) && m.maxSize == 2 && m.value == Zeros(2)
  {
    m := Uint16T();
  }

  method ElfNHalf() returns (m: BinaryMember)
    ensures fresh(m) && m.maxSize == 2 && m.value == Zeros(2)
  {
    m := Uint16T();
  }

  method ElfNSword() returns (m: BinaryMember)
    ensures fresh(m) && m.maxSize == 4 && m.value == Zeros(4)
  {
    m := Uint32T();
  }

  method ElfNWord() returns (m: BinaryMember)
    ensures fresh(m) && m.maxSize == 4 && m.value == Zeros(4)
  {
    m := Uint32T();
  }

  method ElfNSxword() returns (m: BinaryMember)
    ensures fresh(m) && m.maxSize == 4 && m.value == Zeros(4)
  {
    m := Uint32T();
  }

  method ElfNXword() returns (m: BinaryMember)
    ensures fresh(m) && m.maxSize == 4 && m.value == Zeros(4)
  {
    m := Uint32T();
  }

  method ElfBtype() returns (m: BinaryMember)
    ensures fresh(m) && m.maxSize == 1 && m.value == Zeros(1)
  {
    m := Uint8T();
  }
}
