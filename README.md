# ELF header serialisation engine — a Dafny model

This project models the serialisation core of a small JavaScript tool that builds a 32-bit ELF
file header. The core has five parts:

- **Binary members** (`src/BinaryMember.js`). A binary member is a mutable byte cell with a
  fixed `maxSize`.
  - `set` refuses a value longer than `maxSize`. Otherwise it stores the value padded with
    zeros to a multiple of the alignment, which is 4.
  - `get` refuses a stored value whose length is not a multiple of 4.
  - `size` is the length of the stored value.
- **Helpers** (`src/utility.js`): the alignment arithmetic `align`, `addAlignementPadding` and
  `verifyAlignment`, and the byte-order helpers `htons`, `htonl`, `ntohs` and `ntohl`.
- **Type aliases and constants** (`src/types.js`): the ELF identification constants, and one
  factory per ELF type giving a zero-filled member of that type's width.
- **The record** (`src/ElfN_Ehdr.js`): the `ElfN_Ehdr` record of fourteen members.
  - `get` lays the members out back to back.
  - `set` reads them back from a buffer. Each member takes as many bytes as it currently holds,
    and the cursor then moves by the member's new, padded size.
- **The factory** (`src/createElfHeader.js`): `createElfHeader` fills a new record with the
  constants of a relocatable Intel 80386 System V object and returns `get()`.

## Module layout

| module | file | models |
|---|---|---|
| `Errors` | `errors.dfy` | The thrown errors as values: `Result` and `Outcome`. |
| `Config` | `config.dfy` | `BINARY_ALIGNMENT = 4`. |
| `Utility` | `utility.dfy` | `src/utility.js` |
| `BinaryMembers` | `binary_member.dfy` | `src/BinaryMember.js`, as a class with fields `maxSize` and `value`. |
| `Types` | `types.dfy` | `src/types.js` |
| `ElfHeader` | `elf_header.dfy` | `src/ElfN_Ehdr.js` |
| `ElfFactory` | `elf_factory.dfy` | `src/createElfHeader.js` |

### The record

`ElfNEhdr` is a class holding the fourteen `BinaryMember` objects.

- `Get` is proved equal to the pure function `Serialize` of the members' values.
- `Set` is proved to leave the outcome and the values that the pure function `Deserialize`
  gives.

The properties themselves are proved as lemmas about those functions:

- `SerializeLayout`: where each member lands in the output.
- `RoundTrip`: reading back an image of aligned values that fit gives them back.
- `ReadBackRefused`: a value larger than its member's capacity stops the read.
- `WalkStopsAtRefusal`: a refused write stops the read and leaves the rest unchanged.
- `WalkWritesBeforeRefusal`: a refusal at member j leaves a partial write. The members before j
  already hold what they read, and j and the later members keep their old values.
- `FullWidthSkipsBytes` and `FullWidthClampsElf32Image`: what `set` does on a new record, whose
  members hold as many bytes as their capacities. The cursor moves by padded sizes, so bytes the
  two-byte members do not take are skipped. On a 52-byte buffer the last four members run past
  the end and receive no bytes.
- `FreshRecordReadsFactoryImage`: `set` on a new record, given the factory's image, leaves exactly
  the factory's values. `ReadFactoryImage` runs the same steps through the methods: `NewRecord`,
  then `Set`.

In the source, `get` and `set` are written as fourteen identical copy-and-advance steps, one per
member. The model runs those steps as one loop over the members, in the same file order, and
each iteration does what one of the source's steps does (`Emit` for `get`, `Load` for `set`).
Likewise, the factory's fourteen `set` calls are the loop `SetEach` over `FactoryInputs`, in
file order.

### Where the code departs from the ELF32 layout

The model follows the code.

- **Padding makes the factory's image 68 bytes, not 52.** The System V ABI's ELF32 header is 52
  bytes long, and the factory itself writes 52 into `e_ehsize`. But every two-byte member is
  stored padded to four bytes, so `createElfHeader` returns 68 bytes. `CreateElfHeader` is proved
  to return exactly `FactoryImage()`, and `FactoryImageLayout` gives its byte layout.
- **A stored value can exceed its member's `maxSize`.** One would expect a member never to hold
  more than `maxSize` bytes, and the code does not keep that. The capacity check looks at the
  unpadded length, so a one-element value in a two-byte member is stored as four bytes
  (`PaddedSizeExceedsCapacity`).
- **Reading a record skips bytes.** On a new record, `set` moves its cursor by each member's
  padded size. So each two-byte member takes two bytes and the two after them are read by no
  member (`FullWidthSkipsBytes`). A 52-byte ELF32 header therefore runs out after `e_phentsize`.
  `subarray` clamps at the end, so the last four members are left holding no bytes
  (`FullWidthClampsElf32Image`).
- **The round trip on the factory's record fails.** Feeding the factory's own image back to
  `set` is refused at `e_type`, because e_type is handed four bytes against a capacity of two,
  and no member changes (`FactoryImageIsRefused`; `ReadBackFactoryRecord` runs `set(get())` on the
  factory's record through the methods). The round trip holds only for records whose
  values are aligned and fit their members (`RoundTrip`).
- **`get` fails on a freshly built record.** Its two-byte members are not aligned
  (`FreshRecordIsNotAligned`).

### Typed arrays and integer widths

The factory passes one-element `Uint16Array` and `Uint32Array` values. The length check sees one
element, and every element the factory uses is below 256. So each such array is modelled as the
one significant byte it holds.

`align` uses JavaScript's 32-bit bitwise operators. Its bit trick is modelled bit by bit on
naturals, with lengths kept below 2^31, where the int32 conversion changes nothing. The
byte-order helpers work on `bv32` patterns, the values JavaScript's bitwise operators see.
`Utility.Int32Of` reads such a pattern as the signed number JavaScript gives. It is a definition
only, used by `HtonlCanBeNegative`.

## Model

| member | source | states |
|---|---|---|
| Utility.AlignIsLeastMultiple | src/utility.js:8-10 | For a power-of-two alignment, `align(n, a)` is a multiple of `a`, at least `n`, below `n + a`, and no larger than any multiple of `a` that is at least `n`. |
| Utility.AddAlignmentPadding | src/utility.js:18-21 | The padded buffer's length is `align(length, a)`: a multiple of `a`, at least the input's length and less than `a` beyond it. |
| Utility.PaddingContents | src/utility.js:18-21 | The padded buffer starts with the original bytes, and every added byte is zero. |
| Utility.PaddingKeepsAligned | src/utility.js:18-21 | A buffer whose length is already aligned is returned unchanged. |
| Utility.PaddingIsIdempotent | src/utility.js:18-21 | Padding an already padded buffer changes nothing. |
| Utility.VerifyAlignment | src/utility.js:29-33 | It passes exactly when the length is a multiple of the alignment. A zero alignment fails, as `length % 0` does in JavaScript. A failure reports that alignment. |
| Utility.Htons | src/utility.js:40-42 | The result fits in 16 bits; its two bytes are the input's two low bytes swapped. |
| Utility.HtonsTwice | src/utility.js:40-42 | Swapping twice gives back the low 16 bits of the input. |
| Utility.Htonl | src/utility.js:49-51 | The four bytes of the result are the input's bytes in reverse order. |
| Utility.HtonlTwice | src/utility.js:49-51 | Reversing twice gives back every 32-bit pattern. |
| Utility.HtonlCanBeNegative | src/utility.js:49-51 | A low byte of 0x80 lands in the sign bit, so `htonl(0x80)` is -2^31 as a JavaScript number. |
| Utility.Ntohs | src/utility.js:58-60 | The result fits in 16 bits, and `htons` applied to it gives back the input's low 16 bits: `ntohs` undoes `htons`. |
| Utility.Ntohl | src/utility.js:67-69 | `htonl` applied to the result gives back the input: `ntohl` undoes `htonl`. |
| BinaryMembers.BinaryMember.constructor | src/BinaryMember.js:4-6 | A new member has capacity `size` and holds `size` zero bytes. `size` defaults to 0. |
| BinaryMembers.BinaryMember.Set | src/BinaryMember.js:8-13 | It succeeds exactly when the value is no longer than `maxSize`. On failure it reports `maxSize` and the member keeps its old value. On success it stores the value padded, whose size is aligned and less than 4 beyond the value's length. |
| BinaryMembers.BinaryMember.Get | src/BinaryMember.js:14-17 | It succeeds exactly when the stored length is aligned, and then returns the stored value. Otherwise it reports the alignment. |
| BinaryMembers.SetThenGet | src/BinaryMember.js:8-17 | After an accepted `set(v)`, `get` never fails. It returns `v` followed by zeros, with an aligned length less than 4 beyond `v`'s. |
| BinaryMembers.PaddedSizeExceedsCapacity | src/BinaryMember.js:9-12 | On a new member of capacity 2, `set([1])` passes the capacity check, which sees the unpadded length. The member then has size 4, more than its `maxSize`. |
| Types.Uint8T | src/types.js:31 | A new, zero-filled member of width 1. |
| Types.Uint16T | src/types.js:32 | A new, zero-filled member of width 2. |
| Types.Uint32T | src/types.js:33 | A new, zero-filled member of width 4. |
| Types.Uint8TArray | src/types.js:34 | A new, zero-filled member of the given width. |
| Types.ElfNAddr | src/types.js:35 | A new, zero-filled member of width 4. |
| Types.ElfNOff | src/types.js:36 | A new, zero-filled member of width 4. |
| Types.ElfNSection | src/types.js:37 | A new, zero-filled member of width 2. |
| Types.ElfNVersym | src/types.js:38 | A new, zero-filled member of width 2. |
| Types.ElfNHalf | src/types.js:39 | A new, zero-filled member of width 2. |
| Types.ElfNSword | src/types.js:40 | A new, zero-filled member of width 4. |
| Types.ElfNWord | src/types.js:41 | A new, zero-filled member of width 4. |
| Types.ElfNSxword | src/types.js:42 | A new, zero-filled member of width 4, as the source has it. |
| Types.ElfNXword | src/types.js:43 | A new, zero-filled member of width 4, as the source has it. |
| Types.ElfBtype | src/types.js:44 | A new, zero-filled member of width 1. |
| ElfHeader.ConcatPlacesValue | src/ElfN_Ehdr.js:36-64 | Member k's value sits in the laid-out image at the running sum of the sizes of the members before it. |
| ElfHeader.SerializeLayout | src/ElfN_Ehdr.js:33-66 | `get` succeeds exactly when every member is aligned; otherwise it reports the alignment. On success, the output's length is the total size and each member's value sits at its cumulative offset. |
| ElfHeader.SubarrayClamps | src/ElfN_Ehdr.js:73-99 | `subarray(begin, end)` clamps both ends to the buffer's length: inside the buffer it is the slice, past the end it is cut short, and an empty or out-of-range window gives no bytes. |
| ElfHeader.Deserialize | src/ElfN_Ehdr.js:67-101 | `set` fails with "too small" exactly when the buffer is shorter than the members' total size, and then changes nothing. When it succeeds, every member is aligned. |
| ElfHeader.WalkAligned | src/ElfN_Ehdr.js:72-100 | A read that gets past its size check leaves every member aligned when it succeeds. When it fails, the reason is a value exceeding a member's capacity. |
| ElfHeader.WalkRefused | src/ElfN_Ehdr.js:73-100 | A slice longer than the member's capacity stops the read there, with that member and all later ones unchanged. |
| ElfHeader.RoundTrip | src/ElfN_Ehdr.js:33-101 | Reading back the image of aligned values that fit their members succeeds and leaves the same values. |
| ElfHeader.ReadBackRefused | src/ElfN_Ehdr.js:67-101 | Take a record whose members before j are aligned and fit, and whose member j holds more than its capacity. Reading back its own image fails at member j, with j's capacity, and no member changes. |
| ElfHeader.WalkStopsAtRefusal | src/ElfN_Ehdr.js:72-100 | A read that fails after its size check was refused at some member j. Member j and every later member keep their old values. |
| ElfHeader.WalkReads | src/ElfN_Ehdr.js:72-100 | Suppose that from member k on, each member's slice fits, is stored as a given value, and moves the cursor to a given next offset. Then the read from k on succeeds and leaves exactly those values. |
| ElfHeader.WalkWritesBeforeRefusal | src/ElfN_Ehdr.js:73-99 | Suppose members k to j - 1 each read a fitting slice, stored as a given value, and member j's slice exceeds its capacity. Then the read from k fails with j's capacity, members k to j - 1 already hold what they read, and member j and every later member keep their old values: a partial write. |
| ElfHeader.CopyInto | src/ElfN_Ehdr.js:37 | `buffer.set(source, offset)` writes `source` from `offset` on and leaves every other byte alone. |
| ElfHeader.ElfNEhdr.constructor | src/ElfN_Ehdr.js:3-17 | Fourteen new members, pairwise distinct, each zero-filled with its ELF type's width, in file order. |
| ElfHeader.ElfNEhdr.SizeIsTotal | src/ElfN_Ehdr.js:34 | The sum of the fourteen `size()` calls is the total size of the members' values. |
| ElfHeader.ElfNEhdr.Emit | src/ElfN_Ehdr.js:37-38 | One step of `get`. Member k's value is copied right after the bytes of the members before it, and the cursor moves to the end of the first k + 1 values. An unaligned member stops `get`. |
| ElfHeader.ElfNEhdr.Get | src/ElfN_Ehdr.js:33-66 | `get` returns `Serialize` of the members' values: the values back to back, or the alignment error. Its properties are those of `SerializeLayout`. |
| ElfHeader.ElfNEhdr.Load | src/ElfN_Ehdr.js:73-74 | One step of `set`. Member k receives the bytes from the cursor on, and the cursor moves by the member's new size. A refusal ends `set` with what `Deserialize` gives. |
| ElfHeader.ElfNEhdr.Set | src/ElfN_Ehdr.js:67-101 | `set` ends with the outcome and the member values that `Deserialize` gives, starting from the old values. Its properties are those of `Deserialize`, `RoundTrip`, `ReadBackRefused`, `WalkStopsAtRefusal` and `WalkWritesBeforeRefusal`. |
| ElfFactory.PaddedWord | src/createElfHeader.js:7-19 | A one-byte value is stored as that byte followed by three zeros. |
| ElfFactory.FactoryPadding | src/createElfHeader.js:6-19 | Each value the factory passes, once padded, is the value the member is left holding: e_ident's sixteen bytes unchanged, and one word per other member. |
| ElfFactory.FactoryInputsFit | src/createElfHeader.js:6-19 | None of the factory's `set` calls is refused: every value fits its member's capacity. |
| ElfFactory.SetField | src/createElfHeader.js:7 | `ehdr.<member>.set(v)` succeeds exactly when `v` fits member k. Then member k alone changes, to `v` padded. A refusal reports member k's capacity and leaves every member as it was. |
| ElfFactory.NewRecord | src/ElfN_Ehdr.js:3-17 | `ElfN_Ehdr()` gives a newly allocated record whose members are newly allocated too, so a caller may `set` it. The record is valid and holds `FreshValues()`, with capacities 16, 2, 2, 4, 4, 4, 4, 4, 2, 2, 2, 2, 2, 2. |
| ElfFactory.CapacitiesSum | src/ElfN_Ehdr.js:4-17 | The fourteen members' capacities add up to 52 bytes. |
| ElfFactory.FullWidthSize | src/ElfN_Ehdr.js:68 | When every member holds as many bytes as its capacity, as on a new record, the size check of `set` asks for 52 bytes. |
| ElfFactory.HalfSlice | src/ElfN_Ehdr.js:75-76 | A two-byte member reading inside the buffer gets its two bytes, stored followed by two zeros. |
| ElfFactory.WholeSlice | src/ElfN_Ehdr.js:73-74 | A member of aligned width reading inside the buffer gets its width in bytes, stored as they are. |
| ElfFactory.PastEnd | src/ElfN_Ehdr.js:73-100 | A member reading at or past the buffer's end gets no bytes and stores none. |
| ElfFactory.FullWidthSkipsBytes | src/ElfN_Ehdr.js:67-101 | `set` on a record whose members hold their full widths, given at least 68 bytes, succeeds. Every member after e_ident starts a word apart, so e_type takes bytes 16-17 and e_machine bytes 20-21, and bytes 18-19 are read by no member. |
| ElfFactory.FullWidthClampsElf32Image | src/ElfN_Ehdr.js:67-101 | The same record given a 52-byte ELF32 header succeeds too. e_phentsize takes bytes 48-49, and e_phnum, e_shentsize, e_shnum and e_shstrndx are left holding no bytes. |
| ElfFactory.WordReadOfImage | src/createElfHeader.js:22 | From an image laid out as the factory's, a full-width record reads exactly the factory's values. |
| ElfFactory.FreshRecordReadsFactoryImage | src/ElfN_Ehdr.js:67-101 | `set` on a new record, given the factory's 68-byte image, succeeds and leaves exactly the factory's values. |
| ElfFactory.ReadFactoryImage | src/ElfN_Ehdr.js:67-101 | `new ElfN_Ehdr()` followed by `set` with the factory's 68-byte image returns success, and the members then hold exactly the factory's values. |
| ElfFactory.SetEach | src/createElfHeader.js:6-19 | After the fourteen `set` calls, member k holds input k padded, for every k. |
| ElfFactory.NewFactoryRecord | src/createElfHeader.js:5-19 | The record the factory builds is newly allocated, with newly allocated members. It has distinct members, each holding the factory's padded value, with the capacities above. |
| ElfFactory.FactoryImageLayout | src/createElfHeader.js:22 | The image is 68 bytes. Bytes 0-15 are e_ident; then e_type, e_machine and e_version take one word each. Bytes 28-43 are the four zero words from e_entry to e_flags, bytes 44-47 are e_ehsize's word (52), and the last 20 bytes are zero. |
| ElfFactory.FactoryConcat | src/createElfHeader.js:22 | The factory's values laid out back to back are exactly the 68-byte image. |
| ElfFactory.FactoryLayout | src/createElfHeader.js:22 | `get` on the factory's values succeeds and returns the 68-byte image. |
| ElfFactory.RecordLayout | src/createElfHeader.js:22 | `get` on a record holding the factory's values returns the 68-byte image. |
| ElfFactory.FreshRecordIsNotAligned | src/BinaryMember.js:14-17 | `get` on a new, unset record fails: e_type holds two bytes, which is not a multiple of 4. |
| ElfFactory.FactoryImageIsRefused | src/ElfN_Ehdr.js:73-76 | Reading the factory's image back into a record holding the factory's values fails at e_type. That member is handed a four-byte word against a capacity of two, and no member changes. |
| ElfFactory.CreateElfHeader | src/createElfHeader.js:4-28 | `createElfHeader` returns exactly the 68-byte image. |
| ElfFactory.ReadBackFactoryRecord | src/ElfN_Ehdr.js:67-101 | On the record the factory builds, `set(get())` is refused at e_type with capacity 2, and every member keeps the factory's value. |

## Left out

- The driver `jself.js`: command-line option parsing (`getopts`, `hasOption`), backing up an
  existing output file, and writing the header to disk. These are I/O around the core.
- The loop in `createElfHeader` that prints the header as hexadecimal rows. It is console
  output only and does not change the returned buffer.
- `src/config.js` is not part of this model. Only its constant `BINARY_ALIGNMENT = 4` is modelled,
  in `Config`.
- Typed-array element coercion: a typed array is modelled as its bytes. The factory's one-element
  `Uint16Array`/`Uint32Array` values are modelled as their single significant byte, which is
  exact for the values it passes (all below 256).
- Utility.Align: it requires `1 <= alignment` and `n + alignment <= 2^31`. JavaScript's
  `align(n, 0)` gives `(n - 1) & ~(-1) == 0`; that case is excluded, and it never occurs, since
  the core always aligns to 4. Above `2^31`, JavaScript's int32 conversion in `&` and `~` would
  wrap, and the model does not follow the wrapped result.
- BinaryMembers.BinaryMember.Size: modelled as the length of the stored value, without a contract
  of its own. Its meaning is stated through `ElfNEhdr.SizeIsTotal` and the layout lemmas.
- Exceptions are modelled as returned errors (`Result`/`Outcome`). A member refusal inside
  `set` returns an error where the source throws; the members already written stay written in
  both, as `WalkWritesBeforeRefusal` states.
- Aliasing between records: each record owns its fourteen members, which are pairwise distinct.
  Members shared between records are not modelled.
