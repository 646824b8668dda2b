/**
 * The factory that fills an ElfN_Ehdr record with the constants of a 32-bit,
 * little-endian, relocatable System V object and serialises it
 * (src/createElfHeader.js).
 */
module ElfFactory {
  import opened Errors
  import opened Config
  import opened Utility
  import opened BinaryMembers
  import opened Types
  import opened ElfHeader

  /** e_ident: the magic number, ELFCLASS32, ELFDATA2LSB, EV_CURRENT, ELFOSABI_SYSV, ABI version 0, seven pad bytes. */
  const Ident: seq<byte> := [EI_MAG0, EI_MAG1, EI_MAG2, EI_MAG3, ELFCLASS32, ELFDATA2LSB, EI_VERSION,
                             ELFOSABI_SYSV, EI_ABIVERSION, EI_PAD, EI_PAD, EI_PAD, EI_PAD, EI_PAD, EI_PAD, EI_PAD]

  // The values the factory writes into the other members.
  const ET_REL: byte := 1       // e_type: relocatable file
  const EM_386: byte := 3       // e_machine: Intel 80386
  const EV_CURRENT: byte := 1   // e_version
  const EhSize: byte := 52      // e_ehsize: the size of an ELF32 header

  /**
   * What a member stores after being given a typed array holding the single
   * element b (b below 256): that byte padded to the alignment.
   */
  function Word(b: byte): seq<byte>
  {
    [b, 0, 0, 0]
  }

  lemma PaddedWord(b: byte)
    ensures IsPowerOfTwo(BinaryAlignment) && AddAlignmentPadding([b], BinaryAlignment) == Word(b)
  {
    AlignmentIsPowerOfTwo();
    AlignIsLeastMultiple(1, BinaryAlignment);
    PaddingContents([b], BinaryAlignment);
  }

  /**
   * What the factory passes to each member's set, in file order: e_ident's
   * sixteen bytes, then one typed-array element per member. Every element is
   * below 256, so each array is modelled by its one significant byte.
   */
  function FactoryInputs(): seq<seq<byte>>
  {
    [Ident, [ET_REL], [EM_386], [EV_CURRENT], [0], [0], [0], [0],
     [EhSize], [0], [0], [0], [0], [0]]
  }

  /** The member values the factory leaves in the record, in file order. */
  function FactoryValues(): seq<seq<byte>>
  {
    [Ident, Word(ET_REL), Word(EM_386), Word(EV_CURRENT), Word(0), Word(0), Word(0), Word(0),
     Word(EhSize), Word(0), Word(0), Word(0), Word(0), Word(0)]
  }

  /** Each input, padded to the alignment, is the value the factory leaves in that member. */
  lemma FactoryPadding()
    ensures IsPowerOfTwo(BinaryAlignment) && |FactoryInputs()| == |FactoryValues()|
    ensures forall k | 0 <= k < |FactoryInputs()| ::
      |FactoryInputs()[k]| + BinaryAlignment <= Int32Limit &&
      AddAlignmentPadding(FactoryInputs()[k], BinaryAlignment) == FactoryValues()[k]
  {
    AlignmentIsPowerOfTwo();
    forall k | 0 <= k < |FactoryInputs()|
      ensures |FactoryInputs()[k]| + BinaryAlignment <= Int32Limit
      ensures AddAlignmentPadding(FactoryInputs()[k], BinaryAlignment) == FactoryValues()[k]
    {
      if k == 0 {
        PaddingKeepsAligned(Ident, BinaryAlignment);
      } else {
        var b := FactoryInputs()[k][0];
        assert FactoryInputs()[k] == [b] && FactoryValues()[k] == Word(b);
        PaddedWord(b);
      }
    }
  }

  /** Two runs of values written one after the other. */
  lemma {:induction false} ConcatJoin(a: seq<seq<byte>>, b: seq<seq<byte>>)
    ensures Concat(a + b) == Concat(a) + Concat(b)
    decreases |b|
  {
    if b == [] {
      assert a + b == a;
    } else {
      var init := b[..|b| - 1];
      assert (a + b)[..|a + b| - 1] == a + init;
      ConcatJoin(a, init);
    }
  }

  /** n members each holding a zero word. */
  function ZeroWordValues(n: nat): (r: seq<seq<byte>>)
    ensures |r| == n && forall i | 0 <= i < n :: r[i] == Word(0)
  {
    seq(n, _ => Word(0))
  }

  /** n zero words written back to back are 4 * n zero bytes. */
  lemma {:induction false} ConcatZeroWords(n: nat)
    ensures Concat(ZeroWordValues(n)) == Zeros(4 * n)
  {
    if n > 0 {
      assert ZeroWordValues(n)[..n - 1] == ZeroWordValues(n - 1);
      ConcatZeroWords(n - 1);
      assert Zeros(4 * (n - 1)) + Word(0) == Zeros(4 * n);
    }
  }

  /** The 68 bytes createElfHeader returns. */
  function FactoryImage(): seq<byte>
  {
    Ident + Word(ET_REL) + Word(EM_386) + Word(EV_CURRENT) + Zeros(16) + Word(EhSize) + Zeros(20)
  }

  /**
   * The image holds e_ident in its first 16 bytes, then e_type, e_machine and
   * e_version as one word each, the four zero words of e_entry to e_flags,
   * e_ehsize's word at byte 44, and five zero words.
   */
  lemma FactoryImageLayout()
    ensures var image := FactoryImage();
      |image| == 68 && image[..16] == Ident &&
      image[16..28] == Word(ET_REL) + Word(EM_386) + Word(EV_CURRENT) &&
      image[28..44] == Zeros(16) && image[44..48] == Word(EhSize) && image[48..] == Zeros(20)
  {
    var image := FactoryImage();
    assert image[..16] == Ident;
    assert image[16..28] == Word(ET_REL) + Word(EM_386) + Word(EV_CURRENT);
    assert image[28..44] == Zeros(16);
    assert image[44..48] == Word(EhSize);
    assert image[48..] == Zeros(20);
  }

  /** The first four values, written back to back. */
  lemma ConcatHead()
    ensures Concat([Ident, Word(ET_REL), Word(EM_386), Word(EV_CURRENT)]) ==
      Ident + Word(ET_REL) + Word(EM_386) + Word(EV_CURRENT)
  {
    var head: seq<seq<byte>> := [Ident, Word(ET_REL), Word(EM_386), Word(EV_CURRENT)];
    var none: seq<seq<byte>> := [];
    assert head[..1][..0] == none && Concat(head[..1]) == Ident;
    assert head[..2][..1] == head[..1] && Concat(head[..2]) == Ident + Word(ET_REL);
    assert head[..3][..2] == head[..2] && Concat(head[..3]) == Ident + Word(ET_REL) + Word(EM_386);
    assert head[..3] == head[..|head| - 1];
  }

  /** The factory's values, written back to back, are the factory's image. */
  lemma FactoryConcat()
    ensures Concat(FactoryValues()) == FactoryImage()
  {
    var head: seq<seq<byte>> := [Ident, Word(ET_REL), Word(EM_386), Word(EV_CURRENT)];
    var ehsize: seq<seq<byte>> := [Word(EhSize)];
    assert FactoryValues() == head + ZeroWordValues(4) + ehsize + ZeroWordValues(5);
    ConcatJoin(head + ZeroWordValues(4) + ehsize, ZeroWordValues(5));
    ConcatJoin(head + ZeroWordValues(4), ehsize);
    ConcatJoin(head, ZeroWordValues(4));
    ConcatHead();
    ConcatZeroWords(4);
    ConcatZeroWords(5);
    assert ehsize[..0] == [];
  }

  /** get succeeds on the factory's values and gives the factory's image. */
  lemma FactoryLayout(vals: seq<seq<byte>>, r: Result<seq<byte>>)
    requires |vals| == |FactoryValues()| && forall k | 0 <= k < |vals| :: vals[k] == FactoryValues()[k]
    requires r == Serialize(vals)
    ensures r == Ok(FactoryImage())
  {
    assert vals == FactoryValues();
    assert AllAligned(vals);
    FactoryConcat();
  }

  /** The capacity of each member of a new record, in file order. */
  function Capacities(): seq<Capacity>
  {
    [16, 2, 2, 4, 4, 4, 4, 4, 2, 2, 2, 2, 2, 2]
  }

  /** The values of a new record, in file order: zero bytes, as many as each member's capacity. */
  function FreshValues(): seq<seq<byte>>
  {
    [Zeros(16), Zeros(2), Zeros(2), Zeros(4), Zeros(4), Zeros(4), Zeros(4), Zeros(4),
     Zeros(2), Zeros(2), Zeros(2), Zeros(2), Zeros(2), Zeros(2)]
  }

  /** Members holding as many bytes as their capacities, which are those of a new record. */
  predicate FullWidths(caps: seq<Capacity>, vals: seq<seq<byte>>)
  {
    |caps| == |Capacities()| && |vals| == |Capacities()| &&
    forall i | 0 <= i < |Capacities()| :: caps[i] == Capacities()[i] && |vals[i]| == caps[i]
  }

  /** A new record's members hold as many bytes as their capacities. */
  lemma FreshIsFullWidth()
    ensures FullWidths(Capacities(), FreshValues())
  {
  }

  /** The sum of the widths. */
  function WidthSum(caps: seq<Capacity>): nat
  {
    if caps == [] then 0 else WidthSum(caps[..|caps| - 1]) + caps[|caps| - 1]
  }

  /** Values each as long as its width occupy the sum of the widths. */
  lemma {:induction false} SizeIsWidthSum(caps: seq<Capacity>, vals: seq<seq<byte>>)
    requires |caps| == |vals| && forall i | 0 <= i < |vals| :: |vals[i]| == caps[i]
    ensures TotalSize(vals) == WidthSum(caps)
    decreases |vals|
  {
    if vals != [] {
      SizeIsWidthSum(caps[..|caps| - 1], vals[..|vals| - 1]);
    }
  }

  lemma WidthStep(caps: seq<Capacity>, k: nat)
    requires k < |caps|
    ensures WidthSum(caps[..k + 1]) == WidthSum(caps[..k]) + caps[k]
  {
    assert caps[..k + 1][..k] == caps[..k];
  }

  /** The capacities of a new record's members add up to 52 bytes. */
  lemma CapacitiesSum()
    ensures WidthSum(Capacities()) == 52
  {
    var c := Capacities();
    assert c[..0] == [];
    WidthStep(c, 0);
    WidthStep(c, 1);
    WidthStep(c, 2);
    WidthStep(c, 3);
    WidthStep(c, 4);
    WidthStep(c, 5);
    WidthStep(c, 6);
    WidthStep(c, 7);
    WidthStep(c, 8);
    WidthStep(c, 9);
    WidthStep(c, 10);
    WidthStep(c, 11);
    WidthStep(c, 12);
    WidthStep(c, 13);
    assert c[..14] == c;
  }

  /** Members of full width hold 52 bytes together, the buffer length set demands of them. */
  lemma FullWidthSize(caps: seq<Capacity>, vals: seq<seq<byte>>)
    requires FullWidths(caps, vals)
    ensures TotalSize(vals) == 52
  {
    assert caps == Capacities();
    SizeIsWidthSum(caps, vals);
    CapacitiesSum();
  }

  /** The two bytes at offset o, padded to a word. */
  function Half(buffer: seq<byte>, o: nat): seq<byte>
    requires o + 2 <= |buffer|
  {
    [buffer[o], buffer[o + 1], 0, 0]
  }

  /** A two-byte member reading inside the buffer takes two bytes and stores them padded. */
  lemma HalfSlice(buffer: seq<byte>, o: nat)
    requires o + 2 <= |buffer|
    ensures IsPowerOfTwo(BinaryAlignment) && Subarray(buffer, o, o + 2) == buffer[o..o + 2]
    ensures AddAlignmentPadding(buffer[o..o + 2], BinaryAlignment) == Half(buffer, o)
  {
    AlignmentIsPowerOfTwo();
    AlignIsLeastMultiple(2, BinaryAlignment);
    PaddingContents(buffer[o..o + 2], BinaryAlignment);
  }

  /** A member of aligned width w reading inside the buffer takes w bytes, stored as they are. */
  lemma WholeSlice(buffer: seq<byte>, o: nat, w: Capacity)
    requires o + w <= |buffer| && w % BinaryAlignment == 0
    ensures IsPowerOfTwo(BinaryAlignment) && Subarray(buffer, o, o + w) == buffer[o..o + w]
    ensures AddAlignmentPadding(buffer[o..o + w], BinaryAlignment) == buffer[o..o + w]
  {
    AlignmentIsPowerOfTwo();
    PaddingKeepsAligned(buffer[o..o + w], BinaryAlignment);
  }

  /** A member reading at or past the buffer's end gets no bytes, and stores none. */
  lemma PastEnd(buffer: seq<byte>, o: nat, w: nat)
    requires |buffer| <= o
    ensures IsPowerOfTwo(BinaryAlignment) && Subarray(buffer, o, o + w) == []
    ensures AddAlignmentPadding([], BinaryAlignment) == []
  {
    AlignmentIsPowerOfTwo();
    PaddingKeepsAligned([], BinaryAlignment);
  }

  /** A two-byte member whose word starts inside the buffer reads two bytes and moves the cursor by four. */
  lemma ReadsHalf(caps: seq<Capacity>, vals: seq<seq<byte>>, buffer: seq<byte>,
                  outs: seq<seq<byte>>, offs: seq<nat>, i: nat)
    requires |caps| == |vals| == |outs| && |offs| == |vals| + 1 && i < |vals|
    requires caps[i] == 2 && |vals[i]| == 2 && offs[i] + 2 <= |buffer|
    requires outs[i] == Half(buffer, offs[i]) && offs[i + 1] == offs[i] + 4
    ensures ReadsAt(caps, vals, buffer, outs, offs, i)
  {
    HalfSlice(buffer, offs[i]);
  }

  /** A member of aligned width reading inside the buffer takes its width in bytes, as they are. */
  lemma ReadsWhole(caps: seq<Capacity>, vals: seq<seq<byte>>, buffer: seq<byte>,
                   outs: seq<seq<byte>>, offs: seq<nat>, i: nat)
    requires |caps| == |vals| == |outs| && |offs| == |vals| + 1 && i < |vals|
    requires |vals[i]| == caps[i] && caps[i] % BinaryAlignment == 0 && offs[i] + caps[i] <= |buffer|
    requires outs[i] == buffer[offs[i]..offs[i] + caps[i]] && offs[i + 1] == offs[i] + caps[i]
    ensures ReadsAt(caps, vals, buffer, outs, offs, i)
  {
    WholeSlice(buffer, offs[i], caps[i]);
  }

  /** A member reading at or past the buffer's end is left empty and the cursor stays. */
  lemma ReadsNothing(caps: seq<Capacity>, vals: seq<seq<byte>>, buffer: seq<byte>,
                     outs: seq<seq<byte>>, offs: seq<nat>, i: nat)
    requires |caps| == |vals| == |outs| && |offs| == |vals| + 1 && i < |vals|
    requires |buffer| <= offs[i] && outs[i] == [] && offs[i + 1] == offs[i]
    ensures ReadsAt(caps, vals, buffer, outs, offs, i)
  {
    PastEnd(buffer, offs[i], |vals[i]|);
  }

  /**
   * What a member of width w reading from offset o of the buffer stores: a
   * two-byte member pads its two bytes to a word, a member of aligned width
   * takes its bytes as they are.
   */
  function Cell(buffer: seq<byte>, o: nat, w: nat): seq<byte>
    requires o + w <= |buffer| && o + 2 <= |buffer|
  {
    if w == 2 then Half(buffer, o) else buffer[o..o + w]
  }

  /** Where set on a full-width record starts each member, given at least 68 bytes: a word apart after e_ident. */
  function WordOffsets(): seq<nat>
  {
    seq(|Capacities()| + 1, i => if i == 0 then 0 else 12 + 4 * i)
  }

  /** What set on a full-width record leaves in its members, given at least 68 bytes. */
  function WordRead(buffer: seq<byte>): seq<seq<byte>>
    requires |buffer| >= 68
  {
    seq(|Capacities()|, i requires 0 <= i < |Capacities()| => Cell(buffer, WordOffsets()[i], Capacities()[i]))
  }

  /**
   * set on a record whose members hold their full widths (a new record, say),
   * given at least 68 bytes, succeeds. The cursor moves by the padded size, so
   * every member after e_ident starts a word: e_type takes bytes 16-17 and
   * e_machine bytes 20-21, and bytes 18-19 are read by no member.
   */
  lemma FullWidthSkipsBytes(caps: seq<Capacity>, vals: seq<seq<byte>>, buffer: seq<byte>)
    requires FullWidths(caps, vals) && |buffer| >= 68
    ensures Deserialize(caps, vals, buffer) == Loaded(Pass, WordRead(buffer))
    ensures WordRead(buffer)[0] == buffer[..16]
    ensures WordRead(buffer)[1] == [buffer[16], buffer[17], 0, 0]
    ensures WordRead(buffer)[2] == [buffer[20], buffer[21], 0, 0]
  {
    var outs, offs := WordRead(buffer), WordOffsets();
    forall i | 0 <= i < |vals|
      ensures ReadsAt(caps, vals, buffer, outs, offs, i)
    {
      if caps[i] == 2 {
        ReadsHalf(caps, vals, buffer, outs, offs, i);
      } else {
        ReadsWhole(caps, vals, buffer, outs, offs, i);
      }
    }
    FullWidthSize(caps, vals);
    WalkReads(caps, vals, buffer, outs, offs, 0);
    assert outs[0..] == outs;
    assert buffer[0..16] == buffer[..16];
  }

  /** Where set on a full-width record starts each member, given exactly 52 bytes. */
  function Elf32Offsets(): seq<nat>
  {
    seq(|Capacities()| + 1, i => if i == 0 then 0 else if i <= 10 then 12 + 4 * i else 52)
  }

  /** What set on a full-width record leaves in its members, given exactly 52 bytes. */
  function Elf32Read(buffer: seq<byte>): seq<seq<byte>>
    requires |buffer| == 52
  {
    seq(|Capacities()|, i requires 0 <= i < |Capacities()| =>
      if i >= 10 then [] else Cell(buffer, Elf32Offsets()[i], Capacities()[i]))
  }

  /**
   * set on a record whose members hold their full widths (a new record, say),
   * given the 52 bytes of an ELF32 header, succeeds. The skipped bytes bring
   * the cursor to the end after e_phentsize, and the subarrays clamp there:
   * e_phnum, e_shentsize, e_shnum and e_shstrndx are left holding no bytes.
   */
  lemma FullWidthClampsElf32Image(caps: seq<Capacity>, vals: seq<seq<byte>>, buffer: seq<byte>)
    requires FullWidths(caps, vals) && |buffer| == 52
    ensures Deserialize(caps, vals, buffer) == Loaded(Pass, Elf32Read(buffer))
    ensures Elf32Read(buffer)[9] == [buffer[48], buffer[49], 0, 0]
    ensures forall i | 10 <= i < 14 :: Elf32Read(buffer)[i] == []
  {
    var outs, offs := Elf32Read(buffer), Elf32Offsets();
    forall i | 0 <= i < |vals|
      ensures ReadsAt(caps, vals, buffer, outs, offs, i)
    {
      if i >= 10 {
        ReadsNothing(caps, vals, buffer, outs, offs, i);
      } else if caps[i] == 2 {
        ReadsHalf(caps, vals, buffer, outs, offs, i);
      } else {
        ReadsWhole(caps, vals, buffer, outs, offs, i);
      }
    }
    FullWidthSize(caps, vals);
    WalkReads(caps, vals, buffer, outs, offs, 0);
    assert outs[0..] == outs;
  }

  /** The bytes a full-width record reads from an image laid out as the factory's are the factory's values. */
  lemma WordReadOfImage(image: seq<byte>)
    requires |image| == 68 && image[..16] == Ident
    requires image[16..28] == Word(ET_REL) + Word(EM_386) + Word(EV_CURRENT)
    requires image[28..44] == Zeros(16) && image[44..48] == Word(EhSize) && image[48..] == Zeros(20)
    ensures WordRead(image) == FactoryValues()
  {
    assert forall i | 16 <= i < 28 :: image[i] == image[16..28][i - 16];
    assert forall i | 28 <= i < 44 :: image[i] == image[28..44][i - 28] == 0;
    assert forall i | 44 <= i < 48 :: image[i] == image[44..48][i - 44];
    assert forall i | 48 <= i < 68 :: image[i] == image[48..][i - 48] == 0;
    assert image[24..28] == Word(EV_CURRENT);
    assert image[28..32] == image[32..36] == image[36..40] == image[40..44] == Word(0);
  }

  /**
   * Round trip through a new record: set on a freshly built record, given the
   * factory's image, succeeds and leaves exactly the factory's values.
   */
  lemma FreshRecordReadsFactoryImage()
    ensures Deserialize(Capacities(), FreshValues(), FactoryImage()) == Loaded(Pass, FactoryValues())
  {
    FactoryImageLayout();
    WordReadOfImage(FactoryImage());
    FreshIsFullWidth();
    FullWidthSkipsBytes(Capacities(), FreshValues(), FactoryImage());
  }

  /** get on a new record fails: e_type holds two bytes, which is not a multiple of the alignment. */
  lemma FreshRecordIsNotAligned()
    ensures Serialize(FreshValues()) == Err(BufferNotAligned(BinaryAlignment))
  {
    AlignedOneMore(FreshValues(), 1);
  }

  /**
   * set on a record holding the factory's values, given the factory's own
   * image: e_ident reads its sixteen bytes back, then e_type is handed the four
   * bytes of its padded word, more than its capacity of two, and the read stops
   * there with every member as it was.
   */
  lemma FactoryImageIsRefused()
    ensures Deserialize(Capacities(), FactoryValues(), Concat(FactoryValues())) ==
      Loaded(Fail(ValueExceedsMaximumSize(2)), FactoryValues())
  {
    ReadBackRefused(Capacities(), FactoryValues(), 1);
  }

  /**
   * Sets member k of the record to v, as ehdr.<member>.set(v) does: a value
   * longer than the member's capacity is refused, otherwise member k alone
   * changes, to v padded.
   */
  method SetField(ehdr: ElfNEhdr, k: nat, v: seq<byte>) returns (r: Outcome)
    requires ehdr.Valid() && k < |ehdr.Members()|
    modifies ehdr.Members()[k]
    ensures r.Pass? <==> |v| <= ehdr.MaxSizes()[k]
    ensures r.Pass? ==> IsPowerOfTwo(BinaryAlignment)
    ensures r.Pass? ==> ehdr.Values() == old(ehdr.Values())[k := AddAlignmentPadding(v, BinaryAlignment)]
    ensures r.Fail? ==> r.error == ValueExceedsMaximumSize(ehdr.MaxSizes()[k]) && ehdr.Values() == old(ehdr.Values())
  {
    var m := ehdr.Members()[k];
    ehdr.MembersAllocated();
    AlignmentIsPowerOfTwo();
    ghost var before := ehdr.Values();
    r := m.Set(v);
    if r.Pass? {
      forall j | 0 <= j < |before| && j != k
        ensures ehdr.Members()[j].value == before[j]
      {
        ehdr.MembersDiffer(j, k);
      }
      ehdr.ValuesAre(before[k := m.value]);
    } else {
      ehdr.ValuesAre(before);
    }
  }

  /** The set calls, one per member in file order: member k ends up holding input k padded. */
  method SetEach(ehdr: ElfNEhdr, inputs: seq<seq<byte>>)
    requires ehdr.Valid() && |inputs| == |ehdr.Members()|
    requires forall k | 0 <= k < |inputs| :: |inputs[k]| <= ehdr.MaxSizes()[k]
    modifies ehdr.Members()
    ensures IsPowerOfTwo(BinaryAlignment)
    ensures forall k | 0 <= k < |inputs| ::
      |inputs[k]| <= ehdr.MaxSizes()[k] && ehdr.Values()[k] == AddAlignmentPadding(inputs[k], BinaryAlignment)
  {
    AlignmentIsPowerOfTwo();
    for k := 0 to |inputs|
      invariant forall j | 0 <= j < k :: ehdr.Values()[j] == AddAlignmentPadding(inputs[j], BinaryAlignment)
    {
      var o := SetField(ehdr, k, inputs[k]);
      assert o.Pass?;
    }
  }

  /** Helper of NewRecord: members with the constructor's widths give, in file order, the capacities above. */
  lemma WidthsAreCapacities(ehdr: ElfNEhdr)
    requires ehdr.e_ident.maxSize == 16 && ehdr.e_type.maxSize == 2 && ehdr.e_machine.maxSize == 2
    requires ehdr.e_version.maxSize == 4 && ehdr.e_entry.maxSize == 4 && ehdr.e_phoff.maxSize == 4
    requires ehdr.e_shoff.maxSize == 4 && ehdr.e_flags.maxSize == 4 && ehdr.e_ehsize.maxSize == 2
    requires ehdr.e_phentsize.maxSize == 2 && ehdr.e_phnum.maxSize == 2 && ehdr.e_shentsize.maxSize == 2
    requires ehdr.e_shnum.maxSize == 2 && ehdr.e_shstrndx.maxSize == 2
    ensures forall k | 0 <= k < |Capacities()| :: ehdr.MaxSizes()[k] == Capacities()[k]
  {
  }

  /** Helper of NewRecord: members holding the constructor's zero-filled values give FreshValues(). */
  lemma FreshRecordValues(ehdr: ElfNEhdr)
    requires ehdr.e_ident.value == Zeros(16) && ehdr.e_type.value == Zeros(2) && ehdr.e_machine.value == Zeros(2)
    requires ehdr.e_version.value == Zeros(4) && ehdr.e_entry.value == Zeros(4) && ehdr.e_phoff.value == Zeros(4)
    requires ehdr.e_shoff.value == Zeros(4) && ehdr.e_flags.value == Zeros(4) && ehdr.e_ehsize.value == Zeros(2)
    requires ehdr.e_phentsize.value == Zeros(2) && ehdr.e_phnum.value == Zeros(2) && ehdr.e_shentsize.value == Zeros(2)
    requires ehdr.e_shnum.value == Zeros(2) && ehdr.e_shstrndx.value == Zeros(2)
    ensures ehdr.Values() == FreshValues()
  {
    ehdr.ValuesAre(FreshValues());
  }

  /** ElfN_Ehdr(): a new record holds FreshValues(), with the capacities above. */
  method NewRecord() returns (ehdr: ElfNEhdr)
    ensures fresh(ehdr) && fresh(ehdr.Members())
    ensures ehdr.Valid() && ehdr.Values() == FreshValues() && ehdr.MaxSizes() == Capacities()
  {
    ehdr := new ElfNEhdr();
    WidthsAreCapacities(ehdr);
    FreshRecordValues(ehdr);
    assert ehdr.MaxSizes() == Capacities();
  }

  /** Every value the factory passes fits its member: none of its set calls is refused. */
  lemma FactoryInputsFit()
    ensures |FactoryInputs()| == |Capacities()|
    ensures forall k | 0 <= k < |FactoryInputs()| :: |FactoryInputs()[k]| <= Capacities()[k]
  {
  }

  /** set on a new record, given the factory's 68-byte image, succeeds and leaves the factory's values. */
  method ReadFactoryImage() returns (r: Outcome, vals: seq<seq<byte>>)
    ensures r == Pass && vals == FactoryValues()
  {
    var ehdr := NewRecord();
    r := ehdr.Set(FactoryImage());
    vals := ehdr.Values();
    FreshRecordReadsFactoryImage();
  }

  /** A new record whose members hold the factory's values. */
  method NewFactoryRecord() returns (ehdr: ElfNEhdr)
    ensures fresh(ehdr) && fresh(ehdr.Members())
    ensures ehdr.Valid() && |ehdr.Members()| == |FactoryValues()|
    ensures forall k | 0 <= k < |FactoryValues()| :: ehdr.Members()[k].value == FactoryValues()[k]
    ensures forall k | 0 <= k < |Capacities()| :: ehdr.MaxSizes()[k] == Capacities()[k]
  {
    ehdr := new ElfNEhdr();
    WidthsAreCapacities(ehdr);
    FactoryInputsFit();
    SetEach(ehdr, FactoryInputs());
    FactoryPadding();
  }

  /** get on a record holding the factory's values gives the 68-byte image. */
  lemma RecordLayout(ehdr: ElfNEhdr, r: Result<seq<byte>>)
    requires |ehdr.Members()| == |FactoryValues()|
    requires forall k | 0 <= k < |FactoryValues()| :: ehdr.Members()[k].value == FactoryValues()[k]
    requires r == Serialize(ehdr.Values())
    ensures r == Ok(FactoryImage())
  {
    FactoryLayout(ehdr.Values(), r);
  }

  /**
   * createElfHeader: a new record, every member set to its constant, then get.
   * The result is 68 bytes: the two-byte members are stored padded to four
   * bytes, so every member after e_ident starts on a four-byte boundary.
   */
  method CreateElfHeader() returns (buffer: seq<byte>)
    ensures buffer == FactoryImage()
  {
    var ehdr := NewFactoryRecord();
    ehdr.MembersAllocated();
    var r := ehdr.Get();
    RecordLayout(ehdr, r);
    buffer := r.value;
  }

  /**
   * set(get()) on the factory's record: its own 68-byte image is refused at
   * e_type, whose two-byte capacity is less than the word it holds, and no
   * member changes.
   */
  method ReadBackFactoryRecord() returns (r: Outcome, vals: seq<seq<byte>>)
    ensures r == Fail(ValueExceedsMaximumSize(2)) && vals == FactoryValues()
  {
    var ehdr := NewFactoryRecord();
    ehdr.MembersAllocated();
    var image := ehdr.Get();
    RecordLayout(ehdr, image);
    assert ehdr.Values() == FactoryValues() by { ehdr.ValuesAre(FactoryValues()); }
    assert ehdr.MaxSizes() == Capacities();
    FactoryConcat();
    FactoryImageIsRefused();
    r := ehdr.Set(image.value);
    vals := ehdr.Values();
  }
}
