/**
 * The ELF file header record ElfN_Ehdr (src/ElfN_Ehdr.js): fourteen members in
 * the order of section "ELF Header" of chapter 4 of the System V ABI, written
 * out back to back (get) and read back from a buffer (set).
 *
 * The layout follows the members' current contents, not a fixed schema: each
 * member occupies as many bytes as it currently stores.
 */
module ElfHeader {
  import opened Errors
  import opened Config
  import opened Utility
  import opened BinaryMembers
  import opened Types

  // ------------------------------------------------------------ the layout

  /** The number of bytes the values occupy together. */
  function TotalSize(vals: seq<seq<byte>>): nat
  {
    if vals == [] then 0 else TotalSize(vals[..|vals| - 1]) + |vals[|vals| - 1]|
  }

  /** The values written one after the other. */
  function Concat(vals: seq<seq<byte>>): (r: seq<byte>)
    ensures |r| == TotalSize(vals)
  {
    if vals == [] then [] else Concat(vals[..|vals| - 1]) + vals[|vals| - 1]
  }

  predicate AllAligned(vals: seq<seq<byte>>)
  {
    forall i | 0 <= i < |vals| :: |vals[i]| % BinaryAlignment == 0
  }

  /** What get returns for members holding vals: it fails on the first unaligned member. */
  function Serialize(vals: seq<seq<byte>>): Result<seq<byte>>
  {
    if AllAligned(vals) then Ok(Concat(vals)) else Err(BufferNotAligned(BinaryAlignment))
  }

  /** Taking one more value adds its size and its bytes. */
  lemma SizeOfOneMore(vals: seq<seq<byte>>, k: nat)
    requires k < |vals|
    ensures TotalSize(vals[..k + 1]) == TotalSize(vals[..k]) + |vals[k]|
    ensures Concat(vals[..k + 1]) == Concat(vals[..k]) + vals[k]
  {
    assert vals[..k + 1][..k] == vals[..k];
  }

  /** The first k + 1 values are aligned when the first k are and value k is. */
  lemma AlignedOneMore(vals: seq<seq<byte>>, k: nat)
    requires k < |vals|
    ensures AllAligned(vals[..k + 1]) <==> AllAligned(vals[..k]) && |vals[k]| % BinaryAlignment == 0
    ensures |vals[k]| % BinaryAlignment != 0 ==> !AllAligned(vals)
  {
    assert vals[..k + 1][..k] == vals[..k];
    assert vals[..k + 1][k] == vals[k];
  }

  /** The values before member k are written at the start of the whole image. */
  lemma {:induction false} ConcatPrefix(vals: seq<seq<byte>>, k: nat)
    requires k <= |vals|
    ensures Concat(vals[..k]) <= Concat(vals)
    decreases |vals| - k
  {
    if k < |vals| {
      SizeOfOneMore(vals, k);
      ConcatPrefix(vals, k + 1);
    } else {
      assert vals[..k] == vals;
    }
  }

  lemma PrefixFits(vals: seq<seq<byte>>, k: nat)
    requires k <= |vals|
    ensures TotalSize(vals[..k]) <= TotalSize(vals)
  {
    ConcatPrefix(vals, k);
  }

  /** Member k's value sits at the running sum of the sizes before it. */
  lemma ConcatPlacesValue(vals: seq<seq<byte>>, k: nat)
    requires k < |vals|
    ensures TotalSize(vals[..k]) + |vals[k]| <= TotalSize(vals)
    ensures Concat(vals)[TotalSize(vals[..k]) .. TotalSize(vals[..k]) + |vals[k]|] == vals[k]
  {
    SizeOfOneMore(vals, k);
    ConcatPrefix(vals, k + 1);
    var whole, upTo := Concat(vals), Concat(vals[..k + 1]);
    var off := TotalSize(vals[..k]);
    assert whole[..|upTo|] == upTo;
    assert upTo[off..] == vals[k];
  }

  /** get succeeds exactly when every member is aligned; then it returns the values laid end to end. */
  lemma SerializeLayout(vals: seq<seq<byte>>)
    ensures Serialize(vals).Ok? <==> AllAligned(vals)
    ensures Serialize(vals).Err? ==> Serialize(vals).error == BufferNotAligned(BinaryAlignment)
    ensures Serialize(vals).Ok? ==> |Serialize(vals).value| == TotalSize(vals)
    ensures Serialize(vals).Ok? ==> forall k | 0 <= k < |vals| ::
      TotalSize(vals[..k]) + |vals[k]| <= TotalSize(vals) &&
      Serialize(vals).value[TotalSize(vals[..k]) .. TotalSize(vals[..k]) + |vals[k]|] == vals[k]
  {
    forall k | 0 <= k < |vals|
      ensures TotalSize(vals[..k]) + |vals[k]| <= TotalSize(vals)
      ensures Concat(vals)[TotalSize(vals[..k]) .. TotalSize(vals[..k]) + |vals[k]|] == vals[k]
    {
      ConcatPlacesValue(vals, k);
    }
  }

  // ---------------------------------------------------------- reading back

  /** buffer.subarray(begin, end) for non-negative positions; SubarrayClamps says what it gives. */
  function Subarray(buffer: seq<byte>, begin: nat, end: nat): seq<byte>
  {
    var lo := if begin < |buffer| then begin else |buffer|;
    var hi := if end < |buffer| then end else |buffer|;
    if hi <= lo then [] else buffer[lo..hi]
  }

  /**
   * Both ends of a subarray are clamped to the buffer's length, and an empty
   * range gives no bytes.
   */
  lemma SubarrayClamps(buffer: seq<byte>, begin: nat, end: nat)
    ensures begin <= end <= |buffer| ==> Subarray(buffer, begin, end) == buffer[begin..end]
    ensures begin <= |buffer| <= end ==> Subarray(buffer, begin, end) == buffer[begin..]
    ensures |buffer| <= begin || end <= begin ==> Subarray(buffer, begin, end) == []
  {
  }

  /** The outcome of a read into the record and the member values it leaves. */
  datatype Loaded = Loaded(outcome: Outcome, values: seq<seq<byte>>)

  /**
   * The walk of set from member k on, with the cursor at offset: member k
   * receives the bytes from the cursor as many as it currently holds (clamped to
   * the buffer's end), and WalkAt takes it from there.
   */
  function Walk(caps: seq<Capacity>, vals: seq<seq<byte>>, buffer: seq<byte>, k: nat, offset: nat): (r: Loaded)
    requires |caps| == |vals| && k <= |vals|
    ensures |r.values| == |vals| - k
    decreases |vals| - k, 1
  {
    if k == |vals| then Loaded(Pass, [])
    else WalkAt(caps, vals, buffer, k, offset, Subarray(buffer, offset, offset + |vals[k]|))
  }

  /**
   * The walk at member k, given the slice of the buffer it receives: a slice
   * that fits is stored padded and the cursor moves on by the padded size; one
   * that does not fit stops the walk and leaves member k and those after it as
   * they were.
   */
  function WalkAt(caps: seq<Capacity>, vals: seq<seq<byte>>, buffer: seq<byte>, k: nat, offset: nat, slice: seq<byte>): (r: Loaded)
    requires |caps| == |vals| && k < |vals|
    ensures |r.values| == |vals| - k
    decreases |vals| - k, 0
  {
    if |slice| > caps[k] then Loaded(Fail(ValueExceedsMaximumSize(caps[k])), vals[k..])
    else
      AlignmentIsPowerOfTwo();
      var stored := AddAlignmentPadding(slice, BinaryAlignment);
      var rest := Walk(caps, vals, buffer, k + 1, offset + |stored|);
      Loaded(rest.outcome, [stored] + rest.values)
  }

  /** What set does to members of capacities caps holding vals, given buffer. */
  function Deserialize(caps: seq<Capacity>, vals: seq<seq<byte>>, buffer: seq<byte>): (r: Loaded)
    requires |caps| == |vals|
    ensures |r.values| == |vals|
    ensures r.outcome == Fail(BufferTooSmall) <==> |buffer| < TotalSize(vals)
    ensures r.outcome == Fail(BufferTooSmall) ==> r.values == vals
    ensures r.outcome.Pass? ==> AllAligned(r.values)
  {
    if |buffer| < TotalSize(vals) then Loaded(Fail(BufferTooSmall), vals)
    else
      WalkAligned(caps, vals, buffer, 0, 0);
      Walk(caps, vals, buffer, 0, 0)
  }

  /**
   * A walk that succeeds leaves every member it wrote aligned; one that fails
   * was refused for a value exceeding a capacity.
   */
  lemma {:induction false} WalkAligned(caps: seq<Capacity>, vals: seq<seq<byte>>, buffer: seq<byte>, k: nat, offset: nat)
    requires |caps| == |vals| && k <= |vals|
    ensures var r := Walk(caps, vals, buffer, k, offset);
      (r.outcome.Pass? ==> AllAligned(r.values)) && (r.outcome.Fail? ==> r.outcome.error.ValueExceedsMaximumSize?)
    decreases |vals| - k
  {
    if k < |vals| {
      var slice := Subarray(buffer, offset, offset + |vals[k]|);
      if |slice| <= caps[k] {
        AlignmentIsPowerOfTwo();
        var stored := AddAlignmentPadding(slice, BinaryAlignment);
        var next := offset + |stored|;
        WalkStep(caps, vals, buffer, k, offset, stored, next);
        WalkAligned(caps, vals, buffer, k + 1, next);
      } else {
        WalkRefused(caps, vals, buffer, k, offset);
      }
    }
  }

  lemma HeadAndTail<T>(s: seq<T>, k: nat)
    requires k < |s|
    ensures [s[k]] + s[k + 1..] == s[k..]
  {
  }

  /**
   * One step of the walk: a write that fits stores the padded slice and moves
   * the cursor past it.
   */
  lemma WalkStep(caps: seq<Capacity>, vals: seq<seq<byte>>, buffer: seq<byte>, k: nat, offset: nat,
                 stored: seq<byte>, next: nat)
    requires |caps| == |vals| && k < |vals|
    requires |Subarray(buffer, offset, offset + |vals[k]|)| <= caps[k]
    requires IsPowerOfTwo(BinaryAlignment)
    requires stored == AddAlignmentPadding(Subarray(buffer, offset, offset + |vals[k]|), BinaryAlignment)
    requires next == offset + |stored|
    ensures Walk(caps, vals, buffer, k, offset) ==
      Loaded(Walk(caps, vals, buffer, k + 1, next).outcome, [stored] + Walk(caps, vals, buffer, k + 1, next).values)
  {
  }

  /** A step over bytes that are already an aligned value that fits: the member gets exactly those bytes. */
  lemma WalkOverValue(caps: seq<Capacity>, vals: seq<seq<byte>>, buffer: seq<byte>, k: nat, offset: nat, next: nat)
    requires |caps| == |vals| && k < |vals|
    requires Subarray(buffer, offset, offset + |vals[k]|) == vals[k]
    requires |vals[k]| % BinaryAlignment == 0 && |vals[k]| <= caps[k]
    requires next == offset + |vals[k]|
    ensures var rest := Walk(caps, vals, buffer, k + 1, next);
      Walk(caps, vals, buffer, k, offset) == Loaded(rest.outcome, [vals[k]] + rest.values)
  {
    AlignmentIsPowerOfTwo();
    PaddingKeepsAligned(vals[k], BinaryAlignment);
    WalkStep(caps, vals, buffer, k, offset, vals[k], next);
  }

  /** After a write that fits, the result of the walk from k is that from k + 1 with one more value done. */
  lemma WalkAdvance(caps: seq<Capacity>, vals: seq<seq<byte>>, buffer: seq<byte>, k: nat, offset: nat,
                    done: seq<seq<byte>>, d: Loaded, stored: seq<byte>, next: nat)
    requires |caps| == |vals| && k < |vals|
    requires |Subarray(buffer, offset, offset + |vals[k]|)| <= caps[k]
    requires var w := Walk(caps, vals, buffer, k, offset); d == Loaded(w.outcome, done + w.values)
    requires IsPowerOfTwo(BinaryAlignment)
    requires stored == AddAlignmentPadding(Subarray(buffer, offset, offset + |vals[k]|), BinaryAlignment)
    requires next == offset + |stored|
    ensures var rest := Walk(caps, vals, buffer, k + 1, next); d == Loaded(rest.outcome, (done + [stored]) + rest.values)
  {
    WalkStep(caps, vals, buffer, k, offset, stored, next);
    MoveToDone(d, Walk(caps, vals, buffer, k, offset), Walk(caps, vals, buffer, k + 1, next), done, stored);
  }

  /** Moving one stored value from the walk still to come to the values already done. */
  lemma MoveToDone(d: Loaded, w: Loaded, rest: Loaded, done: seq<seq<byte>>, stored: seq<byte>)
    requires d == Loaded(w.outcome, done + w.values)
    requires w == Loaded(rest.outcome, [stored] + rest.values)
    ensures d == Loaded(rest.outcome, (done + [stored]) + rest.values)
  {
    assert done + ([stored] + rest.values) == (done + [stored]) + rest.values;
  }

  /** A step that stores v before a walk that leaves tail ends as that walk does, with v and then tail. */
  lemma StepCompletes(w: Loaded, rest: Loaded, v: seq<byte>, tail: seq<seq<byte>>, whole: seq<seq<byte>>)
    requires w == Loaded(rest.outcome, [v] + rest.values)
    requires rest.values == tail && [v] + tail == whole
    ensures w == Loaded(rest.outcome, whole)
  {
  }

  /** A write that does not fit stops the walk with member k and the rest unchanged. */
  lemma WalkRefused(caps: seq<Capacity>, vals: seq<seq<byte>>, buffer: seq<byte>, k: nat, offset: nat)
    requires |caps| == |vals| && k < |vals|
    requires |Subarray(buffer, offset, offset + |vals[k]|)| > caps[k]
    ensures Walk(caps, vals, buffer, k, offset) == Loaded(Fail(ValueExceedsMaximumSize(caps[k])), vals[k..])
  {
  }

  /** Walking over the image of aligned values that fit, from member k at its offset, gives those values back. */
  lemma {:induction false} WalkOverOwnImage(caps: seq<Capacity>, vals: seq<seq<byte>>, k: nat)
    requires |caps| == |vals| && k <= |vals| && AllAligned(vals)
    requires forall i | 0 <= i < |vals| :: |vals[i]| <= caps[i]
    ensures Walk(caps, vals, Concat(vals), k, TotalSize(vals[..k])) == Loaded(Pass, vals[k..])
    decreases |vals| - k
  {
    if k < |vals| {
      var image, offset := Concat(vals), TotalSize(vals[..k]);
      ConcatPlacesValue(vals, k);
      SubarrayClamps(image, offset, offset + |vals[k]|);
      SizeOfOneMore(vals, k);
      WalkOverValue(caps, vals, image, k, offset, TotalSize(vals[..k + 1]));
      WalkOverOwnImage(caps, vals, k + 1);
      HeadAndTail(vals, k);
      StepCompletes(Walk(caps, vals, image, k, offset), Walk(caps, vals, image, k + 1, TotalSize(vals[..k + 1])),
                    vals[k], vals[k + 1..], vals[k..]);
    }
  }

  /**
   * Round trip: reading back the image of aligned members that fit their
   * capacities gives the same members and succeeds.
   */
  lemma RoundTrip(caps: seq<Capacity>, vals: seq<seq<byte>>)
    requires |caps| == |vals| && AllAligned(vals)
    requires forall i | 0 <= i < |vals| :: |vals[i]| <= caps[i]
    ensures Deserialize(caps, vals, Concat(vals)) == Loaded(Pass, vals)
  {
    WalkOverOwnImage(caps, vals, 0);
    assert vals[..0] == [];
  }

  /**
   * Walking over the image from member k at its offset, when the members
   * before j are aligned and fit but member j holds more bytes than its
   * capacity: the walk is refused at member j and every member keeps its value.
   */
  lemma {:induction false} WalkRefusesOwnImage(caps: seq<Capacity>, vals: seq<seq<byte>>, k: nat, j: nat)
    requires |caps| == |vals| && k <= j < |vals|
    requires forall i | 0 <= i < j :: |vals[i]| % BinaryAlignment == 0 && |vals[i]| <= caps[i]
    requires |vals[j]| > caps[j]
    ensures Walk(caps, vals, Concat(vals), k, TotalSize(vals[..k])) ==
      Loaded(Fail(ValueExceedsMaximumSize(caps[j])), vals[k..])
    decreases j - k
  {
    var image, offset := Concat(vals), TotalSize(vals[..k]);
    ConcatPlacesValue(vals, k);
    SubarrayClamps(image, offset, offset + |vals[k]|);
    if k == j {
      WalkRefused(caps, vals, image, k, offset);
    } else {
      SizeOfOneMore(vals, k);
      WalkOverValue(caps, vals, image, k, offset, TotalSize(vals[..k + 1]));
      WalkRefusesOwnImage(caps, vals, k + 1, j);
      HeadAndTail(vals, k);
      StepCompletes(Walk(caps, vals, image, k, offset), Walk(caps, vals, image, k + 1, TotalSize(vals[..k + 1])),
                    vals[k], vals[k + 1..], vals[k..]);
    }
  }

  /**
   * Reading back the image of values where member j is the first to hold more
   * bytes than its capacity (as a padded value can) is refused at member j and
   * changes no member.
   */
  lemma ReadBackRefused(caps: seq<Capacity>, vals: seq<seq<byte>>, j: nat)
    requires |caps| == |vals| && j < |vals|
    requires forall i | 0 <= i < j :: |vals[i]| % BinaryAlignment == 0 && |vals[i]| <= caps[i]
    requires |vals[j]| > caps[j]
    ensures Deserialize(caps, vals, Concat(vals)) == Loaded(Fail(ValueExceedsMaximumSize(caps[j])), vals)
  {
    WalkRefusesOwnImage(caps, vals, 0, j);
    assert vals[..0] == [];
  }

  /**
   * Member i of a walk reads at offs[i]: its slice fits, padded it is outs[i],
   * and the cursor then moves to offs[i + 1].
   */
  predicate ReadsAt(caps: seq<Capacity>, vals: seq<seq<byte>>, buffer: seq<byte>,
                    outs: seq<seq<byte>>, offs: seq<nat>, i: nat)
    requires |caps| == |vals| == |outs| && |offs| == |vals| + 1 && i < |vals|
  {
    var slice := Subarray(buffer, offs[i], offs[i] + |vals[i]|);
    IsPowerOfTwo(BinaryAlignment) && |slice| <= caps[i] &&
    AddAlignmentPadding(slice, BinaryAlignment) == outs[i] && offs[i + 1] == offs[i] + |outs[i]|
  }

  /**
   * A walk whose every step from member k on reads at the given offsets
   * succeeds, and leaves the members holding what those steps read.
   */
  lemma {:induction false} WalkReads(caps: seq<Capacity>, vals: seq<seq<byte>>, buffer: seq<byte>,
                                     outs: seq<seq<byte>>, offs: seq<nat>, k: nat)
    requires |caps| == |vals| == |outs| && |offs| == |vals| + 1 && k <= |vals|
    requires forall i | k <= i < |vals| :: ReadsAt(caps, vals, buffer, outs, offs, i)
    ensures Walk(caps, vals, buffer, k, offs[k]) == Loaded(Pass, outs[k..])
    decreases |vals| - k
  {
    if k < |vals| {
      assert ReadsAt(caps, vals, buffer, outs, offs, k);
      WalkStep(caps, vals, buffer, k, offs[k], outs[k], offs[k + 1]);
      WalkReads(caps, vals, buffer, outs, offs, k + 1);
      HeadAndTail(outs, k);
      StepCompletes(Walk(caps, vals, buffer, k, offs[k]), Walk(caps, vals, buffer, k + 1, offs[k + 1]),
                    outs[k], outs[k + 1..], outs[k..]);
    }
  }

  /**
   * A refusal at member j after members k to j - 1 have read their slices
   * leaves a partial write: those members already hold what they read, and
   * member j and every later member keep their old values.
   */
  lemma {:induction false} WalkWritesBeforeRefusal(caps: seq<Capacity>, vals: seq<seq<byte>>, buffer: seq<byte>,
                                                   outs: seq<seq<byte>>, offs: seq<nat>, k: nat, j: nat)
    requires |caps| == |vals| == |outs| && |offs| == |vals| + 1 && k <= j < |vals|
    requires forall i | k <= i < j :: ReadsAt(caps, vals, buffer, outs, offs, i)
    requires |Subarray(buffer, offs[j], offs[j] + |vals[j]|)| > caps[j]
    ensures Walk(caps, vals, buffer, k, offs[k]) ==
      Loaded(Fail(ValueExceedsMaximumSize(caps[j])), outs[k..j] + vals[j..])
    decreases j - k
  {
    var written := outs[k..j] + vals[j..];
    if k == j {
      WalkRefused(caps, vals, buffer, k, offs[k]);
      NothingWritten(outs, vals, k);
    } else {
      assert ReadsAt(caps, vals, buffer, outs, offs, k);
      WalkStep(caps, vals, buffer, k, offs[k], outs[k], offs[k + 1]);
      WalkWritesBeforeRefusal(caps, vals, buffer, outs, offs, k + 1, j);
      OneMoreWritten(outs, vals, k, j);
      StepCompletes(Walk(caps, vals, buffer, k, offs[k]), Walk(caps, vals, buffer, k + 1, offs[k + 1]),
                    outs[k], outs[k + 1..j] + vals[j..], written);
    }
  }

  /** With no member written yet, the values are the old ones. */
  lemma NothingWritten<T>(outs: seq<T>, vals: seq<T>, k: nat)
    requires k <= |outs| && k <= |vals|
    ensures outs[k..k] + vals[k..] == vals[k..]
  {
  }

  /** One more member written in front of a partial write. */
  lemma OneMoreWritten<T>(outs: seq<T>, vals: seq<T>, k: nat, j: nat)
    requires k < j <= |outs| && j <= |vals|
    ensures [outs[k]] + (outs[k + 1..j] + vals[j..]) == outs[k..j] + vals[j..]
  {
    assert outs[k..j] == [outs[k]] + outs[k + 1..j];
  }

  /** A value stored before a later refusal leaves the values from the refused member on as they were. */
  lemma RefusalCarriesBack(caps: seq<Capacity>, vals: seq<seq<byte>>, w: Loaded, stored: seq<byte>, rest: Loaded, k: nat, j: nat)
    requires w == Loaded(rest.outcome, [stored] + rest.values)
    requires k + 1 <= j < |vals|
    requires j < |caps|
    requires |rest.values| == |vals| - (k + 1)
    requires rest.values[j - (k + 1)..] == vals[j..]
    requires rest.outcome == Fail(ValueExceedsMaximumSize(caps[j]))
    ensures w.values[j - k..] == vals[j..] && w.outcome == Fail(ValueExceedsMaximumSize(caps[j]))
  {
    assert w.values[j - k..] == rest.values[j - (k + 1)..];
  }

  /**
   * A refused write stops the walk: it fails at some member j, which keeps its
   * value together with every member after it; j is returned.
   */
  lemma {:induction false} WalkStopsAtRefusal(caps: seq<Capacity>, vals: seq<seq<byte>>, buffer: seq<byte>, k: nat, offset: nat)
    returns (j: nat)
    requires |caps| == |vals| && k <= |vals|
    requires Walk(caps, vals, buffer, k, offset).outcome.Fail?
    ensures k <= j < |vals|
    ensures Walk(caps, vals, buffer, k, offset).values[j - k..] == vals[j..]
    ensures Walk(caps, vals, buffer, k, offset).outcome == Fail(ValueExceedsMaximumSize(caps[j]))
    decreases |vals| - k, 1
  {
    if |Subarray(buffer, offset, offset + |vals[k]|)| <= caps[k] {
      j := RefusedLater(caps, vals, buffer, k, offset);
    } else {
      WalkRefused(caps, vals, buffer, k, offset);
      j := k;
      assert Walk(caps, vals, buffer, k, offset).values[j - k..] == vals[k..];
    }
  }

  /** The refusal case of WalkStopsAtRefusal where member k takes its value and a later one is refused. */
  lemma {:induction false} RefusedLater(caps: seq<Capacity>, vals: seq<seq<byte>>, buffer: seq<byte>, k: nat, offset: nat)
    returns (j: nat)
    requires |caps| == |vals| && k < |vals|
    requires |Subarray(buffer, offset, offset + |vals[k]|)| <= caps[k]
    requires Walk(caps, vals, buffer, k, offset).outcome.Fail?
    ensures k < j < |vals|
    ensures Walk(caps, vals, buffer, k, offset).values[j - k..] == vals[j..]
    ensures Walk(caps, vals, buffer, k, offset).outcome == Fail(ValueExceedsMaximumSize(caps[j]))
    decreases |vals| - k, 0
  {
    AlignmentIsPowerOfTwo();
    var stored := AddAlignmentPadding(Subarray(buffer, offset, offset + |vals[k]|), BinaryAlignment);
    var next := offset + |stored|;
    WalkStep(caps, vals, buffer, k, offset, stored, next);
    var rest := Walk(caps, vals, buffer, k + 1, next);
    j := WalkStopsAtRefusal(caps, vals, buffer, k + 1, next);
    RefusalCarriesBack(caps, vals, Walk(caps, vals, buffer, k, offset), stored, rest, k, j);
  }

  // ------------------------------------------------------------ the record

  /** No object occurs twice. */
  ghost predicate Distinct(s: seq<object>)
  {
    forall i, j | 0 <= i < j < |s| :: s[i] != s[j]
  }

  /** Objects each different from all those before them are pairwise different. */
  lemma DistinctInTurn(a: object, b: object, c: object, d: object, e: object, f: object, g: object, h: object, i: object, j: object, k: object, l: object, m: object, n: object)
    requires b != a
    requires c != a && c != b
    requires d != a && d != b && d != c
    requires e != a && e != b && e != c && e != d
    requires f != a && f != b && f != c && f != d && f != e
    requires g != a && g != b && g != c && g != d && g != e && g != f
    requires h != a && h != b && h != c && h != d && h != e && h != f && h != g
    requires i != a && i != b && i != c && i != d && i != e && i != f && i != g && i != h
    requires j != a && j != b && j != c && j != d && j != e && j != f && j != g && j != h && j != i
    requires k != a && k != b && k != c && k != d && k != e && k != f && k != g && k != h && k != i && k != j
    requires l != a && l != b && l != c && l != d && l != e && l != f && l != g && l != h && l != i && l != j && l != k
    requires m != a && m != b && m != c && m != d && m != e && m != f && m != g && m != h && m != i && m != j && m != k && m != l
    requires n != a && n != b && n != c && n != d && n != e && n != f && n != g && n != h && n != i && n != j && n != k && n != l && n != m
    ensures Distinct([a, b, c, d, e, f, g, h, i, j, k, l, m, n])
  {
  }

  /**
   * Uint8Array.prototype.set(source, offset): copies source into the buffer from
   * offset on and leaves the other bytes alone.
   */
  method CopyInto(buffer: array<byte>, source: seq<byte>, offset: nat)
    requires offset + |source| <= buffer.Length
    modifies buffer
    ensures buffer[..] == old(buffer[..offset]) + source + old(buffer[offset + |source|..])
    ensures buffer[..offset + |source|] == old(buffer[..offset]) + source
  {
    forall i | 0 <= i < |source| {
      buffer[offset + i] := source[i];
    }
    assert buffer[..] == old(buffer[..offset]) + source + old(buffer[offset + |source|..]);
    assert buffer[..offset + |source|] == old(buffer[..offset]) + source;
  }

  /** The ELF header: the fourteen members, owned by this record alone. */
  class ElfNEhdr {
    const e_ident: BinaryMember
    const e_type: BinaryMember
    const e_machine: BinaryMember
    const e_version: BinaryMember
    const e_entry: BinaryMember
    const e_phoff: BinaryMember
    const e_shoff: BinaryMember
    const e_flags: BinaryMember
    const e_ehsize: BinaryMember
    const e_phentsize: BinaryMember
    const e_phnum: BinaryMember
    const e_shentsize: BinaryMember
    const e_shnum: BinaryMember
    const e_shstrndx: BinaryMember

    /** The members in their order in the file. */
    function Members(): seq<BinaryMember>
    {
      [e_ident, e_type, e_machine, e_version, e_entry, e_phoff, e_shoff, e_flags,
       e_ehsize, e_phentsize, e_phnum, e_shentsize, e_shnum, e_shstrndx]
    }

    /** No member is shared between two fields. */
    ghost predicate Valid()
    {
      Distinct(Members())
    }

    /** The capacity of each member, in file order. */
    function MaxSizes(): (r: seq<Capacity>)
      ensures |r| == |Members()| && forall i | 0 <= i < |r| :: r[i] == Members()[i].maxSize
    {
      seq(|Members()|, i requires 0 <= i < |Members()| => Members()[i].maxSize)
    }

    /** The bytes each member currently holds, in file order. */
    function Values(): (r: seq<seq<byte>>)
      reads Members()
      ensures |r| == |Members()| && forall i | 0 <= i < |r| :: r[i] == Members()[i].value
    {
      seq(|Members()|, i requires 0 <= i < |Members()| reads Members() => Members()[i].value)
    }

    /** ElfN_Ehdr(): every member allocated afresh with its ELF type's width and zero-filled. */
    constructor ()
      ensures Valid()
      ensures fresh(e_ident) && e_ident.maxSize == 16 && e_ident.value == Zeros(16)
      ensures fresh(e_type) && e_type.maxSize == 2 && e_type.value == Zeros(2)
      ensures fresh(e_machine) && e_machine.maxSize == 2 && e_machine.value == Zeros(2)
      ensures fresh(e_version) && e_version.maxSize == 4 && e_version.value == Zeros(4)
      ensures fresh(e_entry) && e_entry.maxSize == 4 && e_entry.value == Zeros(4)
      ensures fresh(e_phoff) && e_phoff.maxSize == 4 && e_phoff.value == Zeros(4)
      ensures fresh(e_shoff) && e_shoff.maxSize == 4 && e_shoff.value == Zeros(4)
      ensures fresh(e_flags) && e_flags.maxSize == 4 && e_flags.value == Zeros(4)
      ensures fresh(e_ehsize) && e_ehsize.maxSize == 2 && e_ehsize.value == Zeros(2)
      ensures fresh(e_phentsize) && e_phentsize.maxSize == 2 && e_phentsize.value == Zeros(2)
      ensures fresh(e_phnum) && e_phnum.maxSize == 2 && e_phnum.value == Zeros(2)
      ensures fresh(e_shentsize) && e_shentsize.maxSize == 2 && e_shentsize.value == Zeros(2)
      ensures fresh(e_shnum) && e_shnum.maxSize == 2 && e_shnum.value == Zeros(2)
      ensures fresh(e_shstrndx) && e_shstrndx.maxSize == 2 && e_shstrndx.value == Zeros(2)
    {
      var ident := Uint8TArray(EI_NIDENT);
      var objectType := Uint16T();
      var machine := Uint16T();
      var version := Uint32T();
      var entry := ElfNAddr();
      var phoff := ElfNOff();
      var shoff := ElfNOff();
      var flags := Uint32T();
      var ehsize := Uint16T();
      var phentsize := Uint16T();
      var phnum := Uint16T();
      var shentsize := Uint16T();
      var shnum := Uint16T();
      var shstrndx := Uint16T();
      e_ident, e_type, e_machine, e_version, e_entry, e_phoff, e_shoff :=
        ident, objectType, machine, version, entry, phoff, shoff;
      e_flags, e_ehsize, e_phentsize, e_phnum, e_shentsize, e_shnum, e_shstrndx :=
        flags, ehsize, phentsize, phnum, shentsize, shnum, shstrndx;
      new;
      DistinctInTurn(ident, objectType, machine, version, entry, phoff, shoff, flags, ehsize, phentsize, phnum, shentsize, shnum, shstrndx);
    }

    lemma SizeIsTotal(vals: seq<seq<byte>>)
      requires vals == Values()
      ensures e_ident.Size() + e_type.Size() + e_machine.Size() + e_version.Size() + e_entry.Size()
        + e_phoff.Size() + e_shoff.Size() + e_flags.Size() + e_ehsize.Size() + e_phentsize.Size()
        + e_phnum.Size() + e_shentsize.Size() + e_shnum.Size() + e_shstrndx.Size() == TotalSize(vals)
    {
      assert vals[..0] == [];
      SizeOfOneMore(vals, 0);
      SizeOfOneMore(vals, 1);
      SizeOfOneMore(vals, 2);
      SizeOfOneMore(vals, 3);
      SizeOfOneMore(vals, 4);
      SizeOfOneMore(vals, 5);
      SizeOfOneMore(vals, 6);
      SizeOfOneMore(vals, 7);
      SizeOfOneMore(vals, 8);
      SizeOfOneMore(vals, 9);
      SizeOfOneMore(vals, 10);
      SizeOfOneMore(vals, 11);
      SizeOfOneMore(vals, 12);
      SizeOfOneMore(vals, 13);
      assert vals[..14] == vals;
    }

    /**
     * One step of get: member k is copied into the buffer right after the
     * members before it; a member whose length is not aligned stops get.
     */
    method Emit(buffer: array<byte>, ghost vals: seq<seq<byte>>, k: nat, offset: nat) returns (r: Result<nat>)
      requires |vals| == |Members()| && k < |vals|
      requires forall j | 0 <= j < |vals| :: Members()[j].value == vals[j]
      requires buffer.Length == TotalSize(vals) && offset == TotalSize(vals[..k]) && offset <= buffer.Length
      requires AllAligned(vals[..k]) && buffer[..offset] == Concat(vals[..k])
      modifies buffer
      ensures forall j | 0 <= j < |vals| :: Members()[j].value == vals[j]
      ensures r.Err? ==> r.error == BufferNotAligned(BinaryAlignment) && !AllAligned(vals)
      ensures r.Ok? ==> r.value == TotalSize(vals[..k + 1]) && AllAligned(vals[..k + 1])
      ensures r.Ok? ==> r.value <= buffer.Length && buffer[..r.value] == Concat(vals[..k + 1])
    {
      SizeOfOneMore(vals, k);
      AlignedOneMore(vals, k);
      PrefixFits(vals, k + 1);
      var m := Members()[k];
      var v :- m.Get();
      CopyInto(buffer, v, offset);
      r := Ok(offset + m.Size());
    }

    /**
     * get: the members' values one after the other, or an error if one is not
     * aligned. The fourteen copy-and-advance steps run as one loop over the
     * members in file order.
     */
    method Get() returns (r: Result<seq<byte>>)
      ensures r == Serialize(Values())
    {
      ghost var vals := Values();
      var size := e_ident.Size() + e_type.Size() + e_machine.Size() + e_version.Size() + e_entry.Size()
        + e_phoff.Size() + e_shoff.Size() + e_flags.Size() + e_ehsize.Size() + e_phentsize.Size()
        + e_phnum.Size() + e_shentsize.Size() + e_shnum.Size() + e_shstrndx.Size();
      SizeIsTotal(vals);
      var buffer := new byte[size](_ => 0);
      var offset := 0;
      assert vals[..0] == [];
      for k := 0 to |Members()|
        invariant forall j | 0 <= j < |vals| :: Members()[j].value == vals[j]
        invariant offset == TotalSize(vals[..k]) && offset <= buffer.Length
        invariant AllAligned(vals[..k]) && buffer[..offset] == Concat(vals[..k])
      {
        var step := Emit(buffer, vals, k, offset);
        if step.Err? {
          ValuesAre(vals);
          return Err(step.error);
        }
        offset := step.value;
      }
      ValuesAre(vals);
      assert vals[..|vals|] == vals;
      assert buffer[..] == buffer[..offset];
      r := Ok(buffer[..]);
    }

    /** Members holding vals, one by one, make Values() equal to vals. */
    lemma ValuesAre(vals: seq<seq<byte>>)
      requires |vals| == |Members()| && forall j | 0 <= j < |vals| :: Members()[j].value == vals[j]
      ensures Values() == vals
    {
    }

    lemma MembersAllocated()
      ensures forall j | 0 <= j < |Members()| :: allocated(Members()[j])
    {
    }

    lemma MembersDiffer(i: nat, j: nat)
      requires Valid() && i < |Members()| && j < |Members()| && i != j
      ensures Members()[i] != Members()[j]
    {
    }

    /**
     * What set has done once members 0 to k - 1 are loaded: they hold done,
     * the others still hold vals, and the rest of the walk from member k at the
     * cursor completes the result of set.
     */
    ghost predicate Loading(buffer: seq<byte>, vals: seq<seq<byte>>, k: nat, offset: nat, done: seq<seq<byte>>)
      reads Members()
    {
      |vals| == |Members()| && k <= |vals| && |done| == k &&
      (forall j | 0 <= j < k :: Members()[j].value == done[j]) &&
      (forall j | k <= j < |vals| :: Members()[j].value == vals[j]) &&
      var w := Walk(MaxSizes(), vals, buffer, k, offset);
      Deserialize(MaxSizes(), vals, buffer) == Loaded(w.outcome, done + w.values)
    }

    /** Before the first step, the whole walk is still to come. */
    lemma LoadingStarts(buffer: seq<byte>, vals: seq<seq<byte>>)
      requires vals == Values() && |buffer| >= TotalSize(vals)
      ensures Loading(buffer, vals, 0, 0, [])
    {
      var w := Walk(MaxSizes(), vals, buffer, 0, 0);
      assert Deserialize(MaxSizes(), vals, buffer) == w;
      assert [] + w.values == w.values;
    }

    /** After the last step, set has succeeded and the members hold what it read. */
    lemma LoadingEnds(buffer: seq<byte>, vals: seq<seq<byte>>, offset: nat, done: seq<seq<byte>>)
      requires Loading(buffer, vals, |vals|, offset, done)
      ensures var d := Deserialize(MaxSizes(), vals, buffer); d.outcome == Pass && Values() == d.values
    {
      var w := Walk(MaxSizes(), vals, buffer, |vals|, offset);
      assert w == Loaded(Pass, []);
      assert done + w.values == done;
      assert Values() == done;
    }

    /**
     * One step of set: member k receives the bytes of the buffer from the
     * cursor on, as many as it holds; the cursor then moves past the member's
     * new size. A value too large for the member stops set.
     */
    method Load(buffer: seq<byte>, ghost vals: seq<seq<byte>>, k: nat, offset: nat, ghost done: seq<seq<byte>>)
      returns (r: Outcome, next: nat)
      requires Valid() && k < |vals| && Loading(buffer, vals, k, offset, done)
      modifies Members()[k]
      ensures r.Fail? ==> var d := Deserialize(MaxSizes(), vals, buffer);
        r == d.outcome && forall j | 0 <= j < |vals| :: Members()[j].value == d.values[j]
      ensures r.Pass? ==> Loading(buffer, vals, k + 1, next, done + [Members()[k].value])
    {
      var m := Members()[k];
      MembersAllocated();
      ghost var caps, d := MaxSizes(), Deserialize(MaxSizes(), vals, buffer);
      assert m.value == vals[k];
      var slice := Subarray(buffer, offset, offset + m.Size());
      assert slice == Subarray(buffer, offset, offset + |vals[k]|);
      r := m.Set(slice);
      next := offset + m.Size();
      forall j | 0 <= j < |vals| && j != k
        ensures Members()[j].value == if j < k then done[j] else vals[j]
      {
        MembersDiffer(j, k);
      }
      if r.Pass? {
        AlignmentIsPowerOfTwo();
        WalkAdvance(caps, vals, buffer, k, offset, done, d, m.value, next);
      } else {
        WalkRefused(caps, vals, buffer, k, offset);
        assert done + vals[k..] == d.values;
      }
    }

    /**
     * set: loads the members from the buffer in file order, as Deserialize
     * describes. The fourteen load-and-advance steps run as one loop over the
     * members in file order.
     */
    method Set(buffer: seq<byte>) returns (r: Outcome)
      requires Valid()
      modifies Members()
      ensures var d := Deserialize(MaxSizes(), old(Values()), buffer);
        r == d.outcome && Values() == d.values
    {
      ghost var vals := Values();
      var size := e_ident.Size() + e_type.Size() + e_machine.Size() + e_version.Size() + e_entry.Size()
        + e_phoff.Size() + e_shoff.Size() + e_flags.Size() + e_ehsize.Size() + e_phentsize.Size()
        + e_phnum.Size() + e_shentsize.Size() + e_shnum.Size() + e_shstrndx.Size();
      SizeIsTotal(vals);
      if |buffer| < size {
        return Fail(BufferTooSmall);
      }
      var offset := 0;
      ghost var done: seq<seq<byte>> := [];
      LoadingStarts(buffer, vals);
      for k := 0 to |Members()|
        invariant Loading(buffer, vals, k, offset, done)
      {
        var step, next := Load(buffer, vals, k, offset, done);
        if step.Fail? {
          ValuesAre(Deserialize(MaxSizes(), vals, buffer).values);
          return step;
        }
        offset := next;
        done := done + [Members()[k].value];
      }
      LoadingEnds(buffer, vals, offset, done);
      r := Pass;
    }
  }
}
