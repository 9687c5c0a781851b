/**
 repair_embedded_blob.py and verify_embedded_blob.py: finding the file offset of a virtual address in a 32-bit
 little-endian ELF image, writing a blob there, and checking one.
 */
module BlobRepair {
  import opened Wrappers
  import opened Seqs
  import opened Words

  // ---- reading the image

  const E_PHOFF := 0x1c
  const E_PHENTSIZE := 0x2a
  const E_PHNUM := 0x2c
  const PT_LOAD := 1
  const ENTRY := 24

  /** The k bytes at `at`, least significant first. */
  function Little(b: seq<Byte>, at: nat, k: nat): nat
    requires at + k <= |b|
    decreases k
  {
    if k == 0 then 0 else b[at] as nat + 256 * Little(b, at + 1, k - 1)
  }

  /** struct.unpack_from("<H"), which fails past the end of the image. */
  function Half(b: seq<Byte>, at: nat): Option<nat> {
    if at + 2 <= |b| then Some(Little(b, at, 2)) else None
  }

  /** struct.unpack_from("<I"). */
  function Full(b: seq<Byte>, at: nat): Option<nat> {
    if at + 4 <= |b| then Some(Little(b, at, 4)) else None
  }

  lemma {:induction false} LittleSame(b: seq<Byte>, c: seq<Byte>, at: nat, to: nat, k: nat)
    requires at + k <= |b| && to + k <= |c| && b[at..at + k] == c[to..to + k]
    ensures Little(b, at, k) == Little(c, to, k)
    decreases k
  {
    if k > 0 {
      assert b[at] == b[at..at + k][0] == c[to..to + k][0] == c[to];
      assert b[at + 1..at + k] == b[at..at + k][1..] == c[to..to + k][1..] == c[to + 1..to + k];
      LittleSame(b, c, at + 1, to + 1, k - 1);
    }
  }

  function Power256(k: nat): nat { if k == 0 then 1 else 256 * Power256(k - 1) }

  /** A number in k bytes, least significant first. */
  function Encoded(n: nat, k: nat): (r: seq<Byte>)
    ensures |r| == k
  {
    if k == 0 then [] else [n % 256] + Encoded(n / 256, k - 1)
  }

  lemma {:induction false} LittleEncoded(n: nat, k: nat)
    requires n < Power256(k)
    ensures Little(Encoded(n, k), 0, k) == n
  {
    if k > 0 {
      LittleEncoded(n / 256, k - 1);
      var r, t := Encoded(n, k), Encoded(n / 256, k - 1);
      assert r[1..1 + (k - 1)] == t[0..0 + (k - 1)];
      LittleSame(r, t, 1, 0, k - 1);
    }
  }

  /** The fields of a program header the scripts look at. */
  datatype Segment = Segment(kind: nat, offset: nat, vaddr: nat, filesz: nat) {
    predicate Holds(va: nat) {
      kind == PT_LOAD && vaddr <= va < vaddr + filesz
    }
  }

  function ReadSegment(b: seq<Byte>, at: nat): Option<Segment> {
    if at + ENTRY <= |b|
    then Some(Segment(Full(b, at).value, Full(b, at + 4).value, Full(b, at + 8).value, Full(b, at + 16).value))
    else None
  }

  /** Elf32_Phdr: p_type, p_offset, p_vaddr, p_paddr, p_filesz, p_memsz, four bytes each. */
  function EncodedSegment(s: Segment, paddr: nat, memsz: nat): (r: seq<Byte>)
    ensures |r| == ENTRY
  {
    Encoded(s.kind, 4) + Encoded(s.offset, 4) + Encoded(s.vaddr, 4) + Encoded(paddr, 4)
    + Encoded(s.filesz, 4) + Encoded(memsz, 4)
  }

  /** The lowest byte comes first. */
  lemma EncodedBytes(n: nat)
    ensures Encoded(n, 2) == [n % 256, n / 256 % 256]
    ensures Encoded(n, 4) == [n % 256, n / 256 % 256, n / 256 / 256 % 256, n / 256 / 256 / 256 % 256]
  {
    assert Encoded(n, 2) == [n % 256] + Encoded(n / 256, 1);
    var q := n / 256 / 256;
    assert Encoded(q, 2) == [q % 256] + Encoded(q / 256, 1);
    assert Encoded(n, 4) == [n % 256] + ([n / 256 % 256] + Encoded(q, 2));
  }

  lemma FieldRead(b: seq<Byte>, at: nat, n: nat)
    requires at + 4 <= |b| && b[at..at + 4] == Encoded(n, 4) && n < WORD
    ensures Full(b, at) == Some(n)
  {
    assert Power256(4) == WORD by { assert Power256(2) == 0x1_0000; }
    LittleEncoded(n, 4);
    assert Encoded(n, 4)[0..0 + 4] == Encoded(n, 4);
    LittleSame(b, Encoded(n, 4), at, 0, 4);
  }

  lemma HalfRead(b: seq<Byte>, at: nat, n: nat)
    requires at + 2 <= |b| && b[at..at + 2] == Encoded(n, 2) && n < 0x1_0000
    ensures Half(b, at) == Some(n)
  {
    assert Power256(2) == 0x1_0000;
    LittleEncoded(n, 2);
    assert Encoded(n, 2)[0..0 + 2] == Encoded(n, 2);
    LittleSame(b, Encoded(n, 2), at, 0, 2);
  }

  /** A program header laid out as the System V ABI has it reads back as the fields it was made of. */
  lemma SegmentRead(b: seq<Byte>, at: nat, s: Segment, paddr: nat, memsz: nat)
    requires at + ENTRY <= |b| && b[at..at + ENTRY] == EncodedSegment(s, paddr, memsz)
    requires s.kind < WORD && s.offset < WORD && s.vaddr < WORD && s.filesz < WORD
    ensures ReadSegment(b, at) == Some(s)
  {
    var r := EncodedSegment(s, paddr, memsz);
    hide Encoded, Full;
    assert r[0..4] == Encoded(s.kind, 4) && r[4..8] == Encoded(s.offset, 4);
    assert r[8..12] == Encoded(s.vaddr, 4) && r[16..20] == Encoded(s.filesz, 4);
    SliceOfSlice(b, at, at + ENTRY, 0, 4);
    SliceOfSlice(b, at, at + ENTRY, 4, 8);
    SliceOfSlice(b, at, at + ENTRY, 8, 12);
    SliceOfSlice(b, at, at + ENTRY, 16, 20);
    FieldRead(b, at + 0, s.kind);
    FieldRead(b, at + 4, s.offset);
    FieldRead(b, at + 8, s.vaddr);
    FieldRead(b, at + 16, s.filesz);
  }

  /** Where the program headers are, how far apart, and how many. */
  datatype Table = Table(offset: nat, size: nat, count: nat) {
    function Entry(i: nat): nat { offset + i * size }
  }

  function ReadTable(b: seq<Byte>): Option<Table> {
    if Full(b, E_PHOFF).Some? && Half(b, E_PHNUM).Some? && Half(b, E_PHENTSIZE).Some?
    then Some(Table(Full(b, E_PHOFF).value, Half(b, E_PHENTSIZE).value, Half(b, E_PHNUM).value))
    else None
  }

  /** Broken is an image too short for what it says of itself. */
  datatype Place = Found(offset: nat) | NotMapped | Broken

  /** The first segment, from header i on, that holds the address. */
  function Search(b: seq<Byte>, t: Table, va: nat, i: nat): Place
    decreases t.count - i
  {
    if i >= t.count then NotMapped
    else
      match ReadSegment(b, t.Entry(i))
      case None => Broken
      case Some(s) => if s.Holds(va) then Found(s.offset + (va - s.vaddr)) else Search(b, t, va, i + 1)
  }

  function Locate(b: seq<Byte>, va: nat): Place {
    match ReadTable(b)
    case None => Broken
    case Some(t) => Search(b, t, va, 0)
  }

  method FindOffset(b: seq<Byte>, va: nat) returns (place: Place)
    ensures place == Locate(b, va)
  {
    var t := ReadTable(b);
    if t.None? {
      return Broken;
    }
    for i := 0 to t.value.count
      invariant Locate(b, va) == Search(b, t.value, va, i)
    {
      var s := ReadSegment(b, t.value.Entry(i));
      if s.None? {
        return Broken;
      }
      if s.value.Holds(va) {
        return Found(s.value.offset + (va - s.value.vaddr));
      }
    }
    return NotMapped;
  }

  /** Of all the headers the first loadable one with the address decides, and it gives the offset. */
  lemma {:induction false} SearchIsFirst(b: seq<Byte>, t: Table, va: nat, i: nat, k: nat)
    requires i <= k < t.count
    requires forall j: nat :: i <= j <= k ==> ReadSegment(b, t.Entry(j)).Some?
    requires ReadSegment(b, t.Entry(k)).value.Holds(va)
    requires forall j: nat :: i <= j < k ==> !ReadSegment(b, t.Entry(j)).value.Holds(va)
    ensures var s := ReadSegment(b, t.Entry(k)).value; Search(b, t, va, i) == Found(s.offset + (va - s.vaddr))
    decreases k - i
  {
    if i < k { SearchIsFirst(b, t, va, i + 1, k); }
  }

  /** The ELF header says where the program headers are (e_phoff), how large (e_phentsize) and how many (e_phnum). */
  lemma TableRead(b: seq<Byte>, offset: nat, size: nat, count: nat)
    requires |b| >= 0x2e && offset < WORD && size < 0x1_0000 && count < 0x1_0000
    requires b[0x1c..0x20] == Encoded(offset, 4)
    requires b[0x2a..0x2c] == Encoded(size, 2) && b[0x2c..0x2e] == Encoded(count, 2)
    ensures ReadTable(b) == Some(Table(offset, size, count))
  {
    FieldRead(b, 0x1c, offset);
    HalfRead(b, 0x2a, size);
    HalfRead(b, 0x2c, count);
    hide Full, Half, Encoded;
  }

  /** A program header as it is written: the fields the scripts look at, and the two they do not. */
  datatype Header = Header(segment: Segment, paddr: nat, memsz: nat)

  predicate Encodable(h: Header) {
    h.segment.kind < WORD && h.segment.offset < WORD && h.segment.vaddr < WORD && h.segment.filesz < WORD
  }

  /** An image with these program headers, `size` bytes apart from `offset` on. */
  ghost predicate LaidOut(b: seq<Byte>, offset: nat, size: nat, headers: seq<Header>) {
    && |b| >= 0x2e && offset < WORD && size < 0x1_0000 && |headers| < 0x1_0000
    && b[0x1c..0x20] == Encoded(offset, 4)
    && b[0x2a..0x2c] == Encoded(size, 2)
    && b[0x2c..0x2e] == Encoded(|headers|, 2)
    && forall i: nat :: i < |headers| ==> Encodable(headers[i]) && HeaderAt(b, offset + i * size, headers[i])
  }

  predicate HeaderAt(b: seq<Byte>, at: nat, h: Header) {
    at + 24 <= |b| && b[at..at + 24] == EncodedSegment(h.segment, h.paddr, h.memsz)
  }

  /** A loadable segment (type 1) with the address among the bytes it takes from the file. */
  predicate Loads(s: Segment, va: nat) {
    s.kind == 1 && s.vaddr <= va < s.vaddr + s.filesz
  }

  lemma LaidOutRead(b: seq<Byte>, offset: nat, size: nat, headers: seq<Header>, i: nat)
    requires LaidOut(b, offset, size, headers) && i < |headers|
    ensures ReadSegment(b, Table(offset, size, |headers|).Entry(i)) == Some(headers[i].segment)
  {
    var h := headers[i];
    assert Encodable(h) && HeaderAt(b, offset + i * size, h);
    SegmentRead(b, offset + i * size, h.segment, h.paddr, h.memsz);
  }

  lemma {:induction false} SearchFails(b: seq<Byte>, t: Table, va: nat, i: nat)
    requires forall j: nat :: i <= j < t.count ==>
               ReadSegment(b, t.Entry(j)).Some? && !ReadSegment(b, t.Entry(j)).value.Holds(va)
    ensures Search(b, t, va, i) == NotMapped
    decreases t.count - i
  {
    if i < t.count { SearchFails(b, t, va, i + 1); }
  }

  lemma LaidOutTable(b: seq<Byte>, offset: nat, size: nat, headers: seq<Header>, va: nat)
    requires LaidOut(b, offset, size, headers)
    ensures Locate(b, va) == Search(b, Table(offset, size, |headers|), va, 0)
  {
    TableRead(b, offset, size, |headers|);
    LocateIsSearch(b, va, Table(offset, size, |headers|));
  }

  lemma LoadsIsHolds(s: Segment, va: nat)
    ensures Loads(s, va) <==> s.Holds(va)
  {
  }

  /** Of an image laid out like this the first loadable segment with the address decides where in the file it is. */
  lemma LocateLaidOut(b: seq<Byte>, offset: nat, size: nat, headers: seq<Header>, va: nat, k: nat)
    requires LaidOut(b, offset, size, headers)
    requires k < |headers| && Loads(headers[k].segment, va)
    requires forall j: nat :: j < k ==> !Loads(headers[j].segment, va)
    ensures Locate(b, va) == Found(headers[k].segment.offset + (va - headers[k].segment.vaddr))
  {
    hide *;
    var t := Table(offset, size, |headers|);
    LaidOutTable(b, offset, size, headers, va);
    forall j: nat | j <= k
      ensures ReadSegment(b, t.Entry(j)) == Some(headers[j].segment)
      ensures headers[j].segment.Holds(va) <==> Loads(headers[j].segment, va)
    {
      LaidOutRead(b, offset, size, headers, j);
      LoadsIsHolds(headers[j].segment, va);
    }
    SearchIsFirst(b, t, va, 0, k);
  }

  /** It is nowhere exactly when no loadable segment has it. */
  lemma LocateNowhere(b: seq<Byte>, offset: nat, size: nat, headers: seq<Header>, va: nat)
    requires LaidOut(b, offset, size, headers)
    ensures Locate(b, va) == NotMapped <==> forall j: nat :: j < |headers| ==> !Loads(headers[j].segment, va)
  {
    hide *;
    if forall j: nat :: j < |headers| ==> !Loads(headers[j].segment, va) {
      var t := Table(offset, size, |headers|);
      LaidOutTable(b, offset, size, headers, va);
      forall j: nat | j < |headers|
        ensures ReadSegment(b, t.Entry(j)) == Some(headers[j].segment) && !headers[j].segment.Holds(va)
      {
        LaidOutRead(b, offset, size, headers, j);
        LoadsIsHolds(headers[j].segment, va);
      }
      SearchFails(b, t, va, 0);
    } else {
      var k := FirstLoading(headers, va);
      LocateLaidOut(b, offset, size, headers, va, k);
    }
  }

  lemma LocateIsSearch(b: seq<Byte>, va: nat, t: Table)
    requires ReadTable(b) == Some(t)
    ensures Locate(b, va) == Search(b, t, va, 0)
  {
  }

  lemma FirstLoading(headers: seq<Header>, va: nat) returns (k: nat)
    requires !forall j: nat :: j < |headers| ==> !Loads(headers[j].segment, va)
    ensures k < |headers| && Loads(headers[k].segment, va)
    ensures forall j: nat :: j < k ==> !Loads(headers[j].segment, va)
  {
    k := 0;
    while !Loads(headers[k].segment, va)
      invariant k < |headers| && forall j: nat :: j < k ==> !Loads(headers[j].segment, va)
      decreases |headers| - k
    {
      k := k + 1;
    }
  }

  /** A program header that runs past the end of the image stops the search, unless an earlier one has the address. */
  lemma {:induction false} SearchBroken(b: seq<Byte>, t: Table, va: nat, i: nat, k: nat)
    requires i <= k < t.count && ReadSegment(b, t.Entry(k)).None?
    requires forall j: nat :: i <= j < k ==>
               ReadSegment(b, t.Entry(j)).Some? && !ReadSegment(b, t.Entry(j)).value.Holds(va)
    ensures Search(b, t, va, i) == Broken
    decreases k - i
  {
    if i < k { SearchBroken(b, t, va, i + 1, k); }
  }

  /** An image too short for its own header cannot be read. */
  lemma BrokenExactly(b: seq<Byte>, va: nat)
    ensures ReadTable(b).None? <==> |b| < 0x2e
    ensures ReadTable(b).None? ==> Locate(b, va) == Broken
  {
  }

  // ---- verifying and repairing

  datatype Verdict = Intact | Corrupt(bad: seq<nat>) | Unreadable

  /** The offsets below n at which the image differs from the blob. */
  function Differing(b: seq<Byte>, at: nat, blob: seq<Byte>, n: nat): (bad: seq<nat>)
    requires n <= |blob| && at + n <= |b|
  {
    if n == 0 then []
    else Differing(b, at, blob, n - 1) + if b[at + n - 1] != blob[n - 1] then [n - 1] else []
  }

  lemma {:induction false} DifferingExact(b: seq<Byte>, at: nat, blob: seq<Byte>, n: nat)
    requires n <= |blob| && at + n <= |b|
    ensures var bad := Differing(b, at, blob, n);
            && (forall k :: k in bad <==> 0 <= k < n && b[at + k] != blob[k])
            && (bad == [] <==> forall k :: 0 <= k < n ==> b[at + k] == blob[k])
  {
    if n > 0 {
      DifferingExact(b, at, blob, n - 1);
      DifferingNext(b, at, blob, n - 1);
      var before, bad := Differing(b, at, blob, n - 1), Differing(b, at, blob, n);
      hide Differing;
      if b[at + n - 1] == blob[n - 1] {
        assert before + [] == before;
      } else {
        assert bad == before + [n - 1];
      }
    } else {
      DifferingNone(b, at, blob);
    }
  }

  /** Each offset once, in order. */
  predicate Rising(bad: seq<nat>) {
    forall i, j :: 0 <= i < j < |bad| ==> bad[i] < bad[j]
  }

  lemma RisingStep(bad: seq<nat>, more: seq<nat>, n: nat)
    requires Rising(bad) && (forall k :: k in bad ==> k < n) && (more == bad || more == bad + [n])
    ensures Rising(more)
  {
    forall i, j | 0 <= i < j < |more| ensures more[i] < more[j] {
      assert bad[i] in bad;
    }
  }

  lemma DifferingStep(b: seq<Byte>, at: nat, blob: seq<Byte>, n: nat)
    requires n < |blob| && at + n < |b|
    ensures var bad, more := Differing(b, at, blob, n), Differing(b, at, blob, n + 1); more == bad || more == bad + [n]
  {
    DifferingNext(b, at, blob, n);
    hide Differing;
  }

  lemma DifferingBelow(b: seq<Byte>, at: nat, blob: seq<Byte>, n: nat)
    requires n <= |blob| && at + n <= |b|
    ensures forall k :: k in Differing(b, at, blob, n) ==> k < n
  {
    DifferingExact(b, at, blob, n);
  }

  lemma {:induction false} DifferingRises(b: seq<Byte>, at: nat, blob: seq<Byte>, n: nat)
    requires n <= |blob| && at + n <= |b|
    ensures Rising(Differing(b, at, blob, n))
  {
    hide *;
    if n == 0 {
      DifferingNone(b, at, blob);
      NoneRises();
    } else {
      DifferingRises(b, at, blob, n - 1);
      DifferingBelow(b, at, blob, n - 1);
      DifferingStep(b, at, blob, n - 1);
      RisingStep(Differing(b, at, blob, n - 1), Differing(b, at, blob, n), n - 1);
    }
  }

  lemma NoneRises()
    ensures Rising([])
  {
  }

  lemma DifferingNext(b: seq<Byte>, at: nat, blob: seq<Byte>, n: nat)
    requires n < |blob| && at + n < |b|
    ensures Differing(b, at, blob, n + 1) == Differing(b, at, blob, n) + if b[at + n] != blob[n] then [n] else []
  {
  }

  lemma DifferingNone(b: seq<Byte>, at: nat, blob: seq<Byte>)
    requires at <= |b|
    ensures Differing(b, at, blob, 0) == []
  {
  }

  function Verified(b: seq<Byte>, blob: seq<Byte>, va: nat): Verdict {
    match Locate(b, va)
    case Found(at) =>
      if blob == [] then Intact
      else if at + |blob| > |b| then Unreadable
      else
        var bad := Differing(b, at, blob, |blob|);
        if bad == [] then Intact else Corrupt(bad)
    case _ => Unreadable
  }

  lemma SameBytes(b: seq<Byte>, at: nat, blob: seq<Byte>)
    requires at + |blob| <= |b|
    ensures b[at..at + |blob|] == blob <==> forall k :: 0 <= k < |blob| ==> b[at + k] == blob[k]
  {
  }

  /** What the verifier says, in terms of where the address is and which bytes differ there. */
  lemma VerifiedExactly(b: seq<Byte>, blob: seq<Byte>, va: nat)
    ensures var v, place := Verified(b, blob, va), Locate(b, va);
            && (v == Unreadable <==> !place.Found? || (blob != [] && place.offset + |blob| > |b|))
            && (v == Intact <==>
                  && place.Found?
                  && (blob == []
                      || (place.offset + |blob| <= |b| && b[place.offset..place.offset + |blob|] == blob)))
  {
    hide Locate, Differing;
    var place := Locate(b, va);
    if place.Found? && place.offset + |blob| <= |b| {
      SameBytes(b, place.offset, blob);
      DifferingExact(b, place.offset, blob, |blob|);
    }
  }

  /** It lists the offsets of the bytes that differ, each once, in order. */
  lemma CorruptExactly(b: seq<Byte>, blob: seq<Byte>, va: nat)
    requires Verified(b, blob, va).Corrupt?
    ensures var bad, place := Verified(b, blob, va).bad, Locate(b, va);
            && place.Found? && place.offset + |blob| <= |b|
            && (forall k :: k in bad <==> 0 <= k < |blob| && b[place.offset + k] != blob[k])
            && Rising(bad)
  {
    hide Locate, Rising;
    DifferingExact(b, Locate(b, va).offset, blob, |blob|);
    DifferingRises(b, Locate(b, va).offset, blob, |blob|);
  }

  method Verify(b: seq<Byte>, blob: seq<Byte>, va: nat) returns (verdict: Verdict)
    ensures verdict == Verified(b, blob, va)
  {
    var place := FindOffset(b, va);
    if !place.Found? {
      return Unreadable;
    }
    var at := place.offset;
    if blob == [] {
      return Intact;
    }
    if at + |blob| > |b| {
      return Unreadable;
    }
    hide Differing;
    DifferingNone(b, at, blob);
    var bad := [];
    for i := 0 to |blob|
      invariant bad == Differing(b, at, blob, i)
    {
      DifferingNext(b, at, blob, i);
      if b[at + i] != blob[i] {
        bad := bad + [i];
      }
    }
    return if bad == [] then Intact else Corrupt(bad);
  }

  /** A repair says where it wrote and how many bytes were wrong; it fails where the verifier cannot read. */
  datatype Repaired = Done(offset: nat, wrong: nat) | Failed

  method Repair(image: array<Byte>, blob: seq<Byte>, va: nat) returns (r: Repaired)
    modifies image
    ensures r.Failed? <==> old(Verified(image[..], blob, va)) == Unreadable
    ensures r.Failed? ==> image[..] == old(image[..])
    ensures r.Done? ==>
              && old(Locate(image[..], va)) == Found(r.offset)
              && (blob == [] ==> image[..] == old(image[..]) && r.wrong == 0)
              && (blob != [] ==>
                    && r.offset + |blob| <= image.Length
                    && image[..] == Spliced(old(image[..]), r.offset, blob)
                    && r.wrong == |Differing(old(image[..]), r.offset, blob, |blob|)|)
  {
    var place := FindOffset(image[..], va);
    if !place.Found? {
      return Failed;
    }
    var at := place.offset;
    if blob == [] {
      return Done(at, 0);
    }
    if at + |blob| > image.Length {
      return Failed;
    }
    var wrong := CountWrong(image, at, blob);
    Splice(image, at, blob);
    return Done(at, wrong);
  }

  method CountWrong(image: array<Byte>, at: nat, blob: seq<Byte>) returns (wrong: nat)
    requires at + |blob| <= image.Length
    ensures wrong == |Differing(image[..], at, blob, |blob|)|
  {
    hide Differing;
    DifferingNone(image[..], at, blob);
    wrong := 0;
    for i := 0 to |blob|
      invariant wrong == |Differing(image[..], at, blob, i)|
    {
      DifferingNext(image[..], at, blob, i);
      if image[at + i] != blob[i] {
        wrong := wrong + 1;
      }
    }
  }

  /** Assignment to a slice of the same length. */
  method Splice(image: array<Byte>, at: nat, blob: seq<Byte>)
    requires at + |blob| <= image.Length
    modifies image
    ensures image[..] == Spliced(old(image[..]), at, blob)
  {
    for i := 0 to |blob|
      invariant forall k :: 0 <= k < image.Length ==>
                  image[k] == if at <= k < at + i then blob[k - at] else old(image[k])
    {
      image[at + i] := blob[i];
    }
  }

  // ---- a repaired image verifies

  predicate Apart(a: nat, n: nat, b: nat, m: nat) {
    a + n <= b || b + m <= a
  }

  /** The blob's range meets neither the header fields that lead to the program headers nor any program header. */
  ghost predicate ClearOfHeaders(b: seq<Byte>, at: nat, n: nat) {
    && Apart(E_PHOFF, 4, at, n) && Apart(E_PHENTSIZE, 4, at, n)
    && (ReadTable(b).Some? ==>
          var t := ReadTable(b).value;
          forall i: nat :: i < t.count ==> Apart(t.Entry(i), ENTRY, at, n))
  }

  lemma SegmentUnchanged(b: seq<Byte>, at: nat, blob: seq<Byte>, entry: nat)
    requires at + |blob| <= |b| && Apart(entry, ENTRY, at, |blob|)
    ensures ReadSegment(Spliced(b, at, blob), entry) == ReadSegment(b, entry)
  {
    hide Little;
    if entry + ENTRY <= |b| {
      FullUnchanged(b, at, blob, entry, 4);
      FullUnchanged(b, at, blob, entry + 4, 4);
      FullUnchanged(b, at, blob, entry + 8, 4);
      FullUnchanged(b, at, blob, entry + 16, 4);
    }
  }

  lemma FullUnchanged(b: seq<Byte>, at: nat, blob: seq<Byte>, a: nat, k: nat)
    requires at + |blob| <= |b| && a + k <= |b| && Apart(a, k, at, |blob|)
    ensures Little(Spliced(b, at, blob), a, k) == Little(b, a, k)
  {
    LittleSame(Spliced(b, at, blob), b, a, a, k);
  }

  lemma {:induction false} SearchUnchanged(b: seq<Byte>, at: nat, blob: seq<Byte>, t: Table, va: nat, i: nat)
    requires at + |blob| <= |b|
    requires forall j: nat :: j < t.count ==> Apart(t.Entry(j), ENTRY, at, |blob|)
    ensures Search(Spliced(b, at, blob), t, va, i) == Search(b, t, va, i)
    decreases t.count - i
  {
    if i < t.count {
      SegmentUnchanged(b, at, blob, t.Entry(i));
      SearchUnchanged(b, at, blob, t, va, i + 1);
    }
  }

  /** Writing clear of the headers leaves every address where it was. */
  lemma LocateUnchanged(b: seq<Byte>, at: nat, blob: seq<Byte>, va: nat)
    requires at + |blob| <= |b| && ClearOfHeaders(b, at, |blob|)
    ensures Locate(Spliced(b, at, blob), va) == Locate(b, va)
  {
    assert ReadTable(Spliced(b, at, blob)) == ReadTable(b) by {
      if ReadTable(b).Some? {
        FullUnchanged(b, at, blob, E_PHOFF, 4);
        FullUnchanged(b, at, blob, E_PHENTSIZE, 2);
        FullUnchanged(b, at, blob, E_PHNUM, 2);
      }
    }
    if ReadTable(b).Some? {
      SearchUnchanged(b, at, blob, ReadTable(b).value, va, 0);
    }
  }

  /** After a repair the verifier finds the same place and no wrong byte, and a second repair changes nothing. */
  lemma RepairedVerifies(b: seq<Byte>, blob: seq<Byte>, va: nat, at: nat)
    requires Locate(b, va) == Found(at) && at + |blob| <= |b| && ClearOfHeaders(b, at, |blob|)
    ensures var after := Spliced(b, at, blob);
            && Locate(after, va) == Found(at)
            && Verified(after, blob, va) == Intact
            && Spliced(after, at, blob) == after
  {
    LocateUnchanged(b, at, blob, va);
    var after := Spliced(b, at, blob);
    hide Locate, Verified;
    assert after[at..at + |blob|] == blob;
    VerifiedExactly(after, blob, va);
  }

  /** The verifier accepts exactly the images a repair would leave as they are. */
  lemma IntactIffRepairIdle(b: seq<Byte>, blob: seq<Byte>, va: nat, at: nat)
    requires Locate(b, va) == Found(at) && at + |blob| <= |b|
    ensures Verified(b, blob, va) == Intact <==> Spliced(b, at, blob) == b
  {
    hide Locate, Differing, Spliced;
    VerifiedExactly(b, blob, va);
    SameBytes(b, at, blob);
    SplicedSame(b, at, blob);
  }

  lemma SplicedSame(b: seq<Byte>, at: nat, blob: seq<Byte>)
    requires at + |blob| <= |b|
    ensures Spliced(b, at, blob) == b <==> forall k :: 0 <= k < |blob| ==> b[at + k] == blob[k]
  {
    assert b[at..at + |blob|] == blob <==> forall k :: 0 <= k < |blob| ==> b[at + k] == blob[k];
    assert Spliced(b, at, blob)[at..at + |blob|] == blob;
    if b[at..at + |blob|] == blob {
      assert b == b[..at] + b[at..at + |blob|] + b[at + |blob|..];
    }
  }

  /** Two repairs in a row, and the check after them. */
  method RepairTwice(image: array<Byte>, blob: seq<Byte>, va: nat)
    returns (first: Repaired, second: Repaired, verdict: Verdict)
    requires forall at: nat :: Locate(image[..], va) == Found(at) ==> ClearOfHeaders(image[..], at, |blob|)
    modifies image
    ensures first.Done? ==> second == Done(first.offset, 0) && verdict == Intact
  {
    ghost var b := image[..];
    first := Repair(image, blob, va);
    hide Locate, Spliced, Differing;
    if first.Done? && blob != [] {
      RepairedVerifies(b, blob, va, first.offset);
      DifferingExact(image[..], first.offset, blob, |blob|);
    }
    second := Repair(image, blob, va);
    verdict := Verify(image[..], blob, va);
  }
}
