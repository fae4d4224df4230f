// An already parsed PE image: assembling the section-aligned virtual image, and the
// two translations of a relative virtual address (RVA), into the virtual image
// and into the raw file.
module Pe {
  import opened Status
  import opened Words

  datatype Section = Section(va: u32, virtualSize: u32, rawOffset: u32, rawSize: u32)
  {
    function Span(): nat { Max(virtualSize, rawSize) }

    predicate Contains(rva: nat) { va <= rva < va + Span() }
  }

  datatype Layout = Layout(
    sizeOfImage: u32, sizeOfHeaders: u32, sections: seq<Section>,
    pe32: bool, importRva: u32, importSize: u32)

  // ---- RVA translation ----

  // The first section at or after index i whose span holds the RVA.
  function SectionFor(sections: seq<Section>, i: nat, rva: u32): (r: Option<nat>)
    requires i <= |sections|
    ensures r.Some? ==>
      && i <= r.value < |sections| && sections[r.value].Contains(rva)
      && forall j | i <= j < r.value :: !sections[j].Contains(rva)
    ensures r.None? ==> forall j | i <= j < |sections| :: !sections[j].Contains(rva)
    decreases |sections| - i
  {
    if i == |sections| then None
    else if sections[i].Contains(rva) then Some(i)
    else SectionFor(sections, i + 1, rva)
  }

  // Offset into the mapped image.
  function Rva(l: Layout, rva: u32): Option<nat> {
    if rva < l.sizeOfHeaders || SectionFor(l.sections, 0, rva).Some? then Some(rva) else None
  }

  // Offset into the raw file.
  function RvaRaw(l: Layout, rva: u32): Option<nat> {
    if rva < l.sizeOfHeaders then Some(rva)
    else
      match SectionFor(l.sections, 0, rva)
      case None => None
      case Some(i) =>
        var s := l.sections[i];
        var delta := rva - s.va;
        if delta < s.rawSize then Some(s.rawOffset + delta) else None
  }

  // ---- assembling the image ----

  // map_sections skips empty sections, those starting past the file and those
  // that do not fit the image.
  predicate Copied(l: Layout, rawLen: nat, s: Section) {
    s.rawSize > 0 && s.rawOffset < rawLen && s.va + s.rawSize <= l.sizeOfImage
  }

  // The copies stay inside the file buffer, which the code takes for granted.
  predicate CopiesInFile(l: Layout, rawLen: nat) {
    forall s <- l.sections | Copied(l, rawLen, s) :: s.rawOffset + s.rawSize <= rawLen
  }

  function HeaderLen(l: Layout, rawLen: nat): nat {
    Min(Min(l.sizeOfHeaders, l.sizeOfImage), rawLen)
  }

  // The image after the headers and the first n sections were copied.
  function Placed(l: Layout, raw: seq<byte>, n: nat): (m: seq<byte>)
    requires n <= |l.sections| && CopiesInFile(l, |raw|)
    ensures |m| == l.sizeOfImage
  {
    if n == 0 then
      var h := HeaderLen(l, |raw|);
      raw[..h] + seq(l.sizeOfImage - h, _ => 0)
    else
      var m := Placed(l, raw, n - 1);
      var s := l.sections[n - 1];
      if Copied(l, |raw|, s)
      then m[..s.va] + raw[s.rawOffset..s.rawOffset + s.rawSize] + m[s.va + s.rawSize..]
      else m
  }

  function Mapped(l: Layout, raw: seq<byte>): (m: seq<byte>)
    requires CopiesInFile(l, |raw|)
    ensures |m| == l.sizeOfImage
  {
    Placed(l, raw, |l.sections|)
  }

  // Spans pairwise disjoint, above the headers and inside the image; raw data inside the file.
  ghost predicate WellFormed(l: Layout, rawLen: nat) {
    && l.sizeOfHeaders <= Min(l.sizeOfImage, rawLen)
    && (forall s <- l.sections ::
          && l.sizeOfHeaders <= s.va && s.va + s.Span() <= l.sizeOfImage
          && (s.rawSize > 0 ==> s.rawOffset + s.rawSize <= rawLen))
    && (forall i, j | 0 <= i < j < |l.sections| ::
          var a, b := l.sections[i], l.sections[j];
          a.va + a.Span() <= b.va || b.va + b.Span() <= a.va)
  }

  predicate InRaw(s: Section, rva: nat) { s.va <= rva < s.va + s.rawSize }

  lemma SplicedAt(m: seq<byte>, at: nat, bytes: seq<byte>, p: nat)
    requires at + |bytes| <= |m| && p < |m|
    ensures (m[..at] + bytes + m[at + |bytes|..])[p] == if at <= p < at + |bytes| then bytes[p - at] else m[p]
  {
  }

  // One more section puts its raw bytes in and leaves every other byte.
  lemma PlacedAt(l: Layout, raw: seq<byte>, n: nat, rva: u32)
    requires 0 < n <= |l.sections| && CopiesInFile(l, |raw|) && rva < l.sizeOfImage
    ensures var s := l.sections[n - 1];
      if Copied(l, |raw|, s) && InRaw(s, rva)
      then s.rawOffset + (rva - s.va) < |raw| && Placed(l, raw, n)[rva] == raw[s.rawOffset + (rva - s.va)]
      else Placed(l, raw, n)[rva] == Placed(l, raw, n - 1)[rva]
  {
    var s := l.sections[n - 1];
    if Copied(l, |raw|, s) {
      assert s in l.sections;
      SplicedAt(Placed(l, raw, n - 1), s.va, raw[s.rawOffset..s.rawOffset + s.rawSize], rva);
    }
  }

  // One byte of the image after the first n sections.
  function PlacedByte(l: Layout, raw: seq<byte>, n: nat, rva: u32): byte
    requires n <= |l.sections| && CopiesInFile(l, |raw|) && rva < l.sizeOfImage
  {
    if n == 0 then (if rva < HeaderLen(l, |raw|) then raw[rva] else 0)
    else
      var s := l.sections[n - 1];
      if Copied(l, |raw|, s) && InRaw(s, rva) then raw[s.rawOffset + (rva - s.va)]
      else PlacedByte(l, raw, n - 1, rva)
  }

  lemma {:induction false} PlacedBytewise(l: Layout, raw: seq<byte>, n: nat, rva: u32)
    requires n <= |l.sections| && CopiesInFile(l, |raw|) && rva < l.sizeOfImage
    ensures Placed(l, raw, n)[rva] == PlacedByte(l, raw, n, rva)
  {
    if n > 0 {
      PlacedBytewise(l, raw, n - 1, rva);
      PlacedAt(l, raw, n, rva);
    }
  }

  lemma {:induction false} UntouchedKeepsBase(l: Layout, raw: seq<byte>, n: nat, rva: u32)
    requires n <= |l.sections| && WellFormed(l, |raw|) && CopiesInFile(l, |raw|)
    requires rva < l.sizeOfImage
    requires forall j | 0 <= j < n :: !InRaw(l.sections[j], rva)
    ensures PlacedByte(l, raw, n, rva) == if rva < l.sizeOfHeaders then raw[rva] else 0
  {
    if n > 0 {
      UntouchedKeepsBase(l, raw, n - 1, rva);
      assert !InRaw(l.sections[n - 1], rva);
    }
  }

  lemma OneOwner(l: Layout, rawLen: nat, rva: u32, i: nat, j: nat)
    requires WellFormed(l, rawLen) && i < j < |l.sections| && InRaw(l.sections[i], rva)
    ensures !InRaw(l.sections[j], rva)
  {
  }

  lemma OwnerIsCopied(l: Layout, rawLen: nat, i: nat)
    requires WellFormed(l, rawLen) && i < |l.sections| && l.sections[i].rawSize > 0
    ensures Copied(l, rawLen, l.sections[i])
  {
    assert l.sections[i] in l.sections;
  }

  // The last section that puts a byte there decides.
  lemma {:induction false} LastWriterWins(l: Layout, raw: seq<byte>, n: nat, i: nat, rva: u32)
    requires i < n <= |l.sections| && CopiesInFile(l, |raw|) && rva < l.sizeOfImage
    requires Copied(l, |raw|, l.sections[i]) && InRaw(l.sections[i], rva)
    requires forall j | i < j < n :: !InRaw(l.sections[j], rva)
    ensures l.sections[i].rawOffset + (rva - l.sections[i].va) < |raw|
    ensures PlacedByte(l, raw, n, rva) == raw[l.sections[i].rawOffset + (rva - l.sections[i].va)]
  {
    assert l.sections[i] in l.sections;
    if i < n - 1 {
      LastWriterWins(l, raw, n - 1, i, rva);
      assert !InRaw(l.sections[n - 1], rva);
    }
  }

  lemma OwnerSuppliesByte(l: Layout, raw: seq<byte>, i: nat, rva: u32)
    requires i < |l.sections| && WellFormed(l, |raw|) && CopiesInFile(l, |raw|)
    requires InRaw(l.sections[i], rva) && rva < l.sizeOfImage
    ensures l.sections[i].rawOffset + (rva - l.sections[i].va) < |raw|
    ensures PlacedByte(l, raw, |l.sections|, rva) == raw[l.sections[i].rawOffset + (rva - l.sections[i].va)]
  {
    OwnerIsCopied(l, |raw|, i);
    forall j | i < j < |l.sections|
      ensures !InRaw(l.sections[j], rva)
    {
      OneOwner(l, |raw|, rva, i, j);
    }
    LastWriterWins(l, raw, |l.sections|, i, rva);
  }

  lemma WellFormedCopies(l: Layout, rawLen: nat)
    requires WellFormed(l, rawLen)
    ensures CopiesInFile(l, rawLen)
  {
  }

  // Spans being disjoint, the section whose raw data covers an RVA is the one found.
  lemma OnlyOwner(l: Layout, rawLen: nat, rva: u32, j: nat)
    requires WellFormed(l, rawLen) && j < |l.sections|
    ensures InRaw(l.sections[j], rva) ==> SectionFor(l.sections, 0, rva) == Some(j)
  {
  }

  // The two translations agree: every byte of the mapped image is the byte the raw
  // translation finds, and zero wherever the raw translation finds none.
  lemma MappedAgreesWithRaw(l: Layout, raw: seq<byte>, rva: u32)
    requires WellFormed(l, |raw|) && rva < l.sizeOfImage
    ensures CopiesInFile(l, |raw|)
    ensures match RvaRaw(l, rva)
      case Some(r) => r < |raw| && Rva(l, rva) == Some(rva) && Mapped(l, raw)[rva] == raw[r]
      case None => Mapped(l, raw)[rva] == 0
  {
    WellFormedCopies(l, |raw|);
    var n := |l.sections|;
    PlacedBytewise(l, raw, n, rva);
    if rva < l.sizeOfHeaders {
      HeaderByte(l, raw, rva);
    } else {
      SectionByte(l, raw, rva);
    }
  }

  lemma HeaderByte(l: Layout, raw: seq<byte>, rva: u32)
    requires WellFormed(l, |raw|) && CopiesInFile(l, |raw|) && rva < l.sizeOfHeaders
    ensures rva < |raw| && PlacedByte(l, raw, |l.sections|, rva) == raw[rva]
  {
    forall j | 0 <= j < |l.sections|
      ensures !InRaw(l.sections[j], rva)
    {
      assert l.sections[j] in l.sections;
    }
    UntouchedKeepsBase(l, raw, |l.sections|, rva);
  }

  lemma SectionByte(l: Layout, raw: seq<byte>, rva: u32)
    requires WellFormed(l, |raw|) && CopiesInFile(l, |raw|) && l.sizeOfHeaders <= rva < l.sizeOfImage
    ensures match RvaRaw(l, rva)
      case Some(r) => r < |raw| && PlacedByte(l, raw, |l.sections|, rva) == raw[r]
      case None => PlacedByte(l, raw, |l.sections|, rva) == 0
  {
    var owner := SectionFor(l.sections, 0, rva);
    if owner.Some? && InRaw(l.sections[owner.value], rva) {
      OwnerSuppliesByte(l, raw, owner.value, rva);
    } else {
      forall j | 0 <= j < |l.sections|
        ensures !InRaw(l.sections[j], rva)
      {
        OnlyOwner(l, |raw|, rva, j);
      }
      UntouchedKeepsBase(l, raw, |l.sections|, rva);
    }
  }

  // Raw translations never leave the image: a defined one lies below size_of_image.
  lemma RawTranslationIsMapped(l: Layout, rawLen: nat, rva: u32)
    requires WellFormed(l, rawLen) && RvaRaw(l, rva).Some?
    ensures rva < l.sizeOfImage && Rva(l, rva) == Some(rva) && RvaRaw(l, rva).value < rawLen
  {
    var owner := SectionFor(l.sections, 0, rva);
    if rva >= l.sizeOfHeaders {
      assert l.sections[owner.value] in l.sections;
    }
  }

  // ---- any layout ----

  // Where in the file the mapped byte at an RVA comes from after the first n sections; None
  // is a byte left zero.
  function Source(l: Layout, rawLen: nat, n: nat, rva: u32): Option<nat>
    requires n <= |l.sections|
  {
    if n == 0 then (if rva < HeaderLen(l, rawLen) then Some(rva) else None)
    else
      var s := l.sections[n - 1];
      if Copied(l, rawLen, s) && InRaw(s, rva) then Some(s.rawOffset + (rva - s.va))
      else Source(l, rawLen, n - 1, rva)
  }

  lemma {:induction false} SourceSupplies(l: Layout, raw: seq<byte>, n: nat, rva: u32)
    requires n <= |l.sections| && CopiesInFile(l, |raw|) && rva < l.sizeOfImage
    ensures match Source(l, |raw|, n, rva)
      case Some(at) => at < |raw| && PlacedByte(l, raw, n, rva) == raw[at]
      case None => PlacedByte(l, raw, n, rva) == 0
  {
    if n > 0 {
      assert l.sections[n - 1] in l.sections;
      SourceSupplies(l, raw, n - 1, rva);
    }
  }

  // The mapped byte at an RVA is the file byte the raw translation finds, or zero.
  ghost predicate AgreeAt(l: Layout, raw: seq<byte>, rva: u32)
    requires CopiesInFile(l, |raw|) && rva < l.sizeOfImage
  {
    match RvaRaw(l, rva)
    case Some(r) => r < |raw| && Mapped(l, raw)[rva] == raw[r]
    case None => Mapped(l, raw)[rva] == 0
  }

  // A file of zeroes with a one at the given offset.
  function OneAt(len: nat, at: nat): (raw: seq<byte>)
    ensures |raw| == len
    ensures forall i | 0 <= i < len :: raw[i] == if i == at then 1 else 0
  {
    seq(len, i => if i == at then 1 else 0)
  }

  lemma SameSourceAgrees(l: Layout, raw: seq<byte>, rva: u32)
    requires CopiesInFile(l, |raw|) && rva < l.sizeOfImage
    requires Source(l, |raw|, |l.sections|, rva) == RvaRaw(l, rva)
    ensures AgreeAt(l, raw, rva)
  {
    SourceSupplies(l, raw, |l.sections|, rva);
    PlacedBytewise(l, raw, |l.sections|, rva);
  }

  // Marking one of the two places in the file tells different sources apart.
  lemma OtherSourceDisagrees(l: Layout, rawLen: nat, rva: u32) returns (raw: seq<byte>)
    requires CopiesInFile(l, rawLen) && rva < l.sizeOfImage
    requires Source(l, rawLen, |l.sections|, rva) != RvaRaw(l, rva)
    ensures |raw| == rawLen && !AgreeAt(l, raw, rva)
  {
    var source := Source(l, rawLen, |l.sections|, rva);
    raw := OneAt(rawLen, if source.Some? then source.value else RvaRaw(l, rva).value);
    SourceSupplies(l, raw, |l.sections|, rva);
    PlacedBytewise(l, raw, |l.sections|, rva);
  }

  // For every layout whose copies stay in the file the translations agree on every file of
  // that length if and only if each mapped byte comes from where the raw translation points.
  lemma TranslationsAgreeIff(l: Layout, rawLen: nat)
    requires CopiesInFile(l, rawLen)
    ensures (forall raw: seq<byte>, rva: u32 | |raw| == rawLen && rva < l.sizeOfImage :: AgreeAt(l, raw, rva))
      <==> forall rva: u32 | rva < l.sizeOfImage :: Source(l, rawLen, |l.sections|, rva) == RvaRaw(l, rva)
  {
    forall rva: u32 | rva < l.sizeOfImage && Source(l, rawLen, |l.sections|, rva) != RvaRaw(l, rva)
      ensures exists raw: seq<byte> :: |raw| == rawLen && !AgreeAt(l, raw, rva)
    {
      var raw := OtherSourceDisagrees(l, rawLen, rva);
    }
    forall raw: seq<byte>, rva: u32 | |raw| == rawLen && rva < l.sizeOfImage
        && Source(l, rawLen, |l.sections|, rva) == RvaRaw(l, rva)
      ensures AgreeAt(l, raw, rva)
    {
      SameSourceAgrees(l, raw, rva);
    }
  }

  // With overlapping spans the translations can disagree: the later section wins in
  // the mapped image, the earlier one in the raw translation.
  lemma OverlapDisagrees()
    ensures var l := Layout(2, 0, [Section(0, 1, 0, 1), Section(0, 1, 1, 1)], true, 0, 0);
      var raw: seq<byte> := [7, 8];
      && CopiesInFile(l, 2)
      && RvaRaw(l, 0) == Some(0) && Mapped(l, raw)[0] == 8 != raw[0]
  {
    var a, b := Section(0, 1, 0, 1), Section(0, 1, 1, 1);
    var l := Layout(2, 0, [a, b], true, 0, 0);
    var raw: seq<byte> := [7, 8];
    assert l.sections[0] == a && l.sections[1] == b;
    assert CopiesInFile(l, 2);
    assert Placed(l, raw, 2)[0] == 8;
  }

  // ---- in terms of the header fields ----

  // The RVA lies in the section by one of its two sizes.
  predicate Covers(s: Section, rva: u32) {
    s.va <= rva && (rva < s.va + s.virtualSize || rva < s.va + s.rawSize)
  }

  lemma CoversIff(s: Section, rva: u32)
    ensures Covers(s, rva) <==> s.Contains(rva)
  {
  }

  // The mapped translation is the identity on the headers and the sections, and undefined
  // elsewhere.
  lemma RvaIff(l: Layout, rva: u32)
    ensures Rva(l, rva) ==
      if rva < l.sizeOfHeaders || exists s <- l.sections :: Covers(s, rva) then Some(rva) else None
  {
    var found := SectionFor(l.sections, 0, rva);
    forall s <- l.sections
      ensures Covers(s, rva) <==> s.Contains(rva)
    {
      CoversIff(s, rva);
    }
    if s :| s in l.sections && Covers(s, rva) {
      var j :| 0 <= j < |l.sections| && l.sections[j] == s;
      assert found.Some?;
    }
  }

  // The raw translation goes through the first section that covers the RVA, as far as its raw
  // data reaches.
  lemma RvaRawIs(l: Layout, rva: u32, i: nat)
    requires i < |l.sections| && l.sizeOfHeaders <= rva
    requires Covers(l.sections[i], rva) && forall j | 0 <= j < i :: !Covers(l.sections[j], rva)
    ensures var s := l.sections[i];
      RvaRaw(l, rva) == if rva < s.va + s.rawSize then Some(s.rawOffset + rva - s.va) else None
  {
    forall j | 0 <= j <= i
      ensures Covers(l.sections[j], rva) <==> l.sections[j].Contains(rva)
    {
      CoversIff(l.sections[j], rva);
    }
    assert SectionFor(l.sections, 0, rva) == Some(i);
  }

  lemma RvaRawElsewhere(l: Layout, rva: u32)
    requires forall s <- l.sections :: !Covers(s, rva)
    ensures RvaRaw(l, rva) == if rva < l.sizeOfHeaders then Some(rva) else None
  {
    var found := SectionFor(l.sections, 0, rva);
    if found.Some? {
      CoversIff(l.sections[found.value], rva);
    }
  }

  // The section's raw data starts in the file, fits the image, and covers the RVA.
  predicate Supplies(l: Layout, rawLen: nat, s: Section, rva: u32) {
    && s.rawOffset < rawLen && s.va + s.rawSize <= l.sizeOfImage
    && s.va <= rva < s.va + s.rawSize
  }

  // The last of the first n sections that does.
  function Supplier(l: Layout, rawLen: nat, n: nat, rva: u32): (r: Option<nat>)
    requires n <= |l.sections|
    ensures r.Some? ==> r.value < n && Supplies(l, rawLen, l.sections[r.value], rva)
    ensures forall j | (if r.Some? then r.value + 1 else 0) <= j < n :: !Supplies(l, rawLen, l.sections[j], rva)
  {
    if n == 0 then None
    else if Supplies(l, rawLen, l.sections[n - 1], rva) then Some(n - 1)
    else Supplier(l, rawLen, n - 1, rva)
  }

  lemma SuppliesIff(l: Layout, rawLen: nat, s: Section, rva: u32)
    ensures Supplies(l, rawLen, s, rva) <==> Copied(l, rawLen, s) && InRaw(s, rva)
  {
  }

  lemma {:induction false} PlacedByteIs(l: Layout, raw: seq<byte>, n: nat, rva: u32)
    requires n <= |l.sections| && CopiesInFile(l, |raw|) && rva < l.sizeOfImage
    ensures match Supplier(l, |raw|, n, rva)
      case Some(i) =>
        && l.sections[i].rawOffset + (rva - l.sections[i].va) < |raw|
        && PlacedByte(l, raw, n, rva) == raw[l.sections[i].rawOffset + (rva - l.sections[i].va)]
      case None => PlacedByte(l, raw, n, rva) == if rva < l.sizeOfHeaders && rva < |raw| then raw[rva] else 0
  {
    if n > 0 {
      PlacedByteIs(l, raw, n - 1, rva);
      var s := l.sections[n - 1];
      assert s in l.sections;
      SuppliesIff(l, |raw|, s, rva);
    }
  }

  // Every byte of the image: from the last section that supplies it, otherwise from the headers
  // as far as the file has them, otherwise zero. This is so for every layout none of whose
  // sections starts in the file, fits the image and runs past the end of the file.
  lemma MappedByteIs(l: Layout, raw: seq<byte>, rva: u32)
    requires rva < l.sizeOfImage
    requires forall s <- l.sections | s.rawOffset < |raw| && s.va + s.rawSize <= l.sizeOfImage ::
      s.rawOffset + s.rawSize <= |raw|
    ensures CopiesInFile(l, |raw|)
    ensures match Supplier(l, |raw|, |l.sections|, rva)
      case Some(i) =>
        && l.sections[i].rawOffset + (rva - l.sections[i].va) < |raw|
        && Mapped(l, raw)[rva] == raw[l.sections[i].rawOffset + (rva - l.sections[i].va)]
      case None => Mapped(l, raw)[rva] == if rva < l.sizeOfHeaders && rva < |raw| then raw[rva] else 0
  {
    PlacedBytewise(l, raw, |l.sections|, rva);
    PlacedByteIs(l, raw, |l.sections|, rva);
  }
}
