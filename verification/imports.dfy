// The import table: a reference description of what lies in the image, and the
// records the nested walk of parse_imports reads out of it.
module Imports {
  import opened Status
  import opened Words
  import opened Pe

  const DESCRIPTOR_SIZE: nat := 20

  datatype Descriptor = Descriptor(
    characteristics: u32, timeStamp: u32, forwarder: u32, nameRva: u32, firstThunk: u32)
  {
    predicate IsEnd() { characteristics == 0 && firstThunk == 0 && nameRva == 0 }

    function ThunkRva(): u32 { if firstThunk != 0 then firstThunk else characteristics }

    function Bytes(): (s: seq<byte>)
      ensures |s| == DESCRIPTOR_SIZE
    {
      LeBytes(characteristics, 4) + LeBytes(timeStamp, 4) + LeBytes(forwarder, 4)
      + LeBytes(nameRva, 4) + LeBytes(firstThunk, 4)
    }
  }

  // module is the offset of the DLL name in the image; name the offset of the function name,
  // or None for an import by ordinal.
  datatype Import = Import(moduleName: nat, name: Option<nat>, ordinal: u16)

  // BadImports is the error status; Fault marks a thunk read that would run past the
  // end of the mapped image.
  datatype Outcome = Done(imports: seq<Import>) | BadImports | Fault

  function Prepend(done: seq<Import>, r: Outcome): Outcome {
    if r.Done? then Done(done + r.imports) else r
  }

  // ---- reading ----

  function ThunkSize(l: Layout): (w: nat)
    ensures w == 4 || w == 8
  {
    if l.pe32 then 4 else 8
  }

  function Word32(m: seq<byte>, at: nat): (v: u32)
    requires at + 4 <= |m|
  {
    WordIs(m, at, 4);
    Pow256Constants();
    Word(m, at, 4)
  }

  // The top bit of a thunk separates ordinals from names, for both widths.
  function TopBit(w: nat): nat { if w == 4 then 0x8000_0000 else 0x8000_0000_0000_0000 }

  function RecordOf(w: nat, nameRva: u32, thunk: nat): Import {
    if thunk >= TopBit(w) then Import(nameRva, None, (thunk % TopBit(w)) % 0x1_0000)
    else Import(nameRva, Some(thunk % TWO32 + 2), 0)
  }

  function DescriptorAt(m: seq<byte>, rva: nat): Descriptor
    requires rva + DESCRIPTOR_SIZE <= |m|
  {
    Descriptor(Word32(m, rva), Word32(m, rva + 4), Word32(m, rva + 8),
               Word32(m, rva + 12), Word32(m, rva + 16))
  }

  predicate Readable(l: Layout, m: seq<byte>, rva: u32, len: nat) {
    Rva(l, rva).Some? && rva + len <= |m|
  }

  // The thunks from RVA iat up to the first zero one, as records.
  function ParseThunks(l: Layout, m: seq<byte>, nameRva: u32, iat: u32): (r: Outcome)
    requires |m| < TWO32
    decreases |m| - iat
  {
    var w := ThunkSize(l);
    if Rva(l, iat).None? then Done([])
    else if iat + w > |m| then Fault
    else
      var v := Word(m, iat, w);
      if v == 0 then Done([])
      else if v < TopBit(w) && Rva(l, v % TWO32).None? then BadImports
      else Prepend([RecordOf(w, nameRva, v)], ParseThunks(l, m, nameRva, iat + w))
  }

  // The descriptors from RVA rva up to the terminating one, or the end of the image.
  function ParseTable(l: Layout, m: seq<byte>, rva: u32): (r: Outcome)
    requires |m| < TWO32
    decreases |m| - rva
  {
    if !Readable(l, m, rva, DESCRIPTOR_SIZE) then Done([])
    else
      var d := DescriptorAt(m, rva);
      if d.IsEnd() then Done([])
      else if d.ThunkRva() == 0 then ParseTable(l, m, rva + DESCRIPTOR_SIZE)
      else if Rva(l, d.nameRva).None? then BadImports
      else
        match ParseThunks(l, m, d.nameRva, d.ThunkRva())
        case Done(records) => Prepend(records, ParseTable(l, m, rva + DESCRIPTOR_SIZE))
        case bad => bad
  }

  function ParseDirectory(l: Layout, m: seq<byte>): Outcome
    requires |m| < TWO32
  {
    if l.importRva == 0 || l.importSize == 0 then Done([]) else ParseTable(l, m, l.importRva)
  }

  // ---- the reference description ----

  // A descriptor and its thunk values, without the terminating zero thunk.
  datatype Entry = Entry(desc: Descriptor, thunks: seq<u64>)

  // The terminating descriptor is zero but for the two fields nobody reads.
  predicate Terminates(d: Descriptor) {
    d == Descriptor(0, d.timeStamp, d.forwarder, 0, 0)
  }

  // The address table's RVA, or the lookup table's where there is none.
  function FirstThunk(d: Descriptor): u32 {
    match d
    case Descriptor(lookup, _, _, _, 0) => lookup
    case Descriptor(_, _, _, _, address) => address
  }

  // From RVA iat on the image holds exactly these thunks and then a zero one.
  ghost predicate HoldsThunks(l: Layout, m: seq<byte>, iat: nat, thunks: seq<u64>)
    decreases |thunks|
  {
    var w := if l.pe32 then 4 else 8;
    && iat < TWO32 && Readable(l, m, iat, w)
    && if thunks == [] then m[iat..iat + w] == LeBytes(0, w)
       else
         var v := thunks[0];
         && 0 < v < 2 * TopBit(w) && m[iat..iat + w] == LeBytes(v, w)
         && (v < TopBit(w) ==> Rva(l, v % TWO32).Some?)
         && HoldsThunks(l, m, iat + w, thunks[1..])
  }

  // From RVA rva on the image holds exactly these descriptors, each with its DLL name and
  // thunks inside the image, and then the terminating one. A descriptor without a
  // thunk array contributes nothing.
  ghost predicate HoldsTable(l: Layout, m: seq<byte>, rva: nat, table: seq<Entry>)
    decreases |table|
  {
    && rva < TWO32 && Readable(l, m, rva, DESCRIPTOR_SIZE)
    && if table == [] then
         exists end: Descriptor :: Terminates(end) && m[rva..rva + DESCRIPTOR_SIZE] == end.Bytes()
       else
         var d := table[0].desc;
         && m[rva..rva + DESCRIPTOR_SIZE] == d.Bytes() && !Terminates(d)
         && (if FirstThunk(d) == 0 then table[0].thunks == []
             else Rva(l, d.nameRva).Some? && HoldsThunks(l, m, FirstThunk(d), table[0].thunks))
         && HoldsTable(l, m, rva + DESCRIPTOR_SIZE, table[1..])
  }

  function RecordsOf(w: nat, nameRva: u32, thunks: seq<u64>): (r: seq<Import>)
    ensures |r| == |thunks|
    ensures forall i | 0 <= i < |r| :: r[i] == RecordOf(w, nameRva, thunks[i])
  {
    if thunks == [] then []
    else [RecordOf(w, nameRva, thunks[0])] + RecordsOf(w, nameRva, thunks[1..])
  }

  // One record per thunk, in table order.
  function Expected(w: nat, table: seq<Entry>): seq<Import> {
    if table == [] then []
    else RecordsOf(w, table[0].desc.nameRva, table[0].thunks) + Expected(w, table[1..])
  }

  lemma Word32OfBytes(m: seq<byte>, at: nat, v: u32)
    requires at + 4 <= |m| && m[at..at + 4] == LeBytes(v, 4)
    ensures Word32(m, at) == v
  {
    Pow256Constants();
    WordOfBytes(m, at, 4, v);
  }

  lemma FiveWords(m: seq<byte>, at: nat, a: seq<byte>, b: seq<byte>, c: seq<byte>, d: seq<byte>, e: seq<byte>)
    requires |a| == |b| == |c| == |d| == |e| == 4
    requires at + 20 <= |m| && m[at..at + 20] == a + b + c + d + e
    ensures m[at..at + 4] == a && m[at + 4..at + 8] == b && m[at + 8..at + 12] == c
    ensures m[at + 12..at + 16] == d && m[at + 16..at + 20] == e
  {
    var s := a + b + c + d + e;
    PartAt(m, at, s, 0, a);
    PartAt(m, at, s, 4, b);
    PartAt(m, at, s, 8, c);
    PartAt(m, at, s, 12, d);
    PartAt(m, at, s, 16, e);
  }

  lemma PartAt(m: seq<byte>, at: nat, s: seq<byte>, off: nat, part: seq<byte>)
    requires at + |s| <= |m| && m[at..at + |s|] == s
    requires off + |part| <= |s| && s[off..off + |part|] == part
    ensures m[at + off..at + off + |part|] == part
  {
    forall i | 0 <= i < |part|
      ensures m[at + off + i] == part[i]
    {
      assert m[at + off + i] == m[at..at + |s|][off + i];
      assert s[off..off + |part|][i] == s[off + i];
    }
  }

  lemma DescriptorRoundTrip(m: seq<byte>, rva: nat, d: Descriptor)
    requires rva + DESCRIPTOR_SIZE <= |m| && m[rva..rva + DESCRIPTOR_SIZE] == d.Bytes()
    ensures DescriptorAt(m, rva) == d
  {
    var a, b, c, e, f := LeBytes(d.characteristics, 4), LeBytes(d.timeStamp, 4),
      LeBytes(d.forwarder, 4), LeBytes(d.nameRva, 4), LeBytes(d.firstThunk, 4);
    FiveWords(m, rva, a, b, c, e, f);
    Word32OfBytes(m, rva, d.characteristics);
    Word32OfBytes(m, rva + 4, d.timeStamp);
    Word32OfBytes(m, rva + 8, d.forwarder);
    Word32OfBytes(m, rva + 12, d.nameRva);
    Word32OfBytes(m, rva + 16, d.firstThunk);
  }

  lemma ThunkValue(m: seq<byte>, at: nat, w: nat, v: nat)
    requires (w == 4 || w == 8) && v < 2 * TopBit(w)
    requires at + w <= |m| && m[at..at + w] == LeBytes(v, w)
    ensures Word(m, at, w) == v
  {
    Pow256Constants();
    WordOfBytes(m, at, w, v);
  }

  lemma {:induction false} ThunksComplete(l: Layout, m: seq<byte>, nameRva: u32, iat: u32, thunks: seq<u64>)
    requires |m| < TWO32 && HoldsThunks(l, m, iat, thunks)
    ensures ParseThunks(l, m, nameRva, iat) == Done(RecordsOf(ThunkSize(l), nameRva, thunks))
    decreases |thunks|
  {
    var w := ThunkSize(l);
    if thunks == [] {
      ThunkValue(m, iat, w, 0);
    } else {
      ThunkValue(m, iat, w, thunks[0]);
      ThunksComplete(l, m, nameRva, iat + w, thunks[1..]);
    }
  }

  // A well-formed import table is read completely and in order.
  lemma {:induction false} TableComplete(l: Layout, m: seq<byte>, rva: u32, table: seq<Entry>)
    requires |m| < TWO32 && HoldsTable(l, m, rva, table)
    ensures ParseTable(l, m, rva) == Done(Expected(ThunkSize(l), table))
    decreases |table|
  {
    if table == [] {
      var end: Descriptor :| Terminates(end) && m[rva..rva + DESCRIPTOR_SIZE] == end.Bytes();
      DescriptorRoundTrip(m, rva, end);
    } else {
      var d := table[0].desc;
      DescriptorRoundTrip(m, rva, d);
      TableComplete(l, m, rva + DESCRIPTOR_SIZE, table[1..]);
      if d.ThunkRva() != 0 {
        ThunksComplete(l, m, d.nameRva, d.ThunkRva(), table[0].thunks);
      } else {
        assert RecordsOf(ThunkSize(l), d.nameRva, table[0].thunks) == [];
      }
    }
  }

  lemma DirectoryComplete(l: Layout, m: seq<byte>, table: seq<Entry>)
    requires |m| < TWO32 && l.importRva != 0 && l.importSize != 0
    requires HoldsTable(l, m, l.importRva, table)
    ensures ParseDirectory(l, m) == Done(Expected(ThunkSize(l), table))
  {
    TableComplete(l, m, l.importRva, table);
  }

  // ---- what a table says ----

  // A function imported from a DLL: by a name, which lies in the image behind two bytes of hint
  // at this RVA, or by a 16-bit ordinal.
  datatype Symbol = ByName(name: seq<byte>) | ByOrdinal(number: u16)

  datatype Item = Item(rva: u32, symbol: Symbol)

  datatype Listing = Listing(desc: Descriptor, dll: seq<byte>, items: seq<Item>)

  // A C string lies there.
  ghost predicate HoldsName(m: seq<byte>, at: nat, name: seq<byte>) {
    0 !in name && at + |name| < |m| && m[at..at + |name|] == name && m[at + |name|] == 0
  }

  // The C string at an offset of the image.
  function NameAt(m: seq<byte>, at: nat): seq<byte> {
    if at > |m| then [] else UpToNul(m[at..])
  }

  lemma NameIsThere(m: seq<byte>, at: nat, name: seq<byte>)
    requires HoldsName(m, at, name)
    ensures NameAt(m, at) == name
  {
    var s := m[at..];
    assert s[..|name|] == name && s[|name|] == 0;
    NulAt(s, |name|);
  }

  lemma {:induction false} NulAt(s: seq<byte>, n: nat)
    requires n < |s| && s[n] == 0 && 0 !in s[..n]
    ensures UpToNul(s) == s[..n]
    decreases n
  {
    if n > 0 {
      assert s[..n][0] == s[0];
      assert s[1..][..n - 1] == s[..n][1..];
      NulAt(s[1..], n - 1);
      assert s[..n] == [s[0]] + s[1..][..n - 1];
    }
  }

  // The thunk of an import: the RVA of its hint, or the top bit and the ordinal.
  function ThunkFor(w: nat, item: Item): u64
    requires w == 4 || w == 8
  {
    match item.symbol
    case ByName(_) => item.rva
    case ByOrdinal(number) => if w == 4 then 0x8000_0000 + number else 0x8000_0000_0000_0000 + number
  }

  function ThunksFor(w: nat, items: seq<Item>): (thunks: seq<u64>)
    requires w == 4 || w == 8
    ensures |thunks| == |items|
    ensures forall i | 0 <= i < |items| :: thunks[i] == ThunkFor(w, items[i])
  {
    seq(|items|, i requires 0 <= i < |items| => ThunkFor(w, items[i]))
  }

  function EntriesFor(w: nat, table: seq<Listing>): (entries: seq<Entry>)
    requires w == 4 || w == 8
    ensures |entries| == |table|
    ensures forall i | 0 <= i < |table| :: entries[i] == Entry(table[i].desc, ThunksFor(w, table[i].items))
  {
    seq(|table|, i requires 0 <= i < |table| => Entry(table[i].desc, ThunksFor(w, table[i].items)))
  }

  ghost predicate HoldsItem(m: seq<byte>, item: Item) {
    match item.symbol
    case ByName(name) => 0 < item.rva < 0x8000_0000 && HoldsName(m, item.rva + 2, name)
    case ByOrdinal(_) => true
  }

  // The names of a table lie in the image.
  ghost predicate HoldsNames(m: seq<byte>, table: seq<Listing>) {
    forall d <- table :: HoldsName(m, d.desc.nameRva, d.dll) && forall item <- d.items :: HoldsItem(m, item)
  }

  // What a record says, read through the offsets it holds: the DLL and the function.
  function Said(m: seq<byte>, r: Import): (seq<byte>, Symbol) {
    (NameAt(m, r.moduleName), if r.name.Some? then ByName(NameAt(m, r.name.value)) else ByOrdinal(r.ordinal))
  }

  function AllSaid(m: seq<byte>, records: seq<Import>): (said: seq<(seq<byte>, Symbol)>)
    ensures |said| == |records|
    ensures forall i | 0 <= i < |records| :: said[i] == Said(m, records[i])
  {
    seq(|records|, i requires 0 <= i < |records| => Said(m, records[i]))
  }

  function ItemsListed(d: Listing): (said: seq<(seq<byte>, Symbol)>)
    ensures |said| == |d.items|
    ensures forall i | 0 <= i < |said| :: said[i] == (d.dll, d.items[i].symbol)
  {
    seq(|d.items|, i requires 0 <= i < |d.items| => (d.dll, d.items[i].symbol))
  }

  function Listed(table: seq<Listing>): seq<(seq<byte>, Symbol)> {
    if table == [] then [] else ItemsListed(table[0]) + Listed(table[1..])
  }

  lemma RecordOfName(w: nat, nameRva: u32, rva: u32)
    requires (w == 4 || w == 8) && 0 < rva < 0x8000_0000
    ensures RecordOf(w, nameRva, rva) == Import(nameRva, Some(rva + 2), 0)
  {
  }

  lemma RecordOfOrdinal(w: nat, nameRva: u32, number: u16)
    requires w == 4 || w == 8
    ensures RecordOf(w, nameRva, TopBit(w) + number) == Import(nameRva, None, number)
  {
  }

  lemma SaidIsListed(m: seq<byte>, w: nat, nameRva: u32, dll: seq<byte>, item: Item)
    requires (w == 4 || w == 8) && HoldsName(m, nameRva, dll) && HoldsItem(m, item)
    ensures Said(m, RecordOf(w, nameRva, ThunkFor(w, item))) == (dll, item.symbol)
  {
    NameIsThere(m, nameRva, dll);
    match item.symbol
    case ByName(name) =>
      RecordOfName(w, nameRva, item.rva);
      NameIsThere(m, item.rva + 2, name);
    case ByOrdinal(number) => RecordOfOrdinal(w, nameRva, number);
  }

  lemma ItemsSaid(m: seq<byte>, w: nat, d: Listing)
    requires (w == 4 || w == 8) && HoldsNames(m, [d])
    ensures AllSaid(m, RecordsOf(w, d.desc.nameRva, ThunksFor(w, d.items))) == ItemsListed(d)
  {
    assert d in [d];
    var records := RecordsOf(w, d.desc.nameRva, ThunksFor(w, d.items));
    forall i | 0 <= i < |d.items|
      ensures Said(m, records[i]) == (d.dll, d.items[i].symbol)
    {
      assert d.items[i] in d.items;
      SaidIsListed(m, w, d.desc.nameRva, d.dll, d.items[i]);
    }
  }

  lemma AllSaidAppend(m: seq<byte>, a: seq<Import>, b: seq<Import>)
    ensures AllSaid(m, a + b) == AllSaid(m, a) + AllSaid(m, b)
  {
  }

  lemma {:induction false} AllSaidIsListed(m: seq<byte>, w: nat, table: seq<Listing>)
    requires (w == 4 || w == 8) && HoldsNames(m, table)
    ensures AllSaid(m, Expected(w, EntriesFor(w, table))) == Listed(table)
    decreases |table|
  {
    if table != [] {
      var d, rest := table[0], table[1..];
      assert EntriesFor(w, table)[1..] == EntriesFor(w, rest);
      AllSaidIsListed(m, w, rest);
      ItemsSaid(m, w, d);
      AllSaidAppend(m, RecordsOf(w, d.desc.nameRva, ThunksFor(w, d.items)), Expected(w, EntriesFor(w, rest)));
    }
  }

  // Reading a well-formed import table gives exactly the imports it lists, in its order, each
  // with its DLL: the records' offsets point at exactly the names.
  lemma TableSays(l: Layout, m: seq<byte>, rva: u32, table: seq<Listing>)
    requires |m| < TWO32 && HoldsNames(m, table)
    requires HoldsTable(l, m, rva, EntriesFor(ThunkSize(l), table))
    ensures ParseTable(l, m, rva).Done? && AllSaid(m, ParseTable(l, m, rva).imports) == Listed(table)
  {
    TableComplete(l, m, rva, EntriesFor(ThunkSize(l), table));
    AllSaidIsListed(m, ThunkSize(l), table);
  }

  lemma DirectorySays(l: Layout, m: seq<byte>, table: seq<Listing>)
    requires |m| < TWO32 && l.importRva != 0 && l.importSize != 0 && HoldsNames(m, table)
    requires HoldsTable(l, m, l.importRva, EntriesFor(ThunkSize(l), table))
    ensures ParseDirectory(l, m).Done? && AllSaid(m, ParseDirectory(l, m).imports) == Listed(table)
  {
    TableSays(l, m, l.importRva, table);
  }

  // ---- malformed tables ----

  // From RVA iat on the image holds these thunks, whatever follows.
  ghost predicate StartsThunks(l: Layout, m: seq<byte>, iat: nat, thunks: seq<u64>)
    decreases |thunks|
  {
    var w := if l.pe32 then 4 else 8;
    thunks == [] ||
    (var v := thunks[0];
     && iat < TWO32 && Readable(l, m, iat, w)
     && 0 < v < 2 * TopBit(w) && m[iat..iat + w] == LeBytes(v, w)
     && (v < TopBit(w) ==> Rva(l, v % TWO32).Some?)
     && StartsThunks(l, m, iat + w, thunks[1..]))
  }

  // From RVA rva on the image holds these descriptors, whatever follows.
  ghost predicate StartsTable(l: Layout, m: seq<byte>, rva: nat, table: seq<Entry>)
    decreases |table|
  {
    table == [] ||
    (var d := table[0].desc;
     && rva < TWO32 && Readable(l, m, rva, DESCRIPTOR_SIZE)
     && m[rva..rva + DESCRIPTOR_SIZE] == d.Bytes() && !Terminates(d)
     && (if FirstThunk(d) == 0 then table[0].thunks == []
         else Rva(l, d.nameRva).Some? && HoldsThunks(l, m, FirstThunk(d), table[0].thunks))
     && StartsTable(l, m, rva + DESCRIPTOR_SIZE, table[1..]))
  }

  lemma PrependTwice(a: seq<Import>, b: seq<Import>, r: Outcome)
    ensures Prepend(a, Prepend(b, r)) == Prepend(a + b, r)
    ensures Prepend([], r) == r
  {
    if r.Done? {
      assert a + (b + r.imports) == a + b + r.imports && [] + r.imports == r.imports;
    }
  }

  lemma {:induction false} ThunksStart(l: Layout, m: seq<byte>, nameRva: u32, iat: u32, thunks: seq<u64>, next: u32)
    requires |m| < TWO32 && StartsThunks(l, m, iat, thunks) && next == iat + ThunkSize(l) * |thunks|
    ensures ParseThunks(l, m, nameRva, iat) ==
      Prepend(RecordsOf(ThunkSize(l), nameRva, thunks), ParseThunks(l, m, nameRva, next))
    decreases |thunks|
  {
    var w := ThunkSize(l);
    var rest := ParseThunks(l, m, nameRva, next);
    if thunks == [] {
      PrependTwice([], [], rest);
    } else {
      var v := thunks[0];
      ThunkValue(m, iat, w, v);
      assert w * |thunks| == w + w * |thunks[1..]|;
      ThunksStart(l, m, nameRva, iat + w, thunks[1..], next);
      PrependTwice([RecordOf(w, nameRva, v)], RecordsOf(w, nameRva, thunks[1..]), rest);
    }
  }

  // The records of whole descriptors come first, then what is read behind them.
  lemma {:induction false} TableStarts(l: Layout, m: seq<byte>, rva: u32, table: seq<Entry>, next: u32)
    requires |m| < TWO32 && StartsTable(l, m, rva, table) && next == rva + DESCRIPTOR_SIZE * |table|
    ensures ParseTable(l, m, rva) == Prepend(Expected(ThunkSize(l), table), ParseTable(l, m, next))
    decreases |table|
  {
    var rest := ParseTable(l, m, next);
    if table == [] {
      PrependTwice([], [], rest);
    } else {
      var d, w := table[0].desc, ThunkSize(l);
      DescriptorRoundTrip(m, rva, d);
      TableStarts(l, m, rva + DESCRIPTOR_SIZE, table[1..], next);
      if d.ThunkRva() != 0 {
        ThunksComplete(l, m, d.nameRva, d.ThunkRva(), table[0].thunks);
      } else {
        assert RecordsOf(w, d.nameRva, table[0].thunks) == [];
      }
      PrependTwice(RecordsOf(w, d.nameRva, table[0].thunks), Expected(w, table[1..]), rest);
    }
  }

  // A descriptor in the image that does not terminate, has thunks, and whose DLL name or one of
  // whose thunks, behind sound ones, names nothing in the image.
  ghost predicate BadDescriptor(l: Layout, m: seq<byte>, rva: u32, d: Descriptor, sound: seq<u64>, bad: u64) {
    var w := if l.pe32 then 4 else 8;
    var at := FirstThunk(d) + w * |sound|;
    && Readable(l, m, rva, DESCRIPTOR_SIZE) && m[rva..rva + DESCRIPTOR_SIZE] == d.Bytes()
    && !Terminates(d) && FirstThunk(d) != 0
    && (Rva(l, d.nameRva).None? ||
        (&& StartsThunks(l, m, FirstThunk(d), sound) && at < TWO32 && Readable(l, m, at, w)
         && 0 < bad < TopBit(w) && m[at..at + w] == LeBytes(bad, w) && Rva(l, bad % TWO32).None?))
  }

  // It makes the whole table an error, whatever stands before it.
  lemma BadTable(l: Layout, m: seq<byte>, rva: u32, table: seq<Entry>, next: u32, d: Descriptor, sound: seq<u64>, bad: u64)
    requires |m| < TWO32 && StartsTable(l, m, rva, table) && next == rva + DESCRIPTOR_SIZE * |table|
    requires BadDescriptor(l, m, next, d, sound, bad)
    ensures ParseTable(l, m, rva) == BadImports
  {
    TableStarts(l, m, rva, table, next);
    BadDescriptorFails(l, m, next, d, sound, bad);
  }

  lemma BadDescriptorFails(l: Layout, m: seq<byte>, rva: u32, d: Descriptor, sound: seq<u64>, bad: u64)
    requires |m| < TWO32 && BadDescriptor(l, m, rva, d, sound, bad)
    ensures ParseTable(l, m, rva) == BadImports
  {
    DescriptorRoundTrip(m, rva, d);
    if Rva(l, d.nameRva).Some? {
      BadThunkFails(l, m, d.nameRva, FirstThunk(d), sound, FirstThunk(d) + ThunkSize(l) * |sound|, bad);
    }
  }

  lemma BadThunkFails(l: Layout, m: seq<byte>, nameRva: u32, iat: u32, sound: seq<u64>, at: u32, bad: u64)
    requires |m| < TWO32 && StartsThunks(l, m, iat, sound) && at == iat + ThunkSize(l) * |sound|
    requires Readable(l, m, at, ThunkSize(l)) && 0 < bad < TopBit(ThunkSize(l))
    requires m[at..at + ThunkSize(l)] == LeBytes(bad, ThunkSize(l)) && Rva(l, bad % TWO32).None?
    ensures ParseThunks(l, m, nameRva, iat) == BadImports
  {
    ThunksStart(l, m, nameRva, iat, sound, at);
    ThunkValue(m, at, ThunkSize(l), bad);
  }

  // A table whose next descriptor is not in the image ends there without an error; without a
  // directory there is none.
  lemma TableRunsOut(l: Layout, m: seq<byte>, rva: u32, table: seq<Entry>, next: u32)
    requires |m| < TWO32 && StartsTable(l, m, rva, table) && next == rva + DESCRIPTOR_SIZE * |table|
    requires Rva(l, next).None? || next + 20 > |m|
    ensures ParseTable(l, m, rva) == Done(Expected(ThunkSize(l), table))
    ensures l.importRva == 0 || l.importSize == 0 ==> ParseDirectory(l, m) == Done([])
  {
    TableStarts(l, m, rva, table, next);
    assert Expected(ThunkSize(l), table) + [] == Expected(ThunkSize(l), table);
  }
}
