// The loaded image object: mapping its sections, translating addresses, reading
// slices and walking the import table in place.
module Loader {
  import opened Status
  import opened Words
  import opened Pe
  import opened Imports

  class Image {
    const layout: Layout
    const raw: seq<byte>
    var mapped: array?<byte>
    var imports: Records?

    constructor (layout: Layout, raw: seq<byte>)
      ensures this.layout == layout && this.raw == raw
      ensures mapped == null && imports == null
    {
      this.layout, this.raw := layout, raw;
      mapped, imports := null, null;
    }

    // The image was assembled by MapSections and not touched since.
    ghost predicate IsMapped()
      reads this, mapped
    {
      mapped != null && CopiesInFile(layout, |raw|) && mapped[..] == Mapped(layout, raw)
    }

    // map_sections; hasMemory says whether calloc succeeds.
    method MapSections(hasMemory: bool) returns (status: Status)
      requires CopiesInFile(layout, |raw|)
      modifies this`mapped
      ensures status ==
        if layout.sizeOfImage == 0 then PeBadSections
        else if !hasMemory then OutOfMemory else Ok
      ensures status == Ok ==> IsMapped() && fresh(mapped)
    {
      if layout.sizeOfImage == 0 {
        return PeBadSections;
      }
      if !hasMemory {
        mapped := null;
        return OutOfMemory;
      }
      var m := MapHeaders();
      for i := 0 to |layout.sections|
        invariant m[..] == Placed(layout, raw, i)
      {
        CopySection(m, i);
      }
      mapped := m;
      return Ok;
    }

    // The zeroed image with the headers region.
    method MapHeaders() returns (m: array<byte>)
      requires CopiesInFile(layout, |raw|)
      ensures fresh(m) && m[..] == Placed(layout, raw, 0)
    {
      m := new byte[layout.sizeOfImage](_ => 0);
      var h := Min(Min(layout.sizeOfHeaders, layout.sizeOfImage), |raw|);
      Copy(m, 0, 0, h);
    }

    // The loop body of map_sections.
    method CopySection(m: array<byte>, i: nat)
      requires CopiesInFile(layout, |raw|) && i < |layout.sections|
      requires m[..] == Placed(layout, raw, i)
      modifies m
      ensures m[..] == Placed(layout, raw, i + 1)
    {
      var s := layout.sections[i];
      if s.rawSize == 0 || s.rawOffset >= |raw| || s.va + s.rawSize > layout.sizeOfImage {
        return;
      }
      assert s in layout.sections && Copied(layout, |raw|, s);
      ghost var was := m[..];
      Copy(m, s.va, s.rawOffset, s.rawSize);
      assert m[..] == was[..s.va] + raw[s.rawOffset..s.rawOffset + s.rawSize] + was[s.va + s.rawSize..];
    }

    // memcpy from the raw file.
    method Copy(m: array<byte>, to: nat, from: nat, n: nat)
      requires to + n <= m.Length && from + n <= |raw|
      modifies m
      ensures m[..] == old(m[..])[..to] + raw[from..from + n] + old(m[..])[to + n..]
    {
      ghost var was := m[..];
      var i := 0;
      while i < n
        invariant i <= n
        invariant forall k | to <= k < to + i :: m[k] == raw[k - to + from]
        invariant forall k | 0 <= k < m.Length && (k < to || to + i <= k) :: m[k] == was[k]
      {
        m[to + i] := raw[from + i];
        i := i + 1;
      }
      assert m[..] == was[..to] + raw[from..from + n] + was[to + n..];
    }

    method SectionForRva(rva: u32) returns (idx: int)
      ensures idx == match SectionFor(layout.sections, 0, rva) case Some(i) => i case None => -1
    {
      for i := 0 to |layout.sections|
        invariant SectionFor(layout.sections, 0, rva) == SectionFor(layout.sections, i, rva)
      {
        var s := layout.sections[i];
        var span := Max(s.virtualSize, s.rawSize);
        if rva >= s.va && rva < s.va + span {
          return i;
        }
      }
      return -1;
    }

    // cellar_image_rva, as an offset into mapped.
    method RvaToMapped(rva: u32) returns (p: Option<nat>)
      ensures p == if mapped == null then None else Rva(layout, rva)
    {
      if mapped == null {
        return None;
      }
      if rva < layout.sizeOfHeaders {
        return Some(rva);
      }
      var idx := SectionForRva(rva);
      return if idx < 0 then None else Some(rva);
    }

    // cellar_image_rva_raw, as an offset into raw.
    method RvaToRaw(rva: u32) returns (p: Option<nat>)
      ensures p == RvaRaw(layout, rva)
    {
      if rva < layout.sizeOfHeaders {
        return Some(rva);
      }
      var idx := SectionForRva(rva);
      if idx < 0 {
        return None;
      }
      var s := layout.sections[idx];
      var delta := (rva - s.va) % TWO32;
      return if delta < s.rawSize then Some(s.rawOffset + delta) else None;
    }

    // cellar_image_read copies exactly the slice, or leaves dst alone.
    method Read(rva: u32, dst: array?<byte>, len: nat) returns (ok: bool)
      requires dst != mapped || dst == null
      requires dst != null ==> len <= dst.Length
      modifies dst
      ensures ok <==> dst != null && len > 0 && mapped != null && Rva(layout, rva).Some?
                      && rva + len <= mapped.Length
      ensures ok ==> dst[..] == mapped[rva..rva + len] + old(dst[..])[len..]
      ensures !ok && dst != null ==> dst[..] == old(dst[..])
    {
      if dst == null || len == 0 {
        return false;
      }
      var p := RvaToMapped(rva);
      if p.None? || rva + len > mapped.Length {
        return false;
      }
      CopyMapped(p.value, dst, len);
      return true;
    }

    // memcpy out of the virtual image.
    method CopyMapped(from: nat, dst: array<byte>, n: nat)
      requires mapped != null && dst != mapped && n <= dst.Length && from + n <= mapped.Length
      modifies dst
      ensures dst[..] == mapped[from..from + n] + old(dst[..])[n..]
    {
      var i := 0;
      while i < n
        invariant i <= n
        invariant forall j | 0 <= j < i :: dst[j] == mapped[from + j]
        invariant forall j | i <= j < dst.Length :: dst[j] == old(dst[j])
      {
        dst[i] := mapped[from + i];
        i := i + 1;
      }
    }

    // read_thunk and the choice the inner loop makes on it.
    method NextThunk(ghost m: seq<byte>, nameRva: u32, iat: u32) returns (next: Thunk)
      requires mapped != null && mapped.Length < TWO32 && m == mapped[..]
      ensures next.Record? ==> iat + ThunkSize(layout) <= mapped.Length
      ensures next == ThunkStep(layout, m, nameRva, iat)
    {
      var p := RvaToMapped(iat);
      if p.None? {
        return Stop;
      }
      var w := ThunkSize(layout);
      if p.value + w > mapped.Length {
        return Outside;
      }
      ThunkFits(m, iat, w);
      next := Choose(nameRva, w, Word(mapped[..], p.value, w));
    }

    // What a thunk's value means.
    method Choose(nameRva: u32, w: nat, v: nat) returns (next: Thunk)
      requires mapped != null && w == ThunkSize(layout) && v < 2 * TopBit(w)
      ensures next == ThunkOf(layout, nameRva, v)
    {
      var ordinal, value := v >= TopBit(w), v % TopBit(w);
      LowBits(v, TopBit(w));
      if ordinal {
        return Record(Import(nameRva, None, value % 0x1_0000));
      }
      if value == 0 {
        return Stop;
      }
      var hint := RvaToMapped(value % TWO32);
      return if hint.None? then Bad else Record(Import(nameRva, Some(hint.value + 2), 0));
    }

    // The inner loop of parse_imports: appends one descriptor's thunks.
    method WalkThunks(ghost m: seq<byte>, nameRva: u32, iatRva: u32, records: Records)
      returns (walk: Walk)
      requires mapped != null && mapped.Length < TWO32 && m == mapped[..]
      requires records.Valid()
      modifies records, records.items
      ensures records.Valid() && records.Kept(old(records.items))
      ensures walk == WalkOf(ParseThunks(layout, m, nameRva, iatRva))
      ensures walk == WalkOk ==>
        Done(records.Items()) == Prepend(old(records.Items()), ParseThunks(layout, m, nameRva, iatRva))
    {
      ghost var left := ParseThunks(layout, m, nameRva, iatRva);
      ghost var whole := Prepend(records.Items(), left);
      ghost var at: u32 := iatRva;
      var index := 0;
      while true
        invariant records.Valid() && records.Kept(old(records.items)) && mapped[..] == m
        invariant at == iatRva + ThunkOffset(layout, index)
        invariant left == ParseThunks(layout, m, nameRva, at) && whole == Prepend(records.Items(), left)
        decreases |m| - at
      {
        var iat: u32 := (iatRva + ThunkOffset(layout, index)) % TWO32;
        assert iat == at;
        var more;
        walk, more, left := OneThunk(m, nameRva, iat, records, left);
        if !more {
          return;
        }
        at := at + ThunkSize(layout);
        index := index + 1;
      }
    }

    // One round of the inner loop; more says whether another thunk follows.
    method OneThunk(ghost m: seq<byte>, nameRva: u32, iat: u32, records: Records, ghost left: Outcome)
      returns (walk: Walk, more: bool, ghost rest: Outcome)
      requires mapped != null && mapped.Length < TWO32 && m == mapped[..]
      requires records.Valid() && left == ParseThunks(layout, m, nameRva, iat)
      modifies records, records.items
      ensures records.Valid() && records.Kept(old(records.items))
      ensures !more ==> walk == WalkOf(left)
      ensures more ==> iat + ThunkSize(layout) <= |m|
      ensures more ==> rest == ParseThunks(layout, m, nameRva, iat + ThunkSize(layout))
      ensures more || walk == WalkOk ==>
        Prepend(old(records.Items()), left) == if more then Prepend(records.Items(), rest) else Done(records.Items())
    {
      var next := NextThunk(m, nameRva, iat);
      ThunkAdds(layout, m, nameRva, iat, records.Items());
      if !next.Record? {
        return match next case Stop => WalkOk case Bad => WalkBad case _ => WalkFault, false, left;
      }
      records.Push(next.record);
      return WalkOk, true, ParseThunks(layout, m, nameRva, iat + ThunkSize(layout));
    }

    // The descriptor read and the choice the outer loop makes on it.
    method NextDescriptor(ghost m: seq<byte>, rva: u32, bytes: array<byte>) returns (next: Next)
      requires mapped != null && mapped.Length < TWO32 && m == mapped[..] && bytes != mapped
      requires bytes.Length == DESCRIPTOR_SIZE
      modifies bytes
      ensures next.NoThunks? || next.Table? ==> rva + DESCRIPTOR_SIZE <= mapped.Length
      ensures ParseTable(layout, m, rva) ==
        match next
        case EndOfTable => Done([])
        case BadName => BadImports
        case NoThunks => ParseTable(layout, m, rva + DESCRIPTOR_SIZE)
        case Table(d) =>
          match ParseThunks(layout, m, d.nameRva, d.ThunkRva())
          case Done(records) =>
            Prepend(records, ParseTable(layout, m, rva + DESCRIPTOR_SIZE))
          case bad => bad
    {
      var ok := Read(rva, bytes, DESCRIPTOR_SIZE);
      if !ok {
        return EndOfTable;
      }
      var d := DescriptorAt(bytes[..], 0);
      SameDescriptor(m, rva, bytes[..]);
      if d.IsEnd() {
        return EndOfTable;
      }
      if d.ThunkRva() == 0 {
        return NoThunks;
      }
      var p := RvaToMapped(d.nameRva);
      return if p.None? then BadName else Table(d);
    }

    // One round of the outer loop; more says whether another descriptor follows.
    method OneDescriptor(ghost m: seq<byte>, rva: u32, bytes: array<byte>, records: Records)
      returns (walk: Walk, more: bool)
      requires mapped != null && mapped.Length < TWO32 && m == mapped[..] && bytes != mapped
      requires bytes.Length == DESCRIPTOR_SIZE && records.Valid()
      modifies bytes, records, records.items
      ensures records.Valid() && records.Kept(old(records.items))
      ensures walk != WalkOk ==> walk == WalkOf(ParseTable(layout, m, rva))
      ensures walk == WalkOk && more ==> rva + DESCRIPTOR_SIZE <= |m|
      ensures walk == WalkOk ==>
        Prepend(old(records.Items()), ParseTable(layout, m, rva))
        == Prepend(records.Items(), if more then ParseTable(layout, m, rva + DESCRIPTOR_SIZE) else Done([]))
    {
      var next := NextDescriptor(m, rva, bytes);
      if next == EndOfTable {
        return WalkOk, false;
      }
      if next == BadName {
        return WalkBad, false;
      }
      if next == NoThunks {
        return WalkOk, true;
      }
      ghost var before := records.Items();
      ghost var thunks := ParseThunks(layout, m, next.desc.nameRva, next.desc.ThunkRva());
      walk := WalkThunks(m, next.desc.nameRva, next.desc.ThunkRva(), records);
      if walk == WalkOk {
        PrependTwice(before, thunks.imports, ParseTable(layout, m, rva + DESCRIPTOR_SIZE));
      }
      return walk, true;
    }

    // parse_imports: appends every descriptor's records in table order.
    method ParseImports() returns (walk: Walk)
      requires mapped != null && mapped.Length < TWO32 && imports == null
      modifies this`imports
      ensures walk == match ParseDirectory(layout, mapped[..])
        case Done(_) => WalkOk
        case BadImports => WalkBad
        case Fault => WalkFault
      ensures walk == WalkOk ==>
        && (imports != null ==> imports.Valid())
        && Done(if imports == null then [] else imports.Items()) == ParseDirectory(layout, mapped[..])
    {
      if layout.importRva == 0 || layout.importSize == 0 {
        return WalkOk;
      }
      ghost var m := mapped[..];
      ghost var whole := ParseTable(layout, m, layout.importRva);
      var rva: u32 := layout.importRva;
      var records := new Records();
      var bytes := new byte[DESCRIPTOR_SIZE];
      var more := true;
      while more
        invariant fresh(records) && fresh(records.items) && records.Valid() && fresh(bytes)
        invariant mapped[..] == m
        invariant whole == Prepend(records.Items(), if more then ParseTable(layout, m, rva) else Done([]))
        decreases more, |m| - rva
      {
        walk, more := OneDescriptor(m, rva, bytes, records);
        if walk != WalkOk {
          return walk;
        }
        if more {
          rva := rva + DESCRIPTOR_SIZE;
        }
      }
      assert records.Items() + [] == records.Items();
      imports := records;
      return WalkOk;
    }
  }

  // The growing record array: its capacity doubles from 16, and nothing recorded is lost.
  class Records {
    var items: array<Import>
    var count: nat

    ghost predicate Valid()
      reads this
    {
      count <= items.Length
    }

    ghost function Items(): seq<Import>
      requires Valid()
      reads this, items
    {
      items[..count]
    }

    twostate predicate Kept(before: array<Import>)
      reads this
    {
      items == before || fresh(items)
    }

    constructor ()
      ensures Valid() && Items() == [] && fresh(items)
    {
      items := new Import[0];
      count := 0;
    }

    method Push(record: Import)
      requires Valid()
      modifies this, items
      ensures Valid() && Kept(old(items))
      ensures Items() == old(Items()) + [record]
    {
      if count == items.Length {
        var grown := new Import[if items.Length == 0 then 16 else items.Length * 2];
        for i := 0 to count
          invariant items == old(items) && count == old(count) && items[..] == old(items[..])
          invariant forall j | 0 <= j < i :: grown[j] == items[j]
        {
          grown[i] := items[i];
        }
        items := grown;
      }
      items[count] := record;
      count := count + 1;
    }
  }

  // thunk_idx * thunk
  function ThunkOffset(l: Layout, index: nat): nat { if l.pe32 then index * 4 else index * 8 }

  // How a walk of the import table ends, without its records.
  datatype Walk = WalkOk | WalkBad | WalkFault

  function WalkOf(r: Outcome): Walk {
    match r
    case Done(_) => WalkOk
    case BadImports => WalkBad
    case Fault => WalkFault
  }

  datatype Next = EndOfTable | BadName | NoThunks | Table(desc: Descriptor)

  datatype Thunk = Stop | Bad | Outside | Record(record: Import)

  // The inner loop's choice at one thunk.
  function ThunkStep(l: Layout, m: seq<byte>, nameRva: u32, iat: u32): Thunk {
    var w := ThunkSize(l);
    if Rva(l, iat).None? then Stop
    else if iat + w > |m| then Outside
    else ThunkOf(l, nameRva, Word(m, iat, w))
  }

  function ThunkOf(l: Layout, nameRva: u32, v: nat): Thunk {
    if v == 0 then Stop
    else if v < TopBit(ThunkSize(l)) && Rva(l, v % TWO32).None? then Bad
    else Record(RecordOf(ThunkSize(l), nameRva, v))
  }

  lemma LowBits(v: nat, top: nat)
    requires top > 0
    ensures v < top ==> v % top == v
  {
    if v < top {
      DivModUnique(v, top, 0, v);
    }
  }

  lemma ThunkStepIs(l: Layout, m: seq<byte>, nameRva: u32, iat: u32)
    requires |m| < TWO32
    ensures ThunkStep(l, m, nameRva, iat).Record? ==> iat + ThunkSize(l) <= |m|
    ensures ParseThunks(l, m, nameRva, iat) ==
      match ThunkStep(l, m, nameRva, iat)
      case Stop => Done([])
      case Bad => BadImports
      case Outside => Fault
      case Record(record) => Prepend([record], ParseThunks(l, m, nameRva, iat + ThunkSize(l)))
  {
  }

  // What one thunk adds to the records so far.
  lemma ThunkAdds(l: Layout, m: seq<byte>, nameRva: u32, iat: u32, items: seq<Import>)
    requires |m| < TWO32
    ensures ThunkStep(l, m, nameRva, iat).Record? ==> iat + ThunkSize(l) <= |m|
    ensures var rest := ParseThunks(l, m, nameRva, iat);
      match ThunkStep(l, m, nameRva, iat)
      case Stop => rest.Done? && Prepend(items, rest) == Done(items)
      case Bad => rest == BadImports
      case Outside => rest == Fault
      case Record(record) =>
        Prepend(items, rest) == Prepend(items + [record], ParseThunks(l, m, nameRva, iat + ThunkSize(l)))
  {
    ThunkStepIs(l, m, nameRva, iat);
    assert items + [] == items;
    var step := ThunkStep(l, m, nameRva, iat);
    if step.Record? {
      PrependTwice(items, [step.record], ParseThunks(l, m, nameRva, iat + ThunkSize(l)));
    }
  }

  lemma ThunkFits(m: seq<byte>, at: nat, w: nat)
    requires (w == 4 || w == 8) && at + w <= |m|
    ensures Word(m, at, w) < 2 * TopBit(w)
  {
    WordIs(m, at, w);
    Pow256Constants();
  }

  lemma SameDescriptor(m: seq<byte>, rva: nat, bytes: seq<byte>)
    requires rva + DESCRIPTOR_SIZE <= |m| && |bytes| == DESCRIPTOR_SIZE
    requires bytes == m[rva..rva + DESCRIPTOR_SIZE]
    ensures DescriptorAt(bytes, 0) == DescriptorAt(m, rva)
  {
    WordInside(m, rva, bytes, 0, 4);
    WordInside(m, rva, bytes, 4, 4);
    WordInside(m, rva, bytes, 8, 4);
    WordInside(m, rva, bytes, 12, 4);
    WordInside(m, rva, bytes, 16, 4);
  }
}
