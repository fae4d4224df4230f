// Code page conversion: Windows-1252 (and the byte-for-byte code pages) to UTF-8 and back.
module Locale {
  import opened Words

  const CP_ACP: nat := 0
  const CP_OEMCP: nat := 1
  const CP_UTF8: nat := 65001
  const CP_1252: nat := 1252

  // The two code pages of the current locale.
  datatype Pages = Pages(acp: nat, oemcp: nat)

  // Windows-1252 0x80..0x9F.
  function Table(): (t: seq<u16>)
    ensures |t| == 32
  {
    [0x20AC, 0x0081, 0x201A, 0x0192, 0x201E, 0x2026, 0x2020, 0x2021,
     0x02C6, 0x2030, 0x0160, 0x2039, 0x0152, 0x008D, 0x017D, 0x008F,
     0x0090, 0x2018, 0x2019, 0x201C, 0x201D, 0x2022, 0x2013, 0x2014,
     0x02DC, 0x2122, 0x0161, 0x203A, 0x0153, 0x009D, 0x017E, 0x0178]
  }

  // ---- to UTF-8 ----

  // The code page map_cp works with.
  function Resolved(cp: nat, pages: Pages): nat {
    var c := if cp == CP_ACP then pages.acp else cp;
    if c == CP_OEMCP then pages.oemcp else c
  }

  function MapByte(cp: nat, pages: Pages, b: byte): (u: nat)
    ensures u < 0x2123
  {
    if Resolved(cp, pages) == CP_1252 && 0x80 <= b <= 0x9F then TableBound(b - 0x80); Table()[b - 0x80]
    else b
  }

  lemma TableBound(k: nat)
    requires k < 32
    ensures 0x81 <= Table()[k] < 0x2123
  {
  }

  // The bytes utf8_put writes for a code point of the basic plane.
  function Utf8(c: nat): (s: Bytes)
    requires c < 0x1_0000
    ensures 1 <= |s| <= 3
  {
    if c < 0x80 then [c]
    else if c < 0x800 then [0xC0 + c / 0x40, 0x80 + c % 0x40]
    else [0xE0 + c / 0x1000, 0x80 + c / 0x40 % 0x40, 0x80 + c % 0x40]
  }

  function Encoded(cp: nat, pages: Pages, s: Bytes): Bytes {
    if s == [] then [] else Utf8(MapByte(cp, pages, s[0])) + Encoded(cp, pages, s[1..])
  }

  // Section 4 of RFC 3629: the length of the well-formed sequence at the front, or 0.
  function Front(s: Bytes): (n: nat)
    ensures n <= |s|
  {
    if s == [] then 0
    else if s[0] <= 0x7F then 1
    else if 0xC2 <= s[0] <= 0xDF && |s| >= 2 && Tail(s[1]) then 2
    else if |s| >= 3 && Tail(s[2]) &&
      ((s[0] == 0xE0 && 0xA0 <= s[1] <= 0xBF) || (0xE1 <= s[0] <= 0xEC && Tail(s[1]))
       || (s[0] == 0xED && 0x80 <= s[1] <= 0x9F) || (0xEE <= s[0] <= 0xEF && Tail(s[1]))) then 3
    else if |s| >= 4 && Tail(s[2]) && Tail(s[3]) &&
      ((s[0] == 0xF0 && 0x90 <= s[1] <= 0xBF) || (0xF1 <= s[0] <= 0xF3 && Tail(s[1]))
       || (s[0] == 0xF4 && 0x80 <= s[1] <= 0x8F)) then 4
    else 0
  }

  predicate Tail(b: byte) { 0x80 <= b <= 0xBF }

  predicate WellFormed(s: Bytes)
    decreases |s|
  {
    s == [] || (Front(s) > 0 && WellFormed(s[Front(s)..]))
  }

  // Whatever the bytes, the encoder's output is well-formed UTF-8.
  lemma {:induction false} EncodedIsWellFormed(cp: nat, pages: Pages, s: Bytes)
    ensures WellFormed(Encoded(cp, pages, s))
  {
    if s != [] {
      EncodedIsWellFormed(cp, pages, s[1..]);
      OneMoreIsWellFormed(MapByte(cp, pages, s[0]), Encoded(cp, pages, s[1..]));
    }
  }

  lemma OneMoreIsWellFormed(c: nat, rest: Bytes)
    requires c < 0x2123 && WellFormed(rest)
    ensures WellFormed(Utf8(c) + rest)
  {
    var s := Utf8(c) + rest;
    assert s[|Utf8(c)|..] == rest;
  }

  // ---- and back ----

  // The code point and the advance at the front of NUL-terminated text, or None for '?'.
  datatype Lead = Lead(u: nat, advance: nat) | Unknown

  function TwoBytes(c: nat, d: nat): nat { c % 0x20 * 0x40 + d % 0x40 }

  function ThreeBytes(c: nat, d: nat, e: nat): nat {
    c % 0x10 * 0x1000 + d % 0x40 * 0x40 + e % 0x40
  }

  function ReadLead(s: Bytes): (l: Lead)
    requires s != []
    ensures l.Lead? ==> 0 < l.advance <= |s|
  {
    var c := s[0];
    if c < 0x80 then Lead(c, 1)
    else if c / 0x20 == 6 && |s| >= 2 then Lead(TwoBytes(c, s[1]), 2)
    else if c / 0x10 == 14 && |s| >= 3
    then Lead(ThreeBytes(c, s[1], s[2]), 3)
    else Unknown
  }

  // The first index from k on at which the table holds u.
  function TableIndex(u: nat, k: nat): (r: nat)
    requires k <= 32
    ensures k <= r <= 32 && (r < 32 ==> Table()[r] == u)
    decreases 32 - k
  {
    if k == 32 || Table()[k] == u then k else TableIndex(u, k + 1)
  }

  const QUESTION: byte := 0x3F

  // A multi-byte code point in the target code page.
  function ToPage(cp: nat, u: nat): byte {
    if cp == CP_1252 && 0x80 <= u <= 0xFF then u
    else if cp == CP_1252 then
      var k := TableIndex(u % 0x1_0000, 0);
      if k < 32 then 0x80 + k else QUESTION
    else if u < 0x100 then u else QUESTION
  }

  function DecodedByte(cp: nat, l: Lead): byte {
    match l
    case Unknown => QUESTION
    case Lead(u, advance) => if advance == 1 && u < 0x80 then u else ToPage(cp, u)
  }

  function Advance(l: Lead): nat {
    if l.Lead? then l.advance else 1
  }

  function Decoded(cp: nat, s: Bytes): Bytes
    decreases |s|
  {
    if s == [] then []
    else [DecodedByte(cp, ReadLead(s))] + Decoded(cp, s[Advance(ReadLead(s))..])
  }

  // ---- the round trip ----

  // Where the table holds a value, as a search tree of its own.
  function Inverse(u: nat): nat {
    if u == 0x20AC then 0 else if u == 0x0081 then 1 else if u == 0x201A then 2
    else if u == 0x0192 then 3 else if u == 0x201E then 4 else if u == 0x2026 then 5
    else if u == 0x2020 then 6 else if u == 0x2021 then 7 else if u == 0x02C6 then 8
    else if u == 0x2030 then 9 else if u == 0x0160 then 10 else if u == 0x2039 then 11
    else if u == 0x0152 then 12 else if u == 0x008D then 13 else if u == 0x017D then 14
    else if u == 0x008F then 15 else if u == 0x0090 then 16 else if u == 0x2018 then 17
    else if u == 0x2019 then 18 else if u == 0x201C then 19 else if u == 0x201D then 20
    else if u == 0x2022 then 21 else if u == 0x2013 then 22 else if u == 0x2014 then 23
    else if u == 0x02DC then 24 else if u == 0x2122 then 25 else if u == 0x0161 then 26
    else if u == 0x203A then 27 else if u == 0x0153 then 28 else if u == 0x009D then 29
    else if u == 0x017E then 30 else 31
  }

  lemma InverseOfTable(k: nat)
    requires k < 32
    ensures Inverse(Table()[k]) == k
    ensures Table()[k] <= 0xFF ==> Table()[k] == 0x80 + k
    ensures Table()[k] < 0x800 || Table()[k] >= 0x1000
  {
  }

  lemma {:induction false} TableIndexOf(j: nat, k: nat)
    requires k <= j < 32
    ensures TableIndex(Table()[j], k) == j
    decreases j - k
  {
    InverseOfTable(j);
    InverseOfTable(k);
    if k < j {
      TableIndexOf(j, k + 1);
    }
  }

  lemma TwoByteLead(c: nat)
    requires 0x80 <= c < 0x800
    ensures (0xC0 + c / 0x40) / 0x20 == 6 && TwoBytes(0xC0 + c / 0x40, 0x80 + c % 0x40) == c
  {
  }

  lemma ThreeByteLead(c: nat)
    requires 0x800 <= c < 0x1_0000
    ensures var lead := 0xE0 + c / 0x1000;
      lead >= 0x80 && lead / 0x20 != 6 && lead / 0x10 == 14
      && ThreeBytes(lead, 0x80 + c / 0x40 % 0x40, 0x80 + c % 0x40) == c
  {
    assert c == c / 0x1000 * 0x1000 + c / 0x40 % 0x40 * 0x40 + c % 0x40;
  }

  lemma ReadLeadOfUtf8(c: nat, rest: Bytes)
    requires c < 0x1_0000
    ensures ReadLead(Utf8(c) + rest) == Lead(c, |Utf8(c)|)
  {
    var s := Utf8(c) + rest;
    if c >= 0x800 {
      ThreeByteLead(c);
      assert s[0] == 0xE0 + c / 0x1000 && s[1] == 0x80 + c / 0x40 % 0x40 && s[2] == 0x80 + c % 0x40;
    } else if c >= 0x80 {
      TwoByteLead(c);
      assert s[0] == 0xC0 + c / 0x40 && s[1] == 0x80 + c % 0x40;
    }
  }

  lemma TableBack(k: nat)
    requires k < 32
    ensures Table()[k] >= 0x80 && ToPage(CP_1252, Table()[k]) == 0x80 + k
  {
    var u := Table()[k];
    TableBound(k);
    if u <= 0xFF {
      InverseOfTable(k);
    } else {
      assert u % 0x1_0000 == u;
      TableIndexOf(k, 0);
    }
  }

  // The code page the decoder works with; it resolves the active page only.
  function DecodePage(cp: nat, pages: Pages): nat {
    if cp == CP_ACP then pages.acp else cp
  }

  // Both directions copy, or both convert and Windows-1252 is decoded as such.
  predicate Consistent(cp: nat, pages: Pages) {
    cp == CP_UTF8
    || (DecodePage(cp, pages) != CP_UTF8
        && (Resolved(cp, pages) == CP_1252 ==> DecodePage(cp, pages) == CP_1252))
  }

  lemma MappedBack(cp: nat, pages: Pages, b: byte)
    requires Consistent(cp, pages) && cp != CP_UTF8
    ensures var u := MapByte(cp, pages, b);
      if u < 0x80 then u == b else ToPage(DecodePage(cp, pages), u) == b
  {
    if 0x80 <= b <= 0x9F {
      TableBack(b - 0x80);
    }
  }

  lemma {:induction false} DecodeOfEncoded(cp: nat, pages: Pages, s: Bytes)
    requires Consistent(cp, pages) && cp != CP_UTF8
    ensures Decoded(DecodePage(cp, pages), Encoded(cp, pages, s)) == s
  {
    if s != [] {
      var u := MapByte(cp, pages, s[0]);
      var rest := Encoded(cp, pages, s[1..]);
      ReadLeadOfUtf8(u, rest);
      MappedBack(cp, pages, s[0]);
      assert (Utf8(u) + rest)[|Utf8(u)|..] == rest;
      DecodeOfEncoded(cp, pages, s[1..]);
    }
  }

  lemma {:induction false} NulOfAppend(a: Bytes, b: Bytes)
    ensures 0 !in a ==> UpToNul(a + b) == a + UpToNul(b)
  {
    if a == [] {
      assert a + b == b;
    } else {
      NulOfAppend(a[1..], b);
      assert (a + b)[1..] == a[1..] + b;
    }
  }

  lemma {:induction false} EncodedUpToNul(cp: nat, pages: Pages, s: Bytes)
    ensures UpToNul(Encoded(cp, pages, s)) == Encoded(cp, pages, UpToNul(s))
  {
    if s != [] {
      var u := MapByte(cp, pages, s[0]);
      if 0x80 <= s[0] <= 0x9F {
        TableBound(s[0] - 0x80);
      }
      EncodedUpToNul(cp, pages, s[1..]);
      if s[0] != 0 {
        assert u != 0 && 0 !in Utf8(u);
        NulOfAppend(Utf8(u), Encoded(cp, pages, s[1..]));
        assert UpToNul(s)[1..] == UpToNul(s[1..]);
      } else {
        assert (Utf8(u) + Encoded(cp, pages, s[1..]))[0] == 0;
      }
    }
  }

  // The NUL-terminated text made of the bytes, buffers being large enough, and the bytes
  // made of a text.
  function ToText(cp: nat, pages: Pages, s: Bytes): Bytes {
    UpToNul(if cp == CP_UTF8 then s else Encoded(cp, pages, s))
  }

  function FromText(cp: nat, pages: Pages, text: Bytes): Bytes {
    if DecodePage(cp, pages) == CP_UTF8 then text else Decoded(DecodePage(cp, pages), text)
  }

  // There and back through one code page gives the bytes back if and only if there is no
  // zero byte among them, whenever the two directions agree on the page.
  lemma RoundTripIff(cp: nat, pages: Pages, s: Bytes)
    requires Consistent(cp, pages)
    ensures FromText(cp, pages, ToText(cp, pages, s)) == s <==> 0 !in s
  {
    WholeIffNoNul(s);
    if cp != CP_UTF8 {
      EncodedUpToNul(cp, pages, s);
      DecodeOfEncoded(cp, pages, UpToNul(s));
    }
  }

  ghost predicate RoundTrips(cp: nat, pages: Pages, s: Bytes) {
    0 !in s ==> FromText(cp, pages, ToText(cp, pages, s)) == s
  }

  // Where the two directions agree, in terms of the argument and the locale.
  lemma ConsistentIff(cp: nat, pages: Pages)
    ensures Consistent(cp, pages) <==>
      && (cp == 0 ==> pages.acp != 65001 && !(pages.acp == 1 && pages.oemcp == 1252))
      && (cp == 1 ==> pages.oemcp != 1252)
  {
  }

  // They agree exactly then: the active page must not be UTF-8, and Windows-1252 must not
  // be reached as the OEM page, which only the encoder resolves.
  lemma AlwaysRoundTripsIff(cp: nat, pages: Pages)
    ensures (forall s: Bytes :: RoundTrips(cp, pages, s)) <==>
      && (cp == 0 ==> pages.acp != 65001 && !(pages.acp == 1 && pages.oemcp == 1252))
      && (cp == 1 ==> pages.oemcp != 1252)
  {
    ConsistentIff(cp, pages);
    if Consistent(cp, pages) {
      forall s: Bytes
        ensures RoundTrips(cp, pages, s)
      {
        RoundTripIff(cp, pages, s);
      }
    } else {
      EuroIsLost(cp, pages);
    }
  }

  lemma EuroIsLost(cp: nat, pages: Pages)
    requires !Consistent(cp, pages)
    ensures !RoundTrips(cp, pages, [0x80])
  {
    var u := MapByte(cp, pages, 0x80);
    EncodedUpToNul(cp, pages, [0x80]);
    assert [0x80][1..] == [] && UpToNul([0x80]) == [0x80];
    assert Encoded(cp, pages, [0x80]) == Utf8(u) + [];
    AppendNothing(Utf8(u));
    if DecodePage(cp, pages) != CP_UTF8 {
      ReadLeadOfUtf8(u, []);
      assert Utf8(u)[|Utf8(u)|..] == [];
      assert Decoded(DecodePage(cp, pages), Utf8(u)) == [QUESTION] + [];
    }
  }

  // ---- the code points ----

  // Section 3 of RFC 3629: these bytes spell the code point.
  predicate Spells(s: Bytes, c: nat) {
    if |s| == 1 then s[0] == c < 0x80
    else if |s| == 2 then
      var a: int, b: int := (s[0] as int) - 0xC0, (s[1] as int) - 0x80;
      2 <= a < 0x20 && 0 <= b < 0x40 && c == 0x40 * a + b
    else
      |s| == 3 &&
      var a: int, b: int, d: int := (s[0] as int) - 0xE0, (s[1] as int) - 0x80, (s[2] as int) - 0x80;
      0 <= a < 0x10 && 0 <= b < 0x40 && 0 <= d < 0x40 && c == 0x1000 * a + 0x40 * b + d && c >= 0x800
  }

  lemma Utf8Spells(c: nat)
    requires c < 0x1_0000
    ensures Spells(Utf8(c), c)
  {
    if 0x80 <= c < 0x800 {
      TwoSpell(c);
    } else if c >= 0x800 {
      ThreeSpell(c);
    }
  }

  lemma TwoSpell(c: nat)
    requires 0x80 <= c < 0x800
    ensures Spells([0xC0 + c / 0x40, 0x80 + c % 0x40], c)
  {
  }

  lemma ThreeSpell(c: nat)
    requires 0x800 <= c < 0x1_0000
    ensures Spells([0xE0 + c / 0x1000, 0x80 + c / 0x40 % 0x40, 0x80 + c % 0x40], c)
  {
    var a, b, d := c / 0x1000, c / 0x40 % 0x40, c % 0x40;
    assert c == 0x1000 * a + 0x40 * b + d;
  }

  // Windows-1252 has the Latin-1 code points but for 27 bytes, whose characters lie outside
  // Latin-1; every other code page is converted like Latin-1.
  lemma CodePoints(cp: nat, pages: Pages, b: byte)
    ensures var page := if cp == 0 then pages.acp else cp;
      var special := (page == 1252 || (page == 1 && pages.oemcp == 1252))
        && 0x80 <= b <= 0x9F && b !in {0x81, 0x8D, 0x8F, 0x90, 0x9D};
      if special then MapByte(cp, pages, b) >= 0x152 else MapByte(cp, pages, b) == b
  {
  }

  // A character outside Latin-1 becomes the Windows-1252 byte that has it, and '?' when there is
  // none or the page is another.
  lemma OutsideLatin1(u: nat, k: nat)
    requires 0x100 <= u < 0x1_0000 && k < 32 && Table()[k] == u
    ensures ToPage(1252, u) == 0x80 + k
  {
    TableBack(k);
  }

  lemma NotOnPage(cp: nat, u: nat)
    requires 0x100 <= u < 0x1_0000
    requires cp != 1252 || TableIndex(u, 0) == 32
    ensures ToPage(cp, u) == '?' as int
  {
    assert u % 0x1_0000 == u;
  }

  lemma {:induction false} InTableIff(u: nat, k: nat)
    requires k <= 32
    ensures TableIndex(u, k) == 32 <==> forall j | k <= j < 32 :: Table()[j] != u
    decreases 32 - k
  {
    if k < 32 && Table()[k] != u {
      InTableIff(u, k + 1);
    }
  }

  // The two halves of Latin-1 are their own bytes on every page, as far as a page has them.
  lemma Latin1OnPage(cp: nat, u: nat)
    requires 0x80 <= u < 0x100
    ensures ToPage(cp, u) == u
  {
  }

  // What the decoder makes of any text: bytes below 0x80 stand for themselves, a lead byte takes
  // the low six bits of the one or two bytes behind it, whatever these are, and any other byte,
  // or a lead byte too near the end, becomes '?'.
  lemma LeadIs(cp: nat, s: Bytes)
    requires s != []
    ensures var c: int := s[0];
      if c < 0x80 then ReadLead(s) == Lead(c, 1) && DecodedByte(cp, ReadLead(s)) == c
      else if 0xC0 <= c < 0xE0 && |s| >= 2 then ReadLead(s) == Lead(0x40 * (c - 0xC0) + s[1] % 0x40, 2)
      else if 0xE0 <= c < 0xF0 && |s| >= 3
      then ReadLead(s) == Lead(0x1000 * (c - 0xE0) + 0x40 * ((s[1] as int) % 0x40) + s[2] % 0x40, 3)
      else Advance(ReadLead(s)) == 1 && DecodedByte(cp, ReadLead(s)) == '?' as int
  {
  }

  // ---- the converters ----

  // utf8_put: the new length, or cap when the bytes and a terminator do not fit.
  method Utf8Put(out: array<byte>, cap: nat, o: nat, c: nat) returns (n: nat)
    requires o < cap <= out.Length && c < 0x1_0000
    modifies out
    ensures n == if o + |Utf8(c)| < cap then o + |Utf8(c)| else cap
    ensures out[..o] == old(out[..o]) && out[cap..] == old(out[cap..])
    ensures n < cap ==> out[..n] == old(out[..o]) + Utf8(c)
  {
    if c < 0x80 {
      if o + 1 >= cap {
        return cap;
      }
      out[o] := c;
      return o + 1;
    }
    if c < 0x800 {
      if o + 2 >= cap {
        return cap;
      }
      out[o], out[o + 1] := 0xC0 + c / 0x40, 0x80 + c % 0x40;
      return o + 2;
    }
    if o + 3 >= cap {
      return cap;
    }
    out[o], out[o + 1], out[o + 2] := 0xE0 + c / 0x1000, 0x80 + c / 0x40 % 0x40, 0x80 + c % 0x40;
    return o + 3;
  }

  lemma AppendNothing(a: Bytes)
    ensures a + [] == a
  {
  }

  lemma AppendTwice(a: Bytes, b: Bytes, c: Bytes)
    ensures a + (b + c) == (a + b) + c
  {
  }

  lemma {:induction false} EncodedAppend(cp: nat, pages: Pages, s: Bytes, b: byte)
    ensures Encoded(cp, pages, s + [b]) == Encoded(cp, pages, s) + Utf8(MapByte(cp, pages, b))
  {
    if s == [] {
      assert (s + [b])[1..] == [];
      AppendNothing(Utf8(MapByte(cp, pages, b)));
    } else {
      EncodedAppend(cp, pages, s[1..], b);
      assert (s + [b])[1..] == s[1..] + [b];
      AppendTwice(Utf8(MapByte(cp, pages, s[0])), Encoded(cp, pages, s[1..]), Utf8(MapByte(cp, pages, b)));
    }
  }

  lemma {:induction false} EncodedGrows(cp: nat, pages: Pages, s: Bytes, n: nat)
    requires n <= |s|
    ensures |Encoded(cp, pages, s[..n])| <= |Encoded(cp, pages, s)|
    decreases |s|
  {
    if n < |s| {
      var front := s[..|s| - 1];
      assert s == front + [s[|s| - 1]] && front[..n] == s[..n];
      EncodedAppend(cp, pages, front, s[|s| - 1]);
      EncodedGrows(cp, pages, front, n);
    } else {
      assert s[..n] == s;
    }
  }

  // cellar_cp_to_utf8: -1 exactly when the encoding and its terminator do not fit; nothing
  // beyond cap is written. UTF-8 input is copied, cut to the buffer.
  method CpToUtf8(cp: nat, pages: Pages, input: Bytes, out: array?<byte>, cap: nat) returns (r: int)
    requires out != null ==> cap <= out.Length
    modifies out
    ensures out == null || cap == 0 ==> r == -1
    ensures out != null ==> out[cap..] == old(out[cap..])
    ensures out != null && cap > 0 && cp == CP_UTF8 ==>
      r == Min(|input|, cap - 1) && out[..r] == input[..r] && out[r] == 0
    ensures out != null && cap > 0 && cp != CP_UTF8 ==>
      var e := Encoded(cp, pages, input);
      && (r == -1 <==> |e| + 1 > cap)
      && (r != -1 ==> r == |e| && out[..r] == e && out[r] == 0)
  {
    if out == null || cap == 0 {
      return -1;
    }
    if cp == CP_UTF8 {
      r := CopyText(input, |input|, out, cap);
    } else {
      r := EncodeTo(cp, pages, input, out, cap);
    }
  }

  // memcpy of up to cap - 1 of the first n bytes, and a terminator.
  method CopyText(input: Bytes, n: nat, out: array<byte>, cap: nat) returns (len: nat)
    requires n <= |input| && 0 < cap <= out.Length
    modifies out
    ensures out[cap..] == old(out[cap..])
    ensures len == Min(n, cap - 1) && out[..len] == input[..len] && out[len] == 0
  {
    len := Min(n, cap - 1);
    for i := 0 to len
      invariant out[..i] == input[..i] && out[cap..] == old(out[cap..])
    {
      out[i] := input[i];
    }
    out[len] := 0;
  }

  // The encoding loop.
  method EncodeTo(cp: nat, pages: Pages, input: Bytes, out: array<byte>, cap: nat) returns (r: int)
    requires 0 < cap <= out.Length
    modifies out
    ensures out[cap..] == old(out[cap..])
    ensures var e := Encoded(cp, pages, input);
      && (r == -1 <==> |e| + 1 > cap)
      && (r != -1 ==> r == |e| && out[..r] == e && out[r] == 0)
  {
    var o: nat := 0;
    for i := 0 to |input|
      invariant o < cap && out[cap..] == old(out[cap..])
      invariant out[..o] == Encoded(cp, pages, input[..i])
    {
      EncodedStep(cp, pages, input, i);
      var n := Utf8Put(out, cap, o, MapByte(cp, pages, input[i]));
      if n >= cap {
        return -1;
      }
      o := n;
    }
    assert input[..|input|] == input;
    out[o] := 0;
    return o;
  }

  lemma EncodedStep(cp: nat, pages: Pages, input: Bytes, i: nat)
    requires i < |input|
    ensures Encoded(cp, pages, input[..i + 1])
         == Encoded(cp, pages, input[..i]) + Utf8(MapByte(cp, pages, input[i]))
    ensures |Encoded(cp, pages, input[..i + 1])| <= |Encoded(cp, pages, input)|
  {
    EncodedNext(cp, pages, input, i);
    EncodedGrows(cp, pages, input, i + 1);
  }

  lemma EncodedNext(cp: nat, pages: Pages, input: Bytes, i: nat)
    requires i < |input|
    ensures Encoded(cp, pages, input[..i + 1])
         == Encoded(cp, pages, input[..i]) + Utf8(MapByte(cp, pages, input[i]))
  {
    var front, longer := input[..i], input[..i + 1];
    assert longer == front + [input[i]];
    EncodedAppend(cp, pages, front, input[i]);
  }

  // cellar_utf8_to_cp on text with its terminator: the result is cut to the buffer, nothing
  // after the terminator is read and nothing beyond cap is written.
  method Utf8ToCp(cp: nat, pages: Pages, text: Bytes, out: array?<byte>, cap: nat) returns (r: int)
    requires text != [] && text[|text| - 1] == 0 && 0 !in text[..|text| - 1]
    requires out != null ==> cap <= out.Length
    modifies out
    ensures out == null || cap == 0 ==> r == -1
    ensures out != null ==> out[cap..] == old(out[cap..])
    ensures out != null && cap > 0 ==>
      var body := text[..|text| - 1];
      var d := if DecodePage(cp, pages) == CP_UTF8 then body else Decoded(DecodePage(cp, pages), body);
      r == Min(|d|, cap - 1) && out[..r] == d[..r] && out[r] == 0
  {
    if out == null || cap == 0 {
      return -1;
    }
    var page := DecodePage(cp, pages);
    if page == CP_UTF8 {
      r := CopyText(text, |text| - 1, out, cap);
      assert text[..|text| - 1][..r] == text[..r];
      return;
    }
    r := DecodeTo(page, text, out, cap);
  }

  // The decoding loop.
  method DecodeTo(page: nat, text: Bytes, out: array<byte>, cap: nat) returns (o: nat)
    requires text != [] && text[|text| - 1] == 0 && 0 !in text[..|text| - 1]
    requires 0 < cap <= out.Length
    modifies out
    ensures out[cap..] == old(out[cap..])
    ensures var d := Decoded(page, text[..|text| - 1]);
      o == Min(|d|, cap - 1) && out[..o] == d[..o] && out[o] == 0
  {
    ghost var body := text[..|text| - 1];
    ghost var d := Decoded(page, body);
    var i: nat := 0;
    o := 0;
    while text[i] != 0 && o + 1 < cap
      invariant i <= |body| && o < cap && o <= |d| && out[cap..] == old(out[cap..])
      invariant out[..o] == d[..o] && Decoded(page, body[i..]) == d[o..]
      decreases |body| - i
    {
      assert text[i] == body[i];
      var lead := ReadLeadAt(text, i);
      assert body[i..][Advance(lead)..] == body[i + Advance(lead)..];
      assert d[o..][1..] == d[o + 1..] && d[o] == d[o..][0];
      out[o] := DecodedByte(page, lead);
      o := o + 1;
      i := i + Advance(lead);
    }
    assert text[i] == 0 ==> i == |body|;
    out[o] := 0;
  }

  // The lead at index i, reading on only while no terminator was met.
  method ReadLeadAt(text: Bytes, i: nat) returns (l: Lead)
    requires text != [] && text[|text| - 1] == 0 && 0 !in text[..|text| - 1]
    requires i < |text| - 1
    ensures l == ReadLead(text[i..|text| - 1])
  {
    assert forall j | 0 <= j < |text| - 1 :: text[..|text| - 1][j] == text[j] != 0;
    var c := text[i];
    if c < 0x80 {
      return Lead(c, 1);
    }
    if c / 0x20 == 6 && text[i + 1] != 0 {
      return Lead(TwoBytes(c, text[i + 1]), 2);
    }
    if c / 0x10 == 14 && text[i + 1] != 0 && text[i + 2] != 0 {
      return Lead(ThreeBytes(c, text[i + 1], text[i + 2]), 3);
    }
    return Unknown;
  }
}
