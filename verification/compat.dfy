// The compatibility score: classifying imports by DLL and function name, counting them per
// category, and the percentages derived in 32-bit arithmetic.
module Compat {
  import opened Status
  import opened Text
  import opened Words

  datatype Category =
    | Graphics | Audio | Input | Networking | Filesystem | Threading | System

  const CATEGORIES: nat := 7
  const MAX_MISSING: nat := 64

  // fn is None for an import by ordinal.
  datatype Import = Import(dll: string, fn: Option<string>)

  // ---- classification ----

  function GfxDlls(): seq<string> {
    ["d3d12", "d3d11", "d3d10", "d3d9", "d3d8", "d3dx", "dxgi", "ddraw",
     "opengl32", "glu32", "vulkan", "gdi32", "dwmapi", "d3dcompiler", "dwrite", "d2d1"]
  }

  function AudioDlls(): seq<string> {
    ["winmm", "dsound", "xaudio2", "mmdevapi", "avrt", "msacm32"]
  }

  function InputDlls(): seq<string> { ["dinput8", "dinput", "xinput", "wininput"] }

  function NetDlls(): seq<string> {
    ["ws2_32", "wsock32", "wininet", "winhttp", "iphlpapi", "dnsapi",
     "secur32", "schannel", "credui"]
  }

  function SysDlls(): seq<string> {
    ["user32", "ntdll", "comctl32", "comdlg32", "ole32", "oleaut32",
     "uxtheme", "imm32", "setupapi", "crypt32", "bcrypt", "winspool",
     "propsys", "shcore", "advapi32", "shell32", "shlwapi", "version",
     "combase", "windows.storage"]
  }

  function KernelDlls(): seq<string> {
    ["kernel32", "kernelbase", "msvcrt", "ucrtbase", "api-ms-win-crt-",
     "api-ms-win-core-file-", "api-ms-win-core-threadpool-", "api-ms-win-core-processthreads-"]
  }

  // strncasecmp against the prefix.
  predicate HasPrefix(dll: string, prefix: string) {
    |prefix| <= |dll| && Fold(dll[..|prefix|]) == Fold(prefix)
  }

  predicate PrefixMatch(dll: string, table: seq<string>) {
    exists prefix <- table :: HasPrefix(dll, prefix)
  }

  predicate HasAt(s: string, part: string, i: nat) {
    i + |part| <= |s| && s[i..i + |part|] == part
  }

  // strstr
  predicate Contains(s: string, part: string) {
    part == "" || exists i | 0 <= i < |s| :: s[i] == part[0] && HasAt(s, part, i)
  }

  predicate ContainsAny(s: string, parts: seq<string>) {
    exists part <- parts :: Contains(s, part)
  }

  predicate IsThreadApi(fn: string) {
    ContainsAny(fn, ["Thread", "CriticalSection", "Semaphore", "WaitFor", "Mutex", "GetCurrent",
                     "CreateProcess", "Sleep", "_beginthreadex", "EnterCritical"])
  }

  predicate IsFileApi(fn: string) {
    ContainsAny(fn, ["File", "MoveFile", "DeleteFile", "FindFirst", "GetFileAttributes",
                     "GetTempPath", "GetCurrentDirectory", "SetCurrentDirectory", "GetFullPath",
                     "GetDriveType", "ReadFile", "WriteFile"])
  }

  // None for a third-party DLL, which is not scored.
  function Classify(im: Import): Option<Category> {
    if PrefixMatch(im.dll, GfxDlls()) then Some(Graphics)
    else if PrefixMatch(im.dll, AudioDlls()) then Some(Audio)
    else if PrefixMatch(im.dll, InputDlls()) then Some(Input)
    else if PrefixMatch(im.dll, NetDlls()) then Some(Networking)
    else if PrefixMatch(im.dll, KernelDlls()) then
      if im.fn.Some? && IsThreadApi(im.fn.value) then Some(Threading)
      else if im.fn.Some? && IsFileApi(im.fn.value) then Some(Filesystem)
      else Some(System)
    else if PrefixMatch(im.dll, SysDlls()) then Some(System)
    else None
  }

  lemma PrefixIgnoresCase(a: string, b: string, prefix: string)
    requires Fold(a) == Fold(b)
    ensures HasPrefix(a, prefix) <==> HasPrefix(b, prefix)
  {
    assert |a| == |b| by { assert |Fold(a)| == |Fold(b)|; }
    if |prefix| <= |a| {
      assert Fold(a[..|prefix|]) == Fold(a)[..|prefix|];
      assert Fold(b[..|prefix|]) == Fold(b)[..|prefix|];
    }
  }

  lemma TableIgnoresCase(a: string, b: string, table: seq<string>)
    requires Fold(a) == Fold(b)
    ensures PrefixMatch(a, table) <==> PrefixMatch(b, table)
  {
    forall prefix | prefix in table
      ensures HasPrefix(a, prefix) <==> HasPrefix(b, prefix)
    {
      PrefixIgnoresCase(a, b, prefix);
    }
  }

  // The case of a DLL's name does not change its category.
  lemma ClassifyIgnoresCase(a: Import, b: Import)
    requires Fold(a.dll) == Fold(b.dll) && a.fn == b.fn
    ensures Classify(a) == Classify(b)
  {
    TableIgnoresCase(a.dll, b.dll, GfxDlls());
    TableIgnoresCase(a.dll, b.dll, AudioDlls());
    TableIgnoresCase(a.dll, b.dll, InputDlls());
    TableIgnoresCase(a.dll, b.dll, NetDlls());
    TableIgnoresCase(a.dll, b.dll, KernelDlls());
    TableIgnoresCase(a.dll, b.dll, SysDlls());
  }

  // ---- what the classification means ----

  lemma HasPrefixIff(dll: string, prefix: string)
    ensures HasPrefix(dll, prefix) <==>
      |prefix| <= |dll| && forall i | 0 <= i < |prefix| :: SameLetter(dll[i], prefix[i])
  {
    if |prefix| <= |dll| {
      FoldIff(dll[..|prefix|], prefix);
    }
  }

  lemma ContainsIff(s: string, part: string)
    ensures Contains(s, part) <==> exists a, b :: s == a + part + b
  {
    if part == "" {
      assert s == s + part + "";
    } else {
      if Contains(s, part) {
        var i :| 0 <= i < |s| && s[i] == part[0] && HasAt(s, part, i);
        assert s == s[..i] + part + s[i + |part|..];
      }
      if a, b :| s == a + part + b {
        assert s[|a|..|a| + |part|] == part;
        assert s[|a|] == part[0] && HasAt(s, part, |a|);
      }
    }
  }

  // The tables in the order they are searched, and the category each of them gives; functions
  // of the kernel's DLLs are told apart by their names.
  function Tables(): (t: seq<seq<string>>)
    ensures |t| == 6
  {
    [GfxDlls(), AudioDlls(), InputDlls(), NetDlls(), KernelDlls(), SysDlls()]
  }

  function Given(k: nat, fn: Option<string>): Category
    requires k < 6
  {
    var kernel := match fn
      case Some(name) => if IsThreadApi(name) then Threading else if IsFileApi(name) then Filesystem else System
      case None => System;
    [Graphics, Audio, Input, Networking, kernel, System][k]
  }

  ghost predicate SomePrefix(dll: string, table: seq<string>) {
    exists i :: 0 <= i < |table| && HasPrefix(dll, table[i])
  }

  lemma SomePrefixIff(dll: string, table: seq<string>)
    ensures SomePrefix(dll, table) <==> PrefixMatch(dll, table)
  {
    if prefix :| prefix in table && HasPrefix(dll, prefix) {
      var i :| 0 <= i < |table| && table[i] == prefix;
    }
  }

  // A name is matched by any of the parts it contains.
  lemma ContainsAnyIff(s: string, parts: seq<string>)
    ensures ContainsAny(s, parts) <==> exists i, a, b :: 0 <= i < |parts| && s == a + parts[i] + b
  {
    if part :| part in parts && Contains(s, part) {
      var i :| 0 <= i < |parts| && parts[i] == part;
      ContainsIff(s, parts[i]);
    }
    if i, a, b :| 0 <= i < |parts| && s == a + parts[i] + b {
      ContainsIff(s, parts[i]);
    }
  }

  // The first table that has a prefix of the DLL's name decides.
  lemma FirstTableDecides(im: Import, k: nat)
    requires k < 6 && forall j: nat | j < k :: !SomePrefix(im.dll, Tables()[j])
    ensures SomePrefix(im.dll, Tables()[k]) ==> Classify(im) == Some(Given(k, im.fn))
    ensures k == 5 && !SomePrefix(im.dll, Tables()[k]) ==> Classify(im) == None
  {
    var dll, t := im.dll, Tables();
    forall j: nat | j < 6
      ensures SomePrefix(dll, t[j]) <==> PrefixMatch(dll, t[j])
    {
      SomePrefixIff(dll, t[j]);
    }
    FirstMatchDecides(im, k);
  }

  lemma FirstMatchDecides(im: Import, k: nat)
    requires k < 6 && forall j: nat | j < k :: !PrefixMatch(im.dll, Tables()[j])
    ensures PrefixMatch(im.dll, Tables()[k]) ==> Classify(im) == Some(Given(k, im.fn))
    ensures k == 5 && !PrefixMatch(im.dll, Tables()[k]) ==> Classify(im) == None
  {
    var dll, t := im.dll, Tables();
    assert forall j: nat | j < k :: !PrefixMatch(dll, t[j]);
    assert k > 0 ==> !PrefixMatch(dll, t[0]);
    assert k > 1 ==> !PrefixMatch(dll, t[1]);
    assert k > 2 ==> !PrefixMatch(dll, t[2]);
    assert k > 3 ==> !PrefixMatch(dll, t[3]);
    assert k > 4 ==> !PrefixMatch(dll, t[4]);
  }

  // The position of a category in the score array.
  function Index(c: Category): (i: nat)
    ensures i < CATEGORIES
  {
    match c
    case Graphics => 0
    case Audio => 1
    case Input => 2
    case Networking => 3
    case Filesystem => 4
    case Threading => 5
    case System => 6
  }

  // An import as the scoring loop sees it: its category's index, and whether it resolves.
  datatype Scored = Scored(category: Option<nat>, supported: bool)

  function Score(im: Import, exported: (string, string) -> bool): (s: Scored)
    ensures s.category.Some? ==> s.category.value < CATEGORIES
  {
    var c := Classify(im);
    Scored(if c.Some? then Some(Index(c.value)) else None,
           im.fn.Some? && exported(im.dll, im.fn.value))
  }

  // ---- counting ----

  // Number of the imports in category c, only the supported ones or all.
  function Count(imports: seq<Scored>, c: nat, supportedOnly: bool): (n: nat)
    ensures n <= |imports|
  {
    if imports == [] then 0
    else
      var last := imports[|imports| - 1];
      Count(imports[..|imports| - 1], c, supportedOnly)
      + if last.category == Some(c) && (last.supported || !supportedOnly) then 1 else 0
  }

  // Number of imports that are scored at all, or scored and supported.
  function CountScored(imports: seq<Scored>, supportedOnly: bool): (n: nat)
    ensures n <= |imports|
  {
    if imports == [] then 0
    else
      var last := imports[|imports| - 1];
      CountScored(imports[..|imports| - 1], supportedOnly)
      + if last.category.Some? && (last.supported || !supportedOnly) then 1 else 0
  }

  // Number of imports that are scored but not supported.
  function CountMissing(imports: seq<Scored>): (n: nat) {
    if imports == [] then 0
    else
      var last := imports[|imports| - 1];
      CountMissing(imports[..|imports| - 1])
      + if last.category.Some? && !last.supported then 1 else 0
  }

  lemma {:induction false} MissingIsDifference(imports: seq<Scored>)
    ensures CountMissing(imports) == CountScored(imports, false) - CountScored(imports, true)
  {
    if imports != [] {
      MissingIsDifference(imports[..|imports| - 1]);
    }
  }

  // The per-category counts added up over the first n categories.
  function SumCounts(imports: seq<Scored>, n: nat, supportedOnly: bool): nat
    decreases n, |imports|
  {
    if n == 0 then 0
    else SumCounts(imports, n - 1, supportedOnly) + Count(imports, n - 1, supportedOnly)
  }

  ghost predicate InRange(imports: seq<Scored>, n: nat) {
    forall s <- imports :: s.category.Some? ==> s.category.value < n
  }

  lemma {:induction false} SumStep(front: seq<Scored>, last: Scored, n: nat, supportedOnly: bool)
    ensures SumCounts(front + [last], n, supportedOnly) == SumCounts(front, n, supportedOnly)
      + if last.category.Some? && last.category.value < n && (last.supported || !supportedOnly) then 1 else 0
    decreases n
  {
    assert (front + [last])[..|front|] == front;
    if n > 0 {
      SumStep(front, last, n - 1, supportedOnly);
    }
  }

  // The category totals add up to the number of classified imports.
  lemma {:induction false} TotalsAddUp(imports: seq<Scored>, n: nat, supportedOnly: bool)
    requires InRange(imports, n)
    ensures SumCounts(imports, n, supportedOnly) == CountScored(imports, supportedOnly)
  {
    if imports == [] {
      EmptySum(n, supportedOnly);
    } else {
      var front, last := imports[..|imports| - 1], imports[|imports| - 1];
      assert imports == front + [last];
      assert last in imports;
      TotalsAddUp(front, n, supportedOnly);
      SumStep(front, last, n, supportedOnly);
    }
  }

  lemma {:induction false} EmptySum(n: nat, supportedOnly: bool)
    ensures SumCounts([], n, supportedOnly) == 0
    decreases n
  {
    if n > 0 {
      EmptySum(n - 1, supportedOnly);
    }
  }

  lemma {:induction false} SupportedAtMostTotal(imports: seq<Scored>, c: nat)
    ensures Count(imports, c, true) <= Count(imports, c, false)
    ensures CountScored(imports, true) <= CountScored(imports, false)
  {
    if imports != [] {
      SupportedAtMostTotal(imports[..|imports| - 1], c);
    }
  }

  // ---- percentages ----

  // (int)(supported * 100u / total) in 32-bit arithmetic.
  function Percent(supported: u32, total: u32): nat
    requires total > 0
  {
    supported * 100 % TWO32 / total
  }

  // The 32-bit product is harmless exactly when it does not wrap.
  lemma PercentExactIff(supported: u32, total: u32)
    requires total > 0
    ensures Percent(supported, total) == supported * 100 / total <==> supported * 100 < TWO32
  {
    var product := supported * 100;
    if product < TWO32 {
      assert product % TWO32 == product;
    } else {
      var low := product % TWO32;
      assert product >= low + TWO32 > low + total;
      QuotientGrows(low, total, product);
    }
  }

  lemma QuotientGrows(a: nat, t: nat, b: nat)
    requires t > 0 && b >= a + t
    ensures b / t > a / t
  {
    DivModUnique(a + t, t, a / t + 1, a % t);
    QuotientMonotone(a + t, b, t);
  }

  lemma QuotientMonotone(a: nat, b: nat, t: nat)
    requires t > 0 && a <= b
    ensures a / t <= b / t
  {
    assert a == a / t * t + a % t && b == b / t * t + b % t;
    assert (b / t + 1) * t == b / t * t + t;
    MulCancel(a / t, b / t + 1, t);
  }

  // The result of the scoring part of cellar_compat_analyze: one entry per category in
  // each of the three sequences.
  datatype Analysis = Analysis(
    totals: seq<int>, supported: seq<int>, percents: seq<int>, missing: nat, overall: int)

  ghost predicate IsAnalysis(a: Analysis, imports: seq<Scored>, n: nat) {
    && |a.totals| == |a.supported| == |a.percents| == n
    && (forall c | 0 <= c < n :: IsScore(a.totals[c], a.supported[c], a.percents[c], imports, c))
    && a.missing == Min(MAX_MISSING, CountMissing(imports))
    && a.overall == PercentOr(SumCounts(imports, n, true) % TWO32, SumCounts(imports, n, false) % TWO32, 100)
  }

  ghost predicate IsScore(total: int, supported: int, percent: int, imports: seq<Scored>, c: nat) {
    && total == Count(imports, c, false) % TWO32
    && supported == Count(imports, c, true) % TWO32
    && percent == PercentOr(supported, total, -1)
  }

  function PercentOr(supported: u32, total: u32, fallback: int): int {
    if total > 0 then Percent(supported, total) else fallback
  }

  lemma PercentRange(supported: u32, total: u32)
    requires 0 < total && supported <= total && supported * 100 < TWO32
    ensures 0 <= Percent(supported, total) <= 100
    ensures Percent(supported, total) * total <= supported * 100 < (Percent(supported, total) + 1) * total
  {
    var p := supported * 100 / total;
    assert supported * 100 % TWO32 == supported * 100;
    assert supported * 100 == p * total + supported * 100 % total;
    assert (p + 1) * total == p * total + total;
    MulCancel(p, 101, total);
  }

  // Summing the categories keeps 100 * supported within [lo * total, (hi + 1) * total).
  lemma {:induction false} SumsWithin(imports: seq<Scored>, n: nat, lo: nat, hi: nat)
    requires forall c | 0 <= c < n :: Within(Count(imports, c, true), Count(imports, c, false), lo, hi)
    ensures Within(SumCounts(imports, n, true), SumCounts(imports, n, false), lo, hi)
    decreases n
  {
    if n > 0 {
      SumsWithin(imports, n - 1, lo, hi);
      WithinAdds(SumCounts(imports, n - 1, true), SumCounts(imports, n - 1, false),
                 Count(imports, n - 1, true), Count(imports, n - 1, false), lo, hi);
    }
  }

  lemma WithinAdds(s: nat, t: nat, cs: nat, ct: nat, lo: nat, hi: nat)
    requires Within(s, t, lo, hi) && Within(cs, ct, lo, hi)
    ensures Within(s + cs, t + ct, lo, hi)
  {
    assert lo * (t + ct) == lo * t + lo * ct;
    assert (hi + 1) * (t + ct) == (hi + 1) * t + (hi + 1) * ct;
  }

  ghost predicate Within(s: nat, t: nat, lo: nat, hi: nat) {
    lo * t <= 100 * s && (if t > 0 then 100 * s < (hi + 1) * t else s == 0)
  }

  lemma ShareWithin(s: nat, t: nat, lo: nat, hi: nat)
    requires s <= t < TWO32 && s * 100 < TWO32
    requires t > 0 ==> lo <= Percent(s, t) <= hi
    ensures Within(s, t, lo, hi)
  {
    if t > 0 {
      PercentRange(s, t);
      MulMonotone(lo, Percent(s, t), t);
      MulMonotone(Percent(s, t) + 1, hi + 1, t);
    }
  }

  // The score of one category for fewer than 2^32 / 100 imports.
  lemma CategoryLaws(total: int, supported: int, percent: int, imports: seq<Scored>, c: nat)
    requires IsScore(total, supported, percent, imports, c) && |imports| * 100 < TWO32
    ensures total == Count(imports, c, false) && supported == Count(imports, c, true) <= total
    ensures if total == 0 then percent == -1
            else 0 <= percent <= 100 && percent == supported * 100 / total
  {
    SupportedAtMostTotal(imports, c);
    Small(Count(imports, c, false));
    Small(Count(imports, c, true));
    if total > 0 {
      PercentRange(supported, total);
      PercentExactIff(supported, total);
    }
  }

  lemma Small(x: nat)
    requires x < TWO32
    ensures x % TWO32 == x
  {
  }

  // What the report can rely on for fewer than 2^32 / 100 imports: the totals add up to the
  // classified imports, the list of missing functions holds min(64, total - supported), and
  // the overall percentage is in 0..100, the floor of the true one.
  lemma ScoreLaws(a: Analysis, imports: seq<Scored>, n: nat)
    requires IsAnalysis(a, imports, n) && InRange(imports, n) && |imports| * 100 < TWO32
    ensures var t, s := CountScored(imports, false), CountScored(imports, true);
      && t == SumCounts(imports, n, false) && s == SumCounts(imports, n, true) && s <= t
      && a.missing == Min(MAX_MISSING, t - s)
      && 0 <= a.overall <= 100
      && (if t == 0 then a.overall == 100 else a.overall * t <= 100 * s < (a.overall + 1) * t)
  {
    TotalsAddUp(imports, n, false);
    TotalsAddUp(imports, n, true);
    MissingIsDifference(imports);
    SupportedAtMostTotal(imports, 0);
    var t, s := CountScored(imports, false), CountScored(imports, true);
    Small(t);
    Small(s);
    if t > 0 {
      PercentRange(s, t);
    }
  }

  lemma CategoryWithin(total: int, supported: int, percent: int, imports: seq<Scored>, c: nat, lo: nat, hi: nat)
    requires IsScore(total, supported, percent, imports, c) && |imports| * 100 < TWO32
    requires total > 0 ==> lo <= percent <= hi
    ensures Within(Count(imports, c, true), Count(imports, c, false), lo, hi)
  {
    CategoryLaws(total, supported, percent, imports, c);
    ShareWithin(supported, total, lo, hi);
  }

  // If anything is scored, the overall percentage lies between the smallest and the largest
  // percentage of a non-empty category, despite the floored divisions.
  lemma OverallBetween(a: Analysis, imports: seq<Scored>, n: nat, lo: nat, hi: nat)
    requires IsAnalysis(a, imports, n) && InRange(imports, n) && |imports| * 100 < TWO32
    requires CountScored(imports, false) > 0
    requires forall c | 0 <= c < n :: a.totals[c] > 0 ==> lo <= a.percents[c] <= hi
    ensures lo <= a.overall <= hi
  {
    AllWithin(a, imports, n, lo, hi);
    OverallIsShare(a, imports, n);
    ShareBetween(a.overall, SumCounts(imports, n, true), SumCounts(imports, n, false), lo, hi);
  }

  lemma OverallIsShare(a: Analysis, imports: seq<Scored>, n: nat)
    requires IsAnalysis(a, imports, n) && InRange(imports, n) && |imports| * 100 < TWO32
    requires CountScored(imports, false) > 0
    ensures var s, t := SumCounts(imports, n, true), SumCounts(imports, n, false);
      s <= t && 100 * t < TWO32 && t > 0 && a.overall == Percent(s, t)
  {
    TotalsAddUp(imports, n, false);
    TotalsAddUp(imports, n, true);
    SupportedAtMostTotal(imports, 0);
    Small(CountScored(imports, false));
    Small(CountScored(imports, true));
  }

  lemma ShareBetween(overall: int, s: nat, t: nat, lo: nat, hi: nat)
    requires s <= t && 100 * t < TWO32 && t > 0 && overall == Percent(s, t)
    requires Within(s, t, lo, hi)
    ensures lo <= overall <= hi
  {
    PercentRange(s, t);
    FloorWithin(overall, s, t, lo, hi);
  }

  lemma AllWithin(a: Analysis, imports: seq<Scored>, n: nat, lo: nat, hi: nat)
    requires IsAnalysis(a, imports, n) && |imports| * 100 < TWO32
    requires forall c | 0 <= c < n :: a.totals[c] > 0 ==> lo <= a.percents[c] <= hi
    ensures Within(SumCounts(imports, n, true), SumCounts(imports, n, false), lo, hi)
  {
    forall c | 0 <= c < n
      ensures Within(Count(imports, c, true), Count(imports, c, false), lo, hi)
    {
      CategoryWithin(a.totals[c], a.supported[c], a.percents[c], imports, c, lo, hi);
    }
    SumsWithin(imports, n, lo, hi);
  }

  lemma FloorWithin(p: nat, s: nat, t: nat, lo: nat, hi: nat)
    requires t > 0 && p * t <= 100 * s < (p + 1) * t && Within(s, t, lo, hi)
    ensures lo <= p <= hi
  {
    MulCancel(lo, p + 1, t);
    MulCancel(p, hi + 1, t);
  }

  // ---- the scoring loops ----

  function ScoreAll(imports: seq<Import>, exported: (string, string) -> bool): (s: seq<Scored>)
    ensures |s| == |imports| && InRange(s, CATEGORIES)
    ensures forall i | 0 <= i < |s| :: s[i] == Score(imports[i], exported)
  {
    seq(|imports|, i requires 0 <= i < |imports| => Score(imports[i], exported))
  }

  // The counters of one scoring loop after the first imports.
  ghost predicate Tallied(counters: seq<int>, imports: seq<Scored>, supportedOnly: bool) {
    && |counters| == CATEGORIES
    && forall c | 0 <= c < CATEGORIES :: counters[c] == Count(imports, c, supportedOnly) % TWO32
  }

  lemma TallyStep(counters: seq<int>, all: seq<Scored>, i: nat, supportedOnly: bool)
    requires i < |all| && Tallied(counters, all[..i], supportedOnly)
    requires all[i].category.Some? ==> all[i].category.value < CATEGORIES
    ensures Tallied(
      if all[i].category.Some? && (all[i].supported || !supportedOnly)
      then counters[all[i].category.value := (counters[all[i].category.value] + 1) % TWO32]
      else counters,
      all[..i + 1], supportedOnly)
  {
    assert all[..i + 1][..i] == all[..i];
    forall c | 0 <= c < CATEGORIES
      ensures (Count(all[..i], c, supportedOnly) % TWO32 + 1) % TWO32
        == (Count(all[..i], c, supportedOnly) + 1) % TWO32
    {
      LowOfSum(Count(all[..i], c, supportedOnly), 1);
    }
  }

  // Counts one scored import, or only a supported one.
  method Tally(counters: array<u32>, s: Scored, supportedOnly: bool, ghost all: seq<Scored>, ghost i: nat)
    requires i < |all| && s == all[i] && (s.category.Some? ==> s.category.value < CATEGORIES)
    requires counters.Length == CATEGORIES && Tallied(counters[..], all[..i], supportedOnly)
    modifies counters
    ensures Tallied(counters[..], all[..i + 1], supportedOnly)
  {
    TallyStep(counters[..], all, i, supportedOnly);
    if s.category.Some? && (s.supported || !supportedOnly) {
      var c := s.category.value;
      counters[c] := (counters[c] + 1) % TWO32;
      assert counters[..] == old(counters[..])[c := (old(counters[c]) + 1) % TWO32];
    }
  }

  lemma MissingStep(all: seq<Scored>, i: nat)
    requires i < |all|
    ensures CountMissing(all[..i + 1]) == CountMissing(all[..i])
      + if all[i].category.Some? && !all[i].supported then 1 else 0
  {
    assert all[..i + 1][..i] == all[..i];
  }

  // The loops of cellar_compat_analyze; exported says which named functions are registered.
  method Analyze(imports: seq<Import>, exported: (string, string) -> bool) returns (a: Analysis)
    ensures IsAnalysis(a, ScoreAll(imports, exported), CATEGORIES)
  {
    ghost var all := ScoreAll(imports, exported);
    var totals := new u32[CATEGORIES](_ => 0);
    var supported := new u32[CATEGORIES](_ => 0);
    var missing: nat := 0;
    for i := 0 to |imports|
      invariant Tallied(totals[..], all[..i], false)
      invariant Tallied(supported[..], all[..i], true)
      invariant missing == Min(MAX_MISSING, CountMissing(all[..i]))
    {
      var s := Score(imports[i], exported);
      Tally(totals, s, false, all, i);
      Tally(supported, s, true, all, i);
      MissingStep(all, i);
      if s.category.Some? && !s.supported && missing < MAX_MISSING {
        missing := missing + 1;
      }
    }
    assert all[..|imports|] == all;
    a := Percentages(totals[..], supported[..], missing, all);
  }

  // Adding in 32-bit arithmetic keeps the low word of the true sum.
  lemma LowOfSum(a: nat, b: nat)
    ensures (a % TWO32 + b % TWO32) % TWO32 == (a + b) % TWO32
  {
    ModSplit(a, b % TWO32, TWO32);
    var q := b / TWO32;
    assert a + b == a + b % TWO32 + q * TWO32;
    var r := (a + b % TWO32) % TWO32;
    DivModUnique(a + b, TWO32, (a + b % TWO32) / TWO32 + q, r);
    var low := a % TWO32 + b % TWO32;
    DivModUnique(low, TWO32, if low < TWO32 then 0 else 1, if low < TWO32 then low else low - TWO32);
  }

  // total += totals[c] in 32-bit arithmetic.
  method AddCounter(total: u32, counters: seq<u32>, ghost all: seq<Scored>, c: nat, ghost supportedOnly: bool)
    returns (sum: u32)
    requires c < CATEGORIES && Tallied(counters, all, supportedOnly)
    requires total == SumCounts(all, c, supportedOnly) % TWO32
    ensures sum == SumCounts(all, c + 1, supportedOnly) % TWO32
  {
    LowOfSum(SumCounts(all, c, supportedOnly), Count(all, c, supportedOnly));
    sum := (total + counters[c]) % TWO32;
  }

  method Percentages(totals: seq<u32>, supported: seq<u32>, missing: nat, ghost all: seq<Scored>)
    returns (a: Analysis)
    requires Tallied(totals, all, false) && Tallied(supported, all, true)
    requires missing == Min(MAX_MISSING, CountMissing(all))
    ensures IsAnalysis(a, all, CATEGORIES)
  {
    var percents: seq<int> := [];
    var total, good: u32 := 0, 0;
    for c := 0 to CATEGORIES
      invariant |percents| == c
      invariant forall k | 0 <= k < c :: percents[k] == PercentOr(supported[k], totals[k], -1)
      invariant total == SumCounts(all, c, false) % TWO32 && good == SumCounts(all, c, true) % TWO32
    {
      percents := percents + [PercentOr(supported[c], totals[c], -1)];
      total := AddCounter(total, totals, all, c, false);
      good := AddCounter(good, supported, all, c, true);
    }
    a := Analysis(totals, supported, percents, missing, PercentOr(good, total, 100));
  }

  // ---- what is reported ----

  // The categories as the header numbers them.
  function Numbered(): (order: seq<Category>)
    ensures |order| == CATEGORIES
  {
    [Graphics, Audio, Input, Networking, Filesystem, Threading, System]
  }

  lemma NumberedIsIndex(c: Category, k: nat)
    requires k < CATEGORIES
    ensures Index(c) == k <==> Numbered()[k] == c
  {
  }

  // The numbers below n with a property.
  function Where(n: nat, p: nat -> bool): set<nat> {
    set i: nat | i < n && p(i)
  }

  lemma WhereStep(n: nat, p: nat -> bool)
    requires n > 0
    ensures |Where(n, p)| == |Where(n - 1, p)| + if p(n - 1) then 1 else 0
  {
    assert Where(n, p) == Where(n - 1, p) + if p(n - 1) then {n - 1} else {};
  }

  lemma {:induction false} CountsWhere(scored: seq<Scored>, k: nat, supportedOnly: bool, p: nat -> bool)
    requires forall i: nat | i < |scored| ::
      p(i) <==> scored[i].category == Some(k) && (scored[i].supported || !supportedOnly)
    ensures Count(scored, k, supportedOnly) == |Where(|scored|, p)|
    decreases |scored|
  {
    if scored != [] {
      CountsWhere(scored[..|scored| - 1], k, supportedOnly, p);
      WhereStep(|scored|, p);
    }
  }

  // The imports of a category; and of those the ones imported by name that are exported.
  function Members(imports: seq<Import>, c: Category): set<nat> {
    Where(|imports|, (i: nat) => i < |imports| && Classify(imports[i]) == Some(c))
  }

  function Resolved(imports: seq<Import>, exported: (string, string) -> bool, c: Category): set<nat> {
    Where(|imports|, (i: nat) => i < |imports| && Classify(imports[i]) == Some(c)
      && imports[i].fn.Some? && exported(imports[i].dll, imports[i].fn.value))
  }

  lemma ScoreIs(im: Import, exported: (string, string) -> bool, k: nat)
    requires k < CATEGORIES
    ensures var s := Score(im, exported);
      && (s.category == Some(k) <==> Classify(im) == Some(Numbered()[k]))
      && (s.supported <==> im.fn.Some? && exported(im.dll, im.fn.value))
  {
    var c := Classify(im);
    if c.Some? {
      NumberedIsIndex(c.value, k);
    }
  }

  lemma CountsMembers(imports: seq<Import>, exported: (string, string) -> bool, k: nat)
    requires k < CATEGORIES
    ensures Count(ScoreAll(imports, exported), k, false) == |Members(imports, Numbered()[k])|
    ensures Count(ScoreAll(imports, exported), k, true) == |Resolved(imports, exported, Numbered()[k])|
  {
    var all, c := ScoreAll(imports, exported), Numbered()[k];
    forall i: nat | i < |all|
      ensures all[i].category == Some(k) <==> Classify(imports[i]) == Some(c)
      ensures all[i].supported <==> imports[i].fn.Some? && exported(imports[i].dll, imports[i].fn.value)
    {
      ScoreIs(imports[i], exported, k);
    }
    CountsWhere(all, k, false, (i: nat) => i < |imports| && Classify(imports[i]) == Some(c));
    CountsWhere(all, k, true, (i: nat) => i < |imports| && Classify(imports[i]) == Some(c)
      && imports[i].fn.Some? && exported(imports[i].dll, imports[i].fn.value));
  }

  // For fewer than 2^32 imports the reported totals are the numbers of imports of each category,
  // and of those that resolve.
  lemma ReportCounts(a: Analysis, imports: seq<Import>, exported: (string, string) -> bool, k: nat)
    requires IsAnalysis(a, ScoreAll(imports, exported), CATEGORIES) && |imports| < TWO32 && k < CATEGORIES
    ensures a.totals[k] == |Members(imports, Numbered()[k])|
    ensures a.supported[k] == |Resolved(imports, exported, Numbered()[k])|
  {
    CountsMembers(imports, exported, k);
    Small(Count(ScoreAll(imports, exported), k, false));
    Small(Count(ScoreAll(imports, exported), k, true));
  }
}
