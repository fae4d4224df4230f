// Replacing every occurrence of a pattern in a line by "$HOME", one after the other: when
// the loop over strstr ends, and when the line still fits its buffer then.
module Replace {
  import opened Status

  function Marker(): string { "$HOME" }

  predicate OccursAt(pat: string, s: string, i: nat) {
    i + |pat| <= |s| && s[i..i + |pat|] == pat
  }

  ghost predicate Occurs(pat: string, s: string) {
    exists i: nat :: OccursAt(pat, s, i)
  }

  // strstr from index i on.
  function StrStr(s: string, pat: string, i: nat): (r: Option<nat>)
    ensures r.Some? ==> r.value >= i && OccursAt(pat, s, r.value)
    ensures r.Some? ==> forall j: nat | i <= j < r.value :: !OccursAt(pat, s, j)
    ensures r.None? ==> forall j: nat | i <= j :: !OccursAt(pat, s, j)
    decreases |s| - i
  {
    if i + |pat| > |s| then None
    else if s[i..i + |pat|] == pat then Some(i)
    else StrStr(s, pat, i + 1)
  }

  function ReplaceAt(s: string, pat: string, i: nat): string
    requires i + |pat| <= |s|
  {
    s[..i] + Marker() + s[i + |pat|..]
  }

  lemma SameChar(pat: string, s: string, i: nat, k: nat)
    requires OccursAt(pat, s, i) && k < |pat|
    ensures s[i + k] == pat[k]
  {
    assert s[i..i + |pat|][k] == s[i + k];
  }

  // One round of the loop; a line without the pattern stays.
  function Round(s: string, pat: string): string {
    match StrStr(s, pat, 0)
    case None => s
    case Some(i) => ReplaceAt(s, pat, i)
  }

  // The line after at most n rounds.
  function Rounds(s: string, pat: string, n: nat): string
    decreases n
  {
    if n == 0 then s else Rounds(Round(s, pat), pat, n - 1)
  }

  // What one round keeps, any number of rounds keeps.
  lemma {:induction false} RoundsKeep(s: string, pat: string, n: nat, keeps: string -> bool)
    requires keeps(s) && forall t: string | keeps(t) :: keeps(Round(t, pat))
    ensures keeps(Rounds(s, pat, n))
    decreases n
  {
    if n > 0 {
      RoundsKeep(Round(s, pat), pat, n - 1, keeps);
    }
  }

  // What every round lowers bounds the rounds.
  lemma {:induction false} RoundsEnd(s: string, pat: string, n: nat, live: string -> bool, measure: string -> nat)
    requires forall t: string {:trigger Round(t, pat)} | live(t) :: measure(Round(t, pat)) < measure(t)
    requires forall t: string {:trigger Round(t, pat)} | !live(t) :: Round(t, pat) == t
    requires n >= measure(s)
    ensures !live(Rounds(s, pat, n))
    decreases n
  {
    if live(s) {
      RoundsEnd(Round(s, pat), pat, n - 1, live, measure);
    } else {
      RoundsKeep(s, pat, n, t => t == s);
    }
  }

  // ---- the marker's letters ----

  // The place of a character in the marker, 5 for all others.
  function Place(c: char): nat {
    if c == '$' then 0
    else if c == 'H' then 1
    else if c == 'O' then 2
    else if c == 'M' then 3
    else if c == 'E' then 4
    else 5
  }

  predicate InMarker(c: char) { Place(c) < 5 }

  lemma MarkerPlaces()
    ensures |Marker()| == 5
    ensures forall k: nat | k < 5 :: Place(Marker()[k]) == k
    ensures forall c: char | InMarker(c) :: Marker()[Place(c)] == c
  {
  }

  // Some character of the pattern is not one of the marker's.
  predicate HasForeign(pat: string) {
    exists c <- pat :: !InMarker(c)
  }

  // The marker's letters do not follow each other here as they do in the marker.
  predicate Slips(pat: string, k: nat) {
    k + 1 < |pat| && Place(pat[k + 1]) != Place(pat[k]) + 1
  }

  lemma {:induction false} WithoutSlip(pat: string, k: nat)
    requires k < |pat| && forall j: nat | j < k :: !Slips(pat, j)
    ensures Place(pat[k]) == Place(pat[0]) + k
    decreases k
  {
    if k > 0 {
      WithoutSlip(pat, k - 1);
      assert !Slips(pat, k - 1);
    }
  }

  lemma WithoutSlipInMarker(pat: string)
    requires pat != "" && !HasForeign(pat) && forall k: nat :: !Slips(pat, k)
    ensures Occurs(pat, Marker())
  {
    var at := Place(pat[0]);
    MarkerPlaces();
    forall k: nat | k < |pat|
      ensures at + k < 5 && Marker()[at + k] == pat[k]
    {
      WithoutSlip(pat, k);
      assert pat[k] in pat;
    }
    assert pat[|pat| - 1] in pat && at + (|pat| - 1) < 5;
    assert Marker()[at..at + |pat|] == pat;
    assert OccursAt(pat, Marker(), at);
  }

  // Letters of the marker that do not lie in it as they stand slip somewhere.
  lemma SlipExists(pat: string)
    requires Halts(pat) && !HasForeign(pat)
    ensures exists k: nat :: Slips(pat, k)
  {
    if forall k: nat :: !Slips(pat, k) {
      WithoutSlipInMarker(pat);
    }
  }

  // ---- what every replacement lowers ----

  // The number of characters that are not the marker's.
  function Foreign(s: string): nat {
    if s == "" then 0 else (if InMarker(s[0]) then 0 else 1) + Foreign(s[1..])
  }

  lemma {:induction false} ForeignAppend(a: string, b: string)
    ensures Foreign(a + b) == Foreign(a) + Foreign(b)
  {
    if a == "" {
      assert a + b == b;
    } else {
      ForeignAppend(a[1..], b);
      assert (a + b)[1..] == a[1..] + b;
    }
  }

  lemma {:induction false} ForeignIn(s: string)
    ensures Foreign(s) > 0 <==> HasForeign(s)
  {
    if s != "" {
      ForeignIn(s[1..]);
      assert forall c <- s :: c == s[0] || c in s[1..];
    }
  }

  function Number(s: string, c: char): nat {
    if s == "" then 0 else (if s[0] == c then 1 else 0) + Number(s[1..], c)
  }

  lemma {:induction false} NumberAppend(a: string, b: string, c: char)
    ensures Number(a + b, c) == Number(a, c) + Number(b, c)
  {
    if a == "" {
      assert a + b == b;
    } else {
      NumberAppend(a[1..], b, c);
      assert (a + b)[1..] == a[1..] + b;
    }
  }

  lemma {:induction false} NumberIn(s: string, c: char)
    ensures Number(s, c) > 0 <==> c in s
  {
    if s != "" {
      NumberIn(s[1..], c);
      assert s == [s[0]] + s[1..];
    }
  }

  // The number of places i < j with c at i and d at j.
  function Pairs(s: string, c: char, d: char): nat {
    if s == "" then 0 else (if s[0] == c then Number(s[1..], d) else 0) + Pairs(s[1..], c, d)
  }

  lemma {:induction false} PairsAppend(a: string, b: string, c: char, d: char)
    ensures Pairs(a + b, c, d) == Pairs(a, c, d) + Number(a, c) * Number(b, d) + Pairs(b, c, d)
  {
    if a == "" {
      assert a + b == b;
    } else {
      PairsAppend(a[1..], b, c, d);
      NumberAppend(a[1..], b, d);
      assert (a + b)[1..] == a[1..] + b;
      OneMore(Number(a[1..], c), Number(b, d));
    }
  }

  lemma OneMore(x: nat, y: nat)
    ensures (x + 1) * y == x * y + y
  {
  }

  lemma {:induction false} PairIn(s: string, c: char, d: char)
    ensures Pairs(s, c, d) > 0 <==> exists i: nat, j: nat :: i < j < |s| && s[i] == c && s[j] == d
  {
    if s != "" {
      var t := s[1..];
      PairIn(t, c, d);
      NumberIn(t, d);
      if Pairs(s, c, d) > 0 {
        if s[0] == c && d in t {
          var j: nat :| j < |t| && t[j] == d;
          assert s[0] == c && s[j + 1] == d;
        } else {
          var i: nat, j: nat :| i < j < |t| && t[i] == c && t[j] == d;
          assert s[i + 1] == c && s[j + 1] == d;
        }
      }
      if i: nat, j: nat :| i < j < |s| && s[i] == c && s[j] == d {
        assert t[j - 1] == d;
        if i > 0 {
          assert t[i - 1] == c;
        }
      }
    }
  }

  // The number of places where d follows c at once.
  function Adjacent(s: string, c: char, d: char): nat {
    if |s| < 2 then 0 else (if s[0] == c && s[1] == d then 1 else 0) + Adjacent(s[1..], c, d)
  }

  predicate Meets(a: string, b: string, c: char, d: char) {
    a != "" && b != "" && a[|a| - 1] == c && b[0] == d
  }

  lemma {:induction false} AdjacentAppend(a: string, b: string, c: char, d: char)
    ensures Adjacent(a + b, c, d) ==
      Adjacent(a, c, d) + Adjacent(b, c, d) + if Meets(a, b, c, d) then 1 else 0
  {
    if a == "" {
      assert a + b == b;
    } else {
      AdjacentAppend(a[1..], b, c, d);
      assert (a + b)[1..] == a[1..] + b;
      if |a| == 1 && b != "" {
        assert a[1..] == "";
      }
    }
  }

  lemma {:induction false} AdjacentIn(s: string, c: char, d: char)
    ensures Adjacent(s, c, d) > 0 <==> exists k: nat :: k + 1 < |s| && s[k] == c && s[k + 1] == d
  {
    if |s| >= 2 {
      var t := s[1..];
      AdjacentIn(t, c, d);
      if Adjacent(s, c, d) > 0 && !(s[0] == c && s[1] == d) {
        var k: nat :| k + 1 < |t| && t[k] == c && t[k + 1] == d;
        assert s[k + 1] == c && s[k + 1 + 1] == d;
      }
      if k: nat :| k + 1 < |s| && s[k] == c && s[k + 1] == d {
        if k > 0 {
          assert t[k - 1] == c && t[k - 1 + 1] == d;
        }
      }
    }
  }

  // Each replacement removes the pattern's foreign characters and adds none.
  lemma ForeignFalls(a: string, pat: string, b: string)
    requires HasForeign(pat)
    ensures Foreign(a + Marker() + b) < Foreign(a + pat + b)
  {
    ForeignAppend(a + pat, b);
    ForeignAppend(a, pat);
    ForeignAppend(a + Marker(), b);
    ForeignAppend(a, Marker());
    MarkerPlaces();
    ForeignIn(Marker());
    ForeignIn(pat);
  }

  lemma OnceInMarker(c: char)
    requires InMarker(c)
    ensures Number(Marker(), c) == 1
  {
    assert Marker()[1..] == "HOME" && "HOME"[1..] == "OME" && "OME"[1..] == "ME" && "ME"[1..] == "E";
  }

  // Where d does not stand behind c in the marker, the marker has neither letter twice and
  // no such pair.
  lemma PairsInMarker(c: char, d: char)
    requires InMarker(c) && InMarker(d) && Place(d) <= Place(c)
    ensures Pairs(Marker(), c, d) == 0
    ensures Number(Marker(), c) == 1 && Number(Marker(), d) == 1
  {
    MarkerPlaces();
    OnceInMarker(c);
    OnceInMarker(d);
    PairIn(Marker(), c, d);
  }

  lemma PairsAround(a: string, x: string, b: string, c: char, d: char)
    ensures Pairs(a + x + b, c, d) ==
      Pairs(a, c, d) + Number(a, c) * Number(x, d) + Pairs(x, c, d)
      + (Number(a, c) + Number(x, c)) * Number(b, d) + Pairs(b, c, d)
  {
    PairsAppend(a + x, b, c, d);
    PairsAppend(a, x, c, d);
    NumberAppend(a, x, c);
  }

  lemma PairsFall(a: string, pat: string, b: string, k: nat)
    requires k + 1 < |pat| && InMarker(pat[k]) && Place(pat[k + 1]) <= Place(pat[k])
    ensures Pairs(a + Marker() + b, pat[k], pat[k + 1]) < Pairs(a + pat + b, pat[k], pat[k + 1])
  {
    var c, d := pat[k], pat[k + 1];
    PairsInMarker(c, d);
    PairIn(pat, c, d);
    NumberIn(pat, c);
    NumberIn(pat, d);
    PairsAround(a, pat, b, c, d);
    PairsAround(a, Marker(), b, c, d);
    FewerPairs(
      Pairs(a, c, d) + Pairs(b, c, d), Number(a, c), Number(b, d),
      Pairs(pat, c, d), Number(pat, c), Number(pat, d));
  }

  lemma FewerPairs(rest: nat, x: nat, y: nat, inner: nat, p: nat, q: nat)
    requires inner >= 1 && p >= 1 && q >= 1
    ensures rest + x * 1 + 0 + (x + 1) * y < rest + x * q + inner + (x + p) * y
  {
    assert x * q >= x;
    assert (x + p) * y >= (x + 1) * y;
  }

  // The marker's ends are no letters of such a pair, so it makes no new ones with its
  // neighbours.
  lemma AdjacentFalls(a: string, pat: string, b: string, k: nat)
    requires k + 1 < |pat| && InMarker(pat[k + 1]) && Place(pat[k + 1]) > Place(pat[k]) + 1
    ensures Adjacent(a + Marker() + b, pat[k], pat[k + 1]) < Adjacent(a + pat + b, pat[k], pat[k + 1])
  {
    var c, d := pat[k], pat[k + 1];
    MarkerPlaces();
    AdjacentIn(Marker(), c, d);
    AdjacentIn(pat, c, d);
    AdjacentAppend(a + pat, b, c, d);
    AdjacentAppend(a, pat, c, d);
    AdjacentAppend(a + Marker(), b, c, d);
    AdjacentAppend(a, Marker(), c, d);
  }

  // ---- when the loop ends ----

  ghost predicate Halts(pat: string) {
    pat != "" && !Occurs(pat, Marker())
  }

  ghost function Slip(pat: string): (k: nat)
    requires Halts(pat) && !HasForeign(pat)
    ensures Slips(pat, k)
  {
    SlipExists(pat);
    var k: nat :| Slips(pat, k);
    k
  }

  // A bound of the rounds that are left.
  ghost function Weight(s: string, pat: string): nat {
    if !Halts(pat) then 0
    else if HasForeign(pat) then Foreign(s)
    else
      var k := Slip(pat);
      if Place(pat[k + 1]) <= Place(pat[k]) then Pairs(s, pat[k], pat[k + 1])
      else Adjacent(s, pat[k], pat[k + 1])
  }

  lemma WeightFalls(s: string, pat: string, i: nat)
    requires Halts(pat) && OccursAt(pat, s, i)
    ensures Weight(ReplaceAt(s, pat, i), pat) < Weight(s, pat)
  {
    var a, b := s[..i], s[i + |pat|..];
    assert s == a + pat + b;
    if HasForeign(pat) {
      ForeignFalls(a, pat, b);
    } else {
      var k := Slip(pat);
      assert pat[k] in pat && pat[k + 1] in pat;
      if Place(pat[k + 1]) <= Place(pat[k]) {
        PairsFall(a, pat, b, k);
      } else {
        AdjacentFalls(a, pat, b, k);
      }
    }
  }

  lemma MarkerFeedsLoop(s: string, pat: string, i: nat)
    requires OccursAt(pat, s, i) && Occurs(pat, Marker())
    ensures Occurs(pat, ReplaceAt(s, pat, i))
  {
    var j: nat :| OccursAt(pat, Marker(), j);
    var t := ReplaceAt(s, pat, i);
    assert t[i..i + |Marker()|] == Marker();
    assert t[i + j..i + j + |pat|] == Marker()[j..j + |pat|];
    assert OccursAt(pat, t, i + j);
  }

  lemma RoundWeighsLess(s: string, pat: string)
    requires Halts(pat) && Occurs(pat, s)
    ensures Weight(Round(s, pat), pat) < Weight(s, pat)
  {
    WeightFalls(s, pat, StrStr(s, pat, 0).value);
  }

  // The loop is done within as many rounds as the line weighs.
  lemma LoopEnds(s: string, pat: string)
    requires Halts(pat)
    ensures !Occurs(pat, Rounds(s, pat, Weight(s, pat)))
  {
    forall t: string | Occurs(pat, t)
      ensures Weight(Round(t, pat), pat) < Weight(t, pat)
    {
      RoundWeighsLess(t, pat);
    }
    RoundsEnd(s, pat, Weight(s, pat), t => Occurs(pat, t), t => Weight(t, pat));
  }

  // A pattern inside the marker that occurs in the line occurs after any number of rounds.
  lemma NeverEnds(s: string, pat: string, n: nat)
    requires Occurs(pat, s) && Occurs(pat, Marker())
    ensures Occurs(pat, Rounds(s, pat, n))
  {
    forall t: string | Occurs(pat, t)
      ensures Occurs(pat, Round(t, pat))
    {
      MarkerFeedsLoop(t, pat, StrStr(t, pat, 0).value);
    }
    RoundsKeep(s, pat, n, t => Occurs(pat, t));
  }

  ghost predicate Stops(s: string, pat: string) {
    exists n: nat :: !Occurs(pat, Rounds(s, pat, n))
  }

  ghost predicate HaltsOn(s: string, pat: string) {
    pat != "" && (Occurs(pat, s) ==> !Occurs(pat, Marker()))
  }

  // On a line the loop ends exactly when the pattern is not in the line or not in the marker.
  lemma StopsIff(s: string, pat: string)
    requires pat != ""
    ensures Stops(s, pat) <==> HaltsOn(s, pat)
  {
    if Halts(pat) {
      LoopEnds(s, pat);
    } else if Occurs(pat, s) {
      forall n: nat
        ensures Occurs(pat, Rounds(s, pat, n))
      {
        NeverEnds(s, pat, n);
      }
    } else {
      assert Rounds(s, pat, 0) == s;
    }
  }

  // It ends on every line exactly when the pattern is not in the marker.
  lemma LoopEndsIff(pat: string)
    requires pat != ""
    ensures (forall s: string :: Stops(s, pat)) <==> !Occurs(pat, Marker())
  {
    if Occurs(pat, Marker()) {
      assert OccursAt(pat, pat, 0);
      StopsIff(pat, pat);
    } else {
      forall s: string
        ensures Stops(s, pat)
      {
        StopsIff(s, pat);
      }
    }
  }

  // ---- the replaced line ----

  ghost function ReplaceAll(s: string, pat: string): string
    requires HaltsOn(s, pat)
    decreases Weight(s, pat)
  {
    match StrStr(s, pat, 0)
    case None => s
    case Some(i) =>
      WeightFalls(s, pat, i);
      ReplaceAll(ReplaceAt(s, pat, i), pat)
  }

  // It is what any number of rounds that leaves no occurrence makes of the line.
  lemma ReplaceAllIsRounds(s: string, pat: string, n: nat)
    requires HaltsOn(s, pat) && !Occurs(pat, Rounds(s, pat, n))
    ensures ReplaceAll(s, pat) == Rounds(s, pat, n)
  {
    var r := ReplaceAll(s, pat);
    forall t: string | Reaches(t, pat, r)
      ensures Reaches(Round(t, pat), pat, r)
    {
      ReplaceAllStep(t, pat);
    }
    RoundsKeep(s, pat, n, t => Reaches(t, pat, r));
  }

  ghost predicate Reaches(t: string, pat: string, r: string) {
    HaltsOn(t, pat) && ReplaceAll(t, pat) == r
  }

  lemma ReplaceAllStep(t: string, pat: string)
    requires HaltsOn(t, pat)
    ensures Reaches(Round(t, pat), pat, ReplaceAll(t, pat))
  {
  }

  lemma {:induction false} ReplaceAllClears(s: string, pat: string)
    requires HaltsOn(s, pat)
    ensures !Occurs(pat, ReplaceAll(s, pat))
    decreases Weight(s, pat)
  {
    var at := StrStr(s, pat, 0);
    if at.Some? {
      WeightFalls(s, pat, at.value);
      ReplaceAllClears(ReplaceAt(s, pat, at.value), pat);
    }
  }

  // ---- when the line fits its buffer ----

  lemma {:induction false} LoopLength(s: string, pat: string)
    requires HaltsOn(s, pat)
    ensures |pat| >= 5 ==> |ReplaceAll(s, pat)| <= |s|
    ensures |pat| <= 5 ==> |ReplaceAll(s, pat)| >= |s|
    decreases Weight(s, pat)
  {
    var at := StrStr(s, pat, 0);
    if at.Some? {
      WeightFalls(s, pat, at.value);
      LoopLength(ReplaceAt(s, pat, at.value), pat);
    }
  }

  lemma LoneOccurrence(pat: string)
    requires Halts(pat)
    ensures ReplaceAll(pat, pat) == Marker()
  {
    var at := StrStr(pat, pat, 0);
    assert OccursAt(pat, pat, 0) && at == Some(0);
    assert ReplaceAt(pat, pat, 0) == Marker();
  }

  ghost predicate StillFits(s: string, pat: string, cap: nat)
    requires Halts(pat)
  {
    |s| < cap ==> |ReplaceAll(s, pat)| < cap
  }

  // Every line that fits its buffer still fits it after the loop exactly when the pattern is
  // at least as long as the marker. HOME="/" is a setting on which it grows.
  lemma AlwaysFitsIff(pat: string)
    requires Halts(pat)
    ensures (forall s: string, cap: nat :: StillFits(s, pat, cap)) <==> |pat| >= 5
  {
    if |pat| >= 5 {
      forall s: string, cap: nat
        ensures StillFits(s, pat, cap)
      {
        LoopLength(s, pat);
      }
    } else {
      LoneOccurrence(pat);
      assert |Marker()| == 5;
      assert !StillFits(pat, pat, |pat| + 1);
    }
  }

  // A pattern that starts with another character than the marker's is not in the marker.
  lemma OutsideMarkerHalts(pat: string)
    requires pat != "" && !InMarker(pat[0])
    ensures Halts(pat)
  {
    forall i: nat
      ensures !OccursAt(pat, Marker(), i)
    {
      if OccursAt(pat, Marker(), i) {
        SameChar(pat, Marker(), i, 0);
        MarkerPlaces();
      }
    }
  }

  lemma RootHomeGrows()
    ensures Halts("/") && ReplaceAll("/", "/") == Marker()
  {
    OutsideMarkerHalts("/");
    LoneOccurrence("/");
  }
}
