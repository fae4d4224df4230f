// The redaction of a support bundle: every occurrence of the home directory and of
// "/home/<user>" is replaced in place by "$HOME".
module Redact {
  import opened Status
  import opened Text
  import opened Replace

  // ---- the two loops ----

  function UserPattern(user: string): string {
    Clip("/home/" + user, 128)
  }

  // An unset or empty variable is skipped; with any other home directory the loop ends.
  ghost predicate GoodHome(s: string, home: Option<string>) {
    home.None? || home.value == "" || (HaltsOn(s, home.value) && '\0' !in home.value)
  }

  predicate GoodUser(user: Option<string>) {
    user.None? || '\0' !in user.value
  }

  lemma UserPatternIsGood(user: string)
    ensures var pat := UserPattern(user);
      Halts(pat) && |pat| >= 5 && !InMarker(pat[0]) && ('\0' !in user ==> '\0' !in pat)
  {
    var whole, pat := "/home/" + user, UserPattern(user);
    assert "/home/"[0] == '/';
    assert '\0' !in "/home/";
    assert pat[0] == whole[0] == '/';
    OutsideMarkerHalts(pat);
  }

  ghost function AfterHome(s: string, home: Option<string>): string
    requires GoodHome(s, home)
  {
    if home.Some? && home.value != "" then ReplaceAll(s, home.value) else s
  }

  ghost function Redacted(s: string, home: Option<string>, user: Option<string>): string
    requires GoodHome(s, home) && GoodUser(user)
  {
    var t := AfterHome(s, home);
    if user.Some? && user.value != "" then
      UserPatternIsGood(user.value);
      ReplaceAll(t, UserPattern(user.value))
    else t
  }

  // ---- how a replacement makes an occurrence ----

  // The marker may come to lie over the places k..k+5 of q, a negative k meaning that q
  // starts inside it.
  predicate Agrees(q: string, k: int) {
    -5 < k < |q| && forall m: nat | m < |q| && k <= m < k + 5 :: q[m] == Marker()[m - k]
  }

  function Front(q: string, k: int): string
    requires k < |q|
  {
    if k <= 0 then "" else q[..k]
  }

  function Back(q: string, k: int): string
    requires -5 < k
  {
    if k + 5 >= |q| then "" else q[k + 5..]
  }

  // What of q lies before and behind the marker, around another text.
  function Around(q: string, text: string, k: int): string
    requires -5 < k < |q|
  {
    Front(q, k) + text + Back(q, k)
  }

  lemma AroundAt(q: string, text: string, k: int, m: nat)
    requires -5 < k < |q| && m < |Around(q, text, k)|
    ensures var f := |Front(q, k)|;
      && f == (if k < 0 then 0 else k)
      && Around(q, text, k)[m] ==
        if m < f then q[m] else if m < f + |text| then text[m - f] else q[m - f - |text| + k + 5]
  {
  }

  lemma AroundLength(q: string, text: string, k: int)
    requires -5 < k < |q|
    ensures |Around(q, text, k)| ==
      (if k < 0 then 0 else k) + |text| + if k + 5 >= |q| then 0 else |q| - k - 5
  {
  }

  // The marker can lie there, and the line with pat in its place, whose first occurrence of
  // pat that is, does not hold q yet.
  ghost predicate ComesAt(q: string, pat: string, k: int) {
    && Agrees(q, k)
    && StrStr(Around(q, pat, k), pat, 0) == Some(|Front(q, k)|)
    && !Occurs(q, Around(q, pat, k))
  }

  ghost predicate Comes(q: string, pat: string) {
    exists k: int :: ComesAt(q, pat, k)
  }

  lemma ReplacedAt(s: string, pat: string, i: nat, x: nat)
    requires i + |pat| <= |s| && x < |ReplaceAt(s, pat, i)|
    ensures ReplaceAt(s, pat, i)[x] ==
      if x < i then s[x] else if x < i + 5 then Marker()[x - i] else s[x - 5 + |pat|]
  {
    MarkerPlaces();
  }

  // An occurrence outside the marker was there before.
  lemma OccurredBefore(s: string, pat: string, i: nat, q: string, j: nat)
    requires i + |pat| <= |s| && OccursAt(q, ReplaceAt(s, pat, i), j)
    requires j + |q| <= i || i + 5 <= j
    ensures OccursAt(q, s, if j + |q| <= i then j else j - 5 + |pat|)
  {
    MarkerPlaces();
    var t, k: nat := ReplaceAt(s, pat, i), if j + |q| <= i then j else j - 5 + |pat|;
    forall m: nat | m < |q|
      ensures s[k + m] == q[m]
    {
      ReplacedAt(s, pat, i, j + m);
      SameChar(q, t, j, m);
    }
    assert s[k..k + |q|] == q;
  }

  lemma OccursWithin(q: string, w: string, s: string, b: nat, j: nat)
    requires OccursAt(w, s, b) && OccursAt(q, w, j)
    ensures OccursAt(q, s, b + j)
  {
    forall m: nat | m < |q|
      ensures s[b + j + m] == q[m]
    {
      SameChar(w, s, b, j + m);
      SameChar(q, w, j, m);
    }
    assert s[b + j..b + j + |q|] == q;
  }

  // What an occurrence over the marker was made from is part of the line.
  lemma BeforeIsPart(s: string, pat: string, i: nat, q: string, j: nat)
    requires OccursAt(pat, s, i) && OccursAt(q, ReplaceAt(s, pat, i), j)
    requires -5 < i - j < |q|
    ensures OccursAt(Around(q, pat, i - j), s, if j <= i then j else i)
  {
    var k, b: nat := i - j, if j <= i then j else i;
    if k > 0 {
      FrontWas(s, pat, i, q, j);
    }
    BackWas(s, pat, i, q, j);
    ThreeParts(s, b, Front(q, k), pat, Back(q, k));
  }

  lemma ThreeParts(s: string, b: nat, x: string, y: string, z: string)
    requires OccursAt(x, s, b) && OccursAt(y, s, b + |x|) && OccursAt(z, s, b + |x| + |y|)
    ensures OccursAt(x + y + z, s, b)
  {
    var w := x + y + z;
    assert s[b..b + |w|] == s[b..b + |x|] + s[b + |x|..b + |x| + |y|] + s[b + |x| + |y|..b + |w|];
  }

  lemma FrontWas(s: string, pat: string, i: nat, q: string, j: nat)
    requires OccursAt(pat, s, i) && OccursAt(q, ReplaceAt(s, pat, i), j) && 0 < i - j < |q|
    ensures OccursAt(q[..i - j], s, j)
  {
    var front := q[..i - j];
    forall m: nat | m < |front|
      ensures s[j + m] == front[m]
    {
      OutsideAt(s, pat, i, q, j, m);
    }
    assert s[j..j + |front|] == front;
  }

  lemma BackWas(s: string, pat: string, i: nat, q: string, j: nat)
    requires OccursAt(pat, s, i) && OccursAt(q, ReplaceAt(s, pat, i), j) && -5 < i - j < |q|
    ensures OccursAt(Back(q, i - j), s, i + |pat|)
  {
    var back, at := Back(q, i - j), i + |pat|;
    if back == "" {
      assert s[at..at] == "";
    } else {
      assert |back| == |q| - (i - j + 5);
      forall m: nat | m < |back|
        ensures at + m < |s| && s[at + m] == back[m]
      {
        OutsideAt(s, pat, i, q, j, i - j + 5 + m);
      }
      assert at + (|back| - 1) < |s|;
      assert s[at..at + |back|] == back;
    }
  }

  // A character of the occurrence that does not lie over the marker was there before.
  lemma OutsideAt(s: string, pat: string, i: nat, q: string, j: nat, x: nat)
    requires OccursAt(pat, s, i) && OccursAt(q, ReplaceAt(s, pat, i), j)
    requires x < |q| && (j + x < i || i + 5 <= j + x)
    ensures var n := if j + x < i then j + x else j + x - 5 + |pat|;
      n < |s| && s[n] == q[x]
  {
    MarkerPlaces();
    SameChar(q, ReplaceAt(s, pat, i), j, x);
    ReplacedAt(s, pat, i, j + x);
  }

  lemma CreatedAgrees(s: string, pat: string, i: nat, q: string, j: nat)
    requires OccursAt(pat, s, i) && OccursAt(q, ReplaceAt(s, pat, i), j)
    requires -5 < i - j < |q|
    ensures Agrees(q, i - j)
  {
    forall m: nat | m < |q| && i - j <= m < i - j + 5
      ensures q[m] == Marker()[m - (i - j)]
    {
      SameChar(q, ReplaceAt(s, pat, i), j, m);
      ReplacedAt(s, pat, i, j + m);
    }
  }

  // A replacement that makes the first occurrence of q makes it in one of these ways.
  lemma CreatedAt(s: string, pat: string, i: nat, q: string, j: nat)
    requires StrStr(s, pat, 0) == Some(i) && !Occurs(q, s)
    requires OccursAt(q, ReplaceAt(s, pat, i), j)
    ensures ComesAt(q, pat, i - j)
  {
    if j + |q| <= i || i + 5 <= j {
      OccurredBefore(s, pat, i, q, j);
      assert false;
    } else {
      CreatedAgrees(s, pat, i, q, j);
      BeforeIsPart(s, pat, i, q, j);
      PartIsBefore(s, pat, i, q, i - j, if j <= i then j else i);
    }
  }

  lemma PartIsBefore(s: string, pat: string, i: nat, q: string, k: int, b: nat)
    requires -5 < k < |q| && b + |Front(q, k)| == i && OccursAt(Around(q, pat, k), s, b)
    requires StrStr(s, pat, 0) == Some(i) && !Occurs(q, s)
    ensures StrStr(Around(q, pat, k), pat, 0) == Some(|Front(q, k)|)
    ensures !Occurs(q, Around(q, pat, k))
  {
    var w, f := Around(q, pat, k), |Front(q, k)|;
    assert w[f..f + |pat|] == pat;
    PartOfLine(q, s, w, b);
    assert OccursAt(pat, w, f);
    forall m: nat | m < f && OccursAt(pat, w, m)
      ensures false
    {
      OccursWithin(pat, w, s, b, m);
    }
  }

  lemma PartOfLine(q: string, s: string, w: string, b: nat)
    requires OccursAt(w, s, b) && !Occurs(q, s)
    ensures !Occurs(q, w)
  {
    forall m: nat | OccursAt(q, w, m)
      ensures false
    {
      OccursWithin(q, w, s, b, m);
    }
  }

  lemma {:induction false} ReplaceAllCreatesNone(s: string, pat: string, q: string)
    requires HaltsOn(s, pat) && !Occurs(q, s) && !Comes(q, pat)
    ensures !Occurs(q, ReplaceAll(s, pat))
    decreases Weight(s, pat)
  {
    var at := StrStr(s, pat, 0);
    if at.Some? {
      var t := ReplaceAt(s, pat, at.value);
      WeightFalls(s, pat, at.value);
      forall j: nat | OccursAt(q, t, j)
        ensures false
      {
        CreatedAt(s, pat, at.value, q, j);
      }
      ReplaceAllCreatesNone(t, pat, q);
    }
  }

  // ---- the failing half ----

  // Where '$' stands in both, the pattern ends in none of the letters H, O, M and E.
  predicate PlainEnd(pat: string, q: string)
    requires pat != ""
  {
    '$' in pat && '$' in q ==> pat[|pat| - 1] == '$' || !InMarker(pat[|pat| - 1])
  }

  lemma AfterIsReplaced(q: string, pat: string, k: int)
    requires -5 < k < |q|
    ensures ReplaceAt(Around(q, pat, k), pat, |Front(q, k)|) == Around(q, Marker(), k)
  {
    var w, f := Around(q, pat, k), Front(q, k);
    assert w[..|f|] == f;
    assert w[|f| + |pat|..] == Back(q, k);
  }

  lemma AfterHolds(q: string, k: int)
    requires Agrees(q, k)
    ensures OccursAt(q, Around(q, Marker(), k), if k < 0 then -k else 0)
  {
    var r, x: nat := Around(q, Marker(), k), if k < 0 then -k else 0;
    AroundLength(q, Marker(), k);
    MarkerPlaces();
    forall m: nat | m < |q|
      ensures r[x + m] == q[m]
    {
      AfterAt(q, k, m);
    }
    assert r[x..x + |q|] == q;
  }

  lemma AfterAt(q: string, k: int, m: nat)
    requires Agrees(q, k) && m < |q|
    ensures var n := m + if k < 0 then -k else 0;
      n < |Around(q, Marker(), k)| && Around(q, Marker(), k)[n] == q[m]
  {
    MarkerPlaces();
    AroundLength(q, Marker(), k);
    AroundAt(q, Marker(), k, m + if k < 0 then -k else 0);
  }

  // The line made is done with: pat would have to lie in q, or to end inside the marker.
  lemma AfterIsDone(q: string, pat: string, k: int)
    requires Agrees(q, k) && pat != "" && !InMarker(pat[0]) && PlainEnd(pat, q) && !Occurs(pat, q)
    ensures !Occurs(pat, Around(q, Marker(), k))
  {
    var r, x: nat := Around(q, Marker(), k), if k < 0 then -k else 0;
    AfterHolds(q, k);
    forall p: nat | OccursAt(pat, r, p)
      ensures false
    {
      if p < x {
        StartsInMarker(q, pat, k, p);
      } else if p + |pat| <= x + |q| {
        InnerOccurs(pat, q, r, x, p);
      } else {
        EndsInMarker(q, pat, k, p);
      }
    }
  }

  lemma InnerOccurs(pat: string, q: string, s: string, x: nat, p: nat)
    requires OccursAt(q, s, x) && OccursAt(pat, s, p) && x <= p && p + |pat| <= x + |q|
    ensures OccursAt(pat, q, p - x)
  {
    forall m: nat | m < |pat|
      ensures q[p - x + m] == pat[m]
    {
      SameChar(pat, s, p, m);
      SameChar(q, s, x, p - x + m);
    }
    assert q[p - x..p - x + |pat|] == pat;
  }

  lemma StartsInMarker(q: string, pat: string, k: int, p: nat)
    requires -5 < k < |q| && pat != "" && OccursAt(pat, Around(q, Marker(), k), p) && p < -k
    ensures InMarker(pat[0])
  {
    MarkerPlaces();
    SameChar(pat, Around(q, Marker(), k), p, 0);
    AroundAt(q, Marker(), k, p);
  }

  lemma EndsInMarker(q: string, pat: string, k: int, p: nat)
    requires Agrees(q, k) && pat != "" && !InMarker(pat[0]) && OccursAt(pat, Around(q, Marker(), k), p)
    requires p + |pat| > |q| + if k < 0 then -k else 0
    ensures !PlainEnd(pat, q)
  {
    var r, last := Around(q, Marker(), k), |pat| - 1;
    var f := if k < 0 then 0 else k;
    MarkerPlaces();
    AroundLength(q, Marker(), k);
    SameChar(pat, r, p, 0);
    AroundAt(q, Marker(), k, p);
    SameChar(pat, r, p, last);
    AroundAt(q, Marker(), k, p + last);
    assert f < p + last < f + 5 && p < f;
    SameChar(pat, r, p, f - p);
    AroundAt(q, Marker(), k, f);
    assert q[k] == Marker()[k - k];
  }

  ghost predicate Creates(s: string, pat: string, q: string)
    requires Halts(pat)
  {
    !Occurs(q, s) && Occurs(q, ReplaceAll(s, pat))
  }

  lemma BeforeCreates(q: string, pat: string, k: int)
    requires ComesAt(q, pat, k) && Halts(pat) && !InMarker(pat[0]) && PlainEnd(pat, q) && !Occurs(pat, q)
    ensures Creates(Around(q, pat, k), pat, q)
  {
    var s, r := Around(q, pat, k), Around(q, Marker(), k);
    AfterIsReplaced(q, pat, k);
    AfterHolds(q, k);
    AfterIsDone(q, pat, k);
    assert ReplaceAll(r, pat) == r;
  }

  lemma PatternHolderGoes(s: string, pat: string, q: string)
    requires HaltsOn(s, pat) && Occurs(pat, q)
    ensures !Occurs(q, ReplaceAll(s, pat))
  {
    var r := ReplaceAll(s, pat);
    var j: nat :| OccursAt(pat, q, j);
    ReplaceAllClears(s, pat);
    forall i: nat | OccursAt(q, r, i)
      ensures false
    {
      OccursWithin(pat, q, r, i, j);
    }
  }

  lemma NotCreated(s: string, pat: string, q: string)
    requires HaltsOn(s, pat) && !Occurs(q, s)
    requires Occurs(pat, q) || !Comes(q, pat)
    ensures !Occurs(q, ReplaceAll(s, pat))
  {
    if Occurs(pat, q) {
      PatternHolderGoes(s, pat, q);
    } else {
      ReplaceAllCreatesNone(s, pat, q);
    }
  }

  // Replacing pat throughout never makes an occurrence of q exactly when q holds pat or no
  // place of q admits the marker so.
  lemma CreatesNoneIff(pat: string, q: string)
    requires pat != "" && !InMarker(pat[0]) && PlainEnd(pat, q) && Halts(pat)
    ensures (forall s: string :: !Creates(s, pat, q)) <==> Occurs(pat, q) || !Comes(q, pat)
  {
    if Occurs(pat, q) || !Comes(q, pat) {
      forall s: string
        ensures !Creates(s, pat, q)
      {
        if !Occurs(q, s) {
          NotCreated(s, pat, q);
        }
      }
    } else {
      var k: int :| ComesAt(q, pat, k);
      BeforeCreates(q, pat, k);
    }
  }

  // ---- completeness ----

  ghost predicate Removed(s: string, home: string, user: string)
    requires '\0' !in home && '\0' !in user
  {
    home != "" && HaltsOn(s, home) ==> !Occurs(home, Redacted(s, Some(home), Some(user)))
  }

  // The redacted text never holds the home directory exactly under that condition.
  lemma HomeRemovedIff(home: string, user: string)
    requires home != "" && user != "" && '\0' !in home && '\0' !in user && PlainEnd(UserPattern(user), home)
    ensures (forall s: string :: Removed(s, home, user)) <==>
      Occurs(UserPattern(user), home) || !Comes(home, UserPattern(user))
  {
    var pat := UserPattern(user);
    UserPatternIsGood(user);
    if Occurs(pat, home) || !Comes(home, pat) {
      forall s: string
        ensures Removed(s, home, user)
      {
        if HaltsOn(s, home) {
          RedactionIsComplete(s, Some(home), Some(user));
        }
      }
    } else {
      var k: int :| ComesAt(home, pat, k);
      BeforeCreates(home, pat, k);
      ComesBackFrom(Around(home, pat, k), home, user);
    }
  }

  lemma ComesBackFrom(s: string, home: string, user: string)
    requires home != "" && user != "" && '\0' !in home && '\0' !in user
    requires Halts(UserPattern(user)) && Creates(s, UserPattern(user), home)
    ensures !Removed(s, home, user)
  {
    assert ReplaceAll(s, home) == s;
  }

  // The redacted text does not hold "/home/<user>", nor the home directory if the user's
  // pattern cannot make it.
  lemma RedactionIsComplete(s: string, home: Option<string>, user: Option<string>)
    requires GoodHome(s, home) && GoodUser(user)
    ensures var r := Redacted(s, home, user);
      && (user.Some? && user.value != "" ==> !Occurs("/home/" + user.value, r))
      && (home.Some? && home.value != "" && NotMade(home.value, user) ==> !Occurs(home.value, r))
  {
    var t := AfterHome(s, home);
    if home.Some? && home.value != "" {
      ReplaceAllClears(s, home.value);
    }
    if user.Some? && user.value != "" {
      UserPatternIsGood(user.value);
      var pat := UserPattern(user.value);
      ReplaceAllClears(t, pat);
      if home.Some? && home.value != "" && NotMade(home.value, user) {
        NotCreated(t, pat, home.value);
      }
      assert ("/home/" + user.value)[..|pat|] == pat;
      PrefixAbsent("/home/" + user.value, |pat|, ReplaceAll(t, pat));
    }
  }

  ghost predicate NotMade(home: string, user: Option<string>) {
    user.None? || user.value == ""
    || Occurs(UserPattern(user.value), home) || !Comes(home, UserPattern(user.value))
  }

  lemma PrefixAbsent(pat: string, n: nat, s: string)
    requires n <= |pat| && !Occurs(pat[..n], s)
    ensures !Occurs(pat, s)
  {
    forall i: nat | OccursAt(pat, s, i)
      ensures false
    {
      assert s[i..i + n] == s[i..i + |pat|][..n];
      assert OccursAt(pat[..n], s, i);
    }
  }

  // So it is with every absolute path without '$'.
  lemma PlainHomeIsNotMade(home: string, pat: string)
    requires home != "" && !InMarker(home[0]) && '$' !in home
    ensures !Comes(home, pat)
  {
    if k: int :| Agrees(home, k) {
      MarkerMeets(home, k);
    }
  }

  lemma MarkerMeets(q: string, k: int)
    requires q != "" && Agrees(q, k)
    ensures if k >= 0 then q[k] == '$' else InMarker(q[0])
  {
    MarkerPlaces();
    if k >= 0 {
      assert q[k] == Marker()[k - k];
    } else {
      assert q[0] == Marker()[0 - k];
    }
  }

  // Of the three conditions the last one follows where the pattern holds no '$' and the home
  // directory starts outside the marker's letters: the line then has fewer '$'.
  lemma ComesPlainlyIff(q: string, pat: string, k: int)
    requires q != "" && !InMarker(q[0]) && '$' !in pat
    ensures ComesAt(q, pat, k) <==>
      Agrees(q, k) && StrStr(Around(q, pat, k), pat, 0) == Some(|Front(q, k)|)
  {
    if Agrees(q, k) {
      MarkerMeets(q, k);
      FewerMarks(q, pat, k);
      if Occurs(q, Around(q, pat, k)) {
        MarksOfPart(q, Around(q, pat, k));
      }
    }
  }

  lemma FewerMarks(q: string, pat: string, k: nat)
    requires k < |q| && q[k] == '$' && '$' !in pat
    ensures Number(Around(q, pat, k), '$') < Number(q, '$')
  {
    var between := SplitAtMark(q, k);
    MarksWithout(Front(q, k), between, Back(q, k), pat);
  }

  lemma SplitAtMark(q: string, k: nat) returns (between: string)
    requires k < |q| && q[k] == '$'
    ensures q == Front(q, k) + (['$'] + (between + Back(q, k)))
  {
    between := q[k + 1..if k + 5 >= |q| then |q| else k + 5];
    assert q[k + 1..] == between + Back(q, k);
    assert q[k..] == [q[k]] + q[k + 1..];
    assert q == q[..k] + q[k..];
  }

  lemma MarksWithout(front: string, between: string, back: string, pat: string)
    requires '$' !in pat
    ensures Number(front + pat + back, '$') < Number(front + (['$'] + (between + back)), '$')
  {
    NumberAppend(front + pat, back, '$');
    NumberAppend(front, pat, '$');
    NumberIn(pat, '$');
    NumberAppend(front, ['$'] + (between + back), '$');
    NumberAppend(['$'], between + back, '$');
    NumberAppend(between, back, '$');
  }

  lemma MarksOfPart(q: string, s: string)
    requires Occurs(q, s)
    ensures Number(q, '$') <= Number(s, '$')
  {
    var i: nat :| OccursAt(q, s, i);
    var a, b := s[..i], s[i + |q|..];
    assert s == a + q + b;
    NumberAppend(a + q, b, '$');
    NumberAppend(a, q, '$');
  }

  lemma CharOccurs(pat: string, s: string, c: char)
    requires Occurs(pat, s) && c in pat
    ensures c in s
  {
    var i: nat :| OccursAt(pat, s, i);
    var k: nat :| k < |pat| && pat[k] == c;
    SameChar(pat, s, i, k);
  }

  lemma BothAbsent()
    ensures !Occurs("/a$HOME", "/a/home/x") && !Occurs("/home/x", "/a$HOME")
  {
    var s, home, pat := "/a/home/x", "/a$HOME", "/home/x";
    assert home[2] == '$' && pat[6] == 'x';
    if Occurs(home, s) {
      CharOccurs(home, s, '$');
    }
    if Occurs(pat, home) {
      CharOccurs(pat, home, 'x');
    }
  }

  lemma ReplacedOnce()
    ensures Round("/a/home/x", "/home/x") == "/a$HOME"
  {
    var s, pat := "/a/home/x", "/home/x";
    assert s[2..2 + |pat|] == pat;
    assert s[0..7] == "/a/home" && s[1..8] == "a/home/";
    assert StrStr(s, pat, 0) == Some(2);
  }

  lemma RedactedIs(s: string, home: string, user: string)
    requires home != "" && user != "" && '\0' !in home && '\0' !in user
    requires !Occurs(home, s) && Round(s, UserPattern(user)) == home && !Occurs(UserPattern(user), home)
    ensures Redacted(s, Some(home), Some(user)) == home
  {
    var pat := UserPattern(user);
    UserPatternIsGood(user);
    ReplaceAllStep(s, pat);
    assert ReplaceAll(home, pat) == home;
    assert AfterHome(s, Some(home)) == s;
  }

  // A home directory that holds the marker comes back.
  lemma HomeComesBack()
    ensures GoodHome("/a/home/x", Some("/a$HOME")) && GoodUser(Some("x"))
    ensures Redacted("/a/home/x", Some("/a$HOME"), Some("x")) == "/a$HOME"
  {
    assert UserPattern("x") == "/home/x";
    BothAbsent();
    ReplacedOnce();
    RedactedIs("/a/home/x", "/a$HOME", "x");
  }

  // ---- in place ----

  // The string a line buffer holds.
  ghost function Content(line: array<char>): string
    reads line
  {
    CText(line[..])
  }

  ghost predicate Terminated(line: array<char>)
    reads line
  {
    '\0' in line[..]
  }

  lemma BufferHolds(buf: string, t: string)
    requires |t| < |buf| && buf[..|t|] == t && buf[|t|] == '\0' && '\0' !in t
    ensures CText(buf) == t && '\0' in buf
  {
    IndexOfIn(buf, '\0', |t|);
  }

  lemma NoNulReplaced(s: string, pat: string, i: nat)
    requires i + |pat| <= |s| && '\0' !in s
    ensures '\0' !in ReplaceAt(s, pat, i)
  {
    MarkerPlaces();
  }

  // sanitize_line; fits says whether the line stays inside its buffer.
  method SanitizeLine(line: array<char>, home: Option<string>, user: Option<string>) returns (fits: bool)
    requires Terminated(line) && GoodHome(Content(line), home) && GoodUser(user)
    modifies line
    ensures fits <==> |AfterHome(old(Content(line)), home)| < line.Length
    ensures fits ==> Terminated(line) && Content(line) == Redacted(old(Content(line)), home, user)
  {
    fits := true;
    ContentFits(line);
    if home.Some? && home.value != "" {
      fits := ReplaceInPlace(line, home.value);
      if !fits {
        return;
      }
    }
    if user.Some? && user.value != "" {
      UserPatternIsGood(user.value);
      LoopLength(Content(line), UserPattern(user.value));
      ContentFits(line);
      fits := ReplaceInPlace(line, UserPattern(user.value));
    }
  }

  lemma ContentFits(line: array<char>)
    requires Terminated(line)
    ensures |Content(line)| < line.Length
  {
    var i := IndexOf(line[..], '\0');
    assert line[..][..i] == Content(line);
  }

  // One of the two while loops. It ends with false as soon as a replacement would run past
  // the buffer or take its terminator.
  method ReplaceInPlace(line: array<char>, pat: string) returns (fits: bool)
    requires Terminated(line) && HaltsOn(Content(line), pat) && '\0' !in pat
    modifies line
    ensures fits <==> |ReplaceAll(old(Content(line)), pat)| < line.Length
    ensures fits ==> Terminated(line) && Content(line) == ReplaceAll(old(Content(line)), pat)
  {
    var len := StrLen(line, 0);
    var at := StrStr(line[..len], pat, 0);
    while at.Some?
      invariant Terminated(line) && len == |Content(line)| < line.Length && Content(line) == line[..len]
      invariant at == StrStr(line[..len], pat, 0)
      invariant HaltsOn(Content(line), pat)
      invariant ReplaceAll(Content(line), pat) == ReplaceAll(old(Content(line)), pat)
      decreases Weight(Content(line), pat)
    {
      var p := at.value;
      ghost var s := line[..len];
      WeightFalls(s, pat, p);
      LoopLength(ReplaceAt(s, pat, p), pat);
      if len - |pat| + 5 >= line.Length {
        return false;
      }
      len := ReplaceOnce(line, pat, p, s);
      NoNulReplaced(s, pat, p);
      BufferHolds(line[..], ReplaceAt(s, pat, p));
      at := StrStr(line[..len], pat, 0);
    }
    return true;
  }

  // The body of the loop: move the tail behind the marker's place, then write the marker.
  method ReplaceOnce(line: array<char>, pat: string, p: nat, ghost s: string) returns (len: nat)
    requires Terminated(line) && Content(line) == s && p + |pat| <= |s| && |s| - |pat| + 5 < line.Length
    modifies line
    ensures len == |ReplaceAt(s, pat, p)| < line.Length
    ensures line[..len] == ReplaceAt(s, pat, p) && line[len] == '\0'
  {
    var tail := StrLen(line, p + |pat|);
    ghost var before := line[..];
    assert before[..|s|] == s && before[|s|] == '\0';
    if p + 6 <= line.Length {
      MemMove(line, p + 5, p + |pat|, tail + 1);
    }
    ghost var moved := line[..];
    assert moved[..p] == moved[..p + 5][..p] && before[..p] == before[..p + 5][..p];
    ReplacedBuffer(before, moved, s, pat, p);
    MemCpyMarker(line, p);
    len := p + 5 + tail;
  }

  // What moving the tail and writing the marker make of the buffer.
  lemma ReplacedBuffer(before: string, moved: string, s: string, pat: string, p: nat)
    requires p + |pat| <= |s| < |before| == |moved| && |s| - |pat| + 5 < |before|
    requires before[..|s|] == s && before[|s|] == '\0'
    requires moved[..p] == before[..p]
    requires moved[p + 5..|s| - |pat| + 6] == before[p + |pat|..|s| + 1]
    ensures var after := moved[..p] + Marker() + moved[p + 5..];
      var r := ReplaceAt(s, pat, p);
      |r| == |s| - |pat| + 5 && after[..|r|] == r && after[|r|] == '\0'
  {
    var after := moved[..p] + Marker() + moved[p + 5..];
    var n := |s| - p - |pat|;
    MarkerPlaces();
    var from, to := s[p + |pat|..], moved[p + 5..p + 5 + n];
    forall k | 0 <= k < n
      ensures to[k] == from[k]
    {
      assert moved[p + 5..p + 6 + n][k] == before[p + |pat|..|s| + 1][k];
      assert before[..|s|][p + |pat| + k] == before[p + |pat| + k];
    }
    assert to == from;
    assert moved[p + 5 + n] == '\0' by {
      assert moved[p + 5..p + 6 + n][n] == before[p + |pat|..|s| + 1][n];
    }
    assert moved[..p] == s[..p];
    assert after[..p + 5 + n] == moved[..p] + Marker() + moved[p + 5..p + 5 + n];
  }

  // strlen of the text from index from on.
  method StrLen(line: array<char>, from: nat) returns (n: nat)
    requires from <= |Content(line)| && Terminated(line)
    ensures from + n == |Content(line)| < line.Length && line[from + n] == '\0'
    ensures Content(line) == line[..from + n]
  {
    n := 0;
    while line[from + n] != '\0'
      invariant from + n <= |Content(line)| < line.Length
      decreases line.Length - n
    {
      n := n + 1;
    }
  }

  // memmove: towards the front from the first byte on, towards the end from the last.
  method MemMove(line: array<char>, to: nat, from: nat, n: nat)
    requires from + n <= line.Length && to + n <= line.Length
    modifies line
    ensures line[..][to..to + n] == old(line[..])[from..from + n]
    ensures line[..][..to] == old(line[..])[..to]
  {
    if to <= from {
      MoveForward(line, to, from, n);
    } else {
      MoveBackward(line, to, from, n);
    }
  }

  method MoveForward(line: array<char>, to: nat, from: nat, n: nat)
    requires to <= from && from + n <= line.Length
    modifies line
    ensures line[..][to..to + n] == old(line[..])[from..from + n]
    ensures line[..][..to] == old(line[..])[..to]
  {
    ghost var was := line[..];
    for i := 0 to n
      invariant forall k | 0 <= k < to :: line[k] == was[k]
      invariant forall k | to <= k < to + i :: line[k] == was[k - to + from]
      invariant forall k | from + i <= k < from + n :: line[k] == was[k]
    {
      line[to + i] := line[from + i];
    }
    assert line[..][to..to + n] == was[from..from + n];
  }

  method MoveBackward(line: array<char>, to: nat, from: nat, n: nat)
    requires from < to && to + n <= line.Length
    modifies line
    ensures line[..][to..to + n] == old(line[..])[from..from + n]
    ensures line[..][..to] == old(line[..])[..to]
  {
    ghost var was := line[..];
    for i := n downto 0
      invariant forall k | 0 <= k < to :: line[k] == was[k]
      invariant forall k | to + i <= k < to + n :: line[k] == was[k - to + from]
      invariant forall k | from <= k < from + i :: line[k] == was[k]
    {
      line[to + i] := line[from + i];
    }
    assert line[..][to..to + n] == was[from..from + n];
  }

  method MemCpyMarker(line: array<char>, p: nat)
    requires p + 5 <= line.Length
    modifies line
    ensures line[..] == old(line[..])[..p] + Marker() + old(line[..])[p + 5..]
  {
    line[p], line[p + 1], line[p + 2], line[p + 3], line[p + 4] := '$', 'H', 'O', 'M', 'E';
  }
}
