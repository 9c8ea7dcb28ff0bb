/**
 Where Compare (LICENSES/github.com/hashicorp/go-version/version.go) is a total preorder: on exactly the sets
 of versions that avoid three patterns, each of which is shown to occur.
 */
module VersionCoherence {
  import opened Text
  import opened Version
  import opened VersionOrder

  /** On these versions Compare is a total preorder. */
  ghost predicate Coherent(vs: set<Version>) {
    && (forall v <- vs :: Valid(v))
    && (forall v <- vs, w <- vs :: Compare(v, w) == -Compare(w, v) && Compare(v, w) in {-1, 0, 1})
    && (forall u <- vs, v <- vs, w <- vs :: Compare(u, v) <= 0 && Compare(v, w) <= 0 ==>
          Compare(u, w) <= 0 && (Compare(u, v) < 0 || Compare(v, w) < 0 ==> Compare(u, w) < 0))
  }

  // ---------- The three patterns ----------

  function Ids(v: Version): seq<string> {
    Split(v.pre, '.')
  }

  /** Two pre-releases of the same segments. */
  predicate BothPre(v: Version, w: Version) {
    v.segments == w.segments && v.pre != "" && w.pre != ""
  }

  /** An identifier that is read as a number: digits within 64 bits, perhaps after a dash or leading zeros. */
  predicate Numeral(id: string) {
    ParseInt(id).ok
  }

  /**
   Different identifiers of which each is taken for the larger, or each for the smaller: two spellings of a
   number, or a number out of range next to a text that the string order puts after it.
   */
  predicate Misread(x: string, y: string) {
    && x != "" && y != "" && x != y && Numeral(x) == Numeral(y)
    && if Numeral(x) then ParseInt(x).value == ParseInt(y).value
       else StringLess(x, y) && ParseInt(x).value > ParseInt(y).value
  }

  /** The lists part at position k. */
  ghost predicate PartAtIndex(a: seq<string>, b: seq<string>, k: nat) {
    SameIds(a, b, k) && k < |a| && k < |b| && a[k] != b[k]
  }

  /** The first identifiers in which two pre-releases differ are misread. */
  ghost predicate MisreadPair(v: Version, w: Version) {
    BothPre(v, w) && exists k: nat :: PartAtIndex(Ids(v), Ids(w), k) && Misread(Ids(v)[k], Ids(w)[k])
  }

  /** b continues a with a number, and c continues it with something else. */
  ghost predicate ThreeWays(a: seq<string>, b: seq<string>, c: seq<string>) {
    && SameIds(a, b, |a|) && SameIds(a, c, |a|) && |a| < |b| && |a| < |c|
    && Numeral(b[|a|]) && !Numeral(c[|a|])
  }

  /** One pre-release goes on after another with a number, and a third goes on after it with a text. */
  ghost predicate ThreeWayTriple(u: Version, v: Version, w: Version) {
    BothPre(u, v) && BothPre(u, w) && ThreeWays(Ids(u), Ids(v), Ids(w))
  }

  /** Different pre-releases of one list of segments, and a version that differs from both in trailing zeros only. */
  ghost predicate ZeroTwin(u: Version, v: Version, w: Version) {
    u.segments == v.segments && u.pre != v.pre && w.segments != u.segments && PaddedEqual(u.segments, w.segments)
  }

  ghost predicate NoMisread(vs: set<Version>) {
    forall v <- vs, w <- vs :: !MisreadPair(v, w)
  }

  ghost predicate NoThreeWays(vs: set<Version>) {
    forall u <- vs, v <- vs, w <- vs :: !ThreeWayTriple(u, v, w)
  }

  ghost predicate NoZeroTwin(vs: set<Version>) {
    forall u <- vs, v <- vs, w <- vs :: !ZeroTwin(u, v, w)
  }

  // ---------- Identifiers ----------

  lemma ParseEmpty()
    ensures ParseInt("") == ParsedInt(0, false)
  {
  }

  /**
   What comparePart decides about any two different identifiers: numbers in their order and before texts, texts in
   the order of strings. Of misread ones each is less if they are numbers, and each is greater if not.
   */
  lemma PartMeaning(x: string, y: string)
    requires x != "" && y != "" && x != y
    ensures ComparePart(x, y) ==
            if Misread(x, y) || Misread(y, x) then (if Numeral(x) then -1 else 1)
            else if Numeral(x) && Numeral(y) then (if ParseInt(x).value < ParseInt(y).value then -1 else 1)
            else if Numeral(x) || Numeral(y) then (if Numeral(x) then -1 else 1)
            else if StringLess(x, y) then -1 else 1
  {
    StringLessTotal(x, y);
    hide ParseInt, StringLess;
  }

  /** comparePart contradicts itself on exactly the misread identifiers. */
  lemma PartSigns(x: string, y: string)
    requires x != y
    ensures ComparePart(x, y) in {-1, 1}
    ensures ComparePart(x, y) == -ComparePart(y, x) <==> !Misread(x, y) && !Misread(y, x)
  {
    StringLessTotal(x, y);
    ParseEmpty();
    hide ParseInt, StringLess;
  }

  /** A missing identifier, a number and a text. */
  predicate AllKinds(x: string, y: string, z: string) {
    x == "" && Numeral(y) && z != "" && !Numeral(z)
  }

  /** Apart from that, it cycles only through a missing identifier, a number and a text. */
  lemma PartTransitive(x: string, y: string, z: string)
    requires x != y && y != z && x != z && ComparePart(x, y) < 0 && ComparePart(y, z) < 0
    requires !Misread(x, y) && !Misread(y, x) && !Misread(y, z) && !Misread(z, y) && !Misread(x, z) && !Misread(z, x)
    requires !AllKinds(x, y, z) && !AllKinds(y, z, x) && !AllKinds(z, x, y)
    ensures ComparePart(x, z) < 0
  {
    ParseEmpty();
    StringLessTotal(x, y);
    StringLessTotal(y, z);
    StringLessTotal(x, z);
    if StringLess(x, y) && StringLess(y, z) {
      StringLessTransitive(x, y, z);
    }
    if StringLess(z, x) && StringLess(x, y) {
      StringLessTransitive(z, x, y);
    }
    hide ParseInt, StringLess;
  }

  // ---------- Lists of identifiers ----------

  ghost predicate Nonempty(ids: seq<string>) {
    forall i :: 0 <= i < |ids| ==> ids[i] != ""
  }

  /** Where these lists part, their identifiers are not misread. */
  ghost predicate ReadRight(a: seq<string>, b: seq<string>) {
    forall k: nat :: PartAtIndex(a, b, k) ==> !Misread(a[k], b[k]) && !Misread(b[k], a[k])
  }

  lemma {:induction false} SkipCommon(a: seq<string>, b: seq<string>, k: nat)
    requires SameIds(a, b, k)
    ensures CompareParts(a, b, 0) == CompareParts(a, b, k)
  {
    if k > 0 {
      SkipCommon(a, b, k - 1);
      assert ComparePart(a[k - 1], b[k - 1]) == 0;
      hide ComparePart;
    }
  }

  lemma {:induction false} PartsAntisymmetric(a: seq<string>, b: seq<string>, i: nat)
    requires Nonempty(a) && Nonempty(b) && SameIds(a, b, i) && ReadRight(a, b)
    ensures CompareParts(a, b, i) == -CompareParts(b, a, i) && CompareParts(a, b, i) in {-1, 0, 1}
    ensures CompareParts(a, b, i) == 0 <==> a == b
    decreases |a| - i
  {
    var x, y := PartAt(a, i), PartAt(b, i);
    assert x == y ==> ComparePart(x, y) == 0;
    if x != y {
      PartSigns(x, y);
      hide ComparePart, Misread;
      assert i < |a| && i < |b| ==> PartAtIndex(a, b, i);
    } else if i < |a| {
      hide ComparePart, Misread;
      PartsAntisymmetric(a, b, i + 1);
    }
  }

  lemma {:induction false} PartsTransitive(a: seq<string>, b: seq<string>, c: seq<string>, i: nat)
    requires Nonempty(a) && Nonempty(b) && Nonempty(c) && SameIds(a, b, i) && SameIds(b, c, i)
    requires ReadRight(a, b) && ReadRight(b, c) && ReadRight(a, c)
    requires forall p, q, r :: p in {a, b, c} && q in {a, b, c} && r in {a, b, c} ==> !ThreeWays(p, q, r)
    requires CompareParts(a, b, i) <= 0 && CompareParts(b, c, i) <= 0
    ensures CompareParts(a, c, i) <= 0
    ensures CompareParts(a, b, i) < 0 || CompareParts(b, c, i) < 0 ==> CompareParts(a, c, i) < 0
    decreases |a| - i
  {
    var x, y, z := PartAt(a, i), PartAt(b, i), PartAt(c, i);
    assert ComparePart(x, x) == 0 && ComparePart(y, y) == 0;
    assert SameIds(a, c, i);
    if x == y && y == z {
      hide ComparePart, Misread, ThreeWays;
      if i < |a| {
        PartsTransitive(a, b, c, i + 1);
      }
    } else {
      PartsStep(a, b, i);
      PartsStep(b, c, i);
      PartsStep(a, c, i);
      assert x != y ==> ComparePart(x, y) in {-1, 1} by { if x != y { PartSigns(x, y); } }
      if x != y && y != z && x != z {
        PartsKinds(a, b, c, i);
        PartTransitive(x, y, z);
      } else if x == z {
        PartSigns(x, y);
        hide ComparePart, Misread;
        assert i < |a| && i < |b| ==> PartAtIndex(a, b, i);
      } else if y != z {
        PartSigns(y, z);
      }
      hide ComparePart, Misread, CompareParts;
    }
  }

  /** What the patterns that are ruled out say about three different identifiers in one position. */
  lemma PartsKinds(a: seq<string>, b: seq<string>, c: seq<string>, i: nat)
    requires Nonempty(a) && Nonempty(b) && Nonempty(c) && SameIds(a, b, i) && SameIds(b, c, i)
    requires ReadRight(a, b) && ReadRight(b, c) && ReadRight(a, c)
    requires forall p, q, r :: p in {a, b, c} && q in {a, b, c} && r in {a, b, c} ==> !ThreeWays(p, q, r)
    ensures var x, y, z := PartAt(a, i), PartAt(b, i), PartAt(c, i);
            x != y && y != z && x != z ==>
              && !Misread(x, y) && !Misread(y, x) && !Misread(y, z) && !Misread(z, y)
              && !Misread(x, z) && !Misread(z, x)
              && !AllKinds(x, y, z) && !AllKinds(y, z, x) && !AllKinds(z, x, y)
  {
    ParseEmpty();
    hide Misread, ParseInt;
    var x, y, z := PartAt(a, i), PartAt(b, i), PartAt(c, i);
    if x != y && y != z && x != z {
      assert i < |a| && i < |b| ==> PartAtIndex(a, b, i);
      assert i < |b| && i < |c| ==> PartAtIndex(b, c, i);
      assert i < |a| && i < |c| ==> PartAtIndex(a, c, i);
      MissingIsMisreadByNone(x, y, z);
      assert AllKinds(x, y, z) ==> ThreeWays(a, b, c);
      assert AllKinds(y, z, x) ==> ThreeWays(b, c, a);
      assert AllKinds(z, x, y) ==> ThreeWays(c, a, b);
    }
  }

  lemma MissingIsMisreadByNone(x: string, y: string, z: string)
    ensures forall p, q :: (p == "" || q == "") && p in {x, y, z} && q in {x, y, z} ==> !Misread(p, q)
  {
  }

  // ---------- Whole versions ----------

  lemma ValidIds(v: Version)
    requires Valid(v) && v.pre != ""
    ensures Nonempty(Ids(v))
  {
    hide Split;
  }

  /** Versions with the same segments compare by their pre-releases. */
  lemma CompareSameSegments(v: Version, w: Version)
    requires Valid(v) && Valid(w) && v.segments == w.segments
    ensures Compare(v, w) ==
            if v.pre == w.pre then 0
            else if v.pre == "" then 1
            else if w.pre == "" then -1
            else CompareParts(Ids(v), Ids(w), 0)
    ensures Ids(v) == Ids(w) ==> v.pre == w.pre
  {
    CompareWithoutShortcut(v, w);
    hide Compare, Valid, CompareParts, Split;
    if Ids(v) == Ids(w) {
      SplitInjective(v.pre, w.pre);
    }
  }

  lemma PairReadRight(v: Version, w: Version)
    requires BothPre(v, w) && !MisreadPair(v, w) && !MisreadPair(w, v)
    ensures ReadRight(Ids(v), Ids(w))
  {
    hide Ids, Misread;
    forall k: nat | PartAtIndex(Ids(v), Ids(w), k)
      ensures !Misread(Ids(v)[k], Ids(w)[k]) && !Misread(Ids(w)[k], Ids(v)[k])
    {
      assert PartAtIndex(Ids(w), Ids(v), k);
    }
  }

  /** Unless it misreads the pair, Compare gives opposite answers for the two orders. */
  lemma CompareAntisymmetric(v: Version, w: Version)
    requires Valid(v) && Valid(w) && !MisreadPair(v, w) && !MisreadPair(w, v)
    ensures Compare(v, w) == -Compare(w, v) && Compare(v, w) in {-1, 0, 1}
    ensures v.segments == w.segments ==> (Compare(v, w) == 0 <==> v.pre == w.pre)
  {
    hide Compare, Valid, Ids, CompareParts, MisreadPair;
    if v.segments == w.segments {
      CompareSameSegments(v, w);
      CompareSameSegments(w, v);
      if BothPre(v, w) {
        ValidIds(v);
        ValidIds(w);
        PairReadRight(v, w);
        PartsAntisymmetric(Ids(v), Ids(w), 0);
      }
    } else {
      CompareIsPadded(v, w);
      CompareIsPadded(w, v);
      hide PaddedLess, PaddedEqual;
    }
  }

  /** For other segments the answer is that of the padded order. */
  lemma CompareIsPadded(v: Version, w: Version)
    requires Valid(v) && Valid(w) && v.segments != w.segments
    ensures Compare(v, w) == if PaddedLess(v.segments, w.segments) then -1
             else if PaddedEqual(v.segments, w.segments) then 0 else 1
    ensures Compare(v, w) == 1 <==> PaddedLess(w.segments, v.segments)
    ensures PaddedEqual(v.segments, w.segments) <==> PaddedEqual(w.segments, v.segments)
  {
    CompareWithoutShortcut(v, w);
    CompareSegmentsIsPadded(v.segments, w.segments, 0);
    hide Compare, CompareSegments, Valid;
  }

  /** None of the patterns occurs among these three. */
  ghost predicate Harmless(u: Version, v: Version, w: Version) {
    && Valid(u) && Valid(v) && Valid(w)
    && NoMisread({u, v, w}) && NoThreeWays({u, v, w}) && NoZeroTwin({u, v, w})
  }

  lemma SameSegmentsTransitive(u: Version, v: Version, w: Version)
    requires Harmless(u, v, w) && u.segments == v.segments == w.segments
    requires Compare(u, v) <= 0 && Compare(v, w) <= 0
    ensures Compare(u, w) <= 0 && (Compare(u, v) < 0 || Compare(v, w) < 0 ==> Compare(u, w) < 0)
  {
    hide Compare, Valid, Split, CompareParts, MisreadPair, ThreeWays;
    CompareSameSegments(u, v);
    CompareSameSegments(v, w);
    CompareSameSegments(u, w);
    if u.pre != "" && v.pre != "" && w.pre != "" {
      ValidIds(u);
      ValidIds(v);
      ValidIds(w);
      PairReadRight(u, v);
      PairReadRight(v, w);
      PairReadRight(u, w);
      IdsOfTriple(u, v, w);
      var a, b, c := Ids(u), Ids(v), Ids(w);
      assert a == b ==> CompareParts(a, b, 0) == 0 by { PartsAntisymmetric(a, b, 0); }
      assert b == c ==> CompareParts(b, c, 0) == 0 by { PartsAntisymmetric(b, c, 0); }
      assert a == c ==> CompareParts(a, c, 0) == 0 by { PartsAntisymmetric(a, c, 0); }
      PartsTransitive(a, b, c, 0);
    }
  }

  lemma IdsOfTriple(u: Version, v: Version, w: Version)
    requires Harmless(u, v, w) && BothPre(u, v) && BothPre(v, w)
    ensures var ids := {Ids(u), Ids(v), Ids(w)};
            forall p, q, r :: p in ids && q in ids && r in ids ==> !ThreeWays(p, q, r)
  {
    hide Ids, ThreeWays, Valid, NoMisread, NoZeroTwin;
    forall p, q, r | p in {Ids(u), Ids(v), Ids(w)} && q in {Ids(u), Ids(v), Ids(w)} && r in {Ids(u), Ids(v), Ids(w)}
      ensures !ThreeWays(p, q, r)
    {
      var x :| x in {u, v, w} && Ids(x) == p;
      var y :| y in {u, v, w} && Ids(y) == q;
      var z :| z in {u, v, w} && Ids(z) == r;
      assert !ThreeWayTriple(x, y, z);
    }
  }

  lemma HarmlessTransitive(u: Version, v: Version, w: Version)
    requires Harmless(u, v, w) && Compare(u, v) <= 0 && Compare(v, w) <= 0
    ensures Compare(u, w) <= 0 && (Compare(u, v) < 0 || Compare(v, w) < 0 ==> Compare(u, w) < 0)
  {
    hide Compare, Valid, NoThreeWays, MisreadPair;
    if u.segments == v.segments == w.segments {
      SameSegmentsTransitive(u, v, w);
    } else {
      CompareAntisymmetric(u, v);
      CompareAntisymmetric(v, w);
      CompareAntisymmetric(u, w);
      if u.segments != v.segments { CompareIsPadded(u, v); }
      if v.segments != w.segments { CompareIsPadded(v, w); }
      if u.segments != w.segments { CompareIsPadded(u, w); }
      PaddedTransitive(u.segments, v.segments, w.segments);
      if PaddedLess(u.segments, w.segments) {
        PaddedAsymmetric(u.segments, w.segments);
      } else {
        hide PaddedLess;
        AllPaddedEqual(u.segments, v.segments, w.segments);
        assert !ZeroTwin(u, v, w) && !ZeroTwin(u, w, v) && !ZeroTwin(v, w, u);
      }
    }
  }

  lemma AllPaddedEqual(a: seq<int>, b: seq<int>, c: seq<int>)
    requires PaddedLess(a, b) || PaddedEqual(a, b)
    requires PaddedLess(b, c) || PaddedEqual(b, c)
    requires !PaddedLess(a, c)
    ensures PaddedEqual(a, b) && PaddedEqual(b, c) && PaddedEqual(a, c)
    ensures PaddedEqual(b, a) && PaddedEqual(c, b) && PaddedEqual(c, a)
  {
    PaddedTransitive(a, b, c);
    hide PaddedLess;
  }

  // ---------- The patterns break the order ----------

  /** On a misread pair Compare gives the same answer in both orders. */
  lemma MisreadPairBreaks(v: Version, w: Version)
    requires Valid(v) && Valid(w) && MisreadPair(v, w)
    ensures Compare(v, w) == Compare(w, v) != 0
  {
    hide Compare, Valid, Split, Misread;
    var a, b := Ids(v), Ids(w);
    var k: nat :| PartAtIndex(a, b, k) && Misread(a[k], b[k]);
    SkipCommon(a, b, k);
    SkipCommon(b, a, k);
    PartSigns(a[k], b[k]);
    PartSigns(b[k], a[k]);
    CompareSameSegments(v, w);
    CompareSameSegments(w, v);
    PartsStep(a, b, k);
    PartsStep(b, a, k);
    hide CompareParts, ComparePart;
  }

  /** A pre-release, its continuation with a number and its continuation with a text form a cycle. */
  lemma CompareCycles(u: Version, v: Version, w: Version)
    requires Valid(u) && Valid(v) && Valid(w) && ThreeWayTriple(u, v, w)
    ensures Compare(u, v) == -1 && Compare(v, w) == -1 && Compare(w, u) == -1
    ensures Compare(w, v) == 1
  {
    var a, b, c := Ids(u), Ids(v), Ids(w);
    var n := |a|;
    ValidIds(v);
    ValidIds(w);
    hide Compare, Valid, Ids;
    assert SameIds(b, c, n) && SameIds(c, a, n);
    SkipCommon(a, b, n);
    SkipCommon(b, c, n);
    SkipCommon(c, a, n);
    SkipCommon(c, b, n);
    ParseEmpty();
    hide ParseInt;
    PartsStep(a, b, n);
    PartsStep(b, c, n);
    PartsStep(c, a, n);
    PartsStep(c, b, n);
    CompareSameSegments(u, v);
    CompareSameSegments(v, w);
    CompareSameSegments(w, u);
    CompareSameSegments(w, v);
    hide CompareParts;
  }

  /** Both pre-releases are equal to the version with other trailing zeros, but not to each other. */
  lemma ZeroTwinBreaks(u: Version, v: Version, w: Version)
    requires Valid(u) && Valid(v) && Valid(w) && ZeroTwin(u, v, w)
    ensures Compare(u, w) == 0 && Compare(w, u) == 0 && Compare(v, w) == 0 && Compare(w, v) == 0
    ensures Compare(u, v) != 0
  {
    hide Compare, Valid, MisreadPair;
    CompareIsPadded(u, w);
    CompareIsPadded(w, u);
    CompareIsPadded(v, w);
    CompareIsPadded(w, v);
    hide PaddedEqual, PaddedLess;
    if MisreadPair(u, v) {
      MisreadPairBreaks(u, v);
    } else if MisreadPair(v, u) {
      MisreadPairBreaks(v, u);
    } else {
      CompareAntisymmetric(u, v);
    }
  }

  // ---------- The exact condition ----------

  /**
   Compare is a total preorder on a set of versions exactly when no pair of them is misread, no three continue
   one another in three ways, and none differs in trailing zeros from two different pre-releases.
   */
  lemma CoherentIff(vs: set<Version>)
    requires forall v <- vs :: Valid(v)
    ensures Coherent(vs) <==> NoMisread(vs) && NoThreeWays(vs) && NoZeroTwin(vs)
  {
    if NoMisread(vs) && NoThreeWays(vs) && NoZeroTwin(vs) {
      HarmlessCoherent(vs);
    } else if Coherent(vs) {
      PatternsBreak(vs);
    }
  }

  lemma HarmlessCoherent(vs: set<Version>)
    requires forall v <- vs :: Valid(v)
    requires NoMisread(vs) && NoThreeWays(vs) && NoZeroTwin(vs)
    ensures Coherent(vs)
  {
    hide Compare, MisreadPair, ThreeWayTriple, ZeroTwin;
    forall v <- vs, w <- vs
      ensures Compare(v, w) == -Compare(w, v) && Compare(v, w) in {-1, 0, 1}
    {
      CompareAntisymmetric(v, w);
    }
    forall u <- vs, v <- vs, w <- vs | Compare(u, v) <= 0 && Compare(v, w) <= 0
      ensures Compare(u, w) <= 0 && (Compare(u, v) < 0 || Compare(v, w) < 0 ==> Compare(u, w) < 0)
    {
      HarmlessTransitive(u, v, w);
    }
  }

  lemma PatternsBreak(vs: set<Version>)
    requires Coherent(vs)
    ensures NoMisread(vs) && NoThreeWays(vs) && NoZeroTwin(vs)
  {
    hide Compare, Valid, MisreadPair, ThreeWayTriple, ZeroTwin;
    forall v <- vs, w <- vs ensures !MisreadPair(v, w) {
      if MisreadPair(v, w) {
        MisreadPairBreaks(v, w);
      }
    }
    forall u <- vs, v <- vs, w <- vs ensures !ThreeWayTriple(u, v, w) {
      if ThreeWayTriple(u, v, w) {
        CompareCycles(u, v, w);
      }
    }
    forall u <- vs, v <- vs, w <- vs ensures !ZeroTwin(u, v, w) {
      if ZeroTwin(u, v, w) {
        ZeroTwinBreaks(u, v, w);
      }
    }
  }

  /** So it is one on releases of any lengths. */
  lemma ReleasesCoherent(vs: set<Version>)
    requires forall v <- vs :: Valid(v) && v.pre == ""
    ensures Coherent(vs)
  {
    hide Valid;
    CoherentIff(vs);
  }

  lemma GoodNeverMisread(x: string, y: string)
    requires GoodId(x) && GoodId(y)
    ensures !Misread(x, y) && (Numeral(x) <==> NumericId(x))
  {
    GoodIdParse(x);
    GoodIdParse(y);
    ComparePartGood(x, y);
    hide GoodId, NumericId, ParseInt;
    if Misread(x, y) {
      PartSigns(x, y);
    }
  }

  /** On versions with equally many segments and good identifiers only the second pattern is left. */
  lemma ComparableCoherentIff(vs: set<Version>)
    requires forall v <- vs, w <- vs :: Comparable(v, w)
    ensures Coherent(vs) <==> NoThreeWays(vs)
  {
    hide Valid, GoodPre, Misread, ThreeWayTriple;
    forall v <- vs ensures Valid(v) {
      assert Comparable(v, v);
    }
    CoherentIff(vs);
    forall v <- vs, w <- vs ensures !MisreadPair(v, w) {
      assert Comparable(v, w);
      ComparableNotMisread(v, w);
    }
    forall u <- vs, v <- vs, w <- vs ensures !ZeroTwin(u, v, w) {
      assert Comparable(u, w);
      SameLengthPadded(u.segments, w.segments);
    }
  }

  lemma ComparableNotMisread(v: Version, w: Version)
    requires Comparable(v, w)
    ensures !MisreadPair(v, w)
  {
    hide Valid, GoodPre, Misread, Split, GoodId;
    if MisreadPair(v, w) {
      PreIds(v.pre);
      PreIds(w.pre);
      var k: nat :| PartAtIndex(Ids(v), Ids(w), k) && Misread(Ids(v)[k], Ids(w)[k]);
      GoodNeverMisread(Ids(v)[k], Ids(w)[k]);
    }
  }

  ghost predicate PairwiseSemver(vs: set<Version>) {
    forall v <- vs, w <- vs :: Comparable(v, w) && !OneGoesOnWithText(v, w)
  }

  /** In particular it is one where it agrees with Semantic Versioning on every pair. */
  lemma SemverCoherent(vs: set<Version>)
    requires PairwiseSemver(vs)
    ensures Coherent(vs)
  {
    hide Valid, GoodPre, Split;
    ComparableCoherentIff(vs);
    forall u <- vs, v <- vs, w <- vs ensures !ThreeWayTriple(u, v, w) {
      if ThreeWayTriple(u, v, w) {
        assert Comparable(u, w) && !OneGoesOnWithText(u, w);
        PreIds(w.pre);
        GoodNeverMisread(Ids(w)[|Ids(u)|], Ids(w)[|Ids(u)|]);
      }
    }
  }

  // ---------- Each pattern occurs ----------

  /** Version 1.0.0 with a pre-release. */
  function OneZeroZero(pre: string): Version {
    Version("", pre, [1, 0, 0], 3, pre)
  }

  lemma OneZeroZeroValid(pre: string)
    requires AlphaPre(pre) || NumericPre(pre)
    ensures Valid(OneZeroZero(pre))
  {
    hide AlphaPre, NumericPre;
  }

  /** 1.0.0-alpha, 1.0.0-alpha.1 and 1.0.0-alpha.beta are each less than the next, and the last less than the first. */
  lemma CompareCanCycle()
    ensures var a, b, c := OneZeroZero("alpha"), OneZeroZero("alpha.1"), OneZeroZero("alpha.beta");
            && Valid(a) && Valid(b) && Valid(c) && ThreeWayTriple(a, b, c)
            && Compare(a, b) == -1 && Compare(b, c) == -1 && Compare(c, a) == -1 && Compare(c, b) == 1
  {
    AlphaIds();
    CycleFrom("alpha", "1", "beta", "alpha", "alpha.1", "alpha.beta");
  }

  lemma CycleFrom(t: string, n: string, u: string, p: string, q: string, r: string)
    requires GoodId(t) && GoodId(n) && GoodId(u) && NumericId(n) && !NumericId(u)
    requires p != "" && q != "" && r != "" && AlphaPre(p) && AlphaPre(q) && AlphaPre(r)
    requires Split(p, '.') == [t] && Split(q, '.') == [t, n] && Split(r, '.') == [t, u]
    ensures var a, b, c := OneZeroZero(p), OneZeroZero(q), OneZeroZero(r);
            && Valid(a) && Valid(b) && Valid(c) && ThreeWayTriple(a, b, c)
            && Compare(a, b) == -1 && Compare(b, c) == -1 && Compare(c, a) == -1 && Compare(c, b) == 1
  {
    var a, b, c := OneZeroZero(p), OneZeroZero(q), OneZeroZero(r);
    OneZeroZeroValid(p);
    OneZeroZeroValid(q);
    OneZeroZeroValid(r);
    GoodNeverMisread(n, n);
    GoodNeverMisread(u, u);
    hide Split, GoodId, NumericId, Compare, AlphaPre, Valid, Numeral;
    CompareCycles(a, b, c);
  }

  /** 1.0.0.0 is equal to 1.0.0-alpha and to 1.0.0-beta, of which one is less than the other. */
  lemma ZeroTwinOccurs()
    ensures var a, b, c := OneZeroZero("alpha"), OneZeroZero("beta"), Version("", "", [1, 0, 0, 0], 4, "1.0.0.0");
            && Valid(a) && Valid(b) && Valid(c) && ZeroTwin(a, b, c)
            && Compare(a, c) == 0 && Compare(c, b) == 0 && Compare(a, b) == -1
  {
    AlphaIds();
    TwinFrom("alpha", "beta");
  }

  lemma TwinFrom(p: string, q: string)
    requires p != q && GoodId(p) && GoodId(q) && IdLess(p, q) && AlphaPre(p) && AlphaPre(q)
    requires Split(p, '.') == [p] && Split(q, '.') == [q]
    ensures var a, b, c := OneZeroZero(p), OneZeroZero(q), Version("", "", [1, 0, 0, 0], 4, "1.0.0.0");
            && Valid(a) && Valid(b) && Valid(c) && ZeroTwin(a, b, c)
            && Compare(a, c) == 0 && Compare(c, b) == 0 && Compare(a, b) == -1
  {
    var a, b, c := OneZeroZero(p), OneZeroZero(q), Version("", "", [1, 0, 0, 0], 4, "1.0.0.0");
    OneZeroZeroValid(p);
    OneZeroZeroValid(q);
    hide Split, GoodId, IdLess, Compare, AlphaPre, Valid;
    ZeroTwinBreaks(a, b, c);
    CompareSameSegments(a, b);
    ComparePartGood(p, q);
    PartsStep([p], [q], 0);
    hide ComparePart, CompareParts;
  }

  /** 1.0.0-1 and 1.0.0-01 are each less than the other. */
  lemma MisreadOccurs()
    ensures var a, b := OneZeroZero("1"), OneZeroZero("01");
            && Valid(a) && Valid(b) && MisreadPair(a, b)
            && Compare(a, b) == -1 && Compare(b, a) == -1
  {
    OneReadTwice();
    MisreadFrom("1", "01");
  }

  lemma OneReadTwice()
    ensures ParseInt("1") == ParsedInt(1, true) && ParseInt("01") == ParsedInt(1, true)
    ensures Split("1", '.') == ["1"] && Split("01", '.') == ["01"]
  {
    SplitFree("1", '.');
    SplitFree("01", '.');
    hide Split;
    ValueOfDigit("1");
    ValueOfDigit("0");
    assert "01"[..1] == "0";
    assert Value("01") == 10 * Value("0") + DigitValue('1');
  }

  lemma MisreadFrom(p: string, q: string)
    requires p != "" && q != "" && p != q && IsIdent(p) && IsIdent(q) && IsDigit(p[0]) && IsDigit(q[0])
    requires Numeral(p) && ParseInt(p) == ParseInt(q) && Split(p, '.') == [p] && Split(q, '.') == [q]
    ensures var a, b := OneZeroZero(p), OneZeroZero(q);
            && Valid(a) && Valid(b) && MisreadPair(a, b)
            && Compare(a, b) == -1 && Compare(b, a) == -1
  {
    var a, b := OneZeroZero(p), OneZeroZero(q);
    hide Split, Compare, Value, ParseInt, IsIdent;
    OneZeroZeroValid(p);
    OneZeroZeroValid(q);
    hide Valid, NumericPre;
    CompareSameSegments(a, b);
    CompareSameSegments(b, a);
    PartsStep([p], [q], 0);
    PartsStep([q], [p], 0);
    hide CompareParts;
    assert PartAtIndex(Ids(a), Ids(b), 0) && Misread(Ids(a)[0], Ids(b)[0]);
  }

  lemma LowerCaseId(id: string)
    requires id != "" && forall i :: 0 <= i < |id| ==> 'a' <= id[i] <= 'z'
    ensures GoodId(id) && !NumericId(id) && Free(id, '.')
  {
    assert !IsDigit(id[0]);
  }

  lemma OneId()
    ensures GoodId("1") && NumericId("1")
  {
    ValueOfDigit("1");
  }

  /** A textual identifier, alone or followed by one more. */
  lemma TextThen(a: string, b: string)
    requires GoodId(a) && !NumericId(a) && IsAlphaDash(a[0]) && GoodId(b) && Free(a, '.') && Free(b, '.')
    ensures Split(a, '.') == [a] && AlphaPre(a)
    ensures Split(a + "." + b, '.') == [a, b] && AlphaPre(a + "." + b)
  {
    SplitFree(a, '.');
    SplitFree(b, '.');
    SplitAtSep(a, b, '.');
    hide Split, NumericId, Value;
  }

  lemma AlphaIds()
    ensures Split("alpha", '.') == ["alpha"]
    ensures Split("alpha.1", '.') == ["alpha", "1"]
    ensures Split("alpha.beta", '.') == ["alpha", "beta"]
    ensures GoodId("alpha") && GoodId("1") && GoodId("beta")
    ensures NumericId("1") && !NumericId("beta") && !NumericId("alpha")
    ensures Split("beta", '.') == ["beta"] && AlphaPre("beta") && IdLess("alpha", "beta")
    ensures AlphaPre("alpha") && AlphaPre("alpha.1") && AlphaPre("alpha.beta")
  {
    hide Split, GoodId, NumericId, AlphaPre;
    LowerCaseId("alpha");
    LowerCaseId("beta");
    OneId();
    TextThen("alpha", "1");
    TextThen("alpha", "beta");
    TextThen("beta", "1");
    assert StringLess("alpha", "beta");
    assert "alpha" + "." + "1" == "alpha.1" && "alpha" + "." + "beta" == "alpha.beta";
  }
}
