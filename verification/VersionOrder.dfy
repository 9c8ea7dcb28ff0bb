/**
 Comparison of versions (LICENSES/github.com/hashicorp/go-version/version.go), and what orders it
 implements: the padded lexicographic order on releases and, with one exception that is stated exactly, the
 precedence of section 11 of Semantic Versioning 2.0.0.
 */
module VersionOrder {
  import opened Text
  import opened Version

  // ---------- Compare ----------

  predicate AllZero(segs: seq<int>) {
    forall i :: 0 <= i < |segs| ==> segs[i] == 0
  }

  /** The loop over the segments, from position i on. */
  function CompareSegments(a: seq<int>, b: seq<int>, i: nat): int
    decreases |a| + |b| - i
  {
    if i >= |a| && i >= |b| then 0
    else if i >= |a| then (if AllZero(b[i..]) then 0 else -1)
    else if i >= |b| then (if AllZero(a[i..]) then 0 else 1)
    else if a[i] == b[i] then CompareSegments(a, b, i + 1)
    else if a[i] < b[i] then -1
    else 1
  }

  function ComparePart(preSelf: string, preOther: string): int {
    var self, other := ParseInt(preSelf), ParseInt(preOther);
    if preSelf == preOther then 0
    else if preSelf == "" then (if other.ok then -1 else 1)
    else if preOther == "" then (if self.ok then 1 else -1)
    else if self.ok && !other.ok then -1
    else if !self.ok && other.ok then 1
    else if !self.ok && !other.ok && StringLess(preOther, preSelf) then 1
    else if self.value > other.value then 1
    else -1
  }

  function PartAt(parts: seq<string>, i: nat): string {
    if i < |parts| then parts[i] else ""
  }

  /** The loop over the identifiers, from position i on. */
  function CompareParts(self: seq<string>, other: seq<string>, i: nat): int
    decreases |self| + |other| - i
  {
    if i >= |self| && i >= |other| then 0
    else
      var c := ComparePart(PartAt(self, i), PartAt(other, i));
      if c != 0 then c else CompareParts(self, other, i + 1)
  }

  function ComparePrereleases(v: string, other: string): int {
    if v == other then 0 else CompareParts(Split(v, '.'), Split(other, '.'), 0)
  }

  function Compare(v: Version, other: Version): int
    requires NonNegative(v.segments) && |v.segments| >= 1 && NonNegative(other.segments) && |other.segments| >= 1
  {
    if ToString(v) == ToString(other) then 0
    else if v.segments == other.segments then
      if v.pre == "" && other.pre == "" then 0
      else if v.pre == "" then 1
      else if other.pre == "" then -1
      else ComparePrereleases(v.pre, other.pre)
    else CompareSegments(v.segments, other.segments, 0)
  }

  method CompareSegmentsLoop(segmentsSelf: seq<int>, segmentsOther: seq<int>) returns (c: int)
    ensures c == CompareSegments(segmentsSelf, segmentsOther, 0)
  {
    var hS := |segmentsSelf|;
    if |segmentsSelf| < |segmentsOther| {
      hS := |segmentsOther|;
    }
    var i := 0;
    while i < hS
      invariant 0 <= i <= hS
      invariant CompareSegments(segmentsSelf, segmentsOther, 0) == CompareSegments(segmentsSelf, segmentsOther, i)
    {
      if i > |segmentsSelf| - 1 {
        var zero := AllZeroLoop(segmentsOther[i..]);
        return if zero then 0 else -1;
      } else if i > |segmentsOther| - 1 {
        var zero := AllZeroLoop(segmentsSelf[i..]);
        return if zero then 0 else 1;
      }
      var lhs, rhs := segmentsSelf[i], segmentsOther[i];
      if lhs != rhs {
        return if lhs < rhs then -1 else 1;
      }
      i := i + 1;
    }
    return 0;
  }

  method AllZeroLoop(segs: seq<int>) returns (zero: bool)
    ensures zero == AllZero(segs)
  {
    for i := 0 to |segs|
      invariant forall k :: 0 <= k < i ==> segs[k] == 0
    {
      if segs[i] != 0 {
        return false;
      }
    }
    return true;
  }

  lemma PartsStep(self: seq<string>, other: seq<string>, i: nat)
    ensures i >= |self| && i >= |other| ==> CompareParts(self, other, i) == 0
    ensures i < |self| || i < |other| ==>
            var c := ComparePart(PartAt(self, i), PartAt(other, i));
            CompareParts(self, other, i) == if c != 0 then c else CompareParts(self, other, i + 1)
  {
  }

  method ComparePrereleasesLoop(v: string, other: string) returns (c: int)
    ensures c == ComparePrereleases(v, other)
  {
    hide Split, ComparePart, CompareParts;
    if v == other {
      return 0;
    }
    var selfMeta := Split(v, '.');
    var otherMeta := Split(other, '.');
    var biggestLen := |otherMeta|;
    if |selfMeta| > |otherMeta| {
      biggestLen := |selfMeta|;
    }
    for i := 0 to biggestLen
      invariant CompareParts(selfMeta, otherMeta, 0) == CompareParts(selfMeta, otherMeta, i)
    {
      PartsStep(selfMeta, otherMeta, i);
      var compare := ComparePart(PartAt(selfMeta, i), PartAt(otherMeta, i));
      if compare != 0 {
        return compare;
      }
    }
    PartsStep(selfMeta, otherMeta, biggestLen);
    return 0;
  }

  /** Version.Compare */
  method CompareVersions(v: Version, other: Version) returns (c: int)
    requires NonNegative(v.segments) && |v.segments| >= 1 && NonNegative(other.segments) && |other.segments| >= 1
    ensures c == Compare(v, other)
  {
    var text := Print(v);
    var otherText := Print(other);
    if text == otherText {
      return 0;
    }
    if v.segments == other.segments {
      if v.pre == "" && other.pre == "" {
        return 0;
      }
      if v.pre == "" {
        return 1;
      }
      if other.pre == "" {
        return -1;
      }
      c := ComparePrereleasesLoop(v.pre, other.pre);
    } else {
      c := CompareSegmentsLoop(v.segments, other.segments);
    }
  }

  lemma {:induction false} PartsSigns(self: seq<string>, other: seq<string>, i: nat)
    ensures CompareParts(self, other, i) in {-1, 0, 1}
    decreases |self| + |other| - i
  {
    if i < |self| || i < |other| {
      assert ComparePart(PartAt(self, i), PartAt(other, i)) in {-1, 0, 1};
      hide ComparePart;
      PartsSigns(self, other, i + 1);
    }
  }

  lemma {:induction false} SegmentsSigns(a: seq<int>, b: seq<int>, i: nat)
    ensures CompareSegments(a, b, i) in {-1, 0, 1}
    decreases |a| + |b| - i
  {
    if i < |a| && i < |b| {
      SegmentsSigns(a, b, i + 1);
    }
  }

  /** Compare answers -1, 0 or 1, for whatever identifiers and segments. */
  lemma CompareSigns(v: Version, other: Version)
    requires NonNegative(v.segments) && |v.segments| >= 1 && NonNegative(other.segments) && |other.segments| >= 1
    ensures Compare(v, other) in {-1, 0, 1}
  {
    PartsSigns(Split(v.pre, '.'), Split(other.pre, '.'), 0);
    SegmentsSigns(v.segments, other.segments, 0);
    hide CompareParts, CompareSegments, Split, ToString;
  }

  // ---------- The padded lexicographic order ----------

  /** The segment at position i; a missing segment is zero. */
  function At(segs: seq<int>, i: nat): int {
    if i < |segs| then segs[i] else 0
  }

  /** The first k segments agree. */
  ghost predicate AgreeTo(a: seq<int>, b: seq<int>, k: nat) {
    forall i: nat :: i < k ==> At(a, i) == At(b, i)
  }

  ghost predicate PaddedLess(a: seq<int>, b: seq<int>) {
    exists k: nat :: AgreeTo(a, b, k) && At(a, k) < At(b, k)
  }

  ghost predicate PaddedEqual(a: seq<int>, b: seq<int>) {
    forall i: nat :: At(a, i) == At(b, i)
  }

  lemma PaddedTotal(a: seq<int>, b: seq<int>)
    ensures PaddedLess(a, b) || PaddedLess(b, a) || PaddedEqual(a, b)
  {
    if !PaddedEqual(a, b) {
      var i: nat :| At(a, i) != At(b, i);
      FirstDifference(a, b, i);
    }
  }

  lemma {:induction false} FirstDifference(a: seq<int>, b: seq<int>, i: nat)
    requires At(a, i) != At(b, i)
    ensures PaddedLess(a, b) || PaddedLess(b, a)
  {
    if AgreeTo(a, b, i) {
      assert AgreeTo(b, a, i);
    } else {
      var k: nat :| k < i && At(a, k) != At(b, k);
      FirstDifference(a, b, k);
    }
  }

  lemma PaddedAsymmetric(a: seq<int>, b: seq<int>)
    requires PaddedLess(a, b)
    ensures !PaddedLess(b, a) && !PaddedEqual(a, b) && a != b
  {
    var k: nat :| AgreeTo(a, b, k) && At(a, k) < At(b, k);
  }

  lemma PaddedTransitive(a: seq<int>, b: seq<int>, c: seq<int>)
    requires PaddedLess(a, b) || PaddedEqual(a, b)
    requires PaddedLess(b, c) || PaddedEqual(b, c)
    ensures PaddedLess(a, c) || PaddedEqual(a, c)
    ensures PaddedLess(a, b) || PaddedLess(b, c) ==> PaddedLess(a, c)
  {
    if PaddedLess(a, b) {
      var j: nat :| AgreeTo(a, b, j) && At(a, j) < At(b, j);
      if PaddedLess(b, c) {
        var k: nat :| AgreeTo(b, c, k) && At(b, k) < At(c, k);
        var m := if j < k then j else k;
        assert AgreeTo(a, c, m) && At(a, m) < At(c, m);
      } else {
        assert AgreeTo(a, c, j) && At(a, j) < At(c, j);
      }
    } else if PaddedLess(b, c) {
      var k: nat :| AgreeTo(b, c, k) && At(b, k) < At(c, k);
      assert AgreeTo(a, c, k) && At(a, k) < At(c, k);
    }
  }

  /** The loop decides the padded order, for segments of any two lengths. */
  lemma {:induction false} CompareSegmentsIsPadded(a: seq<int>, b: seq<int>, i: nat)
    requires NonNegative(a) && NonNegative(b) && AgreeTo(a, b, i)
    ensures CompareSegments(a, b, i) == -1 <==> PaddedLess(a, b)
    ensures CompareSegments(a, b, i) == 1 <==> PaddedLess(b, a)
    ensures CompareSegments(a, b, i) == 0 <==> PaddedEqual(a, b)
    ensures CompareSegments(a, b, i) in {-1, 0, 1}
    decreases |a| + |b| - i
  {
    if i < |a| && i < |b| {
      if a[i] == b[i] {
        CompareSegmentsIsPadded(a, b, i + 1);
      } else if a[i] < b[i] {
        assert PaddedLess(a, b);
        PaddedAsymmetric(a, b);
      } else {
        assert AgreeTo(b, a, i);
        assert PaddedLess(b, a);
        PaddedAsymmetric(b, a);
      }
    } else if i >= |a| {
      TailDecides(a, b, i);
    } else {
      TailDecides(b, a, i);
    }
  }

  /** Once one side has no segments left, the other is larger unless the rest of it is zero. */
  lemma TailDecides(a: seq<int>, b: seq<int>, i: nat)
    requires |a| <= i && NonNegative(b) && AgreeTo(a, b, i)
    ensures (i >= |b| || AllZero(b[i..])) ==> PaddedEqual(a, b) && !PaddedLess(a, b) && !PaddedLess(b, a)
    ensures PaddedEqual(b, a) <==> PaddedEqual(a, b)
    ensures !(i >= |b| || AllZero(b[i..])) ==> PaddedLess(a, b) && !PaddedLess(b, a) && !PaddedEqual(a, b)
  {
    if i >= |b| || AllZero(b[i..]) {
      forall k: nat ensures At(a, k) == At(b, k) {
        if i <= k < |b| {
          assert b[k] == b[i..][k - i];
        }
      }
    } else {
      var k :| 0 <= k < |b[i..]| && b[i..][k] != 0;
      assert At(b, i + k) == b[i..][k];
      FirstDifference(a, b, i + k);
      PaddedAsymmetric(a, b);
    }
  }

  /** Printing alike means being alike, so the shortcut at the start of Compare changes nothing. */
  lemma CompareWithoutShortcut(v: Version, w: Version)
    requires Valid(v) && Valid(w)
    ensures Compare(v, w) ==
            if v.segments != w.segments then CompareSegments(v.segments, w.segments, 0)
            else if v.pre == w.pre then 0
            else if v.pre == "" then 1
            else if w.pre == "" then -1
            else CompareParts(Split(v.pre, '.'), Split(w.pre, '.'), 0)
  {
    if ToString(v) == ToString(w) {
      PrintInjective(v, w);
    }
    hide ToString;
  }

  /**
   Without pre-releases, versions are compared in the lexicographic order of their segments, the shorter one
   padded with zeros; metadata plays no part.
   */
  lemma ReleaseOrder(v: Version, w: Version)
    requires Valid(v) && Valid(w) && v.pre == "" && w.pre == ""
    ensures Compare(v, w) < 0 <==> PaddedLess(v.segments, w.segments)
    ensures Compare(v, w) > 0 <==> PaddedLess(w.segments, v.segments)
    ensures Compare(v, w) == 0 <==> PaddedEqual(v.segments, w.segments)
    ensures Compare(v, w) in {-1, 0, 1}
  {
    CompareWithoutShortcut(v, w);
    hide Compare, Valid;
    if v.segments == w.segments {
      if PaddedLess(v.segments, w.segments) {
        PaddedAsymmetric(v.segments, w.segments);
      }
    } else {
      CompareSegmentsIsPadded(v.segments, w.segments, 0);
    }
  }

  /** Versions whose segments are not the same list are compared by their segments alone, pre-releases or not. */
  lemma OtherSegmentsOrder(v: Version, w: Version)
    requires Valid(v) && Valid(w) && v.segments != w.segments
    ensures Compare(v, w) < 0 <==> PaddedLess(v.segments, w.segments)
    ensures Compare(v, w) > 0 <==> PaddedLess(w.segments, v.segments)
    ensures Compare(v, w) == 0 <==> PaddedEqual(v.segments, w.segments)
  {
    CompareWithoutShortcut(v, w);
    CompareSegmentsIsPadded(v.segments, w.segments, 0);
    hide Compare, CompareSegments;
  }

  // ---------- Precedence of section 11 of Semantic Versioning 2.0.0 ----------

  predicate NumericId(id: string) {
    id != "" && AllDigits(id)
  }

  /** No leading zeros. */
  predicate Canonical(id: string) {
    NumericId(id) && (|id| == 1 || id[0] != '0')
  }

  /**
   An identifier that ParseInt reads as Semantic Versioning does: digits only without leading zeros and
   within 64 bits, or not a number with a sign in front either.
   */
  predicate GoodId(id: string) {
    && IsIdent(id)
    && (NumericId(id) ==> Canonical(id) && Value(id) <= MAX_INT64)
    && !(id[0] == '-' && NumericId(id[1..]))
  }

  ghost predicate GoodPre(pre: string) {
    pre == "" || forall p <- Split(pre, '.') :: GoodId(p)
  }

  /** Items 11.4.1 to 11.4.3. */
  predicate IdLess(a: string, b: string) {
    if NumericId(a) && NumericId(b) then Value(a) < Value(b)
    else if NumericId(a) || NumericId(b) then NumericId(a)
    else StringLess(a, b)
  }

  ghost predicate SameIds(a: seq<string>, b: seq<string>, k: nat) {
    k <= |a| && k <= |b| && forall i :: 0 <= i < k ==> a[i] == b[i]
  }

  /** Item 11.4: the first difference decides; with none, the longer list is the larger (11.4.4). */
  ghost predicate IdsLess(a: seq<string>, b: seq<string>) {
    exists k: nat :: SameIds(a, b, k) && k < |b| && (k == |a| || IdLess(a[k], b[k]))
  }

  /** Item 11.3: a pre-release comes before the release. */
  ghost predicate PreLess(p: string, q: string) {
    p != "" && (q == "" || IdsLess(Split(p, '.'), Split(q, '.')))
  }

  ghost predicate SemverLess(v: Version, w: Version) {
    PaddedLess(v.segments, w.segments) || (v.segments == w.segments && PreLess(v.pre, w.pre))
  }

  ghost function SemverSign(v: Version, w: Version): int {
    if SemverLess(v, w) then -1 else if SemverLess(w, v) then 1 else 0
  }

  // ---------- Single identifiers ----------

  lemma {:induction false} CanonicalPositive(id: string)
    requires Canonical(id) && |id| > 1
    ensures Value(id) >= 10
  {
    var init := id[..|id| - 1];
    if |init| > 1 {
      CanonicalPositive(init);
    } else {
      assert init == [id[0]] && init[..0] == "";
      assert Value(init) == 10 * Value("") + DigitValue(id[0]);
      assert Value("") == 0;
    }
  }

  lemma ValueOfDigit(id: string)
    requires NumericId(id) && |id| == 1
    ensures Value(id) == DigitValue(id[0])
  {
    assert id[..0] == "";
    assert Value("") == 0;
  }

  /** Canonical numerals that denote the same number are the same. */
  lemma {:induction false} CanonicalUnique(a: string, b: string)
    requires Canonical(a) && Canonical(b) && Value(a) == Value(b)
    ensures a == b
    decreases |a|
  {
    if |a| == 1 {
      ValueOfDigit(a);
      if |b| == 1 {
        ValueOfDigit(b);
      } else {
        CanonicalPositive(b);
      }
    } else if |b| == 1 {
      ValueOfDigit(b);
      CanonicalPositive(a);
    } else {
      var m, n := |a| - 1, |b| - 1;
      CanonicalUnique(a[..m], b[..n]);
      assert a == a[..m] + [a[m]] && b == b[..n] + [b[n]];
    }
  }

  lemma GoodIdParse(id: string)
    requires GoodId(id)
    ensures ParseInt(id) == if NumericId(id) then ParsedInt(Value(id), true) else ParsedInt(0, false)
  {
    if id[0] == '-' {
      assert !AllDigits(id);
    }
  }

  /** On good identifiers comparePart is the order of Semantic Versioning. */
  lemma ComparePartGood(a: string, b: string)
    requires GoodId(a) && GoodId(b)
    ensures ComparePart(a, b) == if a == b then 0 else if IdLess(a, b) then -1 else 1
    ensures a != b ==> (IdLess(a, b) <==> !IdLess(b, a))
    ensures !IdLess(a, a)
  {
    GoodIdParse(a);
    GoodIdParse(b);
    StringLessTotal(a, b);
    hide ParseInt, StringLess;
    if a != b && NumericId(a) && NumericId(b) && Value(a) == Value(b) {
      CanonicalUnique(a, b);
    }
    hide Value, IsIdent;
    StringLessTotal(a, a);
  }

  /** Against a missing identifier only a number counts as larger. */
  lemma ComparePartMissing(id: string)
    requires GoodId(id)
    ensures ComparePart("", id) == (if NumericId(id) then -1 else 1)
    ensures ComparePart(id, "") == (if NumericId(id) then 1 else -1)
  {
    GoodIdParse(id);
    assert ParseInt("") == ParsedInt(0, false);
    hide ParseInt;
  }

  lemma IdLessTransitive(a: string, b: string, c: string)
    requires IdLess(a, b) && IdLess(b, c)
    ensures IdLess(a, c)
  {
    if !NumericId(a) {
      StringLessTransitive(a, b, c);
    }
  }

  // ---------- Lists of identifiers ----------

  ghost predicate GoodIds(ids: seq<string>) {
    forall i :: 0 <= i < |ids| ==> GoodId(ids[i])
  }

  lemma IdsAsymmetric(a: seq<string>, b: seq<string>)
    requires GoodIds(a) && GoodIds(b) && IdsLess(a, b)
    ensures !IdsLess(b, a) && a != b
  {
    var k: nat :| SameIds(a, b, k) && k < |b| && (k == |a| || IdLess(a[k], b[k]));
    forall j: nat | SameIds(b, a, j) && j < |a|
      ensures j != |b| && !IdLess(b[j], a[j])
    {
      if j < k {
        ComparePartGood(a[j], a[j]);
      } else if j == k {
        ComparePartGood(a[j], b[j]);
      } else {
        ComparePartGood(a[k], a[k]);
      }
    }
    if k < |a| {
      ComparePartGood(a[k], a[k]);
    }
  }

  lemma {:induction false} IdsTotal(a: seq<string>, b: seq<string>, k: nat)
    requires GoodIds(a) && GoodIds(b) && SameIds(a, b, k)
    ensures IdsLess(a, b) || IdsLess(b, a) || a == b
    decreases |a| - k
  {
    if k == |a| {
      if k < |b| {
        assert IdsLess(a, b);
      }
    } else if k == |b| {
      assert SameIds(b, a, k);
      assert IdsLess(b, a);
    } else if a[k] == b[k] {
      IdsTotal(a, b, k + 1);
    } else {
      ComparePartGood(a[k], b[k]);
      assert SameIds(b, a, k);
    }
  }

  lemma IdsTransitive(a: seq<string>, b: seq<string>, c: seq<string>)
    requires IdsLess(a, b) && IdsLess(b, c)
    ensures IdsLess(a, c)
  {
    var j: nat :| SameIds(a, b, j) && j < |b| && (j == |a| || IdLess(a[j], b[j]));
    var k: nat :| SameIds(b, c, k) && k < |c| && (k == |b| || IdLess(b[k], c[k]));
    var m := if j < k then j else k;
    if j == k && j < |a| {
      IdLessTransitive(a[j], b[j], c[j]);
    }
    assert SameIds(a, c, m) && m < |c| && (m == |a| || IdLess(a[m], c[m]));
  }

  /** b has all of a's identifiers and goes on with one that is not a number. */
  ghost predicate GoesOnWithText(a: seq<string>, b: seq<string>) {
    SameIds(a, b, |a|) && |a| < |b| && !NumericId(b[|a|])
  }

  /** What the loop over the identifiers computes. */
  lemma {:induction false} ComparePartsMeaning(a: seq<string>, b: seq<string>, i: nat)
    requires GoodIds(a) && GoodIds(b) && SameIds(a, b, i)
    ensures CompareParts(a, b, i) ==
            if GoesOnWithText(a, b) then 1
            else if GoesOnWithText(b, a) then -1
            else if a == b then 0
            else if IdsLess(a, b) then -1 else 1
    decreases |a| - i
  {
    if i == |a| {
      if i < |b| {
        ComparePartMissing(b[i]);
        assert IdsLess(a, b);
      }
    } else if i == |b| {
      ComparePartMissing(a[i]);
      assert SameIds(b, a, i);
      assert IdsLess(b, a);
      IdsAsymmetric(b, a);
    } else {
      ComparePartGood(a[i], b[i]);
      hide ComparePart, GoodId, IdLess;
      if a[i] == b[i] {
        ComparePartGood(a[i], a[i]);
        ComparePartsMeaning(a, b, i + 1);
      } else if IdLess(a[i], b[i]) {
        assert IdsLess(a, b);
      } else {
        assert SameIds(b, a, i) && IdLess(b[i], a[i]);
        assert IdsLess(b, a);
        IdsAsymmetric(b, a);
      }
    }
  }

  // ---------- Whole versions ----------

  /** The pre-releases of otherwise equal versions, one of which goes on after the other with a textual identifier. */
  ghost predicate OneGoesOnWithText(v: Version, w: Version) {
    && v.segments == w.segments && v.pre != "" && w.pre != ""
    && (GoesOnWithText(Split(v.pre, '.'), Split(w.pre, '.')) || GoesOnWithText(Split(w.pre, '.'), Split(v.pre, '.')))
  }

  ghost predicate Comparable(v: Version, w: Version) {
    Valid(v) && Valid(w) && |v.segments| == |w.segments| && GoodPre(v.pre) && GoodPre(w.pre)
  }

  lemma SameLengthPadded(a: seq<int>, b: seq<int>)
    requires |a| == |b|
    ensures PaddedEqual(a, b) <==> a == b
  {
    if PaddedEqual(a, b) {
      forall i | 0 <= i < |a| ensures a[i] == b[i] {
        assert At(a, i) == At(b, i);
      }
    }
  }

  lemma PreIds(pre: string)
    requires pre != "" && GoodPre(pre)
    ensures GoodIds(Split(pre, '.'))
  {
    var parts := Split(pre, '.');
    forall i | 0 <= i < |parts| ensures GoodId(parts[i]) {
      assert parts[i] in parts;
    }
  }

  lemma SplitInjective(p: string, q: string)
    requires Split(p, '.') == Split(q, '.')
    ensures p == q
  {
    JoinSplit(p, '.');
    JoinSplit(q, '.');
  }

  /** The sign of the precedence when the segments are the same. */
  lemma SignOfPre(v: Version, w: Version)
    requires Comparable(v, w) && v.segments == w.segments
    ensures SemverSign(v, w) ==
            if v.pre == w.pre then 0
            else if v.pre == "" then 1
            else if w.pre == "" then -1
            else if IdsLess(Split(v.pre, '.'), Split(w.pre, '.')) then -1 else 1
  {
    SameLengthPadded(v.segments, w.segments);
    if PaddedLess(v.segments, w.segments) {
      PaddedAsymmetric(v.segments, w.segments);
    }
    if v.pre != "" && w.pre != "" {
      var a, b := Split(v.pre, '.'), Split(w.pre, '.');
      PreIds(v.pre);
      PreIds(w.pre);
      IdsTotal(a, b, 0);
      hide Split, IdsLess, PaddedLess, Valid, GoodPre;
      if a == b {
        SplitInjective(v.pre, w.pre);
      }
      if IdsLess(a, b) {
        IdsAsymmetric(a, b);
      } else if IdsLess(b, a) {
        IdsAsymmetric(b, a);
      }
    }
  }

  /**
   For versions with equally many segments and good identifiers, Compare is the precedence of section 11 of
   Semantic Versioning 2.0.0 exactly when the pre-releases are not such that one has all the identifiers of
   the other and goes on with one that is not a number.
   */
  lemma CompareIsSemverIff(v: Version, w: Version)
    requires Comparable(v, w)
    ensures Compare(v, w) == SemverSign(v, w) <==> !OneGoesOnWithText(v, w)
    ensures Compare(v, w) in {-1, 0, 1}
  {
    CompareWithoutShortcut(v, w);
    hide Compare;
    if v.segments != w.segments {
      CompareSegmentsIsPadded(v.segments, w.segments, 0);
      SameLengthPadded(v.segments, w.segments);
      hide CompareSegments, PaddedEqual, PaddedLess;
    } else {
      SignOfPre(v, w);
      if v.pre != w.pre && v.pre != "" && w.pre != "" {
        var a, b := Split(v.pre, '.'), Split(w.pre, '.');
        PreIds(v.pre);
        PreIds(w.pre);
        ComparePartsMeaning(a, b, 0);
        hide Split, IdsLess, PaddedLess, Valid, GoodPre, CompareParts, SemverLess, CompareSegments;
        if a == b {
          SplitInjective(v.pre, w.pre);
        }
        LongerIsGreater(a, b);
        LongerIsGreater(b, a);
      }
    }
  }

  lemma LongerIsGreater(a: seq<string>, b: seq<string>)
    requires GoodIds(a) && GoodIds(b)
    ensures GoesOnWithText(a, b) ==> IdsLess(a, b) && !IdsLess(b, a) && !GoesOnWithText(b, a) && a != b
  {
    if GoesOnWithText(a, b) {
      assert IdsLess(a, b);
      IdsAsymmetric(a, b);
    }
  }

  /** In particular Compare is the precedence whenever the pre-releases have equally many identifiers. */
  lemma CompareIsSemverForEqualCounts(v: Version, w: Version)
    requires Comparable(v, w) && |Split(v.pre, '.')| == |Split(w.pre, '.')|
    ensures Compare(v, w) == SemverSign(v, w)
  {
    CompareIsSemverIff(v, w);
    hide Compare, SemverSign, Valid, Split;
  }

  lemma PreLessTransitive(p: string, q: string, r: string)
    requires PreLess(p, q) && PreLess(q, r)
    ensures PreLess(p, r)
  {
    if q != "" && r != "" {
      IdsTransitive(Split(p, '.'), Split(q, '.'), Split(r, '.'));
    }
  }

  lemma SemverTransitive(u: Version, v: Version, w: Version)
    requires SemverLess(u, v) && SemverLess(v, w)
    ensures SemverLess(u, w)
  {
    hide PaddedLess, PaddedEqual, PreLess;
    if PaddedLess(u.segments, v.segments) && PaddedLess(v.segments, w.segments) {
      PaddedTransitive(u.segments, v.segments, w.segments);
    } else if u.segments == v.segments && v.segments == w.segments {
      if PaddedLess(u.segments, v.segments) {
        PaddedAsymmetric(u.segments, v.segments);
      }
      if PaddedLess(v.segments, w.segments) {
        PaddedAsymmetric(v.segments, w.segments);
      }
      PreLessTransitive(u.pre, v.pre, w.pre);
    }
  }

  lemma SemverAsymmetric(v: Version, w: Version)
    requires Comparable(v, w) && SemverLess(v, w)
    ensures !SemverLess(w, v) && !(v.segments == w.segments && v.pre == w.pre)
  {
    hide Valid;
    if v.segments == w.segments {
      SignOfPre(v, w);
      SignOfPre(w, v);
      if v.pre != "" && w.pre != "" {
        PreIds(v.pre);
        PreIds(w.pre);
        hide Split, PaddedLess;
        if IdsLess(Split(v.pre, '.'), Split(w.pre, '.')) {
          IdsAsymmetric(Split(v.pre, '.'), Split(w.pre, '.'));
        }
      }
    } else {
      PaddedAsymmetric(v.segments, w.segments);
    }
  }

  lemma SemverTotal(v: Version, w: Version)
    requires Comparable(v, w)
    ensures SemverLess(v, w) || SemverLess(w, v) || (v.segments == w.segments && v.pre == w.pre)
  {
    if v.segments == w.segments {
      SignOfPre(v, w);
    } else {
      PaddedTotal(v.segments, w.segments);
      SameLengthPadded(v.segments, w.segments);
    }
  }

  /** The reference is what section 11 says it is: a strict order, total up to metadata, on comparable versions. */
  lemma SemverStrictOrder(u: Version, v: Version, w: Version)
    requires Comparable(u, v) && Comparable(v, w)
    ensures !SemverLess(u, u)
    ensures SemverLess(u, v) ==> !SemverLess(v, u)
    ensures SemverLess(u, v) && SemverLess(v, w) ==> SemverLess(u, w)
    ensures SemverLess(u, v) || SemverLess(v, u) <==> !(u.segments == v.segments && u.pre == v.pre)
  {
    hide SemverLess, Valid, GoodPre;
    SemverTotal(u, v);
    if SemverLess(u, u) {
      SemverAsymmetric(u, u);
    }
    if SemverLess(u, v) {
      SemverAsymmetric(u, v);
      if SemverLess(v, w) {
        SemverTransitive(u, v, w);
      }
    }
    if SemverLess(v, u) {
      SemverAsymmetric(v, u);
    }
  }
}
