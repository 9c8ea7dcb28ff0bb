/** Version constraints (LICENSES/github.com/hashicorp/go-version/constraint.go). */
module Constraint {
  import opened Text
  import opened Version
  import opened VersionOrder

  datatype Operator = Equal | NotEqual | Greater | Less | GreaterEqual | LessEqual | Pessimistic

  /** A version as NewVersion returns it. */
  type Parsed = v: Version | NonNegative(v.segments) && |v.segments| >= 1 && 1 <= v.si <= |v.segments|
    witness Version("", "", [0], 1, "")

  datatype Constraint = Constraint(op: Operator, check: Parsed)

  predicate PrereleaseCheck(v: Version, c: Version) {
    if c.pre != "" && v.pre != "" then c.segments == v.segments
    else !(c.pre == "" && v.pre != "")
  }

  /** The segments of the constraint that the version must share: all but the last one written. */
  predicate SharesPrefix(v: Parsed, c: Parsed)
    requires |c.segments| <= |v.segments|
  {
    forall i :: 0 <= i < c.si - 1 ==> v.segments[i] == c.segments[i]
  }

  predicate AcceptsPessimistic(v: Parsed, c: Parsed) {
    && PrereleaseCheck(v, c) && !(c.pre != "" && v.pre == "")
    && Compare(v, c) >= 0
    && |c.segments| <= |v.segments|
    && SharesPrefix(v, c)
    && c.segments[|c.segments| - 1] <= v.segments[|c.segments| - 1]
  }

  predicate Accepts(c: Constraint, v: Parsed)
  {
    match c.op
    case Equal => Compare(v, c.check) == 0
    case NotEqual => Compare(v, c.check) != 0
    case Greater => PrereleaseCheck(v, c.check) && Compare(v, c.check) == 1
    case Less => PrereleaseCheck(v, c.check) && Compare(v, c.check) == -1
    case GreaterEqual => PrereleaseCheck(v, c.check) && Compare(v, c.check) >= 0
    case LessEqual => PrereleaseCheck(v, c.check) && Compare(v, c.check) <= 0
    case Pessimistic => AcceptsPessimistic(v, c.check)
  }

  /** constraintPessimistic, with its loop. */
  method CheckPessimistic(v: Parsed, c: Parsed) returns (ok: bool)
    ensures ok == AcceptsPessimistic(v, c)
  {
    hide Compare;
    if !PrereleaseCheck(v, c) || (c.pre != "" && v.pre == "") {
      return false;
    }
    var order := CompareVersions(v, c);
    if order < 0 {
      return false;
    }
    var cs := |c.segments|;
    if cs > |v.segments| {
      return false;
    }
    for i := 0 to c.si - 1
      invariant forall k :: 0 <= k < i ==> v.segments[k] == c.segments[k]
    {
      if v.segments[i] != c.segments[i] {
        return false;
      }
    }
    return c.segments[cs - 1] <= v.segments[cs - 1];
  }

  /** Constraints.Check */
  method Check(cs: seq<Constraint>, v: Parsed) returns (ok: bool)
    ensures ok <==> forall i :: 0 <= i < |cs| ==> Accepts(cs[i], v)
  {
    hide Accepts;
    for i := 0 to |cs|
      invariant forall k :: 0 <= k < i ==> Accepts(cs[k], v)
    {
      if !Accepts(cs[i], v) {
        return false;
      }
    }
    return true;
  }

  /** What an operator asks of a version that is less than, or more than, the one of the constraint. */
  predicate Passes(op: Operator, less: bool, more: bool) {
    match op
    case Equal => !less && !more
    case NotEqual => less || more
    case Greater => more
    case Less => less
    case GreaterEqual => !less
    case LessEqual => !more
    case Pessimistic => false
  }

  /** Among releases the comparison operators are those of the padded lexicographic order. */
  lemma ReleaseConstraint(c: Constraint, v: Version)
    requires Valid(v) && Valid(c.check) && v.pre == "" && c.check.pre == "" && c.op != Pessimistic
    ensures var less, more := PaddedLess(v.segments, c.check.segments), PaddedLess(c.check.segments, v.segments);
            Accepts(c, v) <==> Passes(c.op, less, more)
  {
    ReleaseOrder(v, c.check);
    PaddedTotal(v.segments, c.check.segments);
    hide Compare;
  }

  /**
   With a pre-release on either side. One without a pre-release accepts none in order comparisons, not even one far
   above ">= 1.12"; one with a pre-release accepts pre-releases of its own segments only, as Compare orders them,
   and takes a release for later than its own segments' pre-releases. Equality alone ignores all this, but is blind
   to pre-releases where segments differ in trailing zeros.
   */
  lemma PrereleaseConstraint(c: Constraint, v: Version)
    requires Valid(v) && Valid(c.check) && (v.pre != "" || c.check.pre != "") && c.op != Pessimistic
    ensures var same, order := v.segments == c.check.segments, Compare(v, c.check);
            var less, more := PaddedLess(v.segments, c.check.segments), PaddedLess(c.check.segments, v.segments);
            var equal := if same && v.pre != "" && c.check.pre != "" then order == 0 else !same && !less && !more;
            Accepts(c, v) <==>
              if c.op == Equal then equal
              else if c.op == NotEqual then !equal
              else if c.check.pre == "" then false
              else if v.pre == "" then Passes(c.op, less, same || more)
              else same && Passes(c.op, order < 0, order > 0)
  {
    var a, b := v.segments, c.check.segments;
    CompareSigns(v, c.check);
    PaddedTotal(a, b);
    if a != b {
      OtherSegmentsOrder(v, c.check);
      if PaddedLess(a, b) {
        PaddedAsymmetric(a, b);
      }
    } else {
      NotLessThanItself(a);
      CompareWithoutShortcut(v, c.check);
    }
    hide Compare, PaddedLess, CompareParts, CompareSegments, Valid;
  }

  lemma NotLessThanItself(a: seq<int>)
    ensures !PaddedLess(a, a)
  {
    if PaddedLess(a, a) {
      PaddedAsymmetric(a, a);
    }
  }

  /** The first version beyond what "~> c" accepts: c cut after position si - 2, which is increased by one. */
  function Bumped(c: Version): seq<int>
    requires 2 <= c.si <= |c.segments|
  {
    c.segments[..c.si - 2] + [c.segments[c.si - 2] + 1]
  }

  /** Not below c, a version is below the bumped prefix exactly when it shares the segments before the last. */
  lemma SharesPrefixIffBelowBumped(v: Version, c: Version)
    requires Valid(v) && Valid(c) && c.si >= 2 && |c.segments| <= |v.segments|
    requires !PaddedLess(v.segments, c.segments)
    ensures SharesPrefix(v, c) <==> PaddedLess(v.segments, Bumped(c))
  {
    var a, b, p := v.segments, Bumped(c), c.si - 2;
    if SharesPrefix(v, c) {
      assert AgreeTo(a, b, p) && At(a, p) < At(b, p);
    } else {
      var i :| 0 <= i < c.si - 1 && a[i] != c.segments[i];
      var k := LeastDifference(a, c.segments, i);
      BeyondPrefix(a, c, k);
    }
  }

  lemma {:induction false} LeastDifference(a: seq<int>, b: seq<int>, i: nat) returns (k: nat)
    requires At(a, i) != At(b, i)
    ensures k <= i && AgreeTo(a, b, k) && At(a, k) != At(b, k)
  {
    if AgreeTo(a, b, i) {
      k := i;
    } else {
      var j: nat :| j < i && At(a, j) != At(b, j);
      k := LeastDifference(a, b, j);
    }
  }

  /** A version above c that differs from it in the prefix is at or above the bumped prefix. */
  lemma BeyondPrefix(a: seq<int>, c: Version, k: nat)
    requires Valid(c) && c.si >= 2 && k <= c.si - 2 && NonNegative(a)
    requires AgreeTo(a, c.segments, k) && At(a, k) != At(c.segments, k) && !PaddedLess(a, c.segments)
    ensures !PaddedLess(a, Bumped(c))
  {
    var b := Bumped(c);
    assert At(a, k) > At(c.segments, k);
    forall j: nat | AgreeTo(a, b, j)
      ensures At(a, j) >= At(b, j)
    {
      if j < k {
        assert At(b, j) == At(c.segments, j);
      } else if j > k {
        assert At(a, k) == At(b, k);
      }
    }
  }

  /**
   Among releases "~> c" accepts v exactly when v has at least as many segments as c and lies in the interval
   from c up to, but not including, the bumped prefix; with a single segment written there is no upper end.
   */
  lemma PessimisticIsInterval(v: Version, c: Version)
    requires Valid(v) && Valid(c) && v.pre == "" && c.pre == ""
    ensures AcceptsPessimistic(v, c) <==>
            && |c.segments| <= |v.segments|
            && !PaddedLess(v.segments, c.segments)
            && (c.si >= 2 ==> PaddedLess(v.segments, Bumped(c)))
  {
    ReleaseOrder(v, c);
    if |c.segments| <= |v.segments| && !PaddedLess(v.segments, c.segments) {
      if c.si >= 2 {
        SharesPrefixIffBelowBumped(v, c);
      }
      if SharesPrefix(v, c) {
        LastSegmentOrdered(v, c);
      }
    }
    hide Compare, PaddedLess, Bumped;
  }

  /** The final test on the last segment never rejects what the earlier tests let through. */
  lemma LastSegmentOrdered(v: Version, c: Version)
    requires Valid(v) && Valid(c) && |c.segments| <= |v.segments| && SharesPrefix(v, c)
    requires !PaddedLess(v.segments, c.segments)
    ensures c.segments[|c.segments| - 1] <= v.segments[|c.segments| - 1]
  {
    var last := |c.segments| - 1;
    if c.si == |c.segments| {
      assert AgreeTo(v.segments, c.segments, last);
      assert At(v.segments, last) >= At(c.segments, last);
    }
  }

  lemma LastTestRedundant(v: Version, c: Version)
    requires Valid(v) && Valid(c) && |c.segments| <= |v.segments|
    requires PrereleaseCheck(v, c) && !(c.pre != "" && v.pre == "") && Compare(v, c) >= 0 && SharesPrefix(v, c)
    ensures c.segments[|c.segments| - 1] <= v.segments[|c.segments| - 1]
  {
    if v.pre == "" {
      ReleaseOrder(v, c);
      hide Compare, PaddedLess;
      LastSegmentOrdered(v, c);
    }
  }

  /** Over all versions: an interval of releases for a release, later ones of its segments for a pre-release. */
  lemma PessimisticMeaning(v: Version, c: Version)
    requires Valid(v) && Valid(c)
    ensures AcceptsPessimistic(v, c) <==>
            if c.pre == "" then
              && v.pre == "" && |c.segments| <= |v.segments| && !PaddedLess(v.segments, c.segments)
              && (c.si >= 2 ==> PaddedLess(v.segments, Bumped(c)))
            else
              v.pre != "" && v.segments == c.segments && Compare(v, c) >= 0
  {
    if v.pre == "" && c.pre == "" {
      PessimisticIsInterval(v, c);
    }
    hide Compare, PaddedLess, Bumped;
  }
}
