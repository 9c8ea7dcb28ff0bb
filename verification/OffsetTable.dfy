/**
 The table of struct field offsets: written by offsets-tracker/writer/writer.go, which keeps only the versions
 at which an offset changed, and read by offsets-tracker/cache/cache.go and pkg/inject/injector.go.
 */
module OffsetTable {
  import opened Machine
  import opened Text
  import opened Version
  import opened VersionOrder
  import opened VersionCoherence

  datatype VersionedOffset = VersionedOffset(offset: u64, since: string)

  datatype DataMember = DataMember(structName: string, field: string)

  datatype DataMemberOffset = DataMemberOffset(member: DataMember, offset: u64)

  /** The offsets found in one version of a module. */
  datatype VersionedResult = VersionedResult(version: string, members: seq<DataMemberOffset>)

  datatype TrackedField = TrackedField(oldest: string, newest: string, offsets: seq<VersionedOffset>)

  type TrackedStruct = map<string, TrackedField>

  /** What a lookup returns; `Panics` where the source panics on a malformed version. */
  datatype Lookup = Found(offset: u64) | NotFound | Panics

  // ---------- Versions as texts ----------

  predicate Parses(t: string) {
    Parse(t).Ok?
  }

  function Ver(t: string): (v: Version)
    requires Parses(t)
    ensures Valid(v) && NonNegative(v.segments) && |v.segments| >= 1
  {
    ParsedIsValid(t);
    Parse(t).version
  }

  /** Compare on two version texts. */
  function Cmp(a: string, b: string): int
    requires Parses(a) && Parses(b)
  {
    Compare(Ver(a), Ver(b))
  }

  /** Compare orders these texts. */
  ghost predicate Ordered(ts: set<string>) {
    && (forall t <- ts :: Parses(t))
    && (forall a <- ts, b <- ts :: Cmp(a, b) == -Cmp(b, a) && Cmp(a, b) in {-1, 0, 1})
    && (forall a <- ts, b <- ts, c <- ts :: Cmp(a, b) <= 0 && Cmp(b, c) <= 0 ==>
          Cmp(a, c) <= 0 && (Cmp(a, b) < 0 || Cmp(b, c) < 0 ==> Cmp(a, c) < 0))
  }

  /** The versions that texts denote. */
  function Vers(ts: set<string>): set<Version>
    requires forall t <- ts :: Parses(t)
  {
    set t <- ts :: Ver(t)
  }

  /** The texts parse, and among their versions there is none of the patterns on which Compare is no order. */
  ghost predicate Sortable(ts: set<string>) {
    && (forall t <- ts :: Parses(t))
    && NoMisread(Vers(ts)) && NoThreeWays(Vers(ts)) && NoZeroTwin(Vers(ts))
  }

  lemma OrderedIffCoherent(ts: set<string>)
    requires forall t <- ts :: Parses(t)
    ensures Ordered(ts) <==> Coherent(Vers(ts))
  {
    hide Compare, Valid, Parse;
    var vs := Vers(ts);
    forall t <- ts ensures Ver(t) in vs {}
    if Ordered(ts) {
      TextsCoherent(ts);
    }
  }

  lemma TextsCoherent(ts: set<string>)
    requires Ordered(ts)
    ensures Coherent(Vers(ts))
  {
    hide Compare, Parse;
    var vs := Vers(ts);
    forall v <- vs, w <- vs
      ensures Compare(v, w) == -Compare(w, v) && Compare(v, w) in {-1, 0, 1}
    {
      var a :| a in ts && Ver(a) == v;
      var b :| b in ts && Ver(b) == w;
      assert Cmp(a, b) == -Cmp(b, a);
    }
    forall u <- vs, v <- vs, w <- vs | Compare(u, v) <= 0 && Compare(v, w) <= 0
      ensures Compare(u, w) <= 0 && (Compare(u, v) < 0 || Compare(v, w) < 0 ==> Compare(u, w) < 0)
    {
      var a :| a in ts && Ver(a) == u;
      var b :| b in ts && Ver(b) == v;
      var c :| c in ts && Ver(c) == w;
      assert Cmp(a, b) <= 0 && Cmp(b, c) <= 0;
    }
  }

  /** Compare orders texts exactly when the versions they denote avoid the patterns. */
  lemma OrderedIffSortable(ts: set<string>)
    ensures Ordered(ts) <==> Sortable(ts)
  {
    hide Compare, Parse, Ver, Valid, NoMisread, NoThreeWays, NoZeroTwin, Coherent;
    if forall t <- ts :: Parses(t) {
      ValidVers(ts);
      OrderedIffCoherent(ts);
      CoherentIff(Vers(ts));
    }
  }

  lemma ValidVers(ts: set<string>)
    requires forall t <- ts :: Parses(t)
    ensures forall v <- Vers(ts) :: Valid(v)
  {
    hide Parse, Valid;
  }

  /** Texts of releases always are. */
  lemma ReleaseTextsSortable(ts: set<string>)
    requires forall t <- ts :: Parses(t) && Ver(t).pre == ""
    ensures Sortable(ts)
  {
    hide Parse;
  }

  /** Only what is printed matters for Compare. */
  lemma CompareSameFields(u: Version, v: Version, w: Version)
    requires Valid(u) && Valid(v) && Valid(w)
    requires v.segments == w.segments && v.pre == w.pre && v.metadata == w.metadata
    ensures Compare(u, v) == Compare(u, w) && Compare(v, u) == Compare(w, u)
  {
    assert ToString(v) == ToString(w);
    hide ToString, CompareSegments, ComparePrereleases, Valid;
  }

  /** A version can be stored as its printed form: the text parses to a version that compares the same. */
  lemma PrintedComparesAlike(t: string, u: string)
    requires Parses(t) && Parses(u)
    ensures Parses(ToString(Ver(t))) && Cmp(u, ToString(Ver(t))) == Cmp(u, t)
  {
    PrintParseRoundTrip(t);
    hide ToString, Compare, Parse, Valid;
    CompareSameFields(Ver(u), Ver(ToString(Ver(t))), Ver(t));
  }

  // ---------- Searching ----------

  /** The loop of searchOffset and getFieldOffset, with n entries left to look at. */
  function SearchDown(offsets: seq<VersionedOffset>, target: string, n: nat, malformed: Lookup): Lookup
    requires n <= |offsets| && Parses(target)
  {
    if n == 0 then NotFound
    else if !Parses(offsets[n - 1].since) then malformed
    else if Cmp(target, offsets[n - 1].since) >= 0 then Found(offsets[n - 1].offset)
    else SearchDown(offsets, target, n - 1, malformed)
  }

  /** cache.searchOffset: a malformed recorded version counts as not found. */
  function SearchOffset(offsets: seq<VersionedOffset>, target: string): Lookup {
    if Parses(target) then SearchDown(offsets, target, |offsets|, NotFound) else Panics
  }

  /** injector.getFieldOffset once the field is found: a malformed recorded version panics. */
  function FieldOffset(offsets: seq<VersionedOffset>, target: string): Lookup {
    if Parses(target) then SearchDown(offsets, target, |offsets|, Panics) else Panics
  }

  method SearchLoop(offsets: seq<VersionedOffset>, target: string, malformed: Lookup) returns (r: Lookup)
    requires Parses(target)
    ensures r == SearchDown(offsets, target, |offsets|, malformed)
  {
    hide Cmp, Parse;
    var o := |offsets| - 1;
    while o >= 0
      invariant -1 <= o < |offsets|
      invariant SearchDown(offsets, target, |offsets|, malformed) == SearchDown(offsets, target, o + 1, malformed)
    {
      var od := offsets[o];
      if !Parses(od.since) {
        return malformed;
      }
      if Cmp(target, od.since) >= 0 {
        return Found(od.offset);
      }
      o := o - 1;
    }
    return NotFound;
  }

  // ---------- Compression ----------

  /** The entries whose offset differs from that of the entry before. */
  function Kept(offs: seq<VersionedOffset>): seq<VersionedOffset> {
    if offs == [] then []
    else
      var n := |offs| - 1;
      if n == 0 || offs[n].offset != offs[n - 1].offset then Kept(offs[..n]) + [offs[n]] else Kept(offs[..n])
  }

  ghost predicate AllParse(offs: seq<VersionedOffset>) {
    forall i :: 0 <= i < |offs| ==> Parses(offs[i].since)
  }

  ghost predicate Ascending(offs: seq<VersionedOffset>) {
    && AllParse(offs)
    && (forall i, j :: 0 <= i < j < |offs| ==> Cmp(offs[i].since, offs[j].since) < 0)
  }

  function Sinces(offs: seq<VersionedOffset>): set<string> {
    set i | 0 <= i < |offs| :: offs[i].since
  }

  /** e is recorded for a version not above the target, and no greater such version is recorded. */
  ghost predicate GreatestBelow(offs: seq<VersionedOffset>, target: string, e: VersionedOffset)
    requires Parses(target) && forall d <- offs :: Parses(d.since)
  {
    && e in offs && Cmp(target, e.since) >= 0
    && forall d <- offs :: Cmp(target, d.since) >= 0 ==> Cmp(d.since, e.since) <= 0
  }

  /** What the full table says about a version: the offset of the greatest recorded version not above it. */
  ghost predicate Answers(offs: seq<VersionedOffset>, target: string, r: Lookup)
    requires Parses(target) && forall d <- offs :: Parses(d.since)
  {
    match r
    case Found(offset) => exists e :: GreatestBelow(offs, target, e) && e.offset == offset
    case NotFound => forall d <- offs :: Cmp(target, d.since) < 0
    case Panics => false
  }

  lemma SearchIgnoresTail(offs: seq<VersionedOffset>, more: seq<VersionedOffset>, target: string, n: nat, bad: Lookup)
    requires Parses(target) && n <= |offs|
    ensures SearchDown(offs + more, target, n, bad) == SearchDown(offs, target, n, bad)
  {
    hide Cmp, Parse;
    if n > 0 {
      SearchIgnoresTail(offs, more, target, n - 1, bad);
    }
  }

  /** Searching the full list downwards finds the greatest recorded version not above the target. */
  lemma {:induction false} SearchAnswers(offs: seq<VersionedOffset>, target: string, n: nat, bad: Lookup)
    requires Parses(target) && n <= |offs| && Ascending(offs)
    requires forall i :: n <= i < |offs| ==> Cmp(target, offs[i].since) < 0
    ensures Answers(offs, target, SearchDown(offs, target, n, bad))
  {
    hide Cmp, Parse;
    if n > 0 {
      var e := offs[n - 1];
      if Cmp(target, e.since) >= 0 {
        forall d <- offs | Cmp(target, d.since) >= 0
          ensures Cmp(d.since, e.since) <= 0
        {
          SelfEqual(d.since);
        }
        assert GreatestBelow(offs, target, e);
      } else {
        SearchAnswers(offs, target, n - 1, bad);
      }
    }
  }

  lemma SelfEqual(t: string)
    requires Parses(t)
    ensures Cmp(t, t) == 0
  {
    hide Parse;
  }

  /** In an ascending list the answer is unique. */
  lemma AnswerUnique(offs: seq<VersionedOffset>, target: string, r: Lookup, s: Lookup)
    requires Parses(target) && Ascending(offs) && Ordered(Sinces(offs))
    requires Answers(offs, target, r) && Answers(offs, target, s)
    ensures r == s
  {
    hide Cmp, Parse, Ordered;
    if r.Found? && s.Found? {
      var e :| GreatestBelow(offs, target, e) && e.offset == r.offset;
      var d :| GreatestBelow(offs, target, d) && d.offset == s.offset;
      if e != d {
        Antisymmetric(Sinces(offs), e.since, d.since);
      }
    }
  }

  /** The search stops at the first entry from the end that is malformed or not above the target. */
  lemma {:induction false} SearchStops(offs: seq<VersionedOffset>, target: string, n: nat, k: nat, bad: Lookup)
    requires Parses(target) && k < n <= |offs|
    requires forall i :: k < i < n ==> Parses(offs[i].since) && Cmp(target, offs[i].since) < 0
    requires Parses(offs[k].since) ==> Cmp(target, offs[k].since) >= 0
    ensures SearchDown(offs, target, n, bad) == if Parses(offs[k].since) then Found(offs[k].offset) else bad
  {
    hide Cmp, Parse;
    if k < n - 1 {
      SearchStops(offs, target, n - 1, k, bad);
    }
  }

  /** A malformed recorded version stops both readers: the cache finds nothing, the injector panics. */
  lemma MalformedEntryStops(offs: seq<VersionedOffset>, target: string, k: nat)
    requires Parses(target) && k < |offs| && !Parses(offs[k].since)
    requires forall i :: k < i < |offs| ==> Parses(offs[i].since) && Cmp(target, offs[i].since) < 0
    ensures SearchOffset(offs, target) == NotFound && FieldOffset(offs, target) == Panics
  {
    hide Cmp, Parse, SearchDown;
    SearchStops(offs, target, |offs|, k, NotFound);
    SearchStops(offs, target, |offs|, k, Panics);
  }

  lemma Antisymmetric(ts: set<string>, a: string, b: string)
    requires Ordered(ts) && a in ts && b in ts
    ensures Cmp(a, b) == -Cmp(b, a)
  {
    hide Cmp, Parse;
  }

  lemma {:induction false} KeptAreEntries(offs: seq<VersionedOffset>)
    ensures forall i :: 0 <= i < |Kept(offs)| ==> Kept(offs)[i] in offs
    ensures offs != [] ==> Kept(offs) != [] && Kept(offs)[0] == offs[0]
  {
    if offs != [] {
      var n := |offs| - 1;
      KeptAreEntries(offs[..n]);
      if n > 0 {
        assert offs[..n][0] == offs[0];
      }
      assert forall e :: e in offs[..n] ==> e in offs;
    }
  }

  /** What is kept is all changes: neighbours differ in their offset. */
  lemma {:induction false} KeptChanges(offs: seq<VersionedOffset>)
    ensures forall i :: 0 <= i < |Kept(offs)| - 1 ==> Kept(offs)[i].offset != Kept(offs)[i + 1].offset
    ensures offs != [] ==> Kept(offs) != [] && Kept(offs)[|Kept(offs)| - 1].offset == offs[|offs| - 1].offset
  {
    if offs != [] {
      var n := |offs| - 1;
      KeptChanges(offs[..n]);
      if n > 0 {
        assert offs[..n][n - 1] == offs[n - 1];
      }
    }
  }

  /** An entry on top of two lists that search alike keeps them alike. */
  lemma SameOnTop(a: seq<VersionedOffset>, b: seq<VersionedOffset>, e: VersionedOffset, target: string, bad: Lookup)
    requires Parses(target) && SearchDown(a, target, |a|, bad) == SearchDown(b, target, |b|, bad)
    ensures SearchDown(a + [e], target, |a| + 1, bad) == SearchDown(b + [e], target, |b| + 1, bad)
  {
    hide Cmp, Parse;
    SearchIgnoresTail(a, [e], target, |a|, bad);
    SearchIgnoresTail(b, [e], target, |b|, bad);
  }

  /** The entries not above the target are the first ones. */
  ghost predicate Cuts(offs: seq<VersionedOffset>, target: string)
    requires AllParse(offs) && Parses(target)
  {
    forall i, j :: 0 <= i < j < |offs| && Cmp(target, offs[j].since) >= 0 ==> Cmp(target, offs[i].since) >= 0
  }

  /** An entry that repeats the offset below it is not missed. */
  lemma RepeatedOnTop(offs: seq<VersionedOffset>, n: nat, target: string, bad: Lookup)
    requires Parses(target) && AllParse(offs) && Cuts(offs, target)
    requires 0 < n < |offs| && offs[n].offset == offs[n - 1].offset
    ensures SearchDown(offs, target, n + 1, bad) == SearchDown(offs, target, n, bad)
  {
    hide Cmp, Parse;
  }

  lemma KeptStep(offs: seq<VersionedOffset>)
    requires offs != []
    ensures var n := |offs| - 1;
            Kept(offs) == Kept(offs[..n]) + if n == 0 || offs[n].offset != offs[n - 1].offset then [offs[n]] else []
  {
  }

  /** Searching the kept entries is searching all of them. */
  ghost predicate SearchesAlike(offs: seq<VersionedOffset>, target: string, bad: Lookup)
    requires Parses(target)
  {
    SearchDown(Kept(offs), target, |Kept(offs)|, bad) == SearchDown(offs, target, |offs|, bad)
  }

  lemma KeepOneMore(offs: seq<VersionedOffset>, e: VersionedOffset, target: string, bad: Lookup)
    requires Parses(target) && SearchesAlike(offs, target, bad)
    requires offs == [] || e.offset != offs[|offs| - 1].offset
    ensures SearchesAlike(offs + [e], target, bad)
  {
    hide Cmp, Parse, SearchDown;
    SameOnTop(Kept(offs), offs, e, target, bad);
    KeptStep(offs + [e]);
    assert (offs + [e])[..|offs|] == offs;
  }

  lemma DropOneMore(offs: seq<VersionedOffset>, e: VersionedOffset, target: string, bad: Lookup)
    requires Parses(target) && SearchesAlike(offs, target, bad)
    requires offs != [] && e.offset == offs[|offs| - 1].offset
    requires AllParse(offs + [e]) && Cuts(offs + [e], target)
    ensures SearchesAlike(offs + [e], target, bad)
  {
    hide Cmp, Parse, SearchDown, AllParse, Cuts;
    SearchIgnoresTail(offs, [e], target, |offs|, bad);
    RepeatedOnTop(offs + [e], |offs|, target, bad);
    KeptStep(offs + [e]);
    assert (offs + [e])[..|offs|] == offs;
  }

  /**
   Dropping the entries that repeat the offset before them does not change the answer for any version that cuts
   the list in two: not the offset found, and not whether one is found.
   */
  lemma {:induction false} CompressionPreservesSearch(offs: seq<VersionedOffset>, target: string, bad: Lookup)
    requires Parses(target) && AllParse(offs) && Cuts(offs, target)
    ensures SearchesAlike(offs, target, bad)
    decreases |offs|
  {
    hide Cmp, Parse;
    if offs == [] {
      assert Kept(offs) == offs;
    } else {
      var n := |offs| - 1;
      var init, e := offs[..n], offs[n];
      hide SearchDown, Kept;
      CompressionPreservesSearch(init, target, bad);
      assert offs == init + [e];
      if n == 0 || e.offset != init[n - 1].offset {
        KeepOneMore(init, e, target, bad);
      } else {
        DropOneMore(init, e, target, bad);
      }
    }
  }

  /** The same versions, with any offsets. */
  ghost predicate SameVersions(w: seq<VersionedOffset>, offs: seq<VersionedOffset>) {
    |w| == |offs| && forall i :: 0 <= i < |w| ==> w[i].since == offs[i].since
  }

  /** Compressed like the full list, whatever offsets are recorded for its versions. */
  ghost predicate AlwaysSearchesAlike(offs: seq<VersionedOffset>, target: string, bad: Lookup)
    requires Parses(target)
  {
    forall w :: SameVersions(w, offs) ==> SearchesAlike(w, target, bad)
  }

  /** Compression is safe for a version, whatever the offsets, exactly when the version cuts the list in two. */
  lemma CompressionIff(offs: seq<VersionedOffset>, target: string, bad: Lookup)
    requires Parses(target) && AllParse(offs)
    ensures AlwaysSearchesAlike(offs, target, bad) <==> Cuts(offs, target)
  {
    hide Cmp, Parse;
    if Cuts(offs, target) {
      forall w | SameVersions(w, offs) ensures SearchesAlike(w, target, bad) {
        CompressionPreservesSearch(w, target, bad);
      }
    } else {
      var i, j :| 0 <= i < j < |offs| && Cmp(target, offs[j].since) >= 0 && Cmp(target, offs[i].since) < 0;
      var w := OneChange(offs, i);
      KeptOneChange(w, i);
      FindsAbove(w, target, |w|, j, bad);
      SearchesOneChange(w, target, i, bad);
      assert SameVersions(w, offs) && !SearchesAlike(w, target, bad);
    }
  }

  /** The same versions, with one offset before position k and another from there on. */
  function OneChange(offs: seq<VersionedOffset>, k: nat): (w: seq<VersionedOffset>)
    ensures SameVersions(w, offs) && ChangesAt(w, k)
  {
    seq(|offs|, i requires 0 <= i < |offs| => VersionedOffset(if i < k then 0 else 1, offs[i].since))
  }

  predicate ChangesAt(w: seq<VersionedOffset>, k: nat) {
    forall i :: 0 <= i < |w| ==> w[i].offset == if i < k then 0 else 1
  }

  lemma {:induction false} KeptOneChange(w: seq<VersionedOffset>, k: nat)
    requires ChangesAt(w, k) && w != []
    ensures Kept(w) == if k == 0 || |w| <= k then [w[0]] else [w[0], w[k]]
    decreases |w|
  {
    var n := |w| - 1;
    if n == 0 {
      assert w[..0] == [] && Kept(w[..0]) == [];
    } else {
      KeptOneChange(w[..n], k);
    }
  }

  lemma {:induction false} FindsAbove(w: seq<VersionedOffset>, target: string, n: nat, j: nat, bad: Lookup)
    requires Parses(target) && AllParse(w) && j < n <= |w| && Cmp(target, w[j].since) >= 0
    requires forall i :: j <= i < |w| ==> w[i].offset == 1
    ensures SearchDown(w, target, n, bad) == Found(1)
  {
    hide Cmp, Parse;
    if Cmp(target, w[n - 1].since) < 0 {
      FindsAbove(w, target, n - 1, j, bad);
    }
  }

  lemma SearchesOneChange(w: seq<VersionedOffset>, target: string, k: nat, bad: Lookup)
    requires Parses(target) && AllParse(w) && k < |w| && ChangesAt(w, k) && Cmp(target, w[k].since) < 0
    ensures SearchDown(Kept(w), target, |Kept(w)|, bad) != Found(1)
  {
    hide Cmp, Parse, Kept;
    KeptOneChange(w, k);
    var kept := Kept(w);
    assert SearchDown(kept, target, 0, bad) == NotFound;
    assert SearchDown(kept, target, 1, bad) in {Found(0), NotFound} || k == 0;
  }

  lemma OrderedSubset(ts: set<string>, us: set<string>)
    requires Ordered(ts) && us <= ts
    ensures Ordered(us)
  {
    hide Cmp, Parse;
  }

  /** A version that Compare orders among those of an ascending list cuts it in two. */
  lemma OrderedCuts(offs: seq<VersionedOffset>, target: string)
    requires Parses(target) && Ascending(offs) && Ordered(Sinces(offs) + {target})
    ensures Cuts(offs, target)
  {
    hide Cmp, Parse;
    var ts := Sinces(offs) + {target};
    forall i, j | 0 <= i < j < |offs| && Cmp(target, offs[j].since) >= 0
      ensures Cmp(target, offs[i].since) >= 0
    {
      var a, b := offs[i].since, offs[j].since;
      assert a in ts && b in ts && target in ts;
      assert Cmp(b, target) <= 0 && Cmp(a, b) <= 0;
    }
  }

  // ---------- A version that compression loses ----------

  /** The text 1.0.0-pre parses to the version it looks like. */
  lemma OneZeroZeroText(pre: string)
    requires pre != "" && AlphaPre(pre)
    ensures Parses("1.0.0-" + pre)
    ensures Ver("1.0.0-" + pre) == OneZeroZero(pre).(original := "1.0.0-" + pre)
  {
    OneZeroZeroValid(pre);
    OneZeroZeroPrinted(pre);
    hide AlphaPre, NumericPre, Parse, Valid, ToString;
    ParseOfPrinted(OneZeroZero(pre));
  }

  lemma OneZeroZeroPrinted(pre: string)
    requires pre != ""
    ensures ToString(OneZeroZero(pre)) == "1.0.0-" + pre
  {
    var segments := [1, 0, 0];
    assert Formatted(segments) == [FormatInt(1), FormatInt(0), FormatInt(0)];
    assert FormatInt(1) == "1" && FormatInt(0) == "0";
    JoinThree("1", "0", "0");
    hide Join, Formatted, FormatInt;
    assert ToString(OneZeroZero(pre)) == "1.0.0" + ("-" + pre) + "";
  }

  lemma JoinThree(a: string, b: string, c: string)
    ensures Join([a, b, c], '.') == a + "." + b + "." + c
  {
    assert [a, b, c][1..] == [b, c] && [b, c][1..] == [c];
    assert Join([b, c], '.') == b + "." + c;
  }

  /** Compare on the texts of two such versions. */
  lemma OneZeroZeroCmp(p: string, q: string)
    requires p != "" && q != "" && AlphaPre(p) && AlphaPre(q)
    ensures Parses("1.0.0-" + p) && Parses("1.0.0-" + q)
    ensures Valid(OneZeroZero(p)) && Valid(OneZeroZero(q))
    ensures Cmp("1.0.0-" + p, "1.0.0-" + q) == Compare(OneZeroZero(p), OneZeroZero(q))
  {
    hide AlphaPre, NumericPre, Parse;
    OneZeroZeroText(p);
    OneZeroZeroText(q);
    OneZeroZeroValid(p);
    OneZeroZeroValid(q);
    hide Compare, Valid;
    CompareSameFields(Ver("1.0.0-" + p), Ver("1.0.0-" + q), OneZeroZero(q));
    CompareSameFields(OneZeroZero(q), Ver("1.0.0-" + p), OneZeroZero(p));
  }

  /**
   With 1.0.0-alpha and 1.0.0-alpha.1 recorded at offset 8, the full list answers 8 for 1.0.0-alpha.beta, because
   it is above alpha.1; but that entry is dropped, and beta is below alpha, so the compressed list has no answer.
   */
  lemma CompressionLosesAnswer()
    ensures var offs := [VersionedOffset(8, "1.0.0-alpha"), VersionedOffset(8, "1.0.0-alpha.1")];
            && Ascending(offs) && Sortable(Sinces(offs)) && Parses("1.0.0-alpha.beta")
            && SearchDown(offs, "1.0.0-alpha.beta", |offs|, NotFound) == Found(8)
            && SearchDown(Kept(offs), "1.0.0-alpha.beta", |Kept(offs)|, NotFound) == NotFound
  {
    hide AlphaPre, Compare, Parse, Valid, ThreeWayTriple, Sortable, Ascending, Sinces, SearchDown, Kept, Split, GoodId;
    hide NumericId, IdLess;
    AlphaIds();
    CompareCanCycle();
    AlphaTexts();
    LosesAnswer("alpha", "alpha.1", "alpha.beta", "1.0.0-alpha", "1.0.0-alpha.1", "1.0.0-alpha.beta");
  }

  lemma AlphaTexts()
    ensures "1.0.0-" + "alpha" == "1.0.0-alpha"
    ensures "1.0.0-" + "alpha.1" == "1.0.0-alpha.1"
    ensures "1.0.0-" + "alpha.beta" == "1.0.0-alpha.beta"
  {
  }

  lemma LosesAnswer(p: string, q: string, r: string, a: string, b: string, target: string)
    requires p != "" && q != "" && r != "" && AlphaPre(p) && AlphaPre(q) && AlphaPre(r)
    requires a == "1.0.0-" + p && b == "1.0.0-" + q && target == "1.0.0-" + r
    requires Valid(OneZeroZero(p)) && Valid(OneZeroZero(q)) && Valid(OneZeroZero(r))
    requires ThreeWayTriple(OneZeroZero(p), OneZeroZero(q), OneZeroZero(r))
    requires Compare(OneZeroZero(p), OneZeroZero(q)) == -1 && Compare(OneZeroZero(r), OneZeroZero(p)) == -1
    requires Compare(OneZeroZero(r), OneZeroZero(q)) == 1
    ensures var offs := [VersionedOffset(8, a), VersionedOffset(8, b)];
            && Ascending(offs) && Sortable(Sinces(offs)) && Parses(target)
            && SearchDown(offs, target, |offs|, NotFound) == Found(8)
            && SearchDown(Kept(offs), target, |Kept(offs)|, NotFound) == NotFound
  {
    hide AlphaPre, Compare, Parse, Valid, ThreeWayTriple, Sortable;
    OneZeroZeroCmp(p, q);
    OneZeroZeroCmp(r, p);
    OneZeroZeroCmp(r, q);
    OneZeroZeroText(p);
    OneZeroZeroText(q);
    var offs := [VersionedOffset(8, a), VersionedOffset(8, b)];
    assert Sinces(offs) == {a, b} by {
      assert offs[0].since in Sinces(offs) && offs[1].since in Sinces(offs);
    }
    PrefixPairSortable(OneZeroZero(p), OneZeroZero(q), OneZeroZero(r), a, b);
    hide Cmp, Ver;
    assert Kept(offs) == [offs[0]] by {
      assert offs[..1] == [offs[0]] && [offs[0]][..0] == [];
      assert Kept(offs[..1]) == [offs[0]];
    }
    assert SearchDown(Kept(offs), target, 0, NotFound) == NotFound;
  }

  /** A pre-release and its continuation by a number make none of the patterns. */
  lemma PrefixPairSortable(u: Version, v: Version, w: Version, a: string, b: string)
    requires ThreeWayTriple(u, v, w) && Parses(a) && Parses(b)
    requires Ver(a) == u.(original := a) && Ver(b) == v.(original := b)
    ensures Sortable({a, b})
  {
    hide Parse, Valid, Split, Numeral, Misread, PaddedEqual;
    assert Vers({a, b}) == {Ver(a), Ver(b)};
    assert SameIds(Ids(u), Ids(v), |Ids(u)|);
    assert Numeral(Ids(v)[|Ids(u)|]);
  }
}
