/**
 Reading the offset table back: the cache of the offset tracker (offsets-tracker/cache/cache.go) and the
 injector (pkg/inject/injector.go), against the full table that was recorded.
 */
module OffsetCache {
  import opened Machine
  import opened Text
  import opened Version
  import opened VersionOrder
  import opened VersionCoherence
  import opened OffsetTable
  import opened OffsetWriter

  // ---------- The readers ----------

  /** versions.Between; None where it panics. */
  function Between(target: string, lower: string, higher: string): Option<bool> {
    if !Parses(target) || !Parses(lower) then None
    else if Cmp(target, lower) < 0 then Some(false)
    else if !Parses(higher) then None
    else Some(Cmp(target, higher) <= 0)
  }

  /** One turn of the loop of IsAllInCache. */
  function CacheLookup(data: TrackedData, version: string, m: DataMember): Lookup {
    match FieldAt(data, m)
    case None => NotFound
    case Some(f) =>
      match Between(version, f.oldest, f.newest)
      case None => Panics
      case Some(between) => if between then SearchOffset(f.offsets, version) else NotFound
  }

  datatype CacheAnswer = Hit(results: seq<DataMemberOffset>) | Miss | Panic

  function IsAllInCache(data: TrackedData, version: string, members: seq<DataMember>): CacheAnswer {
    if members == [] then Hit([])
    else
      match CacheLookup(data, version, members[0])
      case NotFound => Miss
      case Panics => Panic
      case Found(offset) => Prepend([DataMemberOffset(members[0], offset)], IsAllInCache(data, version, members[1..]))
  }

  function Prepend(results: seq<DataMemberOffset>, a: CacheAnswer): CacheAnswer {
    if a.Hit? then Hit(results + a.results) else a
  }

  method IsAllInCacheLoop(data: TrackedData, version: string, dataMembers: seq<DataMember>) returns (a: CacheAnswer)
    ensures a == IsAllInCache(data, version, dataMembers)
  {
    hide CacheLookup;
    var results: seq<DataMemberOffset> := [];
    for i := 0 to |dataMembers|
      invariant IsAllInCache(data, version, dataMembers) ==
                Prepend(results, IsAllInCache(data, version, dataMembers[i..]))
    {
      var dm := dataMembers[i];
      var rest := dataMembers[i..];
      assert rest[0] == dm && rest[1..] == dataMembers[i + 1..];
      match CacheLookup(data, version, dm)
      case NotFound => return Miss;
      case Panics => return Panic;
      case Found(offset) =>
        PrependTwice(results, [DataMemberOffset(dm, offset)], IsAllInCache(data, version, rest[1..]));
        results := results + [DataMemberOffset(dm, offset)];
    }
    assert dataMembers[|dataMembers|..] == [];
    return Hit(results);
  }

  lemma PrependTwice(a: seq<DataMemberOffset>, b: seq<DataMemberOffset>, c: CacheAnswer)
    ensures Prepend(a, Prepend(b, c)) == Prepend(a + b, c)
  {
    if c.Hit? {
      assert a + (b + c.results) == (a + b) + c.results;
    }
  }

  /** Injector.getFieldOffset */
  function GetFieldOffset(data: TrackedData, m: DataMember, libVersion: string): Lookup {
    match FieldAt(data, m)
    case None => NotFound
    case Some(f) => FieldOffset(f.offsets, libVersion)
  }

  method GetFieldOffsetLoop(data: TrackedData, m: DataMember, libVersion: string) returns (r: Lookup)
    ensures r == GetFieldOffset(data, m, libVersion)
  {
    if m.structName !in data || m.field !in data[m.structName] {
      return NotFound;
    }
    var field := data[m.structName][m.field];
    if !Parses(libVersion) {
      return Panics;
    }
    r := SearchLoop(field.offsets, libVersion, Panics);
  }

  // ---------- Entries of distinct versions ----------

  /** No two entries are of versions that compare as equal. */
  ghost predicate Distinct(es: seq<VersionedOffset>) {
    && (forall i :: 0 <= i < |es| ==> Parses(es[i].since))
    && (forall i, j :: 0 <= i < j < |es| ==> Cmp(es[i].since, es[j].since) != 0)
  }

  lemma {:induction false} DistinctOnce(es: seq<VersionedOffset>, e: VersionedOffset)
    requires Distinct(es) && Ordered(Sinces(es))
    ensures multiset(es)[e] <= 1
    decreases |es|
  {
    hide Cmp, Parse, Ordered;
    if es != [] {
      var n := |es| - 1;
      var init := es[..n];
      OrderedSubset(Sinces(es), Sinces(init));
      DistinctOnce(init, e);
      assert es == init + [es[n]];
      if e in init && e == es[n] {
        SelfEqual(e.since);
      }
    }
  }

  lemma TwiceCounted(s: seq<VersionedOffset>, i: nat, j: nat)
    requires i < j < |s| && s[i] == s[j]
    ensures multiset(s)[s[i]] >= 2
  {
    assert s == s[..j] + [s[j]] + s[j + 1..];
    assert s[i] == s[..j][i] && s[i] in s[..j];
  }

  lemma SincesOf(s: seq<VersionedOffset>, es: seq<VersionedOffset>)
    requires multiset(s) == multiset(es)
    ensures Sinces(s) == Sinces(es) && forall e :: e in s <==> e in es
  {
    assert forall e :: e in s <==> e in multiset(s);
    assert forall e :: e in es <==> e in multiset(es);
    forall t ensures t in Sinces(s) <==> t in Sinces(es) {
      if t in Sinces(s) {
        var i :| 0 <= i < |s| && s[i].since == t;
        assert s[i] in es;
      }
      if t in Sinces(es) {
        var i :| 0 <= i < |es| && es[i].since == t;
        assert es[i] in s;
      }
    }
  }

  /** Sorting entries of distinct versions leaves no ties. */
  lemma ArrangementAscends(s: seq<VersionedOffset>, es: seq<VersionedOffset>)
    requires Arrangement(s, es) && Distinct(es) && Ordered(Sinces(es))
    ensures Ascending(s) && Sinces(s) == Sinces(es)
  {
    hide Cmp, Parse, Ordered;
    SincesOf(s, es);
    forall i, j | 0 <= i < j < |s|
      ensures Cmp(s[i].since, s[j].since) < 0
    {
      NoTie(s, es, i, j);
    }
  }

  lemma NoTie(s: seq<VersionedOffset>, es: seq<VersionedOffset>, i: nat, j: nat)
    requires Arrangement(s, es) && Distinct(es) && Ordered(Sinces(es)) && i < j < |s|
    ensures Cmp(s[i].since, s[j].since) != 0
  {
    hide Cmp, Parse, Ordered;
    SincesOf(s, es);
    if s[i] == s[j] {
      TwiceCounted(s, i, j);
      DistinctOnce(es, s[i]);
      assert false;
    }
    assert s[i] in es && s[j] in es;
    var a :| 0 <= a < |es| && es[a] == s[i];
    var b :| 0 <= b < |es| && es[b] == s[j];
    assert es[a].since in Sinces(es) && es[b].since in Sinces(es);
    Antisymmetric(Sinces(es), es[a].since, es[b].since);
  }

  lemma {:induction false} EndsOfAscending(s: seq<VersionedOffset>)
    requires s != [] && Ascending(s) && Ordered(Sinces(s))
    ensures Lowest(s) == Ver(s[0].since) && Highest(s) == Ver(s[|s| - 1].since)
    decreases |s|
  {
    hide Compare, Ver, Parse, Ordered, Valid;
    if |s| > 1 {
      var n := |s| - 1;
      var init := s[..n];
      OrderedSubset(Sinces(s), Sinces(init));
      EndsOfAscending(init);
      assert init[0] == s[0] && init[n - 1] == s[n - 1];
      LastIsGreater(s, 0);
      LastIsGreater(s, n - 1);
      hide Sinces, Ascending, Cmp;
    }
  }

  lemma LastIsGreater(s: seq<VersionedOffset>, i: nat)
    requires Ascending(s) && Ordered(Sinces(s)) && i < |s| - 1
    ensures Compare(Ver(s[|s| - 1].since), Ver(s[i].since)) > 0
  {
    hide Compare, Ver, Parse, Ordered, Valid;
    Antisymmetric(Sinces(s), s[i].since, s[|s| - 1].since);
  }

  // ---------- What the compressed table answers ----------

  /** Answers only depends on which entries there are. */
  lemma AnswersOfSameEntries(s: seq<VersionedOffset>, es: seq<VersionedOffset>, target: string, r: Lookup)
    requires multiset(s) == multiset(es) && Parses(target)
    requires forall d <- s :: Parses(d.since)
    requires Answers(s, target, r)
    ensures (forall d <- es :: Parses(d.since)) && Answers(es, target, r)
  {
    hide Cmp, Parse, Sinces;
    SincesOf(s, es);
    if r.Found? {
      var e :| GreatestBelow(s, target, e) && e.offset == r.offset;
      assert GreatestBelow(es, target, e);
    }
  }

  /** The recorded versions not above the target are the oldest ones. */
  ghost predicate CutsVersions(es: seq<VersionedOffset>, target: string)
    requires AllParse(es) && Parses(target)
  {
    forall d <- es, e <- es :: Cmp(d.since, e.since) < 0 && Cmp(target, e.since) >= 0 ==> Cmp(target, d.since) >= 0
  }

  /** Then, and only then, does the target cut the list of recorded versions in two once it is in order. */
  lemma CutsIffCutsVersions(s: seq<VersionedOffset>, es: seq<VersionedOffset>, target: string)
    requires multiset(s) == multiset(es) && Ascending(s) && AllParse(es) && Ordered(Sinces(s)) && Parses(target)
    ensures Cuts(s, target) <==> CutsVersions(es, target)
  {
    hide Cmp, Parse, Ordered;
    SincesOf(s, es);
    if Cuts(s, target) {
      forall d <- es, e <- es | Cmp(d.since, e.since) < 0 && Cmp(target, e.since) >= 0
        ensures Cmp(target, d.since) >= 0
      {
        var i :| 0 <= i < |s| && s[i] == d;
        var j :| 0 <= j < |s| && s[j] == e;
        SelfEqual(d.since);
        Antisymmetric(Sinces(s), d.since, e.since);
      }
    } else {
      var i, j :| 0 <= i < j < |s| && Cmp(target, s[j].since) >= 0 && Cmp(target, s[i].since) < 0;
      assert s[i] in es && s[j] in es;
    }
  }

  /** The conditions under which a version can be looked up under a key. */
  ghost predicate Lookable(results: seq<VersionedResult>, key: string, target: string) {
    && Parses(target)
    && Distinct(Entries(results, key))
    && Sortable(Sinces(Entries(results, key)))
    && CutsVersions(Entries(results, key), target)
  }

  lemma LookableOrdered(results: seq<VersionedResult>, key: string, target: string)
    requires Lookable(results, key, target)
    ensures Ordered(Sinces(Entries(results, key)))
  {
    hide Entries, Sortable, Parse;
    OrderedIffSortable(Sinces(Entries(results, key)));
  }

  lemma SearchRecorded(results: seq<VersionedResult>, key: string, f: TrackedField, target: string,
                       s: seq<VersionedOffset>, bad: Lookup)
    requires Lookable(results, key, target) && Arrangement(s, Entries(results, key)) && f == FieldOf(s)
    ensures Ascending(s) && Sinces(s) == Sinces(Entries(results, key)) && Cuts(s, target)
    ensures SearchDown(f.offsets, target, |f.offsets|, bad) == SearchDown(s, target, |s|, bad)
    ensures Answers(s, target, SearchDown(s, target, |s|, bad))
    ensures Answers(Entries(results, key), target, SearchDown(f.offsets, target, |f.offsets|, bad))
  {
    var es := Entries(results, key);
    LookableOrdered(results, key, target);
    hide Entries, Cmp, Parse, Ordered, Sortable, Lowest, Highest, ToString, Valid, Ver;
    ArrangementAscends(s, es);
    CutsIffCutsVersions(s, es, target);
    hide CutsVersions, Distinct, FieldOf;
    CompressionPreservesSearch(s, target, bad);
    SearchAnswers(s, target, |s|, bad);
    hide Kept, SearchDown, Answers, Sinces, Ascending, Cuts;
    AnswersOfSameEntries(s, es, target, SearchDown(s, target, |s|, bad));
  }

  /**
   For any version that cuts the recorded ones in two, both readers of the compressed entries give the answer of
   the full table: the offset of the greatest recorded version not above it, or none.
   */
  lemma ReadersAnswerFromFullTable(results: seq<VersionedResult>, key: string, f: TrackedField, target: string)
    requires Lookable(results, key, target) && RecordedUnder(results, key, f)
    ensures Answers(Entries(results, key), target, FieldOffset(f.offsets, target))
    ensures Answers(Entries(results, key), target, SearchOffset(f.offsets, target))
  {
    var s: seq<VersionedOffset> :| Arrangement(s, Entries(results, key)) && f == FieldOf(s);
    SearchRecorded(results, key, f, target, s, NotFound);
    SearchRecorded(results, key, f, target, s, Panics);
    hide Entries, Arrangement, SearchDown, Answers, Lowest, Highest, ToString, Kept, Sinces, Ascending;
  }

  /** What the stored bounds are: texts that compare like the first and the last recorded version. */
  lemma BoundsOfField(results: seq<VersionedResult>, key: string, f: TrackedField, target: string,
                      s: seq<VersionedOffset>)
    requires Lookable(results, key, target) && Arrangement(s, Entries(results, key)) && f == FieldOf(s)
    ensures Ascending(s) && Parses(f.oldest) && Parses(f.newest)
    ensures Cmp(target, f.oldest) == Cmp(target, s[0].since)
    ensures Cmp(target, f.newest) == Cmp(target, s[|s| - 1].since)
  {
    var es := Entries(results, key);
    LookableOrdered(results, key, target);
    hide Entries, Cmp, Parse, Ordered, Sortable, Lowest, Highest, ToString, Valid, Ver, Kept;
    ArrangementAscends(s, es);
    EndsOfAscending(s);
    PrintedComparesAlike(s[0].since, target);
    PrintedComparesAlike(s[|s| - 1].since, target);
  }

  // ---------- From the oldest version on ----------

  /** The lowest version of a sorted list is its first, ties or not. */
  lemma {:induction false} LowestOfSorted(s: seq<VersionedOffset>)
    requires s != [] && Sorted(s) && AllParse(s) && Ordered(Sinces(s))
    ensures Lowest(s) == Ver(s[0].since)
    decreases |s|
  {
    hide Compare, Ver, Parse, Ordered, Valid;
    if |s| > 1 {
      var n := |s| - 1;
      OrderedSubset(Sinces(s), Sinces(s[..n]));
      LowestOfSorted(s[..n]);
      assert s[0].since in Sinces(s) && s[n].since in Sinces(s);
      Antisymmetric(Sinces(s), s[0].since, s[n].since);
    }
  }

  lemma PrintedParses(v: Version)
    requires Valid(v)
    ensures Parses(ToString(v))
  {
    ParseOfPrinted(v);
    hide ToString, Parse, Valid;
  }

  /** The search cannot fail for a version that is not below the first entry. */
  lemma {:induction false} SearchFinds(offs: seq<VersionedOffset>, target: string, n: nat, bad: Lookup)
    requires AllParse(offs) && Parses(target) && 0 < n <= |offs| && Cmp(target, offs[0].since) >= 0
    ensures SearchDown(offs, target, n, bad).Found?
  {
    hide Cmp, Parse;
    if n > 1 {
      SearchFinds(offs, target, n - 1, bad);
    }
  }

  /**
   Whenever a version is not below the stored oldest one, and so whenever Between holds, the search succeeds:
   for any version, and with ties among the recorded ones, because the oldest entry is never dropped.
   */
  lemma BetweenImpliesFound(results: seq<VersionedResult>, key: string, f: TrackedField, target: string)
    requires Sortable(Sinces(Entries(results, key))) && RecordedUnder(results, key, f) && Parses(target)
    ensures Parses(f.oldest) && Parses(f.newest)
    ensures Cmp(target, f.oldest) >= 0 ==> SearchOffset(f.offsets, target).Found?
    ensures Between(target, f.oldest, f.newest) == Some(true) ==> SearchOffset(f.offsets, target).Found?
  {
    hide Entries, SearchDown, ToString, Kept, Sinces, Cmp, Parse, Sortable, Ordered, Lowest, Highest, Ver, Valid;
    var es := Entries(results, key);
    var s: seq<VersionedOffset> :| Arrangement(s, es) && f == FieldOf(s);
    OrderedIffSortable(Sinces(es));
    SincesOf(s, es);
    LowestOfSorted(s);
    PrintedComparesAlike(s[0].since, target);
    PrintedParses(Highest(s));
    KeptAreEntries(s);
    hide Sorted, Arrangement, RecordedUnder;
    if Cmp(target, f.oldest) >= 0 {
      SearchFinds(Kept(s), target, |Kept(s)|, NotFound);
    }
  }

  /** A version that cuts the recorded ones in two is found exactly from the stored oldest one on. */
  lemma FoundFromOldest(results: seq<VersionedResult>, key: string, f: TrackedField, target: string)
    requires Lookable(results, key, target) && RecordedUnder(results, key, f)
    ensures Parses(f.oldest) && (SearchOffset(f.offsets, target).Found? <==> Cmp(target, f.oldest) >= 0)
  {
    hide Entries, SearchDown, Lowest, Highest, ToString, Kept, Sinces, Cmp, Parse, Answers, Sortable;
    BetweenImpliesFound(results, key, f, target);
    var s: seq<VersionedOffset> :| Arrangement(s, Entries(results, key)) && f == FieldOf(s);
    SearchRecorded(results, key, f, target, s, NotFound);
    BoundsOfField(results, key, f, target, s);
    hide Lookable, FieldOf;
    if Cmp(target, f.oldest) < 0 {
      NotFoundBelow(s, target, SearchOffset(f.offsets, target));
    }
  }

  /** Below the oldest entry, such a version is below all of them. */
  lemma NotFoundBelow(s: seq<VersionedOffset>, target: string, r: Lookup)
    requires Parses(target) && s != [] && AllParse(s) && Cuts(s, target)
    requires Cmp(target, s[0].since) < 0 && Answers(s, target, r)
    ensures r == NotFound
  {
    hide Cmp, Parse;
    forall d <- s ensures Cmp(target, d.since) < 0 {
      var i :| 0 <= i < |s| && s[i] == d;
    }
  }

  // ---------- What the two readers answer for a member ----------

  /** The injector answers from what was recorded for the member, and finds nothing for a field that is not stored. */
  lemma InjectorAnswers(results: seq<VersionedResult>, before: TrackedData, data: TrackedData, m: DataMember,
                        target: string)
    requires CommaFree(results) && Converted(results, before, data) && CommaFreeMember(m)
    ensures FieldAt(data, m).None? ==> GetFieldOffset(data, m, target) == NotFound
    ensures Entries(results, Key(m)) != [] && Lookable(results, Key(m), target) ==>
            Answers(Entries(results, Key(m)), target, GetFieldOffset(data, m, target))
  {
    ConvertedWithoutCommas(results, before, data, m);
    hide Entries, Answers, FieldAt, Lookable, FieldOffset, Key, Converted, CommaFree, RecordedUnder;
    if Entries(results, Key(m)) != [] && Lookable(results, Key(m), target) {
      ReadersAnswerFromFullTable(results, Key(m), FieldAt(data, m).value, target);
    }
  }

  /** No recorded version is newer. */
  ghost predicate IsNewest(es: seq<VersionedOffset>, e: VersionedOffset)
    requires AllParse(es)
  {
    e in es && forall d <- es :: Cmp(d.since, e.since) <= 0
  }

  /**
   The cache answers from what was recorded for the member up to the newest recorded version, finds nothing beyond
   it, although the injector does, and finds nothing for a field that is not stored.
   */
  lemma CacheAnswers(results: seq<VersionedResult>, before: TrackedData, data: TrackedData, m: DataMember,
                     target: string, newest: VersionedOffset)
    requires CommaFree(results) && Converted(results, before, data) && CommaFreeMember(m)
    ensures FieldAt(data, m).None? ==> CacheLookup(data, target, m) == NotFound
    ensures Lookable(results, Key(m), target) && AllParse(Entries(results, Key(m)))
            && IsNewest(Entries(results, Key(m)), newest) ==>
            if Cmp(target, newest.since) <= 0 then
              Answers(Entries(results, Key(m)), target, CacheLookup(data, target, m))
            else
              CacheLookup(data, target, m) == NotFound
  {
    hide Entries, SearchDown, Lowest, Highest, ToString, Kept, Cmp, Parse, Answers, Ordered, Sortable, FieldAt;
    hide Key, Sinces;
    ConvertedWithoutCommas(results, before, data, m);
    hide Converted, CommaFree;
    var es := Entries(results, Key(m));
    if Lookable(results, Key(m), target) && AllParse(es) && IsNewest(es, newest) {
      var f := FieldAt(data, m).value;
      var s: seq<VersionedOffset> :| Arrangement(s, es) && f == FieldOf(s);
      ReadersAnswerFromFullTable(results, Key(m), f, target);
      FoundFromOldest(results, Key(m), f, target);
      SearchRecorded(results, Key(m), f, target, s, NotFound);
      BoundsOfField(results, Key(m), f, target, s);
      LookableOrdered(results, Key(m), target);
      hide FieldOf, RecordedUnder, Lookable;
      NewestIsLast(s, es, newest);
      hide Arrangement;
      if Cmp(target, f.oldest) < 0 {
        AnswersNotPanics(es, target, SearchOffset(f.offsets, target));
      }
    }
  }

  lemma AnswersNotPanics(es: seq<VersionedOffset>, target: string, r: Lookup)
    requires Parses(target) && AllParse(es) && Answers(es, target, r)
    ensures r.Found? || r == NotFound
  {
  }

  lemma NewestIsLast(s: seq<VersionedOffset>, es: seq<VersionedOffset>, newest: VersionedOffset)
    requires multiset(s) == multiset(es) && Ascending(s) && AllParse(es) && Ordered(Sinces(s)) && s != []
    requires IsNewest(es, newest)
    ensures s[|s| - 1] == newest
  {
    hide Cmp, Parse, Ordered;
    SincesOf(s, es);
    var i :| 0 <= i < |s| && s[i] == newest;
    assert s[|s| - 1] in es;
    Antisymmetric(Sinces(s), s[|s| - 1].since, newest.since);
  }

  /**
   IsAllInCache hits exactly when every member is found, with the offset of each in order; otherwise it misses or
   panics as the first member does that is not found.
   */
  lemma {:induction false} IsAllInCacheMeaning(data: TrackedData, version: string, members: seq<DataMember>)
    ensures var a := IsAllInCache(data, version, members);
            if forall m <- members :: CacheLookup(data, version, m).Found? then
              && a.Hit? && |a.results| == |members|
              && forall i :: 0 <= i < |members| ==>
                && a.results[i].member == members[i]
                && CacheLookup(data, version, members[i]) == Found(a.results[i].offset)
            else
              exists k :: 0 <= k < |members|
                && (forall i :: 0 <= i < k ==> CacheLookup(data, version, members[i]).Found?)
                && match CacheLookup(data, version, members[k])
                   case Found(_) => false
                   case NotFound => a == Miss
                   case Panics => a == Panic
  {
    hide CacheLookup;
    if members != [] {
      var rest := members[1..];
      IsAllInCacheMeaning(data, version, rest);
      var first := CacheLookup(data, version, members[0]);
      if first.Found? {
        if forall m <- rest :: CacheLookup(data, version, m).Found? {
          forall m <- members ensures CacheLookup(data, version, m).Found? {
            assert m == members[0] || m in rest;
          }
        } else {
          var k := FirstNotFound(data, version, rest);
          assert members[k + 1] == rest[k];
          forall i | 0 <= i < k + 1 ensures CacheLookup(data, version, members[i]).Found? {
            assert i > 0 ==> members[i] == rest[i - 1];
          }
        }
      }
    }
  }

  lemma {:induction false} FirstNotFound(data: TrackedData, version: string, members: seq<DataMember>) returns (k: nat)
    requires !(forall m <- members :: CacheLookup(data, version, m).Found?)
    ensures k < |members| && !CacheLookup(data, version, members[k]).Found?
    ensures forall i :: 0 <= i < k ==> CacheLookup(data, version, members[i]).Found?
  {
    hide CacheLookup;
    k := 0;
    if CacheLookup(data, version, members[0]).Found? {
      k := FirstNotFound(data, version, members[1..]);
      k := k + 1;
    }
  }

  // ---------- The cache returns what was recorded ----------

  /** A recorded offset is looked up again under its own version. */
  lemma CacheFindsRecorded(results: seq<VersionedResult>, before: TrackedData, data: TrackedData, m: DataMember,
                           e: VersionedOffset)
    requires Converted(results, before, data) && CommaFree(results) && CommaFreeMember(m)
    requires e in Entries(results, Key(m)) && Lookable(results, Key(m), e.since)
    ensures CacheLookup(data, e.since, m) == Found(e.offset)
  {
    hide Entries, SearchDown, Lowest, Highest, ToString, Kept, Cmp, Parse, Answers, Ordered, Sortable, FieldAt;
    hide Key, Sinces;
    ConvertedWithoutCommas(results, before, data, m);
    hide Converted, CommaFree;
    var f := FieldAt(data, m).value;
    var es := Entries(results, Key(m));
    var s: seq<VersionedOffset> :| Arrangement(s, es) && f == FieldOf(s);
    SearchRecorded(results, Key(m), f, e.since, s, NotFound);
    BoundsOfField(results, Key(m), f, e.since, s);
    LookableOrdered(results, Key(m), e.since);
    SincesOf(s, es);
    hide FieldOf, Converted, RecordedUnder, Arrangement;
    OrderedIffSortable(Sinces(es));
    RecordedIsGreatest(s, e);
    AnswerUnique(s, e.since, SearchOffset(f.offsets, e.since), Found(e.offset));
  }

  /** Asked for the version of an entry, an ascending list answers with that entry, inside its bounds. */
  lemma RecordedIsGreatest(s: seq<VersionedOffset>, e: VersionedOffset)
    requires e in s && Ascending(s) && Ordered(Sinces(s))
    ensures Answers(s, e.since, Found(e.offset))
    ensures Cmp(e.since, s[0].since) >= 0 && Cmp(e.since, s[|s| - 1].since) <= 0
  {
    hide Cmp, Parse, Ordered;
    var ts := Sinces(s);
    SelfEqual(e.since);
    var at :| 0 <= at < |s| && s[at] == e;
    assert e.since in ts;
    forall d <- s | Cmp(e.since, d.since) >= 0
      ensures Cmp(d.since, e.since) <= 0
    {
      Antisymmetric(ts, d.since, e.since);
    }
    assert GreatestBelow(s, e.since, e);
    var i :| 0 <= i < |s| && s[i] == e;
    Antisymmetric(ts, s[0].since, e.since);
  }

  /**
   What the round trip needs of the recorded results: names without commas, each member at most once per
   version, and versions among which there are no ties and none of the patterns on which Compare is no order.
   */
  ghost predicate Recordable(results: seq<VersionedResult>) {
    && CommaFree(results) && Sortable(Versions(results))
    && (forall i, j :: 0 <= i < j < |results| ==> Cmp(results[i].version, results[j].version) != 0)
    && (forall i, j, k :: 0 <= i < |results| && 0 <= j < k < |results[i].members| ==>
          results[i].members[j].member != results[i].members[k].member)
  }

  lemma SortableSubset(ts: set<string>, us: set<string>)
    requires Sortable(ts) && us <= ts
    ensures Sortable(us)
  {
    OrderedIffSortable(ts);
    OrderedSubset(ts, us);
    OrderedIffSortable(us);
    hide Sortable, Ordered;
  }

  lemma InitRecordable(results: seq<VersionedResult>)
    requires Recordable(results) && results != []
    ensures Recordable(results[..|results| - 1])
  {
    hide Cmp, Parse;
    var n := |results| - 1;
    var init := results[..n];
    assert forall i :: 0 <= i < n ==> init[i] == results[i];
    assert Versions(init) <= Versions(results);
    SortableSubset(Versions(results), Versions(init));
    hide Sortable;
  }

  lemma {:induction false} OncePerVersion(members: seq<DataMemberOffset>, version: string, key: string)
    requires forall j :: 0 <= j < |members| ==> CommaFreeMember(members[j].member)
    requires forall j, k :: 0 <= j < k < |members| ==> members[j].member != members[k].member
    ensures |EntriesIn(members, version, key)| <= 1
    ensures forall e <- EntriesIn(members, version, key) :: e.since == version
  {
    hide Key, CommaFreeMember;
    if members != [] {
      var n := |members| - 1;
      var init := members[..n];
      OncePerVersion(init, version, key);
      if Key(members[n].member) == key && EntriesIn(init, version, key) != [] {
        var e := EntriesIn(init, version, key)[0];
        EntriesInFrom(init, version, key, e);
        var j :| MemberGives(init, j, key, e.offset);
        KeysDiffer(init[j].member, members[n].member);
      }
    }
  }

  /** Under every key the entries are of distinct versions. */
  lemma {:induction false} RecordableDistinct(results: seq<VersionedResult>, key: string)
    requires Recordable(results)
    ensures Distinct(Entries(results, key))
    decreases |results|
  {
    hide Cmp, Parse, NoMisread, NoThreeWays, NoZeroTwin, EntriesIn;
    if results != [] {
      var n := |results| - 1;
      var init, last := results[..n], results[n];
      InitRecordable(results);
      RecordableDistinct(init, key);
      assert forall j :: 0 <= j < |last.members| ==> CommaFreeMember(last.members[j].member);
      OncePerVersion(last.members, last.version, key);
      assert last.version in Versions(results);
      var a, b := Entries(init, key), EntriesIn(last.members, last.version, key);
      EntryVersions(init, key);
      forall i | 0 <= i < |a| && |b| > 0
        ensures Cmp(a[i].since, b[0].since) != 0
      {
        assert a[i].since in Versions(init) && b[0] in b;
        var k :| 0 <= k < |init| && init[k].version == a[i].since;
        assert results[k] == init[k];
      }
      DistinctAppend(a, b);
    }
  }

  lemma DistinctAppend(a: seq<VersionedOffset>, b: seq<VersionedOffset>)
    requires Distinct(a) && |b| <= 1 && forall e <- b :: Parses(e.since)
    requires |b| > 0 ==> forall i :: 0 <= i < |a| ==> Cmp(a[i].since, b[0].since) != 0
    ensures Distinct(a + b)
  {
    hide Cmp, Parse;
  }

  /** Every key can be looked up for every recorded version. */
  lemma RecordableLookable(results: seq<VersionedResult>, key: string, i: nat)
    requires Recordable(results) && i < |results|
    ensures Lookable(results, key, results[i].version)
  {
    RecordableDistinct(results, key);
    EntryVersions(results, key);
    assert results[i].version in Versions(results);
    hide Cmp, Parse, Entries, Distinct, NoMisread, NoThreeWays, NoZeroTwin;
    SortableSubset(Versions(results), Sinces(Entries(results, key)) + {results[i].version});
    SortableLookable(results, key, results[i].version);
  }

  /** A version that makes none of the patterns with the recorded ones cuts them in two. */
  lemma SortableLookable(results: seq<VersionedResult>, key: string, target: string)
    requires Parses(target) && Distinct(Entries(results, key)) && Sortable(Sinces(Entries(results, key)) + {target})
    ensures Lookable(results, key, target)
  {
    var es := Entries(results, key);
    hide Entries, Cmp, Parse, Sortable;
    var ts := Sinces(es) + {target};
    SortableSubset(ts, Sinces(es));
    OrderedIffSortable(ts);
    forall d <- es, e <- es | Cmp(d.since, e.since) < 0 && Cmp(target, e.since) >= 0
      ensures Cmp(target, d.since) >= 0
    {
      assert d.since in ts && e.since in ts && target in ts;
      assert Cmp(e.since, target) <= 0 && Cmp(d.since, e.since) <= 0;
    }
  }

  function MembersOf(ms: seq<DataMemberOffset>): seq<DataMember> {
    if ms == [] then [] else [ms[0].member] + MembersOf(ms[1..])
  }

  /**
   After the results have been written, asking the cache for any of the members found in a recorded version
   returns exactly the offsets found in that version.
   */
  lemma {:induction false} CacheRoundTrip(results: seq<VersionedResult>, before: TrackedData, data: TrackedData,
                                          i: nat, found: seq<DataMemberOffset>)
    requires Recordable(results) && Converted(results, before, data)
    requires i < |results| && forall d <- found :: d in results[i].members
    ensures IsAllInCache(data, results[i].version, MembersOf(found)) == Hit(found)
    decreases |found|
  {
    hide Converted, Recordable, CacheLookup;
    if found != [] {
      var d := found[0];
      CacheRoundTrip(results, before, data, i, found[1..]);
      CacheFindsMember(results, before, data, i, d);
      CacheOneMore(data, results[i].version, d, found[1..]);
      assert [d] + found[1..] == found;
    }
  }

  lemma CacheOneMore(data: TrackedData, version: string, d: DataMemberOffset, rest: seq<DataMemberOffset>)
    requires CacheLookup(data, version, d.member) == Found(d.offset)
    requires IsAllInCache(data, version, MembersOf(rest)) == Hit(rest)
    ensures IsAllInCache(data, version, MembersOf([d] + rest)) == Hit([d] + rest)
  {
    hide CacheLookup;
    assert ([d] + rest)[1..] == rest;
    var members := MembersOf([d] + rest);
    assert members[0] == d.member && members[1..] == MembersOf(rest);
  }

  lemma CacheFindsMember(results: seq<VersionedResult>, before: TrackedData, data: TrackedData, i: nat,
                         d: DataMemberOffset)
    requires Recordable(results) && Converted(results, before, data) && i < |results| && d in results[i].members
    ensures CacheLookup(data, results[i].version, d.member) == Found(d.offset)
  {
    hide Converted, CacheLookup, Lookable, Entries, Key, Sortable;
    RecordedEntry(results, i, d);
    RecordableLookable(results, Key(d.member), i);
    CacheFindsRecorded(results, before, data, d.member, VersionedOffset(d.offset, results[i].version));
  }

  lemma RecordedEntry(results: seq<VersionedResult>, i: nat, d: DataMemberOffset)
    requires i < |results| && d in results[i].members
    ensures VersionedOffset(d.offset, results[i].version) in Entries(results, Key(d.member))
    ensures CommaFree(results) ==> CommaFreeMember(d.member)
  {
    var members, key := results[i].members, Key(d.member);
    var e := VersionedOffset(d.offset, results[i].version);
    var j :| 0 <= j < |members| && members[j] == d;
    assert MemberGives(members, j, key, e.offset);
    EntriesInFrom(members, results[i].version, key, e);
    hide Entries, EntriesIn, Key;
    assert InResult(results[i], key, e);
    EntriesFrom(results, key, e);
  }

  // ---------- Releases ----------

  /** All recorded versions are releases. */
  ghost predicate Releases(results: seq<VersionedResult>) {
    forall i :: 0 <= i < |results| ==> Parses(results[i].version) && Ver(results[i].version).pre == ""
  }

  /** No two results are of versions whose segments agree but for trailing zeros, and no member occurs twice in one. */
  ghost predicate DistinctReleases(results: seq<VersionedResult>) {
    && Releases(results)
    && (forall i, j :: 0 <= i < j < |results| ==>
          !PaddedEqual(Ver(results[i].version).segments, Ver(results[j].version).segments))
    && (forall i, j, k :: 0 <= i < |results| && 0 <= j < k < |results[i].members| ==>
          results[i].members[j].member != results[i].members[k].member)
  }

  lemma ReleasesRecordable(results: seq<VersionedResult>)
    requires CommaFree(results) && DistinctReleases(results)
    ensures Recordable(results)
  {
    hide Parse, Valid, CommaFree, Compare, PaddedEqual, Sortable;
    forall i, j | 0 <= i < j < |results|
      ensures Cmp(results[i].version, results[j].version) != 0
    {
      ReleaseOrder(Ver(results[i].version), Ver(results[j].version));
    }
    hide Ver;
    ReleaseTextsSortable(Versions(results));
  }

  ghost predicate IsRecorded(results: seq<VersionedResult>, v: Version)
    requires Releases(results)
  {
    exists i :: 0 <= i < |results| && v == Ver(results[i].version)
  }

  /** Recorded releases whose segments agree but for trailing zeros have the same segments. */
  lemma RecordedApart(results: seq<VersionedResult>, v: Version, w: Version)
    requires DistinctReleases(results) && IsRecorded(results, v) && IsRecorded(results, w)
    requires PaddedEqual(v.segments, w.segments)
    ensures v == w && v.pre == ""
  {
    hide Parse, Valid;
    var i :| 0 <= i < |results| && v == Ver(results[i].version);
    var j :| 0 <= j < |results| && w == Ver(results[j].version);
    assert PaddedEqual(w.segments, v.segments);
  }

  /** No version at all makes any of the patterns with releases that differ in more than trailing zeros. */
  lemma ReleasesAndTarget(results: seq<VersionedResult>, target: string)
    requires DistinctReleases(results) && Parses(target)
    ensures Sortable(Versions(results) + {target})
  {
    var ts := Versions(results) + {target};
    var x := Ver(target);
    RecordedOrTarget(results, target);
    hide Parse, Valid, PaddedEqual, Split, Misread, Numeral, IsRecorded, DistinctReleases;
    forall u <- Vers(ts), v <- Vers(ts), w <- Vers(ts) ensures !ZeroTwin(u, v, w) {
      if ZeroTwin(u, v, w) {
        if u != x && v != x {
          SelfPadded(u.segments);
          RecordedApart(results, u, v);
        } else if u != x {
          RecordedApart(results, u, w);
        } else {
          RecordedApart(results, v, w);
        }
      }
    }
    hide Vers;
    assert forall t <- ts :: Parses(t);
  }

  lemma SelfPadded(a: seq<int>)
    ensures PaddedEqual(a, a)
  {
  }

  lemma RecordedOrTarget(results: seq<VersionedResult>, target: string)
    requires Releases(results) && Parses(target)
    ensures forall t <- Versions(results) + {target} :: Parses(t)
    ensures forall v <- Vers(Versions(results) + {target}) ::
              v == Ver(target) || (IsRecorded(results, v) && v.pre == "")
  {
    hide Parse, Valid;
  }

  /** Recorded releases are read from the full table for every target, releases or not. */
  lemma ReleasesReadFromFullTable(results: seq<VersionedResult>, key: string, f: TrackedField, target: string)
    requires CommaFree(results) && DistinctReleases(results) && RecordedUnder(results, key, f) && Parses(target)
    ensures AllParse(Entries(results, key))
    ensures Answers(Entries(results, key), target, FieldOffset(f.offsets, target))
    ensures Answers(Entries(results, key), target, SearchOffset(f.offsets, target))
    ensures Parses(f.oldest) && (SearchOffset(f.offsets, target).Found? <==> Cmp(target, f.oldest) >= 0)
  {
    ReleasesRecordable(results);
    RecordableDistinct(results, key);
    EntryVersions(results, key);
    ReleasesAndTarget(results, target);
    hide Cmp, Parse, Entries, Distinct, RecordedUnder, Recordable, Answers, SearchOffset, FieldOffset;
    hide Sortable, Lookable;
    SortableSubset(Versions(results) + {target}, Sinces(Entries(results, key)) + {target});
    SortableLookable(results, key, target);
    ReadersAnswerFromFullTable(results, key, f, target);
    FoundFromOldest(results, key, f, target);
  }

  /** What was found in a recorded release comes back from the cache. */
  lemma ReleasesRoundTrip(results: seq<VersionedResult>, before: TrackedData, data: TrackedData,
                          i: nat, found: seq<DataMemberOffset>)
    requires CommaFree(results) && DistinctReleases(results) && Converted(results, before, data)
    requires i < |results| && forall d <- found :: d in results[i].members
    ensures IsAllInCache(data, results[i].version, MembersOf(found)) == Hit(found)
  {
    ReleasesRecordable(results);
    CacheRoundTrip(results, before, data, i, found);
  }
}
