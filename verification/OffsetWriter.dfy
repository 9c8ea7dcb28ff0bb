/** Writing the offset table (offsets-tracker/writer/writer.go) and reading it back as a cache. */
module OffsetWriter {
  import opened Machine
  import opened Text
  import opened Version
  import opened VersionOrder
  import opened OffsetTable

  /** struct name to field name to what is tracked about the field. */
  type TrackedData = map<string, TrackedStruct>

  // ---------- The full table ----------

  function Key(m: DataMember): string {
    m.structName + "," + m.field
  }

  /** What one version contributes under a key, in order. */
  function EntriesIn(members: seq<DataMemberOffset>, version: string, key: string): seq<VersionedOffset> {
    if members == [] then []
    else
      var n := |members| - 1;
      EntriesIn(members[..n], version, key)
      + if Key(members[n].member) == key then [VersionedOffset(members[n].offset, version)] else []
  }

  /** Everything recorded under a key, in order. */
  function Entries(results: seq<VersionedResult>, key: string): seq<VersionedOffset> {
    if results == [] then []
    else
      var n := |results| - 1;
      Entries(results[..n], key) + EntriesIn(results[n].members, results[n].version, key)
  }

  function Versions(results: seq<VersionedResult>): set<string> {
    set i | 0 <= i < |results| :: results[i].version
  }

  ghost predicate VersionsParse(results: seq<VersionedResult>) {
    forall i :: 0 <= i < |results| ==> Parses(results[i].version)
  }

  ghost predicate CommaFree(results: seq<VersionedResult>) {
    forall i, j :: 0 <= i < |results| && 0 <= j < |results[i].members| ==>
      Free(results[i].members[j].member.structName, ',') && Free(results[i].members[j].member.field, ',')
  }

  /** Member j gives rise to the entry e under the key. */
  ghost predicate MemberGives(members: seq<DataMemberOffset>, j: int, key: string, offset: u64) {
    0 <= j < |members| && Key(members[j].member) == key && members[j].offset == offset
  }

  lemma {:induction false} EntriesInFrom(members: seq<DataMemberOffset>, version: string, key: string,
                                         e: VersionedOffset)
    ensures e in EntriesIn(members, version, key) <==>
            e.since == version && exists j :: MemberGives(members, j, key, e.offset)
  {
    hide Key;
    if members != [] {
      var n := |members| - 1;
      var init := members[..n];
      EntriesInFrom(init, version, key, e);
      if j :| MemberGives(init, j, key, e.offset) {
        assert MemberGives(members, j, key, e.offset);
      }
      if j :| MemberGives(members, j, key, e.offset) {
        assert j < n ==> MemberGives(init, j, key, e.offset);
      }
      assert e.since == version && Key(members[n].member) == key && members[n].offset == e.offset ==>
             MemberGives(members, n, key, e.offset);
    }
  }

  ghost predicate InResult(vr: VersionedResult, key: string, e: VersionedOffset) {
    e in EntriesIn(vr.members, vr.version, key)
  }

  lemma {:induction false} EntriesFrom(results: seq<VersionedResult>, key: string, e: VersionedOffset)
    ensures e in Entries(results, key) <==> exists i :: 0 <= i < |results| && InResult(results[i], key, e)
  {
    hide EntriesIn, Key;
    if results != [] {
      var n := |results| - 1;
      var init := results[..n];
      EntriesFrom(init, key, e);
      assert e in Entries(results, key) <==> e in Entries(init, key) || InResult(results[n], key, e);
      hide InResult, Entries;
      if i :| 0 <= i < n && InResult(init[i], key, e) {
        assert results[i] == init[i];
      }
      if i :| 0 <= i < |results| && InResult(results[i], key, e) {
        assert i < n ==> init[i] == results[i];
      }
    }
  }

  lemma EntryVersions(results: seq<VersionedResult>, key: string)
    ensures Sinces(Entries(results, key)) <= Versions(results)
  {
    var es := Entries(results, key);
    hide Entries;
    forall k | 0 <= k < |es| ensures es[k].since in Versions(results) {
      EntriesFrom(results, key, es[k]);
      var i :| 0 <= i < |results| && InResult(results[i], key, es[k]);
      EntriesInFrom(results[i].members, results[i].version, key, es[k]);
    }
  }

  lemma EntriesParse(results: seq<VersionedResult>, key: string)
    requires VersionsParse(results)
    ensures AllParse(Entries(results, key))
  {
    EntryVersions(results, key);
    hide Entries, Parse;
    forall i | 0 <= i < |Entries(results, key)| ensures Parses(Entries(results, key)[i].since) {
      assert Entries(results, key)[i].since in Sinces(Entries(results, key));
    }
  }

  // ---------- Collecting, sorting and normalizing ----------

  /** The map holds, under every key, what the results up to here and some members of the next one record. */
  ghost predicate CollectedTo(m: map<string, seq<VersionedOffset>>, results: seq<VersionedResult>,
                              members: seq<DataMemberOffset>, version: string) {
    forall key :: (var es := Entries(results, key) + EntriesIn(members, version, key);
                   (key in m <==> es != []) && (key in m ==> m[key] == es))
  }

  /** The map of all entries. */
  ghost predicate Collected(m: map<string, seq<VersionedOffset>>, results: seq<VersionedResult>) {
    forall key :: (key in m <==> Entries(results, key) != []) && (key in m ==> m[key] == Entries(results, key))
  }

  function Append(m: map<string, seq<VersionedOffset>>, key: string, e: VersionedOffset)
    : map<string, seq<VersionedOffset>>
  {
    m[key := (if key in m then m[key] else []) + [e]]
  }

  lemma CollectMember(m: map<string, seq<VersionedOffset>>, results: seq<VersionedResult>,
                      members: seq<DataMemberOffset>, version: string, j: nat)
    requires j < |members| && CollectedTo(m, results, members[..j], version)
    ensures CollectedTo(Append(m, Key(members[j].member), VersionedOffset(members[j].offset, version)),
                        results, members[..j + 1], version)
  {
    var od := members[j];
    var m' := Append(m, Key(od.member), VersionedOffset(od.offset, version));
    assert members[..j + 1][..j] == members[..j];
    hide Entries;
    forall key
      ensures var es := Entries(results, key) + EntriesIn(members[..j + 1], version, key);
              (key in m' <==> es != []) && (key in m' ==> m'[key] == es)
    {
      var es := Entries(results, key) + EntriesIn(members[..j], version, key);
      assert (key in m <==> es != []) && (key in m ==> m[key] == es);
      hide Key;
    }
  }

  lemma CollectVersion(m: map<string, seq<VersionedOffset>>, results: seq<VersionedResult>, i: nat)
    requires i < |results| && CollectedTo(m, results[..i], results[i].members, results[i].version)
    ensures Collected(m, results[..i + 1])
  {
    assert results[..i + 1][..i] == results[..i];
    hide EntriesIn;
    forall key
      ensures Entries(results[..i + 1], key)
              == Entries(results[..i], key) + EntriesIn(results[i].members, results[i].version, key)
    {
    }
  }

  lemma CollectNone(m: map<string, seq<VersionedOffset>>, results: seq<VersionedResult>, version: string)
    requires Collected(m, results)
    ensures CollectedTo(m, results, [], version)
  {
    hide Entries;
    forall key
      ensures Entries(results, key) + EntriesIn([], version, key) == Entries(results, key)
    {
    }
  }

  /** The nested loops over the versions and their members. */
  method CollectOffsets(results: seq<VersionedResult>) returns (m: map<string, seq<VersionedOffset>>)
    ensures Collected(m, results)
  {
    m := map[];
    assert Collected(m, results[..0]);
    hide Collected, CollectedTo, Append;
    for i := 0 to |results|
      invariant Collected(m, results[..i])
    {
      var vr := results[i];
      CollectNone(m, results[..i], vr.version);
      assert vr.members[..0] == [];
      for j := 0 to |vr.members|
        invariant CollectedTo(m, results[..i], vr.members[..j], vr.version)
      {
        var od := vr.members[j];
        CollectMember(m, results[..i], vr.members, vr.version, j);
        m := Append(m, Key(od.member), VersionedOffset(od.offset, vr.version));
      }
      assert vr.members[..|vr.members|] == vr.members;
      CollectVersion(m, results, i);
    }
    assert results[..|results|] == results;
  }

  /** In order of versions, equal ones in any order. */
  ghost predicate Sorted(offs: seq<VersionedOffset>) {
    && (forall i :: 0 <= i < |offs| ==> Parses(offs[i].since))
    && (forall i, j :: 0 <= i < j < |offs| ==> Cmp(offs[i].since, offs[j].since) <= 0)
  }

  /** Position k is after everything not greater than e and before everything not less. */
  ghost predicate Fits(s: seq<VersionedOffset>, e: VersionedOffset, k: nat)
    requires AllParse(s) && Parses(e.since)
  {
    && (forall i :: 0 <= i < |s| && i < k ==> Cmp(s[i].since, e.since) <= 0)
    && (forall i :: k <= i < |s| ==> Cmp(e.since, s[i].since) <= 0)
  }

  /** Where an entry goes among sorted ones, if Compare orders them. */
  method Position(s: seq<VersionedOffset>, e: VersionedOffset) returns (k: nat)
    requires AllParse(s) && Parses(e.since)
    ensures k <= |s|
    ensures Sorted(s) && Ordered(Sinces(s) + {e.since}) ==> Fits(s, e, k)
  {
    hide Cmp, Parse, Ordered;
    k := |s|;
    while k > 0
      invariant k <= |s|
      invariant Ordered(Sinces(s) + {e.since}) ==> forall i :: k <= i < |s| ==> Cmp(e.since, s[i].since) <= 0
    {
      assert s[k - 1].since in Sinces(s);
      if Ordered(Sinces(s) + {e.since}) {
        Antisymmetric(Sinces(s) + {e.since}, s[k - 1].since, e.since);
      }
      if Cmp(s[k - 1].since, e.since) <= 0 {
        if Sorted(s) && Ordered(Sinces(s) + {e.since}) {
          NotGreaterBefore(s, e, k);
        }
        return;
      }
      k := k - 1;
    }
  }

  lemma NotGreaterBefore(s: seq<VersionedOffset>, e: VersionedOffset, k: nat)
    requires Sorted(s) && Ordered(Sinces(s) + {e.since}) && 0 < k <= |s| && Cmp(s[k - 1].since, e.since) <= 0
    ensures forall i :: 0 <= i < k ==> Cmp(s[i].since, e.since) <= 0
  {
    hide Cmp, Parse;
    assert s[k - 1].since in Sinces(s);
    forall i | 0 <= i < k ensures Cmp(s[i].since, e.since) <= 0 {
      assert s[i].since in Sinces(s);
    }
  }

  function Inserted(s: seq<VersionedOffset>, e: VersionedOffset, k: nat): seq<VersionedOffset>
    requires k <= |s|
  {
    s[..k] + [e] + s[k..]
  }

  lemma InsertSorted(s: seq<VersionedOffset>, e: VersionedOffset, k: nat)
    requires Sorted(s) && AllParse(s) && Parses(e.since) && k <= |s| && Fits(s, e, k)
    ensures Sorted(Inserted(s, e, k))
  {
    hide Cmp, Parse;
  }

  lemma InsertContents(s: seq<VersionedOffset>, e: VersionedOffset, k: nat)
    requires k <= |s| && AllParse(s) && Parses(e.since)
    ensures multiset(Inserted(s, e, k)) == multiset(s) + multiset{e} && AllParse(Inserted(s, e, k))
    ensures Sinces(Inserted(s, e, k)) <= Sinces(s) + {e.since}
  {
    hide Parse;
    assert s == s[..k] + s[k..];
  }

  method Insert(s: seq<VersionedOffset>, e: VersionedOffset) returns (t: seq<VersionedOffset>)
    requires AllParse(s) && Parses(e.since)
    ensures multiset(t) == multiset(s) + multiset{e} && Sinces(t) <= Sinces(s) + {e.since} && AllParse(t)
    ensures Sorted(s) && Ordered(Sinces(s) + {e.since}) ==> Sorted(t)
  {
    hide Parse, Ordered, Sorted, Sinces, AllParse, Fits;
    var k := Position(s, e);
    if Sorted(s) && Ordered(Sinces(s) + {e.since}) {
      InsertSorted(s, e, k);
    }
    InsertContents(s, e, k);
    t := Inserted(s, e, k);
  }

  lemma NextInMultiset(offs: seq<VersionedOffset>, n: nat)
    requires n < |offs|
    ensures multiset(offs[..n + 1]) == multiset(offs[..n]) + multiset{offs[n]} && offs[n].since in Sinces(offs)
  {
    assert offs[..n + 1] == offs[..n] + [offs[n]];
  }

  lemma EmptySorted()
    ensures Sorted([]) && Sinces([]) == {}
  {
  }

  /** sort.Slice: the entries rearranged, and sorted if Compare orders their versions. */
  method SortSlice(offs: seq<VersionedOffset>) returns (s: seq<VersionedOffset>)
    requires AllParse(offs)
    ensures multiset(s) == multiset(offs) && AllParse(s)
    ensures Ordered(Sinces(offs)) ==> Sorted(s)
  {
    hide Sorted, Ordered, Sinces, Parse;
    s := [];
    EmptySorted();
    for n := 0 to |offs|
      invariant multiset(s) == multiset(offs[..n]) && AllParse(s) && Sinces(s) <= Sinces(offs)
      invariant Ordered(Sinces(offs)) ==> Sorted(s)
    {
      NextInMultiset(offs, n);
      if Ordered(Sinces(offs)) {
        OrderedSubset(Sinces(offs), Sinces(s) + {offs[n].since});
      }
      s := Insert(s, offs[n]);
    }
    assert offs[..|offs|] == offs;
  }

  /** hiLoSemVers after the versions of the first n entries. */
  function Lowest(offs: seq<VersionedOffset>): Version
    requires offs != [] && forall i :: 0 <= i < |offs| ==> Parses(offs[i].since)
    ensures Valid(Lowest(offs)) && NonNegative(Lowest(offs).segments) && |Lowest(offs).segments| >= 1
  {
    var n := |offs| - 1;
    var v := Ver(offs[n].since);
    if n == 0 then v
    else
      var lo := Lowest(offs[..n]);
      if Compare(v, lo) < 0 then v else lo
  }

  function Highest(offs: seq<VersionedOffset>): Version
    requires offs != [] && forall i :: 0 <= i < |offs| ==> Parses(offs[i].since)
    ensures Valid(Highest(offs)) && NonNegative(Highest(offs).segments) && |Highest(offs).segments| >= 1
  {
    var n := |offs| - 1;
    var v := Ver(offs[n].since);
    if n == 0 then v
    else
      var hi := Highest(offs[..n]);
      if Compare(v, hi) > 0 then v else hi
  }

  function FieldOf(s: seq<VersionedOffset>): TrackedField
    requires s != [] && forall i :: 0 <= i < |s| ==> Parses(s[i].since)
  {
    TrackedField(ToString(Lowest(s)), ToString(Highest(s)), Kept(s))
  }

  lemma NormalizeStep(offs: seq<VersionedOffset>, n: nat)
    requires 0 < n < |offs| && forall i :: 0 <= i < |offs| ==> Parses(offs[i].since)
    ensures Kept(offs[..n + 1]) == Kept(offs[..n]) + if offs[n].offset != offs[n - 1].offset then [offs[n]] else []
    ensures var v, lo := Ver(offs[n].since), Lowest(offs[..n]);
            Lowest(offs[..n + 1]) == if Compare(v, lo) < 0 then v else lo
    ensures var v, hi := Ver(offs[n].since), Highest(offs[..n]);
            Highest(offs[..n + 1]) == if Compare(v, hi) > 0 then v else hi
  {
    hide Compare, Parse, Ver;
    assert offs[..n + 1][..n] == offs[..n];
    assert Kept(offs[..n]) + [] == Kept(offs[..n]);
  }

  lemma NormalizeFirst(offs: seq<VersionedOffset>)
    requires offs != [] && Parses(offs[0].since)
    ensures Kept(offs[..1]) == [offs[0]] && Lowest(offs[..1]) == Highest(offs[..1]) == Ver(offs[0].since)
  {
    assert offs[..1] == [offs[0]] && [offs[0]][..0] == [];
    assert Kept([]) == [];
  }

  /** The loop over the sorted entries of one key. */
  method Normalize(offs: seq<VersionedOffset>) returns (om: seq<VersionedOffset>, lo: Version, hi: Version)
    requires offs != [] && forall i :: 0 <= i < |offs| ==> Parses(offs[i].since)
    ensures om == Kept(offs) && lo == Lowest(offs) && hi == Highest(offs)
  {
    hide Compare, Parse, Ver, Kept, Lowest, Highest, Valid;
    om, lo, hi := [offs[0]], Ver(offs[0].since), Ver(offs[0].since);
    var last := offs[0];
    NormalizeFirst(offs);
    for n := 1 to |offs|
      invariant om == Kept(offs[..n]) && last == offs[n - 1]
      invariant lo == Lowest(offs[..n]) && hi == Highest(offs[..n])
    {
      var off := offs[n];
      NormalizeStep(offs, n);
      var ver := Ver(off.since);
      if Compare(ver, lo) < 0 {
        lo := ver;
      }
      if Compare(ver, hi) > 0 {
        hi := ver;
      }
      om := om + if off.offset != last.offset then [off] else [];
      last := off;
    }
    assert offs[..|offs|] == offs;
  }

  // ---------- Regrouping ----------

  /** What the table says about a field, if anything. */
  function FieldAt(data: TrackedData, m: DataMember): Option<TrackedField> {
    if m.structName in data && m.field in data[m.structName] then Some(data[m.structName][m.field]) else None
  }

  function Store(data: TrackedData, structName: string, field: string, f: TrackedField): TrackedData {
    var strFields := if structName in data then data[structName] else map[];
    data[structName := strFields[field := f]]
  }

  lemma StoreAt(data: TrackedData, st: string, fd: string, f: TrackedField, m: DataMember)
    ensures FieldAt(Store(data, st, fd, f), m) == if m == DataMember(st, fd) then Some(f) else FieldAt(data, m)
  {
  }

  ghost predicate CommaFreeMember(m: DataMember) {
    Free(m.structName, ',') && Free(m.field, ',')
  }

  lemma {:induction false} SplitTwice(a: string, b: string)
    ensures |Split(a + "," + b, ',')| >= 2
  {
    if a == "" {
      assert (a + "," + b)[1..] == b;
    } else {
      SplitTwice(a[1..], b);
      assert (a + "," + b)[1..] == a[1..] + "," + b;
    }
  }

  /** Splitting a key at commas gives back the names exactly when they contain none. */
  lemma KeySplits(m: DataMember)
    ensures |Split(Key(m), ',')| >= 2
    ensures Split(Key(m), ',')[..2] == [m.structName, m.field] <==> CommaFreeMember(m)
    ensures CommaFreeMember(m) ==> Split(Key(m), ',') == [m.structName, m.field]
  {
    SplitTwice(m.structName, m.field);
    if CommaFreeMember(m) {
      SplitAtSep(m.structName, m.field, ',');
      SplitFree(m.field, ',');
    }
    var parts := Split(Key(m), ',');
    if parts[..2] == [m.structName, m.field] {
      SplitPartsFree(Key(m), ',');
      assert parts[0] == parts[..2][0] && parts[1] == parts[..2][1];
    }
  }

  lemma KeysDiffer(m: DataMember, n: DataMember)
    requires CommaFreeMember(m) && CommaFreeMember(n) && Key(m) == Key(n)
    ensures m == n
  {
    KeySplits(m);
    KeySplits(n);
    hide Split, Key;
    assert [m.structName, m.field][0] == [n.structName, n.field][0];
    assert [m.structName, m.field][1] == [n.structName, n.field][1];
  }

  /** s lists the entries, in order of versions if Compare orders them. */
  ghost predicate Arrangement(s: seq<VersionedOffset>, entries: seq<VersionedOffset>) {
    multiset(s) == multiset(entries) && AllParse(s) && s != [] && (Ordered(Sinces(entries)) ==> Sorted(s))
  }

  /** f is what the entries recorded under the key come down to. */
  ghost predicate RecordedUnder(results: seq<VersionedResult>, key: string, f: TrackedField) {
    exists s :: Arrangement(s, Entries(results, key)) && f == FieldOf(s)
  }

  /** What is stored for the key goes under these two names: the first two parts of the key. */
  predicate Names(key: string, m: DataMember) {
    |Split(key, ',')| >= 2 && Split(key, ',')[..2] == [m.structName, m.field]
  }

  /** Something is recorded under the key, and stored under these names. */
  ghost predicate RecordedAs(results: seq<VersionedResult>, key: string, m: DataMember) {
    Entries(results, key) != [] && Names(key, m)
  }

  /** The table after recording the results: their fields are replaced and all others are as before. */
  ghost predicate Converted(results: seq<VersionedResult>, before: TrackedData, after: TrackedData) {
    forall m :: ConvertedAt(results, before, after, m)
  }

  /** Names with commas can make several keys end up under the same names; then any of them may be the last. */
  ghost predicate ConvertedAt(results: seq<VersionedResult>, before: TrackedData, after: TrackedData, m: DataMember) {
    if exists key :: RecordedAs(results, key, m) then
      && FieldAt(after, m).Some?
      && exists key :: RecordedAs(results, key, m) && RecordedUnder(results, key, FieldAt(after, m).value)
    else
      FieldAt(after, m) == FieldAt(before, m)
  }

  /** Without commas in the names, only a member's own key is stored under its names. */
  lemma OnlyOwnKey(results: seq<VersionedResult>, key: string, m: DataMember)
    requires CommaFree(results)
    ensures RecordedAs(results, key, m) <==> key == Key(m) && CommaFreeMember(m) && Entries(results, key) != []
  {
    hide Entries, Split, CommaFree;
    KeySplits(m);
    if Entries(results, key) != [] {
      var n := MemberOfKey(results, key);
      KeySplits(n);
      if Names(key, m) {
        assert [m.structName, m.field][0] == [n.structName, n.field][0];
        assert [m.structName, m.field][1] == [n.structName, n.field][1];
        assert m == n;
      }
    }
  }

  /** So every recorded member has what was recorded for it, and every other field is as before. */
  lemma ConvertedWithoutCommas(results: seq<VersionedResult>, before: TrackedData, after: TrackedData, m: DataMember)
    requires CommaFree(results) && Converted(results, before, after)
    ensures if CommaFreeMember(m) && Entries(results, Key(m)) != [] then
              FieldAt(after, m).Some? && RecordedUnder(results, Key(m), FieldAt(after, m).value)
            else
              FieldAt(after, m) == FieldAt(before, m)
  {
    hide Entries, CommaFree, FieldAt, RecordedUnder, RecordedAs, Key, CommaFreeMember;
    assert ConvertedAt(results, before, after, m);
    forall key
      ensures RecordedAs(results, key, m) <==> key == Key(m) && CommaFreeMember(m) && Entries(results, key) != []
    {
      OnlyOwnKey(results, key, m);
    }
  }

  ghost predicate StoredAs(done: set<string>, key: string, m: DataMember) {
    key in done && Names(key, m)
  }

  /** The table while the keys in `done` have been stored. */
  ghost predicate StoredSoFar(fields: map<string, TrackedField>, done: set<string>, before: TrackedData,
                              now: TrackedData) {
    done <= fields.Keys && forall m :: StoredAt(fields, done, before, now, m)
  }

  ghost predicate StoredAt(fields: map<string, TrackedField>, done: set<string>, before: TrackedData,
                           now: TrackedData, m: DataMember)
    requires done <= fields.Keys
  {
    if exists key :: StoredAs(done, key, m) then
      exists key :: StoredAs(done, key, m) && FieldAt(now, m) == Some(fields[key])
    else
      FieldAt(now, m) == FieldAt(before, m)
  }

  lemma StoreKey(fields: map<string, TrackedField>, done: set<string>, before: TrackedData, now: TrackedData,
                 key: string)
    requires StoredSoFar(fields, done, before, now) && key in fields && |Split(key, ',')| >= 2
    ensures StoredSoFar(fields, done + {key}, before, Store(now, Split(key, ',')[0], Split(key, ',')[1], fields[key]))
  {
    var parts := Split(key, ',');
    var next := Store(now, parts[0], parts[1], fields[key]);
    hide FieldAt, Store, Split;
    forall m ensures StoredAt(fields, done + {key}, before, next, m) {
      StoreAt(now, parts[0], parts[1], fields[key], m);
      assert StoredAt(fields, done, before, now, m);
      NamesParts(key, m);
      hide Names;
      if Names(key, m) {
        assert StoredAs(done + {key}, key, m);
      } else {
        assert forall k :: StoredAs(done + {key}, k, m) <==> StoredAs(done, k, m);
        assert FieldAt(next, m) == FieldAt(now, m);
      }
    }
  }

  lemma NamesParts(key: string, m: DataMember)
    requires |Split(key, ',')| >= 2
    ensures Names(key, m) <==> m == DataMember(Split(key, ',')[0], Split(key, ',')[1])
  {
    hide Split;
    var parts := Split(key, ',');
    assert parts[..2] == [parts[0], parts[1]];
    if Names(key, m) {
      assert [m.structName, m.field][0] == parts[0] && [m.structName, m.field][1] == parts[1];
    }
  }

  /** The member a key was made from. */
  lemma MemberOfKey(results: seq<VersionedResult>, key: string) returns (m: DataMember)
    requires Entries(results, key) != []
    ensures Key(m) == key && (CommaFree(results) ==> CommaFreeMember(m))
  {
    var e := Entries(results, key)[0];
    hide Entries, Key;
    EntriesFrom(results, key, e);
    var i :| 0 <= i < |results| && InResult(results[i], key, e);
    var members := results[i].members;
    EntriesInFrom(members, results[i].version, key, e);
    var j :| MemberGives(members, j, key, e.offset);
    m := members[j].member;
  }

  lemma AllStored(results: seq<VersionedResult>, offsetsMap: map<string, seq<VersionedOffset>>,
                  fields: map<string, TrackedField>, before: TrackedData, after: TrackedData)
    requires Collected(offsetsMap, results) && StoredSoFar(fields, offsetsMap.Keys, before, after)
    requires fields.Keys == offsetsMap.Keys && forall key <- fields.Keys :: RecordedUnder(results, key, fields[key])
    ensures Converted(results, before, after)
  {
    hide Entries, FieldAt, RecordedUnder, Names;
    forall m ensures ConvertedAt(results, before, after, m) {
      assert StoredAt(fields, offsetsMap.Keys, before, after, m);
      assert forall key :: StoredAs(offsetsMap.Keys, key, m) <==> RecordedAs(results, key, m);
    }
  }

  class TrackedOffsets {
    var data: TrackedData

    constructor ()
      ensures data == map[]
    {
      data := map[];
    }

    /** Sort and compress the entries of every key. */
    method FieldsOf(results: seq<VersionedResult>, offsetsMap: map<string, seq<VersionedOffset>>)
      returns (fields: map<string, TrackedField>)
      requires VersionsParse(results) && Collected(offsetsMap, results)
      ensures fields.Keys == offsetsMap.Keys
      ensures forall key <- fields.Keys :: RecordedUnder(results, key, fields[key])
    {
      hide Entries, Ordered, VersionsParse, RecordedUnder, Sorted, Lowest, Highest, Kept, ToString, Valid, Parse;
      fields := map[];
      var keys := offsetsMap.Keys;
      while keys != {}
        invariant keys <= offsetsMap.Keys && fields.Keys == offsetsMap.Keys - keys
        invariant forall key <- fields.Keys :: RecordedUnder(results, key, fields[key])
      {
        var key :| key in keys;
        var offs := offsetsMap[key];
        EntriesParse(results, key);
        var sorted := SortSlice(offs);
        ArrangementOf(sorted, offs);
        var om, lo, hi := Normalize(sorted);
        fields := fields[key := TrackedField(ToString(lo), ToString(hi), om)];
        RecordedBy(results, key, sorted, fields[key]);
        keys := keys - {key};
      }
    }

    /** convertResult; it panics on a recorded version that does not parse. */
    method ConvertResult(results: seq<VersionedResult>)
      requires VersionsParse(results)
      modifies this
      ensures Converted(results, old(data), data)
    {
      hide Entries, VersionsParse, RecordedUnder, StoredSoFar, Store, Split, Converted, Collected;
      var offsetsMap := CollectOffsets(results);
      var fields := FieldsOf(results, offsetsMap);
      ghost var before, done := data, {};
      var keys := offsetsMap.Keys;
      NothingStored(fields, before);
      while keys != {}
        invariant keys <= offsetsMap.Keys && done + keys == offsetsMap.Keys
        invariant StoredSoFar(fields, done, before, data)
      {
        var key :| key in keys;
        KeyHasParts(results, offsetsMap, key);
        StoreKey(fields, done, before, data, key);
        var parts := Split(key, ',');
        data := Store(data, parts[0], parts[1], fields[key]);
        keys, done := keys - {key}, done + {key};
      }
      AllStored(results, offsetsMap, fields, before, data);
    }
  }

  lemma KeyHasParts(results: seq<VersionedResult>, offsetsMap: map<string, seq<VersionedOffset>>, key: string)
    requires Collected(offsetsMap, results) && key in offsetsMap
    ensures |Split(key, ',')| >= 2
  {
    hide Entries, Split;
    var m := MemberOfKey(results, key);
    KeySplits(m);
  }

  ghost predicate RecordedIn(results: seq<VersionedResult>, m: DataMember) {
    exists key :: RecordedAs(results, key, m)
  }

  /** Something is stored under these names for results i, and for none after them. */
  ghost predicate LastRecorded(all: seq<seq<VersionedResult>>, i: int, m: DataMember) {
    && 0 <= i < |all| && RecordedIn(all[i], m)
    && forall j :: i < j < |all| ==> !RecordedIn(all[j], m)
  }

  /** The table holds what these results recorded under these names. */
  ghost predicate HoldsFrom(data: TrackedData, results: seq<VersionedResult>, m: DataMember) {
    && FieldAt(data, m).Some?
    && exists key :: RecordedAs(results, key, m) && RecordedUnder(results, key, FieldAt(data, m).value)
  }

  /** WriteResults, up to the encoding as JSON: later results replace the fields of earlier ones. */
  method WriteResults(all: seq<seq<VersionedResult>>) returns (offsets: TrackedOffsets)
    requires forall i :: 0 <= i < |all| ==> VersionsParse(all[i])
    ensures forall i, m :: LastRecorded(all, i, m) ==> HoldsFrom(offsets.data, all[i], m)
    ensures forall m :: (forall i :: 0 <= i < |all| ==> !RecordedIn(all[i], m)) ==> FieldAt(offsets.data, m).None?
  {
    hide VersionsParse, RecordedIn, HoldsFrom, Converted, FieldAt;
    offsets := new TrackedOffsets();
    NothingAt();
    for n := 0 to |all|
      invariant forall i, m :: LastRecorded(all[..n], i, m) ==> HoldsFrom(offsets.data, all[i], m)
      invariant forall m :: (forall i :: 0 <= i < n ==> !RecordedIn(all[i], m)) ==> FieldAt(offsets.data, m).None?
    {
      ghost var before := offsets.data;
      offsets.ConvertResult(all[n]);
      forall m
        ensures if RecordedIn(all[n], m) then HoldsFrom(offsets.data, all[n], m)
                else FieldAt(offsets.data, m) == FieldAt(before, m) &&
                     forall i :: 0 <= i < n ==> HoldsFrom(offsets.data, all[i], m) == HoldsFrom(before, all[i], m)
      {
        ConvertedHolds(all[n], before, offsets.data, m);
        forall i | 0 <= i < n && !RecordedIn(all[n], m)
          ensures HoldsFrom(offsets.data, all[i], m) == HoldsFrom(before, all[i], m)
        {
          HoldsByField(before, offsets.data, all[i], m);
        }
      }
      forall i, m | LastRecorded(all[..n + 1], i, m)
        ensures HoldsFrom(offsets.data, all[i], m)
      {
        LastBefore(all, n, i, m);
      }
    }
    assert all[..|all|] == all;
  }

  lemma NothingAt()
    ensures forall m :: FieldAt(map[], m).None?
  {
  }

  lemma ConvertedHolds(results: seq<VersionedResult>, before: TrackedData, after: TrackedData, m: DataMember)
    requires Converted(results, before, after)
    ensures if RecordedIn(results, m) then HoldsFrom(after, results, m) else FieldAt(after, m) == FieldAt(before, m)
  {
    hide RecordedAs, RecordedUnder, FieldAt;
    assert ConvertedAt(results, before, after, m);
  }

  lemma HoldsByField(before: TrackedData, after: TrackedData, results: seq<VersionedResult>, m: DataMember)
    requires FieldAt(after, m) == FieldAt(before, m)
    ensures HoldsFrom(after, results, m) == HoldsFrom(before, results, m)
  {
    hide RecordedAs, RecordedUnder, FieldAt;
  }

  lemma LastBefore(all: seq<seq<VersionedResult>>, n: nat, i: int, m: DataMember)
    requires n < |all| && LastRecorded(all[..n + 1], i, m)
    ensures if i == n then RecordedIn(all[n], m) else !RecordedIn(all[n], m) && LastRecorded(all[..n], i, m)
  {
    hide RecordedIn;
    assert all[..n + 1][i] == all[i] && all[..n + 1][n] == all[n];
    if i < n {
      forall j | i < j < n ensures !RecordedIn(all[..n][j], m) {
        assert all[..n + 1][j] == all[..n][j];
      }
      assert all[..n][i] == all[i];
    }
  }

  lemma NothingStored(fields: map<string, TrackedField>, before: TrackedData)
    ensures StoredSoFar(fields, {}, before, before)
  {
    hide FieldAt, Names;
  }

  lemma ArrangementOf(s: seq<VersionedOffset>, entries: seq<VersionedOffset>)
    requires multiset(s) == multiset(entries) && AllParse(s) && entries != []
    requires Ordered(Sinces(entries)) ==> Sorted(s)
    ensures Arrangement(s, entries)
  {
    assert entries[0] in multiset(entries);
    assert multiset(s) != multiset{};
  }

  lemma RecordedBy(results: seq<VersionedResult>, key: string, s: seq<VersionedOffset>, f: TrackedField)
    requires Arrangement(s, Entries(results, key)) && f == FieldOf(s)
    ensures RecordedUnder(results, key, f)
  {
  }
}
