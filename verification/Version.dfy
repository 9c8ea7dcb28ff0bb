/**
 Parsing and printing of versions (LICENSES/github.com/hashicorp/go-version/version.go).

 The regular expression is modelled by the texts it accepts. A text splits in at most one way into an
 optional v, the segments, the pre-release part and the metadata part; only for the pre-release part does
 the order of the alternatives in the expression matter.
 */
module Version {
  import opened Text

  datatype Version = Version(metadata: string, pre: string, segments: seq<int>, si: nat, original: string)

  datatype Error = Malformed | SegmentOutOfRange

  datatype Result = Ok(version: Version) | Err(error: Error)

  // ---------- The languages of the regular expression's groups ----------

  predicate IsAlphaDash(c: char) {
    'A' <= c <= 'Z' || 'a' <= c <= 'z' || c == '-' || c == '~'
  }

  /** A nonempty run of [0-9A-Za-z\-~]. */
  predicate IsIdent(s: string) {
    s != "" && forall i :: 0 <= i < |s| ==> IsDigit(s[i]) || IsAlphaDash(s[i])
  }

  predicate IsNumber(s: string) {
    s != "" && AllDigits(s)
  }

  predicate DottedIdents(s: string) {
    var parts := Split(s, '.');
    forall i :: 0 <= i < |parts| ==> IsIdent(parts[i])
  }

  /** Group 1: numbers separated by dots. */
  predicate SegmentsText(s: string) {
    var parts := Split(s, '.');
    forall i :: 0 <= i < |parts| ==> IsNumber(parts[i])
  }

  /** Group 4: a pre-release that starts with a digit. */
  predicate NumericPre(s: string) {
    DottedIdents(s) && IsDigit(Split(s, '.')[0][0])
  }

  /** Group 7: a pre-release that does not. */
  predicate AlphaPre(s: string) {
    DottedIdents(s) && IsAlphaDash(Split(s, '.')[0][0])
  }

  /** Group 3 with the mark that makes it optional. */
  predicate PreText(s: string) {
    s == "" || (s[0] == '-' && (NumericPre(s[1..]) || AlphaPre(s[1..]))) || AlphaPre(s)
  }

  /** Group 9 with the marks that make it optional. */
  predicate MetaText(s: string) {
    s == "" || (s[0] == '+' && DottedIdents(s[1..]))
  }

  /** v matches the whole expression with these four pieces. */
  ghost predicate Matches(v: string, lead: string, seg: string, mid: string, tail: string) {
    && v == lead + seg + mid + tail
    && (lead == "" || lead == "v") && SegmentsText(seg) && PreText(mid) && MetaText(tail)
  }

  /** What the groups capture of the pre-release part: the dash is left out whenever that is possible. */
  function Captured(mid: string): string
    requires PreText(mid)
  {
    if mid != "" && mid[0] == '-' && (NumericPre(mid[1..]) || AlphaPre(mid[1..])) then mid[1..] else mid
  }

  // ---------- Parsing ----------

  function IndexOf(s: string, c: char): (k: nat)
    ensures k <= |s| && Free(s[..k], c) && (k < |s| ==> s[k] == c)
  {
    if s == "" || s[0] == c then 0 else 1 + IndexOf(s[1..], c)
  }

  predicate InSegments(c: char) {
    IsDigit(c) || c == '.'
  }

  /** The length of the longest prefix of digits and dots. */
  function SegmentsEnd(s: string): (k: nat)
    ensures k <= |s| && (forall i :: 0 <= i < k ==> InSegments(s[i])) && (k < |s| ==> !InSegments(s[k]))
  {
    if s == "" || !InSegments(s[0]) then 0 else 1 + SegmentsEnd(s[1..])
  }

  datatype Pieces = Pieces(lead: string, seg: string, mid: string, tail: string)

  /** The text without its optional leading v. */
  function Lead(v: string): (lead: string)
    ensures |lead| <= |v| && v == lead + v[|lead|..] && (lead == "" || lead == "v")
  {
    if v != "" && v[0] == 'v' then "v" else ""
  }

  /** The only way to cut a text that could match. */
  function Cut(v: string): Pieces {
    var lead := Lead(v);
    var body := v[|lead|..];
    var plus := IndexOf(body, '+');
    var core := body[..plus];
    var end := SegmentsEnd(core);
    Pieces(lead, core[..end], core[end..], body[plus..])
  }

  lemma CutJoins(v: string)
    ensures var p := Cut(v); v == p.lead + p.seg + p.mid + p.tail && (p.lead == "" || p.lead == "v")
  {
    var lead := Lead(v);
    var body := v[|lead|..];
    var plus := IndexOf(body, '+');
    var core := body[..plus];
    var end := SegmentsEnd(core);
    var a, b, c := core[..end], core[end..], body[plus..];
    assert Cut(v) == Pieces(lead, a, b, c);
    hide Cut, Lead, IndexOf, SegmentsEnd;
    TakeDrop(core, end);
    TakeDrop(body, plus);
    Rejoin(lead, a, b, c);
  }

  lemma TakeDrop(s: string, k: nat)
    requires k <= |s|
    ensures s == s[..k] + s[k..]
  {
  }

  lemma Rejoin(a: string, b: string, c: string, d: string)
    ensures a + ((b + c) + d) == a + b + c + d
  {
    assert a + ((b + c) + d) == (a + (b + c)) + d;
    assert a + (b + c) == (a + b) + c;
  }

  predicate WellFormed(p: Pieces) {
    SegmentsText(p.seg) && PreText(p.mid) && MetaText(p.tail)
  }

  function Numbers(parts: seq<string>): (r: seq<ParsedInt>)
    ensures |r| == |parts| && forall i :: 0 <= i < |r| ==> r[i] == ParseInt(parts[i])
  {
    seq(|parts|, i requires 0 <= i < |parts| => ParseInt(parts[i]))
  }

  function Values(numbers: seq<ParsedInt>): (r: seq<int>)
    ensures |r| == |numbers| && forall i :: 0 <= i < |r| ==> r[i] == numbers[i].value
  {
    seq(|numbers|, i requires 0 <= i < |numbers| => numbers[i].value)
  }

  function Padded(segments: seq<int>): seq<int> {
    segments + if |segments| < 3 then seq(3 - |segments|, _ => 0) else []
  }

  predicate AllOk(numbers: seq<ParsedInt>) {
    forall i :: 0 <= i < |numbers| ==> numbers[i].ok
  }

  function Metadata(tail: string): string {
    if tail == "" then "" else tail[1..]
  }

  function Parse(v: string): Result {
    var p := Cut(v);
    if !WellFormed(p) then
      Err(Malformed)
    else
      var numbers := Numbers(Split(p.seg, '.'));
      if !AllOk(numbers) then
        Err(SegmentOutOfRange)
      else
        Ok(Version(Metadata(p.tail), CapturedOf(p), Padded(Values(numbers)), |numbers|, v))
  }

  method ParseSegments(segmentsStr: seq<string>) returns (ok: bool, segments: seq<int>)
    ensures ok <==> AllOk(Numbers(segmentsStr))
    ensures ok ==> segments == Values(Numbers(segmentsStr))
  {
    segments := [];
    for i := 0 to |segmentsStr|
      invariant |segments| == i
      invariant forall k :: 0 <= k < i ==> ParseInt(segmentsStr[k]) == ParsedInt(segments[k], true)
    {
      hide ParseInt;
      var val := ParseInt(segmentsStr[i]);
      if !val.ok {
        assert !Numbers(segmentsStr)[i].ok;
        return false, [];
      }
      segments := segments + [val.value];
    }
    ok := true;
  }

  method Pad(segments: seq<int>) returns (r: seq<int>)
    ensures r == Padded(segments)
  {
    r := segments;
    for i := |segments| to Max3(|segments|)
      invariant |r| == i && r[..|segments|] == segments && forall k :: |segments| <= k < i ==> r[k] == 0
    {
      r := r + [0];
    }
  }

  /** newVersion */
  method NewVersion(v: string) returns (r: Result)
    ensures r == Parse(v)
  {
    hide Cut, WellFormed, Split, Numbers, Values, AllOk, Padded, Captured;
    var p := Cut(v);
    if !WellFormed(p) {
      return Err(Malformed);
    }
    var segmentsStr := Split(p.seg, '.');
    var ok, segments := ParseSegments(segmentsStr);
    if !ok {
      return Err(SegmentOutOfRange);
    }
    segments := Pad(segments);
    r := Ok(Version(Metadata(p.tail), CapturedOf(p), segments, |segmentsStr|, v));
  }

  function CapturedOf(p: Pieces): string
    requires WellFormed(p)
  {
    Captured(p.mid)
  }

  function Max3(n: nat): nat {
    if n < 3 then 3 else n
  }

  // ---------- Printing ----------

  ghost predicate NonNegative(segments: seq<int>) {
    forall i :: 0 <= i < |segments| ==> 0 <= segments[i]
  }

  function Formatted(segments: seq<int>): (r: seq<string>)
    requires NonNegative(segments)
    ensures |r| == |segments| && forall i :: 0 <= i < |r| ==> r[i] == FormatInt(segments[i])
  {
    seq(|segments|, i requires 0 <= i < |segments| => FormatInt(segments[i]))
  }

  /** What parsing produces. */
  ghost predicate Valid(v: Version) {
    && |v.segments| >= 3 && v.si >= 1 && |v.segments| == Max3(v.si)
    && (forall i :: 0 <= i < |v.segments| ==> 0 <= v.segments[i] <= MAX_INT64)
    && (forall i :: v.si <= i < |v.segments| ==> v.segments[i] == 0)
    && (v.pre == "" || NumericPre(v.pre) || AlphaPre(v.pre))
    && (v.metadata == "" || DottedIdents(v.metadata))
  }

  function ToString(v: Version): string
    requires |v.segments| >= 1 && NonNegative(v.segments)
  {
    Join(Formatted(v.segments), '.')
    + PreSuffix(v.pre) + MetaSuffix(v.metadata)
  }

  /** Version.String, with the loop and the buffer. */
  method Print(v: Version) returns (buf: string)
    requires |v.segments| >= 1 && NonNegative(v.segments)
    ensures buf == ToString(v)
  {
    var fmtParts: seq<string> := [];
    for i := 0 to |v.segments|
      invariant |fmtParts| == i
      invariant forall k :: 0 <= k < i ==> v.segments[k] >= 0 && fmtParts[k] == FormatInt(v.segments[k])
    {
      fmtParts := fmtParts + [FormatInt(v.segments[i])];
    }
    assert fmtParts == Formatted(v.segments);
    buf := Join(fmtParts, '.');
    if v.pre != "" {
      buf := buf + "-" + v.pre;
    }
    if v.metadata != "" {
      buf := buf + "+" + v.metadata;
    }
    assert Join(fmtParts, '.') + "-" + v.pre == Join(fmtParts, '.') + ("-" + v.pre);
    assert buf == ToString(v);
  }

  // ---------- Parsing accepts exactly the texts that match ----------

  /** A text all of whose parts satisfy IsIdent is made of identifier characters and dots. */
  lemma DottedChars(s: string)
    requires DottedIdents(s)
    ensures forall i :: 0 <= i < |s| ==> s[i] == '.' || IsDigit(s[i]) || IsAlphaDash(s[i])
    ensures s != ""
  {
    forall i | 0 <= i < |s| && s[i] != '.'
      ensures IsDigit(s[i]) || IsAlphaDash(s[i])
    {
      CharInPart(s, '.', i);
      var p :| p in Split(s, '.') && s[i] in p;
    }
    assert s != "" by {
      assert IsIdent(Split(s, '.')[0]);
    }
  }

  lemma SegmentsChars(s: string)
    requires SegmentsText(s)
    ensures forall i :: 0 <= i < |s| ==> InSegments(s[i])
    ensures s != "" && IsDigit(s[0])
  {
    forall i | 0 <= i < |s| && s[i] != '.'
      ensures IsDigit(s[i])
    {
      CharInPart(s, '.', i);
      var p :| p in Split(s, '.') && s[i] in p;
    }
    assert s != "" by {
      assert IsNumber(Split(s, '.')[0]);
    }
    FirstPart(s);
  }

  /** A text whose first part is not empty starts with that part's first character. */
  lemma FirstPart(s: string)
    requires s != "" && Split(s, '.')[0] != ""
    ensures s[0] == Split(s, '.')[0][0]
  {
  }

  /** The pre-release part contains no plus and does not continue the segments. */
  lemma PreChars(s: string)
    requires PreText(s)
    ensures Free(s, '+') && (s != "" ==> !InSegments(s[0]))
  {
    if s == "" {
    } else if s[0] == '-' && (NumericPre(s[1..]) || AlphaPre(s[1..])) {
      DottedChars(s[1..]);
      forall i | 0 <= i < |s| ensures s[i] != '+' {
        if i > 0 {
          assert s[i] == s[1..][i - 1];
        }
      }
    } else {
      DottedChars(s);
      FirstPart(s);
    }
  }

  lemma {:induction false} IndexOfSplit(a: string, b: string, c: char)
    requires Free(a, c) && (b == "" || b[0] == c)
    ensures IndexOf(a + b, c) == |a|
  {
    if a == "" {
      assert a + b == b;
    } else {
      assert (a + b)[0] == a[0] && (a + b)[1..] == a[1..] + b;
      IndexOfSplit(a[1..], b, c);
    }
  }

  lemma {:induction false} SegmentsEndSplit(a: string, b: string)
    requires (forall i :: 0 <= i < |a| ==> InSegments(a[i])) && (b == "" || !InSegments(b[0]))
    ensures SegmentsEnd(a + b) == |a|
  {
    if a == "" {
      assert a + b == b;
    } else {
      assert (a + b)[0] == a[0] && (a + b)[1..] == a[1..] + b;
      SegmentsEndSplit(a[1..], b);
    }
  }

  /** However a text matches the expression, its pieces are those the parser cuts. */
  lemma CutFindsMatch(v: string, lead: string, seg: string, mid: string, tail: string)
    requires Matches(v, lead, seg, mid, tail)
    ensures Cut(v) == Pieces(lead, seg, mid, tail)
  {
    SegmentsChars(seg);
    PreChars(mid);
    var core := seg + mid;
    var body := core + tail;
    LeadFound(v, lead, body);
    hide SegmentsText, PreText, MetaText, IndexOf, SegmentsEnd, Lead;
    assert Free(core, '+');
    IndexOfSplit(core, tail, '+');
    assert body[..|core|] == core && body[|core|..] == tail;
    SegmentsEndSplit(seg, mid);
    assert core[..|seg|] == seg && core[|seg|..] == mid;
  }

  lemma LeadFound(v: string, lead: string, body: string)
    requires v == lead + body && (lead == "" || lead == "v") && body != "" && body[0] != 'v'
    ensures Lead(v) == lead && v[|lead|..] == body
  {
  }

  ghost predicate Matchable(v: string) {
    exists lead, seg, mid, tail :: Matches(v, lead, seg, mid, tail)
  }

  /** A text is rejected as malformed exactly when it does not match the expression in any way. */
  lemma MalformedIffNoMatch(v: string)
    ensures Parse(v) == Err(Malformed) <==> !Matchable(v)
  {
    var p := Cut(v);
    CutJoins(v);
    hide Cut;
    if WellFormed(p) {
      assert Matches(v, p.lead, p.seg, p.mid, p.tail);
    } else if Matchable(v) {
      var lead, seg, mid, tail :| Matches(v, lead, seg, mid, tail);
      CutFindsMatch(v, lead, seg, mid, tail);
    }
  }

  lemma SegmentValue(part: string)
    requires IsNumber(part) && ParseInt(part).ok
    ensures 0 <= ParseInt(part).value <= MAX_INT64
  {
    assert part[0] != '-' && part[0] != '+';
  }

  lemma ParsedIsValid(v: string)
    requires Parse(v).Ok?
    ensures Valid(Parse(v).version)
  {
    var p := Cut(v);
    var parts := Split(p.seg, '.');
    hide Cut, Split, PreText, ParseInt;
    forall i | 0 <= i < |parts| ensures 0 <= ParseInt(parts[i]).value <= MAX_INT64 {
      assert Numbers(parts)[i].ok;
      SegmentValue(parts[i]);
    }
    PreCaptured(p.mid);
    hide NumericPre, AlphaPre, DottedIdents, Captured;
    MetadataCaptured(p.tail);
  }

  lemma MetadataCaptured(tail: string)
    requires MetaText(tail)
    ensures Metadata(tail) == "" || DottedIdents(Metadata(tail))
  {
  }

  lemma PreCaptured(mid: string)
    requires PreText(mid)
    ensures Captured(mid) == "" || NumericPre(Captured(mid)) || AlphaPre(Captured(mid))
    ensures Captured(mid) == "" <==> mid == ""
  {
    if mid != "" && mid[0] == '-' && (NumericPre(mid[1..]) || AlphaPre(mid[1..])) {
      DottedChars(mid[1..]);
    }
  }

  // ---------- Printing and parsing undo each other ----------

  lemma FormattedSegments(segments: seq<int>)
    requires NonNegative(segments) && |segments| >= 1
    requires forall i :: 0 <= i < |segments| ==> segments[i] <= MAX_INT64
    ensures var s := Join(Formatted(segments), '.');
            && SegmentsText(s) && |Split(s, '.')| == |segments|
            && AllOk(Numbers(Split(s, '.'))) && Values(Numbers(Split(s, '.'))) == segments
  {
    var parts := Formatted(segments);
    forall p <- parts ensures Free(p, '.') {
      var i :| 0 <= i < |parts| && p == FormatInt(segments[i]);
    }
    SplitJoin(parts, '.');
    hide Split, Join, ParseInt, FormatInt;
    forall i | 0 <= i < |segments| ensures ParseInt(parts[i]) == ParsedInt(segments[i], true) {
      ParseOfFormat(segments[i]);
    }
  }

  /** Parsing a text that matches, in terms of its pieces. */
  lemma ParseMatched(s: string, lead: string, seg: string, mid: string, tail: string)
    requires Matches(s, lead, seg, mid, tail)
    ensures var numbers := Numbers(Split(seg, '.'));
            Parse(s) == if !AllOk(numbers) then Err(SegmentOutOfRange)
                        else Ok(Version(Metadata(tail), Captured(mid), Padded(Values(numbers)), |numbers|, s))
  {
    CutFindsMatch(s, lead, seg, mid, tail);
    hide Cut, Split, Captured, Metadata, Padded, Values, Numbers, AllOk, SegmentsText, PreText, MetaText;
  }

  /**
   What the segments of a text that matches parse to: the written ones in order, and zeros up to three of them. The
   text is out of range exactly when some written segment is.
   */
  lemma ParsedSegments(v: string, lead: string, seg: string, mid: string, tail: string)
    requires Matches(v, lead, seg, mid, tail)
    ensures forall p <- Split(seg, '.') :: p != "" && AllDigits(p)
    ensures var parts := Split(seg, '.');
            if forall p <- parts :: Value(p) <= 0x7fff_ffff_ffff_ffff then
              && Parse(v).Ok?
              && var w := Parse(v).version;
              && w.si == |parts| && |w.segments| == (if |parts| < 3 then 3 else |parts|)
              && forall i :: 0 <= i < |w.segments| ==> w.segments[i] == if i < |parts| then Value(parts[i]) else 0
            else
              Parse(v) == Err(SegmentOutOfRange)
  {
    ParseMatched(v, lead, seg, mid, tail);
    var parts := Split(seg, '.');
    assert forall i :: 0 <= i < |parts| ==> parts[i] != "" && AllDigits(parts[i]);
    hide Parse, Split, NumericPre, AlphaPre, Value, Captured, ParseInt, DottedIdents, Metadata, Matches;
    hide AllOk, Padded, Values, Numbers;
    NumbersOfSegments(parts);
  }

  /**
   What the rest parses to: the pre-release without its dash wherever it can do without, the metadata without its
   plus, and the text itself.
   */
  lemma ParsedTexts(v: string, lead: string, seg: string, mid: string, tail: string)
    requires Matches(v, lead, seg, mid, tail) && Parse(v).Ok?
    ensures var w := Parse(v).version;
            && w.original == v
            && (w.metadata == tail == "" || tail == "+" + w.metadata)
            && (mid == w.pre || mid == "-" + w.pre)
            && (forall p :: mid == "-" + p && (NumericPre(p) || AlphaPre(p)) ==> w.pre == p)
  {
    ParseMatched(v, lead, seg, mid, tail);
    hide Parse, Split, NumericPre, AlphaPre, Captured, DottedIdents, AllOk, Padded, Values, Numbers;
    CapturedPieces(mid);
    assert tail == "" || tail == "+" + tail[1..];
  }

  lemma NumbersOfSegments(parts: seq<string>)
    requires forall i :: 0 <= i < |parts| ==> parts[i] != "" && AllDigits(parts[i])
    ensures AllOk(Numbers(parts)) <==> forall p <- parts :: Value(p) <= 0x7fff_ffff_ffff_ffff
    ensures AllOk(Numbers(parts)) ==>
            var s := Padded(Values(Numbers(parts)));
            && |s| == (if |parts| < 3 then 3 else |parts|)
            && forall i :: 0 <= i < |s| ==> s[i] == if i < |parts| then Value(parts[i]) else 0
  {
    hide Value, ParseInt;
    forall i | 0 <= i < |parts|
      ensures Numbers(parts)[i].ok <==> Value(parts[i]) <= 0x7fff_ffff_ffff_ffff
      ensures Numbers(parts)[i].ok ==> Numbers(parts)[i].value == Value(parts[i])
    {
      ParseNumber(parts[i]);
    }
    if AllOk(Numbers(parts)) {
      forall p <- parts ensures Value(p) <= 0x7fff_ffff_ffff_ffff {
        var i :| 0 <= i < |parts| && parts[i] == p;
        assert Numbers(parts)[i].ok;
      }
    } else {
      var i :| 0 <= i < |parts| && !Numbers(parts)[i].ok;
      assert parts[i] in parts;
    }
  }

  lemma ParseNumber(part: string)
    requires IsNumber(part)
    ensures ParseInt(part).ok <==> Value(part) <= MAX_INT64
    ensures ParseInt(part).ok ==> ParseInt(part).value == Value(part)
  {
    assert part[0] != '-' && part[0] != '+';
  }

  lemma CapturedPieces(mid: string)
    requires PreText(mid)
    ensures mid == Captured(mid) || mid == "-" + Captured(mid)
    ensures forall p :: mid == "-" + p && (NumericPre(p) || AlphaPre(p)) ==> Captured(mid) == p
  {
    hide NumericPre, AlphaPre;
    if mid != "" && mid[0] == '-' {
      assert mid == "-" + mid[1..];
    }
  }

  function PreSuffix(pre: string): string {
    if pre != "" then "-" + pre else ""
  }

  function MetaSuffix(metadata: string): string {
    if metadata != "" then "+" + metadata else ""
  }

  lemma SuffixesMatch(v: Version)
    requires Valid(v)
    ensures PreText(PreSuffix(v.pre)) && Captured(PreSuffix(v.pre)) == v.pre
    ensures MetaText(MetaSuffix(v.metadata)) && Metadata(MetaSuffix(v.metadata)) == v.metadata
  {
    assert v.pre != "" ==> PreSuffix(v.pre)[1..] == v.pre;
    assert v.metadata != "" ==> MetaSuffix(v.metadata)[1..] == v.metadata;
  }

  lemma PrintedMatches(v: Version)
    requires Valid(v)
    ensures Matches(ToString(v), "", Join(Formatted(v.segments), '.'), PreSuffix(v.pre), MetaSuffix(v.metadata))
  {
    FormattedSegments(v.segments);
    SuffixesMatch(v);
    hide Join, SegmentsText, PreText, MetaText, PreSuffix, MetaSuffix, Split, Captured, Metadata, Formatted, Valid;
    assert "" + Join(Formatted(v.segments), '.') == Join(Formatted(v.segments), '.');
  }

  /** The printed form of a valid version matches, piece by piece, and parses to the same fields. */
  lemma ParseOfPrinted(v: Version)
    requires Valid(v)
    ensures Parse(ToString(v)) == Ok(v.(si := |v.segments|, original := ToString(v)))
  {
    var seg, mid, tail := Join(Formatted(v.segments), '.'), PreSuffix(v.pre), MetaSuffix(v.metadata);
    FormattedSegments(v.segments);
    SuffixesMatch(v);
    PrintedMatches(v);
    assert Padded(v.segments) == v.segments;
    hide Join, SegmentsText, PreText, MetaText, PreSuffix, MetaSuffix, Cut, Split, ParseInt, Captured, Metadata;
    hide Formatted, Values, Numbers, AllOk, Parse, Padded, ToString, Matches;
    ParseMatched(ToString(v), "", seg, mid, tail);
  }

  /**
   For every text the parser accepts, the printed form of the result is accepted and parses to the same
   segments, pre-release and metadata; printing that result again gives the same text.
   */
  lemma PrintParseRoundTrip(text: string)
    requires Parse(text).Ok?
    ensures var v := Parse(text).version;
            && NonNegative(v.segments) && |v.segments| >= 3
            && Parse(ToString(v)).Ok?
            && var w := Parse(ToString(v)).version;
               && w.segments == v.segments && w.pre == v.pre && w.metadata == v.metadata
               && ToString(w) == ToString(v)
  {
    ParsedIsValid(text);
    ParseOfPrinted(Parse(text).version);
  }

  /** Versions that print alike agree on everything but how they were written. */
  lemma PrintInjective(v: Version, w: Version)
    requires Valid(v) && Valid(w) && ToString(v) == ToString(w)
    ensures v.segments == w.segments && v.pre == w.pre && v.metadata == w.metadata
  {
    ParseOfPrinted(v);
    ParseOfPrinted(w);
  }
}
