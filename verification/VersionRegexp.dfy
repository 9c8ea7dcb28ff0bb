/**
 The regular expression of LICENSES/github.com/hashicorp/go-version/version.go as it is written, what such an
 expression matches, and that the parser accepts exactly that.
 */
module VersionRegexp {
  import opened Text
  import opened Version

  // ---------- Regular expressions ----------

  datatype Regexp =
    | OneOf(chars: CharClass)
    | Cat(first: Regexp, second: Regexp)
    | Alt(left: Regexp, right: Regexp)
    | Opt(r: Regexp)
    | Star(r: Regexp)

  datatype CharClass = Single(c: char) | Digits | Letters | Word

  /** [0-9], [A-Za-z\-~] and [0-9A-Za-z\-~]. */
  predicate InClass(chars: CharClass, c: char) {
    match chars
    case Single(d) => c == d
    case Digits => '0' <= c <= '9'
    case Letters => 'A' <= c <= 'Z' || 'a' <= c <= 'z' || c == '-' || c == '~'
    case Word => '0' <= c <= '9' || 'A' <= c <= 'Z' || 'a' <= c <= 'z' || c == '-' || c == '~'
  }

  ghost predicate MatchesAll(r: Regexp, s: string)
    decreases r, |s|
  {
    match r
    case OneOf(chars) => |s| == 1 && InClass(chars, s[0])
    case Cat(a, b) => exists k :: 0 <= k <= |s| && MatchesAll(a, s[..k]) && MatchesAll(b, s[k..])
    case Alt(a, b) => MatchesAll(a, s) || MatchesAll(b, s)
    case Opt(a) => s == "" || MatchesAll(a, s)
    case Star(a) => s == "" || exists k :: 0 < k <= |s| && MatchesAll(a, s[..k]) && MatchesAll(r, s[k..])
  }

  function Plus(r: Regexp): Regexp {
    Cat(r, Star(r))
  }

  /** x+(\.x+)* */
  function Dotted(first: Regexp, chars: CharClass): Regexp {
    Cat(first, Star(Cat(OneOf(Single('.')), Plus(OneOf(chars)))))
  }

  const SEGMENTS: Regexp := Dotted(Plus(OneOf(Digits)), Digits)
  const NUMERIC_PRE: Regexp := Dotted(Cat(Plus(OneOf(Digits)), Star(OneOf(Word))), Word)
  const ALPHA_PRE: Regexp := Dotted(Cat(Plus(OneOf(Letters)), Star(OneOf(Word))), Word)
  const IDENTS: Regexp := Dotted(Plus(OneOf(Word)), Word)

  const PRE: Regexp := Opt(Alt(Cat(OneOf(Single('-')), NUMERIC_PRE), Cat(Opt(OneOf(Single('-'))), ALPHA_PRE)))
  const METADATA: Regexp := Opt(Cat(OneOf(Single('+')), IDENTS))

  /** VersionRegexpRaw */
  const VERSION: Regexp := Cat(Opt(OneOf(Single('v'))), Cat(SEGMENTS, Cat(PRE, METADATA)))

  // ---------- Runs of characters ----------

  predicate All(chars: CharClass, s: string) {
    forall i :: 0 <= i < |s| ==> InClass(chars, s[i])
  }

  lemma {:induction false} StarOfClass(chars: CharClass, s: string)
    ensures MatchesAll(Star(OneOf(chars)), s) <==> All(chars, s)
    decreases |s|
  {
    if s != "" {
      StarOfClass(chars, s[1..]);
      if All(chars, s) {
        assert MatchesAll(OneOf(chars), s[..1]) && MatchesAll(Star(OneOf(chars)), s[1..]);
      }
      if k :| 0 < k <= |s| && MatchesAll(OneOf(chars), s[..k]) && MatchesAll(Star(OneOf(chars)), s[k..]) {
        assert s[..k][0] == s[0];
      }
    }
  }

  /** x+y* where every x is a y */
  lemma RunThenStar(x: CharClass, y: CharClass, s: string)
    requires forall c :: InClass(x, c) ==> InClass(y, c)
    ensures MatchesAll(Cat(Plus(OneOf(x)), Star(OneOf(y))), s) <==> s != "" && InClass(x, s[0]) && All(y, s)
  {
    if s != "" && InClass(x, s[0]) && All(y, s) {
      PlusOfClass(x, s[..1]);
      StarOfClass(y, s[1..]);
      assert MatchesAll(Plus(OneOf(x)), s[..1]) && MatchesAll(Star(OneOf(y)), s[1..]);
    }
    if k :| 0 <= k <= |s| && MatchesAll(Plus(OneOf(x)), s[..k]) && MatchesAll(Star(OneOf(y)), s[k..]) {
      PlusOfClass(x, s[..k]);
      StarOfClass(y, s[k..]);
      forall i | 0 <= i < |s| ensures InClass(y, s[i]) {
        assert i < k ==> s[i] == s[..k][i];
        assert i >= k ==> s[i] == s[k..][i - k];
      }
      assert s[0] == s[..k][0];
    }
  }

  lemma PlusOfClass(chars: CharClass, s: string)
    ensures MatchesAll(Plus(OneOf(chars)), s) <==> s != "" && All(chars, s)
  {
    var one := OneOf(chars);
    if s != "" {
      StarOfClass(chars, s[1..]);
      if All(chars, s) {
        assert MatchesAll(one, s[..1]) && MatchesAll(Star(one), s[1..]);
      }
    }
    if k :| 0 <= k <= |s| && MatchesAll(one, s[..k]) && MatchesAll(Star(one), s[k..]) {
      StarOfClass(chars, s[k..]);
      assert k == 1 && s[..1][0] == s[0];
    }
  }

  // ---------- Dotted lists ----------

  predicate Runs(chars: CharClass, parts: seq<string>) {
    forall i :: 0 <= i < |parts| ==> parts[i] != "" && All(chars, parts[i])
  }

  function DotRun(chars: CharClass): Regexp {
    Cat(OneOf(Single('.')), Plus(OneOf(chars)))
  }

  lemma DotRunMeaning(chars: CharClass, s: string)
    ensures MatchesAll(DotRun(chars), s) <==> |s| >= 2 && s[0] == '.' && All(chars, s[1..])
  {
    var dot, run := OneOf(Single('.')), Plus(OneOf(chars));
    if |s| >= 2 && s[0] == '.' && All(chars, s[1..]) {
      PlusOfClass(chars, s[1..]);
      assert MatchesAll(dot, s[..1]) && MatchesAll(run, s[1..]);
    }
    if k :| 0 <= k <= |s| && MatchesAll(dot, s[..k]) && MatchesAll(run, s[k..]) {
      PlusOfClass(chars, s[k..]);
      assert k == 1 && s[..1][0] == s[0];
    }
  }

  /** Cutting a text at its first dot cuts off the first part. */
  lemma FirstDot(s: string)
    ensures var parts := Split(s, '.');
            && Free(parts[0], '.')
            && (|parts| == 1 ==> s == parts[0])
            && (|parts| > 1 ==>
                exists rest :: s == parts[0] + "." + rest && Split(rest, '.') == parts[1..] && |rest| < |s|)
  {
    var parts := Split(s, '.');
    JoinSplit(s, '.');
    SplitPartsFree(s, '.');
    assert parts[0] in parts;
    if |parts| > 1 {
      var rest := Join(parts[1..], '.');
      SplitJoin(parts[1..], '.');
      hide Split, Join;
      assert s == parts[0] + "." + rest;
    }
  }

  /** What follows the first part: nothing, or a dot and a dotted list. */
  predicate TailParts(chars: CharClass, t: string) {
    t == "" || (t[0] == '.' && Runs(chars, Split(t[1..], '.')))
  }

  lemma {:induction false} TailMeaning(chars: CharClass, t: string)
    requires !InClass(chars, '.')
    ensures MatchesAll(Star(DotRun(chars)), t) <==> TailParts(chars, t)
    decreases |t|
  {
    hide Split;
    if t != "" && TailParts(chars, t) {
      var k := TailPiece(chars, t);
      DotRunMeaning(chars, t[..k]);
      TailMeaning(chars, t[k..]);
      assert MatchesAll(DotRun(chars), t[..k]) && MatchesAll(Star(DotRun(chars)), t[k..]);
    } else if t != "" && MatchesAll(Star(DotRun(chars)), t) {
      var k :| 0 < k <= |t| && MatchesAll(DotRun(chars), t[..k]) && MatchesAll(Star(DotRun(chars)), t[k..]);
      DotRunMeaning(chars, t[..k]);
      TailMeaning(chars, t[k..]);
      PieceThenTail(chars, t, k);
    }
  }

  /** The first piece of a tail, and that the rest is a tail. */
  lemma TailPiece(chars: CharClass, t: string) returns (k: nat)
    requires t != "" && TailParts(chars, t)
    ensures 2 <= k <= |t| && t[..k][0] == '.' && All(chars, t[..k][1..]) && TailParts(chars, t[k..])
  {
    var parts := Split(t[1..], '.');
    FirstDot(t[1..]);
    hide Split;
    k := 1 + |parts[0]|;
    if |parts| == 1 {
      assert t[..k][1..] == parts[0] && t[k..] == "";
    } else {
      var rest :| t[1..] == parts[0] + "." + rest && Split(rest, '.') == parts[1..];
      assert t[..k][1..] == parts[0];
      assert t[k..] == t[1..][|parts[0]|..] == "." + rest;
      assert t[k..][1..] == rest;
    }
  }

  lemma PieceThenTail(chars: CharClass, t: string, k: nat)
    requires !InClass(chars, '.') && 2 <= k <= |t| && t[0] == '.' && All(chars, t[..k][1..]) && TailParts(chars, t[k..])
    ensures TailParts(chars, t)
  {
    var w := t[..k][1..];
    assert Free(w, '.');
    if k == |t| {
      assert t[1..] == w;
      SplitFree(w, '.');
    } else {
      var rest := t[k..][1..];
      assert t[1..] == w + "." + rest;
      SplitAtSep(w, rest, '.');
    }
    hide Split;
  }

  /** A dotted list is its first part and the parts behind it. */
  lemma DottedMeaning(first: Regexp, chars: CharClass, s: string)
    requires !InClass(chars, '.') && forall w :: MatchesAll(first, w) ==> Free(w, '.')
    ensures MatchesAll(Dotted(first, chars), s) <==>
            MatchesAll(first, Split(s, '.')[0]) && Runs(chars, Split(s, '.')[1..])
  {
    var parts := Split(s, '.');
    var tail := Star(DotRun(chars));
    FirstDot(s);
    if MatchesAll(first, parts[0]) && Runs(chars, parts[1..]) {
      var k := |parts[0]|;
      if |parts| == 1 {
        assert s[..k] == parts[0] && s[k..] == "";
      } else {
        var rest :| s == parts[0] + "." + rest && Split(rest, '.') == parts[1..];
        assert s[..k] == parts[0] && s[k..] == "." + rest && s[k..][1..] == rest;
      }
      hide Split;
      TailMeaning(chars, s[k..]);
      assert MatchesAll(first, s[..k]) && MatchesAll(tail, s[k..]);
    }
    if k :| 0 <= k <= |s| && MatchesAll(first, s[..k]) && MatchesAll(tail, s[k..]) {
      TailMeaning(chars, s[k..]);
      HeadAndTail(chars, s, k);
    }
  }

  lemma HeadAndTail(chars: CharClass, s: string, k: nat)
    requires k <= |s| && Free(s[..k], '.') && TailParts(chars, s[k..])
    ensures Split(s, '.')[0] == s[..k] && Runs(chars, Split(s, '.')[1..])
  {
    if k == |s| {
      assert s[..k] == s;
      SplitFree(s, '.');
    } else {
      var rest := s[k..][1..];
      assert s == s[..k] + "." + rest;
      SplitAtSep(s[..k], rest, '.');
    }
    hide Split;
  }

  // ---------- The groups of the expression ----------

  lemma SegmentsLanguage(s: string)
    ensures MatchesAll(SEGMENTS, s) <==> SegmentsText(s)
  {
    forall w ensures MatchesAll(Plus(OneOf(Digits)), w) <==> w != "" && AllDigits(w) {
      PlusOfClass(Digits, w);
    }
    hide Split, MatchesAll;
    DottedMeaning(Plus(OneOf(Digits)), Digits, s);
    HeadTail(Digits, Split(s, '.'));
  }

  lemma HeadTail(chars: CharClass, parts: seq<string>)
    requires parts != []
    ensures Runs(chars, parts) <==> parts[0] != "" && All(chars, parts[0]) && Runs(chars, parts[1..])
  {
    if parts[0] != "" && All(chars, parts[0]) && Runs(chars, parts[1..]) {
      forall i | 0 <= i < |parts| ensures parts[i] != "" && All(chars, parts[i]) {
        assert i > 0 ==> parts[i] == parts[1..][i - 1];
      }
    }
  }

  lemma IdentsLanguage(s: string)
    ensures MatchesAll(IDENTS, s) <==> DottedIdents(s)
  {
    forall w ensures MatchesAll(Plus(OneOf(Word)), w) <==> IsIdent(w) {
      PlusOfClass(Word, w);
    }
    hide Split, MatchesAll;
    DottedMeaning(Plus(OneOf(Word)), Word, s);
    HeadTail(Word, Split(s, '.'));
  }

  lemma PreLanguage(s: string)
    ensures MatchesAll(NUMERIC_PRE, s) <==> NumericPre(s)
    ensures MatchesAll(ALPHA_PRE, s) <==> AlphaPre(s)
  {
    var digits, letters := Cat(Plus(OneOf(Digits)), Star(OneOf(Word))), Cat(Plus(OneOf(Letters)), Star(OneOf(Word)));
    forall w
      ensures MatchesAll(digits, w) <==> IsIdent(w) && IsDigit(w[0])
      ensures MatchesAll(letters, w) <==> IsIdent(w) && IsAlphaDash(w[0])
    {
      RunThenStar(Digits, Word, w);
      RunThenStar(Letters, Word, w);
    }
    hide Split, MatchesAll;
    DottedMeaning(digits, Word, s);
    DottedMeaning(letters, Word, s);
    HeadTail(Word, Split(s, '.'));
  }

  lemma AfterChar(c: char, r: Regexp, s: string)
    ensures MatchesAll(Cat(OneOf(Single(c)), r), s) <==> s != "" && s[0] == c && MatchesAll(r, s[1..])
  {
    if s != "" && s[0] == c && MatchesAll(r, s[1..]) {
      assert MatchesAll(OneOf(Single(c)), s[..1]);
    }
    if k :| 0 <= k <= |s| && MatchesAll(OneOf(Single(c)), s[..k]) && MatchesAll(r, s[k..]) {
      assert k == 1 && s[..1][0] == s[0];
    }
  }

  lemma AfterOptional(c: char, r: Regexp, s: string)
    ensures MatchesAll(Cat(Opt(OneOf(Single(c))), r), s) <==>
            MatchesAll(r, s) || (s != "" && s[0] == c && MatchesAll(r, s[1..]))
  {
    var o := Opt(OneOf(Single(c)));
    if MatchesAll(r, s) {
      assert s[..0] == "" && s[0..] == s;
      assert MatchesAll(o, s[..0]) && MatchesAll(r, s[0..]);
    }
    if s != "" && s[0] == c && MatchesAll(r, s[1..]) {
      assert MatchesAll(o, s[..1]);
    }
    if k :| 0 <= k <= |s| && MatchesAll(o, s[..k]) && MatchesAll(r, s[k..]) {
      if k == 0 {
        assert s[0..] == s;
      } else {
        assert s[..k] != "" && MatchesAll(OneOf(Single(c)), s[..k]);
        assert k == 1 && s[..1][0] == s[0];
      }
    }
  }

  lemma OptionalParts(s: string)
    ensures MatchesAll(PRE, s) <==> PreText(s)
    ensures MatchesAll(METADATA, s) <==> MetaText(s)
  {
    AfterChar('-', NUMERIC_PRE, s);
    AfterOptional('-', ALPHA_PRE, s);
    AfterChar('+', IDENTS, s);
    PreLanguage(s);
    if s != "" {
      PreLanguage(s[1..]);
      IdentsLanguage(s[1..]);
    }
    hide NumericPre, AlphaPre, DottedIdents;
  }

  // ---------- The whole expression ----------

  lemma Concatenate(a: Regexp, b: Regexp, s: string, t: string)
    requires MatchesAll(a, s) && MatchesAll(b, t)
    ensures MatchesAll(Cat(a, b), s + t)
  {
    assert (s + t)[..|s|] == s && (s + t)[|s|..] == t;
  }

  lemma Separate(a: Regexp, b: Regexp, s: string) returns (t: string, u: string)
    requires MatchesAll(Cat(a, b), s)
    ensures s == t + u && MatchesAll(a, t) && MatchesAll(b, u)
  {
    var k :| 0 <= k <= |s| && MatchesAll(a, s[..k]) && MatchesAll(b, s[k..]);
    t, u := s[..k], s[k..];
  }

  lemma OptionalV(s: string)
    ensures MatchesAll(Opt(OneOf(Single('v'))), s) <==> s == "" || s == "v"
  {
  }

  lemma MatchableMatches(v: string, lead: string, seg: string, mid: string, tail: string)
    requires Matches(v, lead, seg, mid, tail)
    ensures MatchesAll(VERSION, v)
  {
    hide MatchesAll, SEGMENTS, PRE, METADATA;
    SegmentsLanguage(seg);
    OptionalParts(mid);
    OptionalParts(tail);
    OptionalV(lead);
    hide SegmentsText, PreText, MetaText;
    Concatenate(PRE, METADATA, mid, tail);
    Concatenate(SEGMENTS, Cat(PRE, METADATA), seg, mid + tail);
    Concatenate(Opt(OneOf(Single('v'))), Cat(SEGMENTS, Cat(PRE, METADATA)), lead, seg + (mid + tail));
    assert lead + (seg + (mid + tail)) == v;
  }

  lemma MatchesMatchable(v: string)
    requires MatchesAll(VERSION, v)
    ensures Matchable(v)
  {
    hide MatchesAll, SEGMENTS, PRE, METADATA, SegmentsText, PreText, MetaText;
    var lead, body := Separate(Opt(OneOf(Single('v'))), Cat(SEGMENTS, Cat(PRE, METADATA)), v);
    var seg, rest := Separate(SEGMENTS, Cat(PRE, METADATA), body);
    var mid, tail := Separate(PRE, METADATA, rest);
    OptionalV(lead);
    SegmentsLanguage(seg);
    OptionalParts(mid);
    OptionalParts(tail);
    assert v == lead + seg + mid + tail;
    assert Matches(v, lead, seg, mid, tail);
  }

  /** The parser rejects a text as malformed exactly when the expression does not match it. */
  lemma MalformedIffRegexpFails(v: string)
    ensures Parse(v) == Err(Malformed) <==> !MatchesAll(VERSION, v)
  {
    MalformedIffNoMatch(v);
    hide Parse, MatchesAll, Matches;
    if Matchable(v) {
      var lead, seg, mid, tail :| Matches(v, lead, seg, mid, tail);
      MatchableMatches(v, lead, seg, mid, tail);
    }
    if MatchesAll(VERSION, v) {
      MatchesMatchable(v);
    }
  }
}
