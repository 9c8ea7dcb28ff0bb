/** Decoding the build information the Go linker leaves in a binary (pkg/process/module.go). */
module BuildInfo {
  import opened Machine

  type Bytes = seq<byte>

  const BUILD_INFO_ALIGN: int := 16
  const BUILD_INFO_SIZE: int := 32
  const WINDOW: int := 0x1_0000
  const NEWLINE: byte := 10

  /** "\xff Go buildinf:" */
  const MAGIC: Bytes := [0xff, 0x20, 0x47, 0x6f, 0x20, 0x62, 0x75, 0x69, 0x6c, 0x64, 0x69, 0x6e, 0x66, 0x3a]

  // ---------- Finding the header ----------

  predicate HitAt(data: Bytes, i: int) {
    0 <= i && i + |MAGIC| <= |data| && data[i..i + |MAGIC|] == MAGIC
  }

  /** bytes.Index from position i on: the first hit, or -1. */
  function IndexFrom(data: Bytes, i: nat): (r: int)
    requires i <= |data|
    ensures r == -1 || (i <= r && HitAt(data, r))
    ensures forall k :: i <= k && (r == -1 || k < r) ==> !HitAt(data, k)
    decreases |data| - i
  {
    if HitAt(data, i) then i else if i == |data| then -1 else IndexFrom(data, i + 1)
  }

  function Index(data: Bytes): (r: int)
    ensures r == -1 || HitAt(data, r)
    ensures forall k :: 0 <= k && (r == -1 || k < r) ==> !HitAt(data, k)
  {
    IndexFrom(data, 0)
  }

  /** x &^ 16: the bit of value 16 is cleared. */
  function AndNot16(x: nat): nat {
    if (x / 16) % 2 == 1 then x - 16 else x
  }

  /** The outcome of the search loop; `Spins` where it goes round without ever moving on. */
  datatype Search = Header(data: Bytes) | NotGoExe | Spins

  function FindHeader(data: Bytes): Search
    decreases |data|
  {
    var i := Index(data);
    if i < 0 || |data| - i < BUILD_INFO_SIZE then NotGoExe
    else if i % BUILD_INFO_ALIGN == 0 then Header(data[i..])
    else
      var next := AndNot16(i + BUILD_INFO_ALIGN - 1);
      if next == 0 then Spins else FindHeader(data[next..])
  }

  /**
   The search for the header comes to an end: no hit it comes to that is followed by a whole header is
   unaligned in an even block of 16 bytes. Behind one in an odd block it goes on 15 bytes later.
   */
  predicate SearchEnds(data: Bytes)
    decreases |data|
  {
    var i := Index(data);
    i < 0 || |data| - i < BUILD_INFO_SIZE || i % BUILD_INFO_ALIGN == 0
    || ((i / BUILD_INFO_ALIGN) % 2 == 1 && SearchEnds(data[i + 15..]))
  }

  /** The search loop; the source's never ends where this precondition fails. */
  method FindHeaderLoop(start: Bytes) returns (r: Search)
    requires SearchEnds(start)
    ensures r == FindHeader(start) && r != Spins
  {
    var data := start;
    hide HitAt, IndexFrom, Index;
    while true
      invariant FindHeader(data) == FindHeader(start) && SearchEnds(data)
      decreases |data|
    {
      var i := Index(data);
      if i < 0 || |data| - i < BUILD_INFO_SIZE {
        return NotGoExe;
      }
      if i % BUILD_INFO_ALIGN == 0 && |data| - i >= BUILD_INFO_SIZE {
        return Header(data[i..]);
      }
      BlockOfNext(i);
      data := data[AndNot16(i + BUILD_INFO_ALIGN - 1)..];
    }
  }

  lemma HitShifts(data: Bytes, d: nat, k: int)
    requires d <= |data| && 0 <= k
    ensures HitAt(data[d..], k) <==> HitAt(data, d + k)
  {
    if d + k + |MAGIC| <= |data| {
      assert data[d..][k..k + |MAGIC|] == data[d + k..d + k + |MAGIC|];
    }
  }

  /** One byte before the first hit, the first hit is at 1. */
  lemma FirstHitShifts(data: Bytes, d: nat)
    requires d <= Index(data)
    ensures Index(data[d..]) == Index(data) - d
  {
    var i, j := Index(data), Index(data[d..]);
    HitShifts(data, d, i - d);
    if j >= 0 {
      HitShifts(data, d, j);
    }
  }

  lemma BlockOfNext(i: nat)
    requires i % 16 != 0
    ensures AndNot16(i + 15) == if (i / 16) % 2 == 0 then i - 1 else i + 15
  {
    var q, r := i / 16, i % 16;
    assert i == 16 * q + r;
    RemainderUnique(i + 15, 16, q + 1, r - 1);
  }

  /**
   What the search does about a first hit that is not aligned: in an even block of 16 bytes it never ends,
   in an odd one it goes on 15 bytes behind the hit, as if the data started there.
   */
  lemma UnalignedFirstHit(data: Bytes)
    requires Index(data) >= 0 && |data| - Index(data) >= BUILD_INFO_SIZE && Index(data) % BUILD_INFO_ALIGN != 0
    ensures FindHeader(data) ==
            if (Index(data) / BUILD_INFO_ALIGN) % 2 == 0 then Spins else FindHeader(data[Index(data) + 15..])
  {
    hide Index, HitAt, FindHeader, AndNot16;
    var i := Index(data);
    BlockOfNext(i);
    FindStep(data);
    if (i / 16) % 2 == 0 {
      FirstHitShifts(data, i - 1);
      HitAtOneSpins(data[i - 1..]);
    }
  }

  lemma FindStep(data: Bytes)
    requires Index(data) >= 0 && |data| - Index(data) >= BUILD_INFO_SIZE && Index(data) % BUILD_INFO_ALIGN != 0
    ensures var next := AndNot16(Index(data) + BUILD_INFO_ALIGN - 1);
            next <= |data| && FindHeader(data) == if next == 0 then Spins else FindHeader(data[next..])
  {
    hide Index, HitAt;
  }

  lemma HitAtOneSpins(data: Bytes)
    requires Index(data) == 1 && |data| - 1 >= BUILD_INFO_SIZE
    ensures FindHeader(data) == Spins
  {
    hide Index, HitAt;
    FindStep(data);
    assert AndNot16(16) == 0;
  }

  /** Data without the magic anywhere, or with too little behind the first one, is no Go executable. */
  lemma NoHeader(data: Bytes)
    requires (forall i :: 0 <= i ==> !HitAt(data, i)) || |data| - Index(data) < 32
    ensures FindHeader(data) == NotGoExe
  {
    hide HitAt, IndexFrom;
  }

  /** An aligned first hit with a whole header behind it is the header. */
  lemma AlignedFirstHit(data: Bytes, i: nat)
    requires HitAt(data, i) && (forall k :: 0 <= k < i ==> !HitAt(data, k)) && i % 16 == 0 && |data| - i >= 32
    ensures FindHeader(data) == Header(data[i..])
  {
    hide HitAt, IndexFrom;
    assert Index(data) == i;
  }

  /** The search goes round forever exactly when it comes to such a hit. */
  lemma {:induction false} SpinsIff(data: Bytes)
    ensures FindHeader(data) == Spins <==> !SearchEnds(data)
    decreases |data|
  {
    var i := Index(data);
    hide HitAt, IndexFrom, Index, AndNot16;
    if i >= 0 && |data| - i >= BUILD_INFO_SIZE && i % BUILD_INFO_ALIGN != 0 {
      UnalignedFirstHit(data);
      if (i / BUILD_INFO_ALIGN) % 2 == 1 {
        SpinsIff(data[i + 15..]);
      }
    }
  }

  /** One byte before the magic is enough, whatever follows the header. */
  lemma SpinningData(first: byte, rest: Bytes)
    requires first != 0xff && |rest| >= BUILD_INFO_SIZE - |MAGIC|
    ensures FindHeader([first] + MAGIC + rest) == Spins
  {
    var data := [first] + MAGIC + rest;
    assert data[1..1 + |MAGIC|] == MAGIC && data[0] == first;
    assert HitAt(data, 1);
    assert data[0..|MAGIC|][0] == data[0] != MAGIC[0];
    assert !HitAt(data, 0);
    assert Index(data) == 1;
    HitAtOneSpins(data);
  }

  // ---------- Variable-length numbers ----------

  /** The loop of binary.Uvarint from byte i on: the value and the number of bytes, which is positive on success. */
  function UvarintFrom(buf: Bytes, i: nat, x: nat, scale: nat): (nat, int)
    requires i <= |buf|
    decreases |buf| - i
  {
    if i == |buf| then (0, 0)
    else if i == 10 then (0, -(i + 1))
    else
      var b := buf[i];
      if b < 0x80 then
        if i == 9 && b > 1 then (0, -(i + 1)) else (x + b * scale, i + 1)
      else
        UvarintFrom(buf, i + 1, x + (b - 0x80) * scale, scale * 0x80)
  }

  function Uvarint(buf: Bytes): (nat, int) {
    UvarintFrom(buf, 0, 0, 1)
  }

  /** binary.AppendUvarint */
  function PutUvarint(x: nat): (r: Bytes)
    ensures |r| >= 1
  {
    if x < 0x80 then [x] else [x % 0x80 + 0x80] + PutUvarint(x / 0x80)
  }

  /** The largest number that still fits when i bytes have been read. */
  function Limit(i: nat): nat
    requires i <= 9
    decreases 9 - i
  {
    if i == 9 then 2 else 0x80 * Limit(i + 1)
  }

  lemma LimitIs64Bits()
    ensures Limit(0) == TWO_64
  {
    assert Limit(9) == 2;
    assert Limit(7) == 0x8000;
    assert Limit(5) == 0x2000_0000;
    assert Limit(3) == 0x800_0000_0000;
    assert Limit(1) == 0x200_0000_0000_0000;
  }

  lemma SevenBits(y: nat, scale: nat)
    ensures (y % 0x80) * scale + (y / 0x80) * (scale * 0x80) == y * scale
  {
    var q, r := y / 0x80, y % 0x80;
    assert y == 0x80 * q + r;
    calc {
      r * scale + q * (scale * 0x80);
      { MulAssociative(q, 0x80, scale); }
      r * scale + (q * 0x80) * scale;
      (r + q * 0x80) * scale;
    }
  }

  lemma {:induction false} UvarintReads(pre: Bytes, y: nat, rest: Bytes, x: nat, scale: nat)
    requires |pre| <= 9 && y < Limit(|pre|)
    ensures UvarintFrom(pre + PutUvarint(y) + rest, |pre|, x, scale) == (x + y * scale, |pre| + |PutUvarint(y)|)
    decreases y
  {
    var i := |pre|;
    var buf := pre + PutUvarint(y) + rest;
    if y < 0x80 {
      assert buf[i] == y;
    } else {
      var b, q := y % 0x80 + 0x80, y / 0x80;
      assert i < 9 && q < Limit(i + 1);
      assert buf[i] == b;
      assert pre + [b] + PutUvarint(q) + rest == buf;
      assert UvarintFrom(buf, i, x, scale) == UvarintFrom(buf, i + 1, x + (b - 0x80) * scale, scale * 0x80);
      assert |PutUvarint(y)| == 1 + |PutUvarint(q)|;
      SevenBits(y, scale);
      hide UvarintFrom, PutUvarint, Limit;
      UvarintReads(pre + [b], q, rest, x + (b - 0x80) * scale, scale * 0x80);
    }
  }

  /** Reading a number that was written, with anything behind it, gives back the number and its length. */
  lemma UvarintRoundTrip(y: nat, rest: Bytes)
    requires y < TWO_64
    ensures Uvarint(PutUvarint(y) + rest) == (y, |PutUvarint(y)|)
  {
    LimitIs64Bits();
    UvarintReads([], y, rest, 0, 1);
    assert [] + PutUvarint(y) + rest == PutUvarint(y) + rest;
  }

  /** The number in base 128, lowest digit first, without the continuation bits. */
  function Base128(s: Bytes): nat {
    if s == [] then 0 else s[0] % 0x80 + 0x80 * Base128(s[1..])
  }

  /** The number ends at byte k: the first one without continuation bit, in time and within 64 bits. */
  ghost predicate EndsAt(buf: Bytes, k: nat) {
    && k < |buf| && k <= 9 && buf[k] < 0x80 && (k == 9 ==> buf[k] <= 1)
    && forall i :: 0 <= i < k ==> buf[i] >= 0x80
  }

  lemma UvarintStep(buf: Bytes, k: nat, i: nat, x: nat, scale: nat)
    requires EndsAt(buf, k) && i <= k
    ensures UvarintFrom(buf, i, x, scale) ==
            if i == k then (x + buf[i] * scale, k + 1)
            else UvarintFrom(buf, i + 1, x + (buf[i] - 0x80) * scale, scale * 0x80)
  {
  }

  lemma Base128Step(buf: Bytes, k: nat, i: nat)
    requires EndsAt(buf, k) && i <= k
    ensures Base128(buf[i..k + 1]) ==
            if i == k then buf[i] else (buf[i] - 0x80) + 0x80 * Base128(buf[i + 1..k + 1])
  {
    var digits := buf[i..k + 1];
    assert digits[0] == buf[i] && digits[1..] == buf[i + 1..k + 1];
  }

  lemma {:induction false} UvarintEnds(buf: Bytes, k: nat, i: nat, x: nat, scale: nat)
    requires EndsAt(buf, k) && i <= k
    ensures UvarintFrom(buf, i, x, scale) == (x + scale * Base128(buf[i..k + 1]), k + 1)
    decreases k - i
  {
    hide UvarintFrom, Base128;
    UvarintStep(buf, k, i, x, scale);
    Base128Step(buf, k, i);
    if i < k {
      UvarintEnds(buf, k, i + 1, x + (buf[i] - 0x80) * scale, scale * 0x80);
      Distribute(scale, buf[i] - 0x80, Base128(buf[i + 1..k + 1]));
    }
  }

  lemma {:induction false} UvarintNeverEnds(buf: Bytes, i: nat, x: nat, scale: nat)
    requires (forall k: nat :: !EndsAt(buf, k)) && i <= |buf| && i <= 10 && forall j :: 0 <= j < i ==> buf[j] >= 0x80
    ensures UvarintFrom(buf, i, x, scale).0 == 0 && UvarintFrom(buf, i, x, scale).1 <= 0
    decreases |buf| - i
  {
    if i < |buf| && i < 10 {
      if buf[i] < 0x80 {
        assert !EndsAt(buf, i);
      } else {
        UvarintNeverEnds(buf, i + 1, x + (buf[i] - 0x80) * scale, scale * 0x80);
      }
    }
  }

  lemma Distribute(scale: nat, d: nat, rest: nat)
    ensures scale * (d + 0x80 * rest) == d * scale + (scale * 0x80) * rest
  {
    MulAssociative(scale, 0x80, rest);
  }

  /**
   What a number reads as: its digits in base 128 and its length where it ends within ten bytes and 64 bits, and a
   length that is not positive where it does not.
   */
  lemma UvarintMeaning(buf: Bytes)
    ensures forall k: nat :: EndsAt(buf, k) ==> Uvarint(buf) == (Base128(buf[..k + 1]), k + 1)
    ensures (forall k: nat :: !EndsAt(buf, k)) ==> Uvarint(buf).0 == 0 && Uvarint(buf).1 <= 0
  {
    hide UvarintFrom, Base128;
    forall k: nat | EndsAt(buf, k) ensures Uvarint(buf) == (Base128(buf[..k + 1]), k + 1) {
      UvarintEnds(buf, k, 0, 0, 1);
      assert buf[0..k + 1] == buf[..k + 1];
    }
    if forall k: nat :: !EndsAt(buf, k) {
      UvarintNeverEnds(buf, 0, 0, 1);
    }
  }

  // ---------- The blob ----------

  /** decodeString: the string and what follows it; nothing unless at least one byte follows. */
  function DecodeString(data: Bytes): (Bytes, Bytes) {
    var (u, n) := Uvarint(data);
    if n <= 0 || u >= |data| - n then ([], []) else (data[n..n + u], data[n + u..])
  }

  function Encode(s: Bytes): Bytes {
    PutUvarint(|s|) + s
  }

  /** A string is decoded from its encoding exactly when something follows it. */
  lemma DecodeEncoded(s: Bytes, rest: Bytes)
    requires |s| < TWO_64
    ensures DecodeString(Encode(s) + rest) == if rest == [] then ([], []) else (s, rest)
  {
    var p := PutUvarint(|s|);
    assert Encode(s) + rest == p + (s + rest);
    UvarintRoundTrip(|s|, s + rest);
    assert (p + (s + rest))[|p|..|p| + |s|] == s;
    assert (p + (s + rest))[|p| + |s|..] == rest;
  }

  /** A string is decoded exactly when its length reads and fewer bytes than follow are asked for; else nothing is. */
  lemma DecodeMeaning(data: Bytes)
    ensures forall k: nat :: EndsAt(data, k) ==>
      var u := Base128(data[..k + 1]);
      DecodeString(data) ==
        if u < |data| - (k + 1) then (data[k + 1..k + 1 + u], data[k + 1 + u..]) else ([], [])
    ensures (forall k: nat :: !EndsAt(data, k)) ==> DecodeString(data) == ([], [])
  {
    hide Uvarint, Base128;
    UvarintMeaning(data);
  }

  datatype Details = Details(vers: Bytes, mod: Bytes) | ErrNotGoExe

  predicate InlineStrings(header: Bytes)
    requires |header| >= BUILD_INFO_SIZE
  {
    (header[15] / 2) % 2 == 1
  }

  function Unframed(mod: Bytes): Bytes {
    if |mod| >= 33 && mod[|mod| - 17] == NEWLINE then mod[16..|mod| - 16] else []
  }

  /** What the two strings come down to. */
  function Checked(vers: Bytes, mod: Bytes): Details {
    if vers == [] then ErrNotGoExe else Details(vers, Unframed(mod))
  }

  /** The strings behind the header; `pointed` is what the pointers of the older format lead to. */
  function Strings(data: Bytes, pointed: (Bytes, Bytes)): (Bytes, Bytes)
    requires |data| >= BUILD_INFO_SIZE
  {
    if InlineStrings(data) then
      var (vers, rest) := DecodeString(data[32..]);
      (vers, DecodeString(rest).0)
    else
      pointed
  }

  lemma HeaderLong(data: Bytes)
    requires FindHeader(data).Header?
    ensures |FindHeader(data).data| >= BUILD_INFO_SIZE
    decreases |data|
  {
    var i := Index(data);
    if i % BUILD_INFO_ALIGN != 0 {
      HeaderLong(data[AndNot16(i + BUILD_INFO_ALIGN - 1)..]);
    }
  }

  /** getGoDetails on the data of the window; None where the search never ends. */
  function GetGoDetails(data: Bytes, pointed: (Bytes, Bytes)): Option<Details> {
    match FindHeader(data)
    case Spins => None
    case NotGoExe => Some(ErrNotGoExe)
    case Header(header) =>
      HeaderLong(data);
      var (vers, mod) := Strings(header, pointed);
      Some(Checked(vers, mod))
  }

  method GetGoDetailsLoop(text: Bytes, pointed: (Bytes, Bytes)) returns (d: Details)
    requires SearchEnds(text)
    ensures Some(d) == GetGoDetails(text, pointed)
  {
    hide FindHeader;
    var found := FindHeaderLoop(text);
    if found.NotGoExe? {
      return ErrNotGoExe;
    }
    var data := found.data;
    HeaderLong(text);
    var vers, mod := pointed.0, pointed.1;
    if InlineStrings(data) {
      var first := DecodeString(data[32..]);
      vers, data := first.0, first.1;
      mod := DecodeString(data).0;
    }
    if vers == [] {
      return ErrNotGoExe;
    }
    if |mod| >= 33 && mod[|mod| - 17] == NEWLINE {
      mod := mod[16..|mod| - 16];
    } else {
      mod := [];
    }
    return Details(vers, mod);
  }

  /** The flag for strings is the bit of value 2 in byte 15 of the header. */
  lemma InlineIsFlag(header: Bytes)
    requires |header| >= BUILD_INFO_SIZE
    ensures InlineStrings(header) <==> header[15] % 4 in {2, 3}
  {
  }

  /** Text that is framed loses its frames, and all other text is dropped. */
  lemma UnframedIff(mod: Bytes)
    ensures forall info :: Framed(mod, info) ==> Unframed(mod) == info
    ensures (forall info :: !Framed(mod, info)) ==> Unframed(mod) == []
  {
    forall info | Framed(mod, info) ensures Unframed(mod) == info {
      UnframedInfo(mod, info);
    }
    if |mod| >= 33 && mod[|mod| - 17] == NEWLINE {
      assert Framed(mod, mod[16..|mod| - 16]);
    }
  }

  /**
   What getGoDetails makes of data whose search ends: an error without a header or a version; otherwise the version
   and the unframed text, from behind the header or from where the pointers lead.
   */
  lemma DetailsMeaning(data: Bytes, pointed: (Bytes, Bytes))
    requires SearchEnds(data)
    ensures FindHeader(data) == NotGoExe ==> GetGoDetails(data, pointed) == Some(ErrNotGoExe)
    ensures FindHeader(data).Header? ==>
            var header := FindHeader(data).data;
            && |header| >= 32
            && var first := DecodeString(header[32..]);
            var (vers, mod) := if header[15] % 4 in {2, 3} then (first.0, DecodeString(first.1).0) else pointed;
            GetGoDetails(data, pointed) == Some(if vers == [] then ErrNotGoExe else Details(vers, Unframed(mod)))
  {
    hide FindHeader, DecodeString, Unframed, SearchEnds;
    if FindHeader(data).Header? {
      HeaderLong(data);
      InlineIsFlag(FindHeader(data).data);
    }
  }

  /** A header that announces strings behind it. */
  ghost predicate InlineHeader(header: Bytes) {
    |header| == BUILD_INFO_SIZE && HitAt(header, 0) && InlineStrings(header)
  }

  /** Module information between two frames of 16 bytes. */
  ghost predicate Framed(mod: Bytes, info: Bytes) {
    && |mod| == |info| + 32 && mod[16..16 + |info|] == info
    && info != [] && info[|info| - 1] == NEWLINE
  }

  lemma UnframedInfo(mod: Bytes, info: Bytes)
    requires Framed(mod, info)
    ensures Unframed(mod) == info
  {
    assert mod[|mod| - 17] == mod[16..16 + |info|][|info| - 1];
  }

  /**
   A blob in the newer format, whose first hit is aligned and which is followed by at least one byte, is
   decoded to the version and the module information without its frames.
   */
  lemma DetailsRoundTrip(before: Bytes, header: Bytes, vers: Bytes, mod: Bytes, info: Bytes, after: Bytes,
                         pointed: (Bytes, Bytes))
    requires InlineHeader(header) && vers != [] && Framed(mod, info) && after != []
    requires var data := before + (header + (Encode(vers) + (Encode(mod) + after)));
             |data| <= WINDOW && Index(data) == |before| && |before| % BUILD_INFO_ALIGN == 0
    ensures var data := before + (header + (Encode(vers) + (Encode(mod) + after)));
            GetGoDetails(data, pointed) == Some(Details(vers, info))
  {
    hide Encode, DecodeString, Uvarint, PutUvarint, Index, Unframed;
    var tail := Encode(vers) + (Encode(mod) + after);
    var blob := header + tail;
    var data := before + blob;
    assert data[|before|..] == blob;
    assert FindHeader(data) == Header(blob);
    assert blob[15] == header[15] && blob[32..] == tail;
    EncodeLength(vers);
    EncodeLength(mod);
    DecodeEncoded(vers, Encode(mod) + after);
    DecodeEncoded(mod, after);
    UnframedInfo(mod, info);
  }

  lemma EncodeLength(s: Bytes)
    ensures |Encode(s)| > |s|
  {
  }
}
