/**
 * The memcomparable key codec: byte strings are cut into groups of eight, each group followed by
 * a marker, so that the byte order of encodings is the order of the encoded strings even when
 * another field follows. Versions are appended big-endian and complemented, so newer sorts first.
 */
module Codec {
  import opened ByteStrings

  const ENC_GROUP_SIZE := 8
  const ENC_MARKER := 255

  datatype Decoding = Decoded(rest: Bytes, data: Bytes) | Invalid
  datatype UintDecoding = Uint(rest: Bytes, value: U64) | UintInvalid
  datatype SlotDecoding = Slot(key: Bytes, ver: U64) | SlotInvalid

  function Zeros(n: nat): (r: Bytes)
    ensures |r| == n && forall i :: 0 <= i < n ==> r[i] == 0
  {
    seq(n, _ => 0)
  }

  /** One group: at most eight bytes, zero padding, then the marker 0xFF - padding. */
  function Group(d: Bytes): Bytes
    requires |d| <= ENC_GROUP_SIZE
  {
    d + Zeros(ENC_GROUP_SIZE - |d|) + [ENC_MARKER - (ENC_GROUP_SIZE - |d|)]
  }

  function Encoded(d: Bytes): Bytes {
    if |d| < ENC_GROUP_SIZE then Group(d) else Group(d[..ENC_GROUP_SIZE]) + Encoded(d[ENC_GROUP_SIZE..])
  }

  /** What decoding the front of b yields: the leftover bytes and the data, or failure. */
  function Decode(b: Bytes): Decoding {
    if |b| < ENC_GROUP_SIZE + 1 then Invalid
    else
      var padCount := ENC_MARKER - b[ENC_GROUP_SIZE];
      if padCount > ENC_GROUP_SIZE then Invalid
      else
        var realSize := ENC_GROUP_SIZE - padCount;
        var rest := b[ENC_GROUP_SIZE + 1..];
        if padCount == 0 then
          match Decode(rest)
          case Decoded(r, d) => Decoded(r, b[..realSize] + d)
          case Invalid => Invalid
        else if b[realSize..ENC_GROUP_SIZE] == Zeros(padCount) then Decoded(rest, b[..realSize])
        else Invalid
  }

  /** EncodeBytes appends the encoding of data to b, one group per iteration. */
  method EncodeBytes(b: Bytes, data: Bytes) returns (result: Bytes)
    ensures result == b + Encoded(data)
  {
    result := b;
    var idx := 0;

    while idx <= |data|
      invariant 0 <= idx
      invariant if idx <= |data| then result + Encoded(data[idx..]) == b + Encoded(data)
                else result == b + Encoded(data)
    {
      var remain := |data| - idx;
      var padCount := 0;
      ghost var before := result;
      ghost var tail := data[idx..];
      if remain >= ENC_GROUP_SIZE {
        result := result + data[idx..idx + ENC_GROUP_SIZE];
        assert data[idx..idx + ENC_GROUP_SIZE] == tail[..ENC_GROUP_SIZE];
        assert data[idx + ENC_GROUP_SIZE..] == tail[ENC_GROUP_SIZE..];
      } else {
        padCount := ENC_GROUP_SIZE - remain;
        result := result + data[idx..];
        result := result + Zeros(padCount);
      }
      result := result + [ENC_MARKER - padCount];
      assert result == before + Group(tail[..ENC_GROUP_SIZE - padCount]);
      assert padCount > 0 ==> tail[..ENC_GROUP_SIZE - padCount] == tail;
      idx := idx + ENC_GROUP_SIZE;
    }
  }

  /** decodeBytes consumes b group by group and grows the buffer, stopping at the first padded group. */
  method DecodeBytes(b: Bytes) returns (r: Decoding)
    ensures r == Decode(b)
  {
    var rem := b;
    var buf: Bytes := [];
    while true
      invariant Decode(b) == match Decode(rem) case Decoded(rest, d) => Decoded(rest, buf + d) case Invalid => Invalid
      decreases |rem|
    {
      if |rem| < ENC_GROUP_SIZE + 1 {
        return Invalid;
      }
      var group := rem[..ENC_GROUP_SIZE];
      var padCount := ENC_MARKER - rem[ENC_GROUP_SIZE];
      if padCount > ENC_GROUP_SIZE {
        return Invalid;
      }
      var realSize := ENC_GROUP_SIZE - padCount;
      ghost var was, wasBuf := rem, buf;
      buf := buf + group[..realSize];
      rem := rem[ENC_GROUP_SIZE + 1..];
      assert group[..realSize] == was[..realSize] && group[realSize..] == was[realSize..ENC_GROUP_SIZE];
      if padCount != 0 {
        var i := realSize;
        while i < ENC_GROUP_SIZE
          invariant realSize <= i <= ENC_GROUP_SIZE
          invariant forall j :: realSize <= j < i ==> group[j] == 0
        {
          if group[i] != 0 {
            assert group[realSize..][i - realSize] != 0;
            return Invalid;
          }
          i := i + 1;
        }
        assert group[realSize..] == Zeros(padCount);
        return Decoded(rem, buf);
      }
      assert forall d: Bytes :: wasBuf + (group[..realSize] + d) == buf + d;
    }
    assert false;
  }

  /** Decoding yields (rest, x) exactly when the input is the encoding of x followed by rest. */
  lemma {:induction false} DecodeExactly(b: Bytes, rest: Bytes, x: Bytes)
    ensures Decode(b) == Decoded(rest, x) <==> b == Encoded(x) + rest
    decreases |b| + |x|
  {
    FirstMarker(x);
    if |b| >= 9 && ENC_MARKER - b[8] == 0 {
      assert b[..8] + [b[8]] == b[..9] && b == b[..9] + b[9..];
      if |x| >= 8 {
        DecodeExactly(b[9..], rest, x[8..]);
        assert Encoded(x) + rest == Group(x[..8]) + (Encoded(x[8..]) + rest);
        assert x == x[..8] + x[8..];
        if b == Encoded(x) + rest {
          assert b[9..] == Encoded(x[8..]) + rest && b[..8] == x[..8];
        }
        if Decode(b) == Decoded(rest, x) {
          assert x[..8] == b[..8] && Decode(b[9..]) == Decoded(rest, x[8..]);
          assert Group(x[..8]) == b[..9];
        }
      }
    } else if |b| >= 9 {
      if b == Encoded(x) + rest {
        assert |x| < 8;
        assert b[..9] == Group(x) && b[9..] == rest;
        assert b[8] == Group(x)[8] && b[..|x|] == x;
        assert b[|x|..8] == Zeros(8 - |x|);
      }
      if Decode(b) == Decoded(rest, x) {
        assert Group(x) == b[..|x|] + b[|x|..8] + [b[8]] == b[..9];
        assert b == b[..9] + b[9..];
      }
    }
  }

  lemma {:induction false} FirstMarker(x: Bytes)
    ensures |Encoded(x)| >= 9
    ensures Encoded(x)[8] == if |x| >= 8 then ENC_MARKER else ENC_MARKER - 8 + |x|
  {
  }

  /**
   * Order preservation and prefix-freeness at once: whatever follows the encodings of two
   * different strings, the byte order is already decided the way the strings compare.
   */
  lemma EncodedOrder(a: Bytes, x: Bytes, b: Bytes, y: Bytes)
    requires a != b
    ensures Less(Encoded(a) + x, Encoded(b) + y) == Less(a, b)
    ensures Encoded(a) + x != Encoded(b) + y
  {
    LessTrichotomy(a, b);
    LessTrichotomy(Encoded(a) + x, Encoded(b) + y);
    if Less(a, b) { EncodedAscends(a, x, b, y); } else { EncodedAscends(b, y, a, x); }
  }

  lemma {:induction false} EncodedAscends(a: Bytes, x: Bytes, b: Bytes, y: Bytes)
    requires Less(a, b)
    ensures Less(Encoded(a) + x, Encoded(b) + y)
  {
    if |a| >= 8 && |b| >= 8 && a[..8] == b[..8] {
      assert a == a[..8] + a[8..] && b == a[..8] + b[8..];
      LessCommonPrefix(a[..8], a[8..], b[8..]);
      EncodedAscends(a[8..], x, b[8..], y);
      LessCommonPrefix(Group(a[..8]), Encoded(a[8..]) + x, Encoded(b[8..]) + y);
      assert Encoded(a) + x == Group(a[..8]) + (Encoded(a[8..]) + x);
      assert Encoded(b) + y == Group(a[..8]) + (Encoded(b[8..]) + y);
    } else {
      var j := FirstGroupAscends(a, b);
      var ga, gb := Group(FirstEight(a)), Group(FirstEight(b));
      assert (Encoded(a) + x)[..9] == ga && (Encoded(b) + y)[..9] == gb;
      assert (Encoded(a) + x)[..j] == ga[..j] && (Encoded(b) + y)[..j] == gb[..j];
      LessAtDifference(Encoded(a) + x, Encoded(b) + y, j);
    }
  }

  function FirstEight(d: Bytes): Bytes {
    if |d| < 8 then d else d[..8]
  }

  lemma SharedPrefix(a: Bytes, b: Bytes, i: nat)
    requires i <= |a| && i <= |b| && a[..i] == b[..i]
    ensures i >= 8 ==> a[..8] == b[..8]
  {
    if i >= 8 { assert a[..8] == a[..i][..8] == b[..i][..8] == b[..8]; }
  }

  lemma FirstGroupAscends(a: Bytes, b: Bytes) returns (j: nat)
    requires Less(a, b) && !(|a| >= 8 && |b| >= 8 && a[..8] == b[..8])
    ensures j < 9 && Group(FirstEight(a))[..j] == Group(FirstEight(b))[..j]
    ensures Group(FirstEight(a))[j] < Group(FirstEight(b))[j]
  {
    LessIrreflexive(a);
    var i := FirstDifference(a, b);
    var fa, fb := FirstEight(a), FirstEight(b);
    var ga, gb := Group(fa), Group(fb);
    SharedPrefix(a, b, i);
    assert i < 8;
    assert ga[..i] == a[..i] == b[..i] == gb[..i];
    if i == |b| {
      LessExtension(b, a[i..]);
      assert a == b + a[i..];
      LessTrichotomy(a, b);
      assert false;
    } else if i == |a| {
      assert ga[8] < gb[8];
      j := FirstDifference(ga, gb);
      assert j < i ==> ga[..i][j] == gb[..i][j];
    } else {
      if b[i] < a[i] {
        LessAtDifference(b, a, i);
        assert false;
      }
      j := i;
    }
  }

  // ---- fixed-width big-endian numbers ----

  function BigEndian(n: nat, w: nat): (s: Bytes)
    ensures |s| == w
  {
    seq(w, i requires 0 <= i < w => n / Pow256(w - 1 - i) % 256)
  }

  function BigEndianValue(s: Bytes): nat {
    if s == [] then 0 else Pow256(|s| - 1) * s[0] + BigEndianValue(s[1..])
  }

  lemma {:induction false} BigEndianBound(s: Bytes)
    ensures BigEndianValue(s) < Pow256(|s|)
  {
    if s != [] {
      BigEndianBound(s[1..]);
      DigitBound(Pow256(|s| - 1), s[0], BigEndianValue(s[1..]));
    }
  }

  lemma {:induction false} BigEndianRoundTrip(n: nat, w: nat)
    ensures BigEndianValue(BigEndian(n, w)) == n % Pow256(w)
  {
    if w > 0 {
      BigEndianRoundTrip(n, w - 1);
      ModSplit(n, Pow256(w - 1));
      assert BigEndian(n, w)[1..] == BigEndian(n, w - 1);
    }
  }

  lemma {:induction false} BigEndianInjective(s: Bytes, t: Bytes)
    requires |s| == |t| && BigEndianValue(s) == BigEndianValue(t)
    ensures s == t
  {
    if s != [] {
      var p := Pow256(|s| - 1);
      BigEndianBound(s[1..]);
      BigEndianBound(t[1..]);
      SameDigit(p, s[0], BigEndianValue(s[1..]), t[0], BigEndianValue(t[1..]));
      BigEndianInjective(s[1..], t[1..]);
      assert s == [s[0]] + s[1..] && t == [t[0]] + t[1..];
    }
  }

  lemma SameDigit(p: nat, a: nat, x: nat, b: nat, y: nat)
    requires x < p && y < p && p * a + x == p * b + y
    ensures a == b && x == y
  {
    QuotientOf(p, a, x, p * a + x);
    QuotientOf(p, b, y, p * a + x);
  }

  lemma LeadingDigit(p: nat, a: nat, x: nat, b: nat, y: nat)
    requires x < p && y < p && p * a + x < p * b + y
    ensures a < b || (a == b && x < y)
  {
    if b < a {
      Distribute(p, b + 1, a - b - 1);
      Distribute(p, b, 1);
      assert false;
    }
  }

  lemma DigitBound(p: nat, d: nat, x: nat)
    requires x < p && d < 256
    ensures p * d + x < 256 * p
  {
    Distribute(p, d, 255 - d);
  }

  lemma {:induction false} BigEndianOrder(n: nat, m: nat, w: nat)
    requires n % Pow256(w) < m % Pow256(w)
    ensures Less(BigEndian(n, w), BigEndian(m, w))
  {
    if w > 0 {
      var p := Pow256(w - 1);
      ModSplit(n, p);
      ModSplit(m, p);
      LeadingDigit(p, n / p % 256, n % p, m / p % 256, m % p);
      assert BigEndian(n, w)[1..] == BigEndian(n, w - 1) && BigEndian(m, w)[1..] == BigEndian(m, w - 1);
      assert BigEndian(n, w)[0] == n / p % 256 && BigEndian(m, w)[0] == m / p % 256;
      if n / p % 256 == m / p % 256 { BigEndianOrder(n, m, w - 1); }
    }
  }

  /** EncodeUintDesc: the big-endian bytes of the complement of v. */
  function EncodedUintDesc(v: U64): Bytes {
    BigEndian(MAX_U64 - v, 8)
  }

  function DecodeUintDesc(b: Bytes): UintDecoding {
    if |b| < 8 then UintInvalid
    else
      WidthBounds();
      BigEndianBound(b[..8]);
      Uint(b[8..], MAX_U64 - BigEndianValue(b[..8]))
  }

  /** Decoding a version yields (rest, v) exactly when the input is the encoding of v followed by rest. */
  lemma DecodeUintDescExactly(b: Bytes, rest: Bytes, v: U64)
    ensures DecodeUintDesc(b) == Uint(rest, v) <==> b == EncodedUintDesc(v) + rest
  {
    WidthBounds();
    BigEndianRoundTrip(MAX_U64 - v, 8);
    if |b| >= 8 {
      BigEndianBound(b[..8]);
      if BigEndianValue(b[..8]) == MAX_U64 - v { BigEndianInjective(b[..8], EncodedUintDesc(v)); }
      assert b == b[..8] + b[8..];
      if b == EncodedUintDesc(v) + rest {
        assert b[..8] == EncodedUintDesc(v) && b[8..] == rest;
      }
    }
  }

  /** Newer versions sort first, strictly. */
  lemma UintDescOrder(v1: U64, v2: U64)
    ensures Less(EncodedUintDesc(v1), EncodedUintDesc(v2)) <==> v1 > v2
  {
    WidthBounds();
    if v1 > v2 {
      BigEndianOrder(MAX_U64 - v1, MAX_U64 - v2, 8);
    } else if v1 < v2 {
      BigEndianOrder(MAX_U64 - v2, MAX_U64 - v1, 8);
      LessTrichotomy(EncodedUintDesc(v1), EncodedUintDesc(v2));
    } else {
      LessIrreflexive(EncodedUintDesc(v1));
    }
  }

  // ---- slots: a key and a version in one byte string ----

  function MvccEncode(key: Bytes, ver: U64): Bytes {
    Encoded(key) + EncodedUintDesc(ver)
  }

  function MvccDecode(b: Bytes): SlotDecoding {
    match Decode(b)
    case Invalid => SlotInvalid
    case Decoded(rest, key) =>
      if rest == [] then Slot(key, 0)
      else
        match DecodeUintDesc(rest)
        case UintInvalid => SlotInvalid
        case Uint(rest', ver) => if rest' != [] then SlotInvalid else Slot(key, ver)
  }

  /**
   * mvccDecode yields (key, ver) exactly for the slot's own encoding, or, when ver is zero, for
   * the bare encoded key without a version.
   */
  lemma MvccDecodeExactly(b: Bytes, key: Bytes, ver: U64)
    ensures MvccDecode(b) == Slot(key, ver) <==> b == MvccEncode(key, ver) || (ver == 0 && b == Encoded(key))
  {
    DecodeExactly(b, EncodedUintDesc(ver), key);
    DecodeExactly(b, [], key);
    assert Encoded(key) + [] == Encoded(key);
    assert EncodedUintDesc(ver) + [] == EncodedUintDesc(ver);
    match Decode(b)
    case Invalid =>
    case Decoded(rest, k) =>
      DecodeExactly(b, rest, k);
      DecodeUintDescExactly(rest, [], ver);
  }

  lemma MvccEncodeInjective(k1: Bytes, v1: U64, k2: Bytes, v2: U64)
    requires MvccEncode(k1, v1) == MvccEncode(k2, v2)
    ensures k1 == k2 && v1 == v2
  {
    MvccDecodeExactly(MvccEncode(k1, v1), k1, v1);
    MvccDecodeExactly(MvccEncode(k1, v1), k2, v2);
  }

  /** The order embedding: keys ascending, and within a key versions descending. */
  lemma MvccEncodeOrder(k1: Bytes, v1: U64, k2: Bytes, v2: U64)
    ensures Less(MvccEncode(k1, v1), MvccEncode(k2, v2)) <==> Less(k1, k2) || (k1 == k2 && v1 > v2)
  {
    LessIrreflexive(k1);
    if k1 == k2 {
      LessCommonPrefix(Encoded(k1), EncodedUintDesc(v1), EncodedUintDesc(v2));
      UintDescOrder(v1, v2);
    } else {
      EncodedOrder(k1, EncodedUintDesc(v1), k2, EncodedUintDesc(v2));
    }
  }

  /** A byte range between encoded keys holds exactly the slots of the keys in that range. */
  lemma EncodedKeyBounds(start: Bytes, end: Bytes, key: Bytes, ver: U64)
    ensures AtMost(Encoded(start), MvccEncode(key, ver)) <==> AtMost(start, key)
    ensures Less(MvccEncode(key, ver), Encoded(end)) <==> Less(key, end)
  {
    assert Encoded(start) + [] == Encoded(start) && Encoded(end) + [] == Encoded(end);
    assert EncodedUintDesc(ver) != [];
    if start == key {
      LessExtension(Encoded(start), EncodedUintDesc(ver));
    } else {
      EncodedOrder(start, [], key, EncodedUintDesc(ver));
    }
    if end == key {
      LessExtension(Encoded(end), EncodedUintDesc(ver));
      LessTrichotomy(Encoded(end), MvccEncode(key, ver));
      LessIrreflexive(key);
    } else {
      EncodedOrder(key, EncodedUintDesc(ver), end, []);
    }
  }
}
