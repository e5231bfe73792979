/** The stored bytes, position by position. */
module WireFormat {
  import opened ByteStrings
  import opened Codec
  import opened Records

  // ---- keys ----

  /**
   * An encoded key has a group of nine bytes for every eight bytes of the key and one more: eight bytes
   * of data or padding, then a marker that is 255 for a full group and 247 plus the data's length else.
   */
  lemma {:induction false} EncodedBytes(d: Bytes, g: nat, i: nat)
    requires g <= |d| / 8 && i < 8
    ensures |Encoded(d)| == 9 * (|d| / 8 + 1) && 9 * g + 8 < |Encoded(d)|
    ensures Encoded(d)[9 * g + i] == if 8 * g + i < |d| then d[8 * g + i] else 0
    ensures Encoded(d)[9 * g + 8] == if 8 * g + 8 <= |d| then 255 else 247 + (|d| - 8 * g)
    decreases |d|
  {
    if |d| >= 8 {
      var first, rest := d[..8], d[8..];
      assert |rest| == |d| - 8 && |rest| / 8 == |d| / 8 - 1;
      GroupBytes(first, i);
      EncodedBytes(rest, if g == 0 then 0 else g - 1, i);
      GroupsJoined(Group(first), Encoded(rest), g, i);
    } else {
      GroupBytes(d, i);
    }
  }

  lemma GroupBytes(d: Bytes, i: nat)
    requires |d| <= 8 && i < 8
    ensures |Group(d)| == 9 && Group(d)[i] == (if i < |d| then d[i] else 0) && Group(d)[8] == 247 + |d|
  {
  }

  lemma GroupsJoined(a: Bytes, b: Bytes, g: nat, i: nat)
    requires |a| == 9 && i <= 8 && (g > 0 ==> 9 * (g - 1) + 8 < |b|)
    ensures (a + b)[9 * g + i] == if g == 0 then a[i] else b[9 * (g - 1) + i]
    ensures (a + b)[9 * g + 8] == if g == 0 then a[8] else b[9 * (g - 1) + 8]
  {
  }

  lemma {:induction false} PowersMultiply(i: nat, j: nat)
    ensures Pow256(i) * Pow256(j) == Pow256(i + j)
  {
    if i > 0 { PowersMultiply(i - 1, j); }
  }

  /** Inverting all digits of a number inverts each of them. */
  lemma InvertedDigit(v: nat, p: nat, k: nat)
    requires p > 0 && v < p * (256 * k)
    ensures (p * (256 * k) - 1 - v) / p % 256 == 255 - v / p % 256
  {
    InvertedQuotient(v, p, 256 * k);
    InvertedRemainder(v / p, k);
  }

  lemma InvertedRemainder(q: nat, k: nat)
    requires q < 256 * k
    ensures (256 * k - 1 - q) % 256 == 255 - q % 256
  {
    RemainderOf(256, k - 1 - q / 256, 255 - q % 256, 256 * k - 1 - q);
  }

  lemma InvertedQuotient(v: nat, p: nat, n: nat)
    requires p > 0 && v < p * n
    ensures v / p < n && (p * n - 1 - v) / p == n - 1 - v / p
  {
    var q, r := v / p, v % p;
    assert q < n by { if q >= n { Distribute(p, n, q - n); } }
    Distribute(p, n - 1 - q, q + 1);
    Distribute(p, q, 1);
    QuotientOf(p, n - 1 - q, p - 1 - r, p * n - 1 - v);
  }

  /** A version is stored most significant byte first, every byte inverted. */
  lemma UintDescBytes(v: U64, i: nat)
    requires i < 8
    ensures |EncodedUintDesc(v)| == 8 && EncodedUintDesc(v)[i] == 255 - v / Pow256(7 - i) % 256
  {
    var p, k := Pow256(7 - i), Pow256(i);
    WidthBounds();
    PowersMultiply(7 - i, i + 1);
    assert p * (256 * k) == TWO64;
    InvertedDigit(v, p, k);
  }

  // ---- lengths ----

  function Pow128(j: nat): (p: nat)
    ensures p > 0
  {
    if j == 0 then 1 else 128 * Pow128(j - 1)
  }

  lemma QuotientOfQuotient(n: nat, b: nat)
    requires b > 0
    ensures n / 128 / b == n / (128 * b)
  {
    var q, r := n / 128, n % 128;
    var q1, r1 := q / b, q % b;
    assert n == 128 * (b * q1 + r1) + r == (128 * b) * q1 + (128 * r1 + r);
    QuotientOf(128 * b, q1, 128 * r1 + r, n);
  }

  /** A length is stored seven bits at a time, least significant first, all bytes but the last with the top bit set. */
  lemma {:induction false} UvarintBytes(n: nat, j: nat)
    requires j < |Uvarint(n)|
    ensures Uvarint(n)[j] == n / Pow128(j) % 128 + if j < |Uvarint(n)| - 1 then 128 else 0
    decreases j
  {
    if n >= 128 && j > 0 {
      UvarintBytes(n / 128, j - 1);
      QuotientOfQuotient(n, Pow128(j - 1));
    }
  }

  /** In as few bytes as possible. */
  lemma {:induction false} UvarintLength(n: nat)
    ensures |Uvarint(n)| > 0 && n < Pow128(|Uvarint(n)|) && (n > 0 ==> Pow128(|Uvarint(n)| - 1) <= n)
  {
    if n >= 128 { UvarintLength(n / 128); }
  }

  // ---- locks and values ----

  /** The bytes from position p on are a number, least significant byte first. */
  ghost predicate NumberAt(data: Bytes, p: nat, n: nat, w: nat) {
    p + w <= |data| && forall i :: 0 <= i < w ==> data[p + i] == n / Pow256(i) % 256
  }

  ghost predicate BytesAt(data: Bytes, p: nat, s: Bytes) {
    p + |s| <= |data| && data[p..p + |s|] == s
  }

  lemma NumberPlaced(data: Bytes, p: nat, n: nat, w: nat)
    requires BytesAt(data, p, LittleEndian(n, w))
    ensures NumberAt(data, p, n, w)
  {
    forall i | 0 <= i < w ensures data[p + i] == n / Pow256(i) % 256 {
      assert data[p + i] == data[p..p + w][i] == LittleEndian(n, w)[i];
    }
  }

  lemma SlicePlaced(data: Bytes, p: nat, s: Bytes)
    requires BytesAt(data, p, SliceBytes(s))
    ensures BytesAt(data, p, Uvarint(|s|)) && BytesAt(data, p + |Uvarint(|s|)|, s)
  {
    var u, part := Uvarint(|s|), data[p..p + |SliceBytes(s)|];
    assert data[p..p + |u|] == part[..|u|] == u;
    assert data[p + |u|..p + |u| + |s|] == part[|u|..] == s;
  }

  lemma HeadPlaced(a: Bytes, rest: Bytes)
    ensures BytesAt(a + rest, 0, a)
  {
    assert (a + rest)[0..|a|] == a;
  }

  lemma PartShifted(a: Bytes, rest: Bytes, p: nat, s: Bytes)
    requires BytesAt(rest, p, s)
    ensures BytesAt(a + rest, |a| + p, s)
  {
    assert (a + rest)[|a| + p..|a| + p + |s|] == rest[p..p + |s|];
  }

  lemma PartShiftedTwice(a: Bytes, b: Bytes, rest: Bytes, p: nat, s: Bytes)
    requires BytesAt(rest, p, s)
    ensures BytesAt(a + (b + rest), |a| + |b| + p, s)
  {
    PartShifted(b, rest, p, s);
    PartShifted(a, b + rest, |b| + p, s);
  }

  lemma ThreePlaced(c: Bytes, d: Bytes, e: Bytes)
    ensures var data := c + (d + e); BytesAt(data, 0, c) && BytesAt(data, |c|, d) && BytesAt(data, |c| + |d|, e)
  {
    HeadPlaced(c, d + e);
    HeadPlaced(d, e);
    assert BytesAt(e, 0, e);
    PartShifted(d, e, 0, e);
    PartShifted(c, d + e, 0, d);
    PartShifted(c, d + e, |d|, e);
  }

  lemma FivePlaced(a: Bytes, b: Bytes, c: Bytes, d: Bytes, e: Bytes)
    ensures var data, p := a + (b + (c + (d + e))), |a| + |b|;
            && BytesAt(data, 0, a) && BytesAt(data, |a|, b) && BytesAt(data, p, c)
            && BytesAt(data, p + |c|, d) && BytesAt(data, p + |c| + |d|, e)
  {
    var rest := c + (d + e);
    ThreePlaced(c, d, e);
    ThreePlaced(a, b, rest);
    PartShiftedTwice(a, b, rest, 0, c);
    PartShiftedTwice(a, b, rest, |c|, d);
    PartShiftedTwice(a, b, rest, |c| + |d|, e);
  }

  /** A stored lock is its start timestamp, primary, value, kind and time to live, and nothing else. */
  lemma LockParts(l: Lock)
    ensures var data, b, c := MarshalledLock(l), SliceBytes(l.primary), SliceBytes(l.value);
            && |data| == 20 + |b| + |c| && BytesAt(data, 0, LittleEndian(l.startTS, 8)) && BytesAt(data, 8, b)
            && BytesAt(data, 8 + |b|, c) && BytesAt(data, 8 + |b| + |c|, LittleEndian(Bits32(l.op), 4))
            && BytesAt(data, 12 + |b| + |c|, LittleEndian(l.ttl, 8))
  {
    var b, c := SliceBytes(l.primary), SliceBytes(l.value);
    FivePlaced(LittleEndian(l.startTS, 8), b, c, LittleEndian(Bits32(l.op), 4), LittleEndian(l.ttl, 8));
  }

  /** The primary and the value follow their lengths. */
  lemma LockSlices(l: Lock)
    ensures var data, u1, u2 := MarshalledLock(l), Uvarint(|l.primary|), Uvarint(|l.value|);
            var p := 8 + |u1| + |l.primary|;
            && BytesAt(data, 8, u1) && BytesAt(data, 8 + |u1|, l.primary)
            && BytesAt(data, p, u2) && BytesAt(data, p + |u2|, l.value)
            && |data| == p + |u2| + |l.value| + 12
  {
    LockParts(l);
    SlicePlaced(MarshalledLock(l), 8, l.primary);
    SlicePlaced(MarshalledLock(l), 8 + |SliceBytes(l.primary)|, l.value);
  }

  /** The numbers are stored least significant byte first, the kind in four bytes, the others in eight. */
  lemma LockNumbers(l: Lock)
    ensures var data := MarshalledLock(l);
            && |data| >= 20 && NumberAt(data, 0, l.startTS, 8)
            && NumberAt(data, |data| - 12, Bits32(l.op), 4) && NumberAt(data, |data| - 8, l.ttl, 8)
  {
    LockParts(l);
    var data := MarshalledLock(l);
    NumberPlaced(data, 0, l.startTS, 8);
    NumberPlaced(data, |data| - 12, Bits32(l.op), 4);
    NumberPlaced(data, |data| - 8, l.ttl, 8);
  }

  /** A stored value: kind, start and commit timestamp, and the value with its length. */
  lemma ValueBytes(v: Value)
    ensures var data, u := MarshalledValue(v), Uvarint(|v.value|);
            && |data| == 24 + |u| + |v.value| && NumberAt(data, 0, Bits64(v.valueType), 8)
            && NumberAt(data, 8, v.startTS, 8) && NumberAt(data, 16, v.commitTS, 8)
            && BytesAt(data, 24, u) && BytesAt(data, 24 + |u|, v.value)
  {
    var data, d := MarshalledValue(v), SliceBytes(v.value);
    FivePlaced(LittleEndian(Bits64(v.valueType), 8), LittleEndian(v.startTS, 8), LittleEndian(v.commitTS, 8), d, []);
    assert d + [] == d;
    NumberPlaced(data, 0, Bits64(v.valueType), 8);
    NumberPlaced(data, 8, v.startTS, 8);
    NumberPlaced(data, 16, v.commitTS, 8);
    SlicePlaced(data, 24, v.value);
  }
}
