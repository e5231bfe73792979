/** Lock and version records and the byte format in which they are stored. */
module Records {
  import opened ByteStrings

  type I32 = n: int | -0x8000_0000 <= n < 0x8000_0000
  type I64 = n: int | -0x8000_0000_0000_0000 <= n < 0x8000_0000_0000_0000

  // The mutation kinds that the code tells apart, by their protocol numbers; all others delete.
  const OP_PUT: I32 := 0
  const OP_LOCK: I32 := 2

  // Version kinds.
  const TYPE_PUT: I64 := 0
  const TYPE_DELETE: I64 := 1
  const TYPE_ROLLBACK: I64 := 2

  /** Slices longer than this are written but refused when read back. */
  const MAX_SLICE: nat := 10 * 1024 * 1024

  datatype Value = Value(valueType: I64, startTS: U64, commitTS: U64, value: Bytes)

  datatype Lock = Lock(startTS: U64, primary: Bytes, value: Bytes, op: I32, ttl: U64, minCommitTS: U64)

  // ---- numbers and slices ----

  function LittleEndian(n: nat, w: nat): (s: Bytes)
    ensures |s| == w
  {
    seq(w, i requires 0 <= i < w => n / Pow256(i) % 256)
  }

  function LittleEndianValue(s: Bytes): nat {
    if s == [] then 0
    else
      var i := |s| - 1;
      LittleEndianValue(s[..i]) + Pow256(i) * s[i]
  }

  /** Two's complement on 32 and 64 bits. */
  function Bits32(n: I32): nat { if n < 0 then n + 0x1_0000_0000 else n }
  function Signed32(n: nat): I32 {
    var m := n % 0x1_0000_0000;
    if m < 0x8000_0000 then m else m - 0x1_0000_0000
  }

  function Bits64(n: I64): nat { if n < 0 then n + TWO64 else n }
  function Signed64(n: nat): I64 {
    var m := n % TWO64;
    if m < 0x8000_0000_0000_0000 then m else m - TWO64
  }

  function Uvarint(n: nat): Bytes {
    if n < 128 then [n] else [n % 128 + 128] + Uvarint(n / 128)
  }

  datatype Reading<+T> = Got(value: T, rest: Bytes) | Failed

  function ReadLittleEndian(b: Bytes, w: nat): Reading<nat> {
    if |b| < w then Failed else Got(LittleEndianValue(b[..w]), b[w..])
  }

  /** binary.ReadUvarint from its i-th byte on: at most ten bytes, the tenth at most one. */
  function ReadUvarint(b: Bytes, i: nat): Reading<nat> {
    if b == [] then Failed
    else if b[0] < 128 then
      if i > 9 || (i == 9 && b[0] > 1) then Failed else Got(b[0], b[1..])
    else
      match ReadUvarint(b[1..], i + 1)
      case Got(high, rest) => Got(b[0] - 128 + 128 * high, rest)
      case Failed => Failed
  }

  function SliceBytes(s: Bytes): Bytes { Uvarint(|s|) + s }

  function ReadSliceBytes(b: Bytes): Reading<Bytes> {
    match ReadUvarint(b, 0)
    case Failed => Failed
    case Got(size, rest) =>
      if size > MAX_SLICE || |rest| < size then Failed else Got(rest[..size], rest[size..])
  }

  lemma {:induction false} LittleEndianRoundTrip(n: nat, w: nat)
    ensures LittleEndianValue(LittleEndian(n, w)) == n % Pow256(w)
  {
    if w > 0 {
      LittleEndianRoundTrip(n, w - 1);
      ModSplit(n, Pow256(w - 1));
      assert LittleEndian(n, w)[..w - 1] == LittleEndian(n, w - 1);
    }
  }

  /** A little-endian number of width 4 or 8 is read back in front of any further bytes. */
  lemma NumberRoundTrip(n: nat, w: nat, rest: Bytes)
    requires (w == 4 && n < 0x1_0000_0000) || (w == 8 && n < TWO64)
    ensures ReadLittleEndian(LittleEndian(n, w) + rest, w) == Got(n, rest)
  {
    WidthBounds();
    LittleEndianRoundTrip(n, w);
    assert (LittleEndian(n, w) + rest)[..w] == LittleEndian(n, w);
    assert (LittleEndian(n, w) + rest)[w..] == rest;
  }

  /** What still fits from the i-th varint byte on. */
  function UvarintRoom(i: nat): nat
    requires i <= 9
    decreases 9 - i
  {
    if i == 9 then 2 else 128 * UvarintRoom(i + 1)
  }

  lemma UvarintStep(n: nat, i: nat, high: nat, rest: Bytes)
    requires n >= 128 && high == n / 128 && ReadUvarint(Uvarint(high) + rest, i + 1) == Got(high, rest)
    ensures ReadUvarint(Uvarint(n) + rest, i) == Got(n, rest)
  {
    var b := Uvarint(n) + rest;
    assert b[0] == n % 128 + 128 && b[1..] == Uvarint(high) + rest;
  }

  lemma {:induction false} UvarintRoundTrip(n: nat, i: nat, rest: Bytes)
    requires i <= 9 && n < UvarintRoom(i)
    ensures ReadUvarint(Uvarint(n) + rest, i) == Got(n, rest)
    decreases n
  {
    if n < 128 {
      assert (Uvarint(n) + rest)[1..] == rest;
    } else {
      var high := n / 128;
      assert high < UvarintRoom(i + 1) by { assert n < 128 * UvarintRoom(i + 1); }
      UvarintRoundTrip(high, i + 1, rest);
      UvarintStep(n, i, high, rest);
    }
  }

  lemma UvarintHolds64Bits()
    ensures UvarintRoom(0) == TWO64
  {
    assert UvarintRoom(5) == 128 * (128 * (128 * (128 * UvarintRoom(9))));
    assert UvarintRoom(0) == 128 * (128 * (128 * (128 * (128 * UvarintRoom(5)))));
  }

  /** A slice is read back exactly when it is at most 10 MiB long. */
  lemma SliceRoundTrip(s: Bytes, rest: Bytes)
    requires |s| < TWO64
    ensures ReadSliceBytes(SliceBytes(s) + rest) == if |s| <= MAX_SLICE then Got(s, rest) else Failed
  {
    UvarintHolds64Bits();
    UvarintRoundTrip(|s|, 0, s + rest);
    assert SliceBytes(s) + rest == Uvarint(|s|) + (s + rest);
    assert (s + rest)[..|s|] == s && (s + rest)[|s|..] == rest;
  }

  // ---- records ----

  function MarshalledLock(l: Lock): Bytes {
    LittleEndian(l.startTS, 8) + (SliceBytes(l.primary) + (SliceBytes(l.value) +
    (LittleEndian(Bits32(l.op), 4) + LittleEndian(l.ttl, 8))))
  }

  function MarshalledValue(v: Value): Bytes {
    LittleEndian(Bits64(v.valueType), 8) + (LittleEndian(v.startTS, 8) + (LittleEndian(v.commitTS, 8) +
    SliceBytes(v.value)))
  }

  function UnmarshalledLock(b: Bytes): Option<Lock> {
    match ReadLittleEndian(b, 8)
    case Failed => None
    case Got(startTS, b1) =>
    match ReadSliceBytes(b1)
    case Failed => None
    case Got(primary, b2) =>
    match ReadSliceBytes(b2)
    case Failed => None
    case Got(value, b3) =>
    match ReadLittleEndian(b3, 4)
    case Failed => None
    case Got(op, b4) =>
    match ReadLittleEndian(b4, 8)
    case Failed => None
    case Got(ttl, _) => Some(Lock(startTS % TWO64, primary, value, Signed32(op), ttl % TWO64, 0))
  }

  function UnmarshalledValue(b: Bytes): Option<Value> {
    match ReadLittleEndian(b, 8)
    case Failed => None
    case Got(vt, b1) =>
    match ReadLittleEndian(b1, 8)
    case Failed => None
    case Got(startTS, b2) =>
    match ReadLittleEndian(b2, 8)
    case Failed => None
    case Got(commitTS, b3) =>
    match ReadSliceBytes(b3)
    case Failed => None
    case Got(value, _) => Some(Value(Signed64(vt), startTS % TWO64, commitTS % TWO64, value))
  }

  predicate LockReadable(l: Lock) { |l.primary| <= MAX_SLICE && |l.value| <= MAX_SLICE }
  predicate ValueReadable(v: Value) { |v.value| <= MAX_SLICE }

  lemma LockFromFields(l: Lock, b: Bytes, b1: Bytes, b2: Bytes, b3: Bytes, b4: Bytes, rest: Bytes)
    requires ReadLittleEndian(b, 8) == Got(l.startTS, b1)
    requires ReadSliceBytes(b1) == if |l.primary| <= MAX_SLICE then Got(l.primary, b2) else Failed
    requires ReadSliceBytes(b2) == if |l.value| <= MAX_SLICE then Got(l.value, b3) else Failed
    requires ReadLittleEndian(b3, 4) == Got(Bits32(l.op), b4)
    requires ReadLittleEndian(b4, 8) == Got(l.ttl, rest)
    ensures UnmarshalledLock(b) == if LockReadable(l) then Some(l.(minCommitTS := 0)) else None
  {
  }

  /**
   * Unmarshalling a marshalled lock returns its five serialised fields, exactly when its slices fit, and
   * ignores whatever follows.
   */
  lemma LockRoundTrip(l: Lock, rest: Bytes)
    requires |l.primary| < TWO64 && |l.value| < TWO64
    ensures UnmarshalledLock(MarshalledLock(l) + rest) == if LockReadable(l) then Some(l.(minCommitTS := 0)) else None
  {
    var b4 := LittleEndian(l.ttl, 8) + rest;
    var b3 := LittleEndian(Bits32(l.op), 4) + b4;
    var b2 := SliceBytes(l.value) + b3;
    var b1 := SliceBytes(l.primary) + b2;
    var b := LittleEndian(l.startTS, 8) + b1;
    TailMoves(LittleEndian(l.startTS, 8), SliceBytes(l.primary), SliceBytes(l.value), LittleEndian(Bits32(l.op), 4),
              LittleEndian(l.ttl, 8), rest);
    NumberRoundTrip(l.startTS, 8, b1);
    SliceRoundTrip(l.primary, b2);
    SliceRoundTrip(l.value, b3);
    NumberRoundTrip(Bits32(l.op), 4, b4);
    NumberRoundTrip(l.ttl, 8, rest);
    LockFromFields(l, b, b1, b2, b3, b4, rest);
  }

  lemma TailMoves(a: Bytes, b: Bytes, c: Bytes, d: Bytes, e: Bytes, rest: Bytes)
    ensures a + (b + (c + (d + e))) + rest == a + (b + (c + (d + (e + rest))))
  {
    assert d + e + rest == d + (e + rest);
    assert c + (d + e) + rest == c + (d + (e + rest));
    assert b + (c + (d + e)) + rest == b + (c + (d + (e + rest)));
  }

  lemma ValueFromFields(v: Value, b: Bytes, b1: Bytes, b2: Bytes, b3: Bytes, rest: Bytes)
    requires ReadLittleEndian(b, 8) == Got(Bits64(v.valueType), b1)
    requires ReadLittleEndian(b1, 8) == Got(v.startTS, b2)
    requires ReadLittleEndian(b2, 8) == Got(v.commitTS, b3)
    requires ReadSliceBytes(b3) == if |v.value| <= MAX_SLICE then Got(v.value, rest) else Failed
    ensures UnmarshalledValue(b) == if ValueReadable(v) then Some(v) else None
  {
    Signed64OfBits(v.valueType);
    SmallMod(v.startTS);
    SmallMod(v.commitTS);
  }

  lemma Signed64OfBits(n: I64)
    ensures Signed64(Bits64(n)) == n
  {
  }

  lemma SmallMod(n: U64)
    ensures n % TWO64 == n
  {
  }

  /** Unmarshalling a marshalled version record returns it, exactly when its value fits, and ignores what follows. */
  lemma ValueRoundTrip(v: Value, rest: Bytes)
    requires |v.value| < TWO64
    ensures UnmarshalledValue(MarshalledValue(v) + rest) == if ValueReadable(v) then Some(v) else None
  {
    var b3 := SliceBytes(v.value) + rest;
    var b2 := LittleEndian(v.commitTS, 8) + b3;
    var b1 := LittleEndian(v.startTS, 8) + b2;
    var b := LittleEndian(Bits64(v.valueType), 8) + b1;
    TailMoves([], LittleEndian(Bits64(v.valueType), 8), LittleEndian(v.startTS, 8), LittleEndian(v.commitTS, 8),
              SliceBytes(v.value), rest);
    assert forall x: Bytes :: [] + x == x;
    NumberRoundTrip(Bits64(v.valueType), 8, b1);
    NumberRoundTrip(v.startTS, 8, b2);
    NumberRoundTrip(v.commitTS, 8, b3);
    SliceRoundTrip(v.value, rest);
    ValueFromFields(v, b, b1, b2, b3, rest);
  }

  // ---- the marshalling helper with its sticky error ----

  class MarshalHelper {
    var err: bool
    var buf: Bytes

    constructor (data: Bytes)
      ensures !err && buf == data
    {
      err, buf := false, data;
    }

    method WriteNumber(n: nat, w: nat)
      modifies this
      ensures err == old(err)
      ensures buf == if err then old(buf) else old(buf) + LittleEndian(n, w)
    {
      if err { return; }
      buf := buf + LittleEndian(n, w);
    }

    method WriteSlice(s: Bytes)
      modifies this
      ensures err == old(err)
      ensures buf == if err then old(buf) else old(buf) + SliceBytes(s)
    {
      if err { return; }
      buf := buf + Uvarint(|s|);
      buf := buf + s;
    }

    /** Once an error was met nothing is read any more. */
    method ReadNumber(w: nat) returns (n: nat)
      modifies this
      ensures old(err) ==> err
      ensures !old(err) ==>
        match ReadLittleEndian(old(buf), w)
        case Failed => err
        case Got(v, rest) => !err && n == v && buf == rest
    {
      n := 0;
      if err { return; }
      if |buf| < w {
        err := true;
        return;
      }
      n, buf := LittleEndianValue(buf[..w]), buf[w..];
    }

    method ReadSlice() returns (s: Bytes)
      modifies this
      ensures old(err) ==> err
      ensures !old(err) ==>
        match ReadSliceBytes(old(buf))
        case Failed => err
        case Got(v, rest) => !err && s == v && buf == rest
    {
      s := [];
      if err { return; }
      match ReadUvarint(buf, 0)
      case Failed => err := true;
      case Got(size, rest) =>
        if size > MAX_SLICE || |rest| < size {
          err := true;
        } else {
          s, buf := rest[..size], rest[size..];
        }
    }
  }

  method MarshalLock(l: Lock) returns (data: Bytes)
    ensures data == MarshalledLock(l)
  {
    var mh := new MarshalHelper([]);
    mh.WriteNumber(l.startTS, 8);
    mh.WriteSlice(l.primary);
    mh.WriteSlice(l.value);
    mh.WriteNumber(Bits32(l.op), 4);
    mh.WriteNumber(l.ttl, 8);
    data := mh.buf;
    Reassociate(LittleEndian(l.startTS, 8), SliceBytes(l.primary), SliceBytes(l.value), LittleEndian(Bits32(l.op), 4),
        LittleEndian(l.ttl, 8));
  }

  lemma Reassociate(a: Bytes, b: Bytes, c: Bytes, d: Bytes, e: Bytes)
    ensures [] + a + b + c + d + e == a + (b + (c + (d + e)))
  {
  }

  method UnmarshalLock(data: Bytes) returns (r: Option<Lock>)
    ensures r == UnmarshalledLock(data)
  {
    var mh := new MarshalHelper(data);
    var startTS := mh.ReadNumber(8);
    var primary := mh.ReadSlice();
    var value := mh.ReadSlice();
    var op := mh.ReadNumber(4);
    var ttl := mh.ReadNumber(8);
    r := if mh.err then None else Some(Lock(startTS % TWO64, primary, value, Signed32(op), ttl % TWO64, 0));
  }

  method MarshalValue(v: Value) returns (data: Bytes)
    ensures data == MarshalledValue(v)
  {
    var mh := new MarshalHelper([]);
    mh.WriteNumber(Bits64(v.valueType), 8);
    mh.WriteNumber(v.startTS, 8);
    mh.WriteNumber(v.commitTS, 8);
    mh.WriteSlice(v.value);
    data := mh.buf;
    Reassociate([], LittleEndian(Bits64(v.valueType), 8), LittleEndian(v.startTS, 8), LittleEndian(v.commitTS, 8),
        SliceBytes(v.value));
    assert data == [] + MarshalledValue(v);
  }

  method UnmarshalValue(data: Bytes) returns (r: Option<Value>)
    ensures r == UnmarshalledValue(data)
  {
    var mh := new MarshalHelper(data);
    var vt := mh.ReadNumber(8);
    var startTS := mh.ReadNumber(8);
    var commitTS := mh.ReadNumber(8);
    var value := mh.ReadSlice();
    r := if mh.err then None else Some(Value(Signed64(vt), startTS % TWO64, commitTS % TWO64, value));
  }
}
