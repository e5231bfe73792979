/** Keys as region bounds and entries hold them: the empty key unencoded, every other key encoded. */
module MvccKeys {
  import opened ByteStrings
  import opened Codec

  /** NewMvccKey: the empty key stays empty. */
  function NewMvccKey(key: Bytes): Bytes {
    if key == [] then [] else Encoded(key)
  }

  /** Raw on a key that NewMvccKey produced; the source panics on any other. */
  function Raw(key: Bytes): Bytes {
    if key == [] then []
    else match Decode(key) case Decoded(_, k) => k case Invalid => []
  }

  ghost predicate IsMvccKey(key: Bytes) {
    exists raw :: key == NewMvccKey(raw)
  }

  lemma EncodedNotEmpty(key: Bytes)
    ensures Encoded(key) != []
  {
    FirstMarker(key);
  }

  lemma RawOfNew(key: Bytes)
    ensures Raw(NewMvccKey(key)) == key
  {
    DecodeExactly(Encoded(key), [], key);
    assert Encoded(key) + [] == Encoded(key);
    EncodedNotEmpty(key);
  }

  /** The encoding keeps the order of keys, the empty key included. */
  lemma NewMvccKeyOrder(a: Bytes, b: Bytes)
    ensures Less(NewMvccKey(a), NewMvccKey(b)) <==> Less(a, b)
    ensures NewMvccKey(a) == NewMvccKey(b) <==> a == b
  {
    EncodedNotEmpty(a);
    EncodedNotEmpty(b);
    if a != b {
      EncodedOrder(a, [], b, []);
      assert Encoded(a) + [] == Encoded(a) && Encoded(b) + [] == Encoded(b);
    } else {
      LessIrreflexive(a);
      LessIrreflexive(NewMvccKey(a));
    }
  }

  /** checkKeyInRegion: the region holds encoded bounds, the request a raw key. */
  predicate KeyInRegion(start: Bytes, end: Bytes, key: Bytes) {
    InRange(start, end, NewMvccKey(key))
  }

  /** For encoded bounds this is the same as comparing raw keys. */
  lemma KeyInRegionIsRaw(start: Bytes, end: Bytes, key: Bytes)
    requires IsMvccKey(start) && IsMvccKey(end)
    ensures KeyInRegion(start, end, key) <==> InRange(Raw(start), Raw(end), key)
  {
    var a :| start == NewMvccKey(a);
    var b :| end == NewMvccKey(b);
    RawOfNew(a);
    RawOfNew(b);
    NewMvccKeyOrder(a, key);
    NewMvccKeyOrder(key, b);
    EncodedNotEmpty(b);
  }

  /** A bound that Raw accepts is an encoded key followed by some rest. */
  lemma BoundParts(bound: Bytes) returns (x: Bytes, rest: Bytes)
    requires bound != [] && Decode(bound).Decoded?
    ensures bound == Encoded(x) + rest && Raw(bound) == x && (!IsMvccKey(bound) ==> x == [] || rest != [])
  {
    x, rest := Decode(bound).data, Decode(bound).rest;
    DecodeExactly(bound, rest, x);
    if x != [] && rest == [] { assert bound == NewMvccKey(x); }
  }

  /** A start key decides like its raw form, for all keys, exactly when NewMvccKey produces it. */
  lemma StartIsRawExactly(start: Bytes)
    requires start == [] || Decode(start).Decoded?
    ensures (forall key :: KeyInRegion(start, [], key) <==> InRange(Raw(start), [], key)) <==> IsMvccKey(start)
  {
    assert [] == NewMvccKey([]);
    if IsMvccKey(start) {
      forall key
        ensures KeyInRegion(start, [], key) <==> InRange(Raw(start), [], key)
      {
        KeyInRegionIsRaw(start, [], key);
      }
    } else {
      var x, rest := BoundParts(start);
      if x != [] {
        LessExtension(Encoded(x), rest);
        LessTrichotomy(Encoded(x), start);
      }
      EncodedNotEmpty(x);
      assert !KeyInRegion(start, [], x) && InRange(Raw(start), [], x);
    }
  }

  /** And so does an end key. */
  lemma EndIsRawExactly(end: Bytes)
    requires end == [] || Decode(end).Decoded?
    ensures (forall key :: KeyInRegion([], end, key) <==> InRange([], Raw(end), key)) <==> IsMvccKey(end)
  {
    assert [] == NewMvccKey([]);
    if IsMvccKey(end) {
      forall key ensures KeyInRegion([], end, key) <==> InRange([], Raw(end), key) { KeyInRegionIsRaw([], end, key); }
    } else {
      var x, rest := BoundParts(end);
      EncodedNotEmpty(x);
      if x != [] {
        LessExtension(Encoded(x), rest);
        LessIrreflexive(x);
        assert KeyInRegion([], end, x) && !InRange([], Raw(end), x);
      } else {
        EncodedOrder([0], [], [], rest);
        assert Encoded([0]) + [] == Encoded([0]);
        assert !KeyInRegion([], end, [0]) && InRange([], Raw(end), [0]);
      }
    }
  }

  /** An instance: the encoding of the empty key, which NewMvccKey leaves unencoded. */
  lemma EncodedEmptyBoundDiffers()
    ensures !forall key :: KeyInRegion(Encoded([]), [], key) <==> InRange(Raw(Encoded([])), [], key)
  {
    DecodeExactly(Encoded([]), [], []);
    assert Encoded([]) + [] == Encoded([]);
    EncodedNotEmpty([]);
    forall raw ensures Encoded([]) != NewMvccKey(raw) {
      assert Encoded(raw) + [] == Encoded(raw);
      if raw != [] { EncodedOrder(raw, [], [], []); }
    }
    StartIsRawExactly(Encoded([]));
  }
}
