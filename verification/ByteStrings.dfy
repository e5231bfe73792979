/** Byte strings and the lexicographic order that Go's bytes.Compare computes. */
module ByteStrings {
  type Byte = b: int | 0 <= b < 256
  type Bytes = seq<Byte>

  const TWO64: int := 0x1_0000_0000_0000_0000

  type U64 = n: int | 0 <= n < TWO64

  /** The largest uint64; the version under which a key's lock is stored. */
  const MAX_U64: U64 := TWO64 - 1

  datatype Option<+T> = None | Some(value: T)

  /** bytes.Compare(a, b) < 0 */
  predicate Less(a: Bytes, b: Bytes) {
    if b == [] then false
    else if a == [] then true
    else if a[0] != b[0] then a[0] < b[0]
    else Less(a[1..], b[1..])
  }

  /** bytes.Compare(a, b) <= 0 */
  predicate AtMost(a: Bytes, b: Bytes) {
    a == b || Less(a, b)
  }

  /** start <= key < end, where an empty end means no upper bound. */
  predicate InRange(start: Bytes, end: Bytes, key: Bytes) {
    AtMost(start, key) && (end == [] || Less(key, end))
  }

  lemma {:induction false} LessIrreflexive(a: Bytes)
    ensures !Less(a, a)
  {
    if a != [] { LessIrreflexive(a[1..]); }
  }

  lemma {:induction false} LessTransitive(a: Bytes, b: Bytes, c: Bytes)
    requires Less(a, b) && Less(b, c)
    ensures Less(a, c)
  {
    if a != [] && a[0] == b[0] == c[0] { LessTransitive(a[1..], b[1..], c[1..]); }
  }

  /** Exactly one of a < b, a == b, b < a holds. */
  lemma {:induction false} LessTrichotomy(a: Bytes, b: Bytes)
    ensures Less(a, b) || a == b || Less(b, a)
    ensures !(Less(a, b) && Less(b, a))
    ensures a == b ==> !Less(a, b)
  {
    if a != [] && b != [] {
      LessTrichotomy(a[1..], b[1..]);
      assert a == [a[0]] + a[1..] && b == [b[0]] + b[1..];
    }
  }

  /** The first differing byte decides, whatever follows it. */
  lemma {:induction false} LessAtDifference(a: Bytes, b: Bytes, i: nat)
    requires i < |a| && i < |b| && a[..i] == b[..i] && a[i] < b[i]
    ensures Less(a, b) && !Less(b, a)
  {
    if i > 0 {
      assert a[0] == a[..i][0] == b[..i][0] == b[0];
      assert a[1..][..i-1] == a[..i][1..] == b[..i][1..] == b[1..][..i-1];
      LessAtDifference(a[1..], b[1..], i - 1);
    }
  }

  /** Different byte strings either differ at a first position or one extends the other. */
  lemma {:induction false} FirstDifference(a: Bytes, b: Bytes) returns (i: nat)
    requires a != b
    ensures i <= |a| && i <= |b| && a[..i] == b[..i]
    ensures (i < |a| && i < |b| && a[i] != b[i]) || (i == |a| < |b|) || (i == |b| < |a|)
  {
    if a == [] || b == [] || a[0] != b[0] {
      i := 0;
    } else {
      assert a == [a[0]] + a[1..] && b == [b[0]] + b[1..];
      var j := FirstDifference(a[1..], b[1..]);
      i := j + 1;
      assert a[..i] == [a[0]] + a[1..][..j] && b[..i] == [b[0]] + b[1..][..j];
    }
  }

  lemma {:induction false} LessCommonPrefix(p: Bytes, a: Bytes, b: Bytes)
    ensures Less(p + a, p + b) == Less(a, b)
  {
    if p == [] {
      assert p + a == a && p + b == b;
    } else {
      assert (p + a)[1..] == p[1..] + a && (p + b)[1..] == p[1..] + b;
      LessCommonPrefix(p[1..], a, b);
    }
  }

  lemma {:induction false} LessExtension(a: Bytes, b: Bytes)
    requires b != []
    ensures Less(a, a + b)
  {
    LessCommonPrefix(a, [], b);
    assert a + [] == a;
  }

  predicate Ascending(ks: seq<Bytes>) {
    forall i, j {:trigger Less(ks[i], ks[j])} :: 0 <= i < j < |ks| ==> Less(ks[i], ks[j])
  }

  /** A strictly ascending listing of a set is unique. */
  lemma {:induction false} AscendingUnique(a: seq<Bytes>, b: seq<Bytes>)
    requires Ascending(a) && Ascending(b)
    requires forall x :: x in a <==> x in b
    ensures a == b
  {
    assert a == [] <==> b == [] by {
      if a != [] { assert a[0] in b; }
      if b != [] { assert b[0] in a; }
    }
    if a != [] {
      HeadsAgree(a, b);
      TailMembers(a);
      TailMembers(b);
      forall x ensures x in a[1..] <==> x in b[1..] {
        assert x in a[1..] <==> x in a && x != a[0];
        assert x in b[1..] <==> x in b && x != b[0];
      }
      AscendingUnique(a[1..], b[1..]);
      assert a == [a[0]] + a[1..] && b == [b[0]] + b[1..];
    }
  }

  lemma TailAscends(ks: seq<Bytes>)
    requires Ascending(ks) && ks != []
    ensures Ascending(ks[1..])
  {
    var t := ks[1..];
    forall i, j | 0 <= i < j < |t| ensures Less(t[i], t[j]) { assert Less(ks[i + 1], ks[j + 1]); }
  }

  lemma FrontAscends(ks: seq<Bytes>)
    requires Ascending(ks) && ks != []
    ensures Ascending(ks[..|ks| - 1])
  {
    var t := ks[..|ks| - 1];
    forall i, j | 0 <= i < j < |t| ensures Less(t[i], t[j]) { assert Less(ks[i], ks[j]); }
  }

  lemma AscendingConcat(a: seq<Bytes>, b: seq<Bytes>)
    requires Ascending(a) && Ascending(b) && forall i, j :: 0 <= i < |a| && 0 <= j < |b| ==> Less(a[i], b[j])
    ensures Ascending(a + b)
  {
    var s, n := a + b, |a|;
    forall i, j | 0 <= i < j < |s| ensures Less(s[i], s[j]) {
      if j < n {
        assert Less(a[i], a[j]);
      } else if i >= n {
        assert Less(b[i - n], b[j - n]);
      } else {
        assert Less(a[i], b[j - n]);
      }
    }
  }

  lemma TailMembers(a: seq<Bytes>)
    requires Ascending(a) && a != []
    ensures forall x :: x in a[1..] <==> x in a && x != a[0]
  {
    LessIrreflexive(a[0]);
    assert a == [a[0]] + a[1..];
    forall x | x in a[1..] ensures x != a[0] {
      var i :| 0 <= i < |a[1..]| && a[1..][i] == x;
      assert Less(a[0], a[i + 1]);
    }
  }

  lemma HeadsAgree(a: seq<Bytes>, b: seq<Bytes>)
    requires Ascending(a) && Ascending(b) && a != [] && b != []
    requires a[0] in b && b[0] in a
    ensures a[0] == b[0]
  {
    var i :| 0 <= i < |b| && b[i] == a[0];
    var j :| 0 <= j < |a| && a[j] == b[0];
    LessTrichotomy(a[0], b[0]);
  }

  function Pow256(w: nat): (p: nat)
    ensures p > 0
  {
    if w == 0 then 1 else 256 * Pow256(w - 1)
  }

  lemma ModSplit(n: nat, p: nat)
    requires p > 0
    ensures n % (256 * p) == n % p + p * (n / p % 256)
  {
    var q, r := n / p, n % p;
    var q1, r1 := q / 256, q % 256;
    Distribute(p, 256 * q1, r1);
    assert p * (256 * q1) == (256 * p) * q1;
    Distribute(p, 255 - r1, r1);
    RemainderOf(256 * p, q1, p * r1 + r, n);
  }

  lemma Distribute(p: int, x: int, y: int)
    ensures p * (x + y) == p * x + p * y
  {
  }

  lemma RemainderOf(m: nat, q: nat, r: nat, a: nat)
    requires r < m && a == m * q + r
    ensures a % m == r
  {
    QuotientOf(m, q, r, a);
  }

  lemma QuotientOf(m: nat, q: nat, r: nat, a: nat)
    requires r < m && a == m * q + r
    ensures a / m == q
  {
    var d := a / m;
    if q < d {
      Distribute(m, q + 1, d - q - 1);
      Distribute(m, q, 1);
      assert false;
    }
    if d < q {
      Distribute(m, d + 1, q - d - 1);
      Distribute(m, d, 1);
      assert false;
    }
  }

  /** What four and eight bytes can hold. */
  lemma WidthBounds()
    ensures Pow256(4) == 0x1_0000_0000 && Pow256(8) == TWO64
  {
    assert Pow256(4) == 0x1_0000_0000;
    assert Pow256(8) == 256 * (256 * (256 * (256 * Pow256(4))));
  }

  lemma BelowMin(a: Bytes, b: Bytes, c: Bytes)
    requires Less(a, b) && AtMost(b, c)
    ensures AtMost(a, c)
  {
    if b != c { LessTransitive(a, b, c); }
  }

  predicate IsMin(s: set<Bytes>, m: Bytes) {
    m in s && forall x :: x in s ==> AtMost(m, x)
  }

  lemma {:induction false} MinExists(s: set<Bytes>) returns (m: Bytes)
    requires s != {}
    ensures IsMin(s, m)
  {
    m :| m in s;
    var rest := s - {m};
    if rest == {} {
      assert s == {m};
    } else {
      var n := MinExists(rest);
      LessTrichotomy(n, m);
      if Less(m, n) {
        forall x | x in s ensures AtMost(m, x) {
          if x != m { BelowMin(m, n, x); }
        }
      } else {
        m := n;
      }
    }
  }

  lemma MinUnique(s: set<Bytes>)
    ensures forall m, n :: IsMin(s, m) && IsMin(s, n) ==> m == n
  {
    forall m, n | IsMin(s, m) && IsMin(s, n) ensures m == n {
      LessTrichotomy(m, n);
    }
  }

  /** The elements of a set in ascending order. */
  function Sorted(s: set<Bytes>): (r: seq<Bytes>)
    ensures Ascending(r)
    ensures forall x :: x in r <==> x in s
  {
    if s == {} then []
    else
      assert exists m :: m in s && IsMin(s, m) by { var m := MinExists(s); }
      MinUnique(s);
      var m :| m in s && IsMin(s, m);
      var tail := Sorted(s - {m});
      assert forall i :: 0 <= i < |tail| ==> tail[i] in s && tail[i] != m;
      [m] + tail
  }
}
