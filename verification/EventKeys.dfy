/**
 The keys of the event trees: a timestamp padded to twenty digits, a dash and the event id.
 The trees iterate in byte order; this module shows that byte order is the order by
 timestamp and then by id.
 */
module EventKeys {
  type byte = n: nat | n < 256
  type bytes = seq<byte>
  type u64 = n: nat | n < 0x1_0000_0000_0000_0000

  const KEY_DIGITS: nat := 20

  function Pow10(w: nat): nat {
    if w == 0 then 1 else 10 * Pow10(w - 1)
  }

  /** The last `w` decimal digits of `t` in ASCII, most significant first. */
  function Digits(t: nat, w: nat): (d: bytes)
    ensures |d| == w
  {
    if w == 0 then [] else Digits(t / 10, w - 1) + [48 + t % 10]
  }

  function Key(timestamp: u64, id: bytes): bytes {
    Digits(timestamp, KEY_DIGITS) + ([45] + id)
  }

  /** Byte-wise lexicographic order, a proper prefix coming first. */
  predicate LexLess(a: bytes, b: bytes) {
    b != [] && (a == [] || a[0] < b[0] || (a[0] == b[0] && LexLess(a[1..], b[1..])))
  }

  lemma {:induction false} LexIrreflexive(a: bytes)
    ensures !LexLess(a, a)
  {
    if a != [] {
      LexIrreflexive(a[1..]);
    }
  }

  lemma {:induction false} LexTransitive(a: bytes, b: bytes, c: bytes)
    requires LexLess(a, b) && LexLess(b, c)
    ensures LexLess(a, c)
  {
    if a != [] && a[0] == b[0] == c[0] {
      LexTransitive(a[1..], b[1..], c[1..]);
    }
  }

  lemma {:induction false} LexTotal(a: bytes, b: bytes)
    ensures a == b || LexLess(a, b) || LexLess(b, a)
  {
    if a != [] && b != [] && a[0] == b[0] {
      LexTotal(a[1..], b[1..]);
      assert a == [a[0]] + a[1..] && b == [b[0]] + b[1..];
    }
  }

  /** Padded numbers of one width compare as numbers, and what follows them breaks ties. */
  lemma {:induction false} DigitsOrder(t: nat, u: nat, w: nat, a: bytes, b: bytes)
    requires t < Pow10(w) && u < Pow10(w)
    ensures LexLess(Digits(t, w) + a, Digits(u, w) + b) <==> t < u || (t == u && LexLess(a, b))
    decreases w
  {
    if w == 0 {
      assert Digits(t, 0) + a == a && Digits(u, 0) + b == b;
    } else {
      var da, db := [48 + t % 10] + a, [48 + u % 10] + b;
      assert Digits(t, w) + a == Digits(t / 10, w - 1) + da;
      assert Digits(u, w) + b == Digits(u / 10, w - 1) + db;
      DigitsOrder(t / 10, u / 10, w - 1, da, db);
      assert da[1..] == a && db[1..] == b;
    }
  }

  lemma U64FitsTheKey()
    ensures Pow10(KEY_DIGITS) == 1_0000_0000_0000_0000_0000
  {
    assert Pow10(4) == 1_0000;
    assert Pow10(8) == 1_0000 * Pow10(4);
    assert Pow10(12) == 1_0000 * Pow10(8);
    assert Pow10(16) == 1_0000 * Pow10(12);
    assert Pow10(20) == 1_0000 * Pow10(16);
  }

  predicate Before(t: u64, i: bytes, u: u64, j: bytes) {
    t < u || (t == u && LexLess(i, j))
  }

  /** Byte order of keys is order by timestamp, then id, for every u64 timestamp. */
  lemma KeyOrder(t: u64, i: bytes, u: u64, j: bytes)
    ensures LexLess(Key(t, i), Key(u, j)) <==> Before(t, i, u, j)
  {
    U64FitsTheKey();
    DigitsOrder(t, u, KEY_DIGITS, [45] + i, [45] + j);
    assert ([45] + i)[1..] == i && ([45] + j)[1..] == j;
  }

  /** A key gives back its timestamp and its id. */
  lemma KeyInjective(t: u64, i: bytes, u: u64, j: bytes)
    requires Key(t, i) == Key(u, j)
    ensures t == u && i == j
  {
    KeyOrder(t, i, u, j);
    KeyOrder(u, j, t, i);
    LexIrreflexive(Key(t, i));
    LexTotal(i, j);
  }
}
