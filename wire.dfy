/**
 * The binary wire format shared by the server and the client: a buffer is a
 * sequence of little-endian 32-bit words. An `f32` travels as its bit pattern,
 * so a coordinate is modelled as the 32-bit word holding that pattern.
 */
module Wire {
  import opened Wrappers

  type Byte = b: int | 0 <= b < 0x100

  /** A `u32`, and also the bit pattern of an `f32`. */
  type Word = w: int | 0 <= w < 0x1_0000_0000

  /** A participant id (`type ID = u32` on the server). */
  type Id = Word

  /** A normalised cursor position, each coordinate an `f32` bit pattern. */
  datatype Position = Position(x: Word, y: Word)

  /** The `as u32` cast on a length: truncation modulo 2^32. */
  function U32(n: nat): (w: Word)
    ensures n < 0x1_0000_0000 ==> w == n
  {
    n % 0x1_0000_0000
  }

  /** `to_le_bytes` on a 32-bit word: least significant byte first. */
  function LeBytes(w: Word): (r: seq<Byte>)
    ensures |r| == 4
  {
    var w1 := w / 0x100;
    var w2 := w1 / 0x100;
    [w % 0x100, w1 % 0x100, w2 % 0x100, w2 / 0x100]
  }

  /** `from_le_bytes` / `DataView.getUint32(_, true)` on four bytes. */
  function LeWord(b0: Byte, b1: Byte, b2: Byte, b3: Byte): Word
  {
    b0 + 0x100 * (b1 + 0x100 * (b2 + 0x100 * b3))
  }

  lemma LeWordOfLeBytes(w: Word)
    ensures var b := LeBytes(w); LeWord(b[0], b[1], b[2], b[3]) == w
  {
    var w1 := w / 0x100;
    var w2 := w1 / 0x100;
    assert w == w % 0x100 + 0x100 * w1;
    assert w1 == w1 % 0x100 + 0x100 * w2;
    assert w2 == w2 % 0x100 + 0x100 * (w2 / 0x100);
  }

  /**
   * Reading the `i`-th word of a buffer (byte offset `4 * i`), as
   * `DataView.getUint32(i * 4, true)` does: `None` stands for the RangeError
   * thrown when fewer than four bytes remain.
   */
  function ReadWord(buf: seq<Byte>, i: nat): (r: Option<Word>)
    ensures r.Some? <==> 4 * i + 4 <= |buf|
  {
    if 4 * i + 4 <= |buf| then Some(LeWord(buf[4 * i], buf[4 * i + 1], buf[4 * i + 2], buf[4 * i + 3]))
    else None
  }

  /** The bytes of a sequence of words, each written with `to_le_bytes`. */
  function WordsToBytes(ws: seq<Word>): (r: seq<Byte>)
    ensures |r| == 4 * |ws|
  {
    if ws == [] then [] else LeBytes(ws[0]) + WordsToBytes(ws[1..])
  }

  lemma {:induction false} WordsToBytesAt(ws: seq<Word>, i: nat)
    requires i < |ws|
    ensures WordsToBytes(ws)[4 * i .. 4 * i + 4] == LeBytes(ws[i])
  {
    if i > 0 {
      WordsToBytesAt(ws[1..], i - 1);
      assert WordsToBytes(ws) == LeBytes(ws[0]) + WordsToBytes(ws[1..]);
      assert WordsToBytes(ws)[4 * i .. 4 * i + 4] == WordsToBytes(ws[1..])[4 * (i - 1) .. 4 * (i - 1) + 4];
    }
  }

  /** Reading back the words of an encoded buffer gives exactly those words, then the end. */
  lemma ReadWordOfWords(ws: seq<Word>, i: nat)
    ensures ReadWord(WordsToBytes(ws), i) == if i < |ws| then Some(ws[i]) else None
  {
    if i < |ws| {
      var b := WordsToBytes(ws);
      var bs := LeBytes(ws[i]);
      WordsToBytesAt(ws, i);
      assert b[4 * i] == bs[0] && b[4 * i + 1] == bs[1] && b[4 * i + 2] == bs[2] && b[4 * i + 3] == bs[3] by {
        assert b[4 * i .. 4 * i + 4] == bs;
      }
      LeWordOfLeBytes(ws[i]);
    }
  }

  lemma {:induction false} WordsToBytesAppend(a: seq<Word>, b: seq<Word>)
    ensures WordsToBytes(a + b) == WordsToBytes(a) + WordsToBytes(b)
  {
    if a != [] {
      assert (a + b)[1..] == a[1..] + b;
      WordsToBytesAppend(a[1..], b);
    } else {
      assert a + b == b;
    }
  }

  /** Appending one word's bytes to an encoded buffer encodes the longer word sequence. */
  lemma WordsToBytesSnoc(ws: seq<Word>, w: Word)
    ensures WordsToBytes(ws + [w]) == WordsToBytes(ws) + LeBytes(w)
  {
    WordsToBytesAppend(ws, [w]);
    assert WordsToBytes([w]) == LeBytes(w) + WordsToBytes([]);
  }

  // ---- f32 bit patterns (IEEE 754 binary32) ----

  /**
   * A NaN: all exponent bits set and a nonzero fraction, either sign, i.e. a
   * pattern above +infinity (0x7F80_0000) or above -infinity (0xFF80_0000).
   */
  predicate IsNaN(w: Word)
  {
    (0x7F80_0000 < w < 0x8000_0000) || 0xFF80_0000 < w
  }

  /** +0.0 (0x0000_0000) or -0.0 (0x8000_0000). */
  predicate IsZero(w: Word)
  {
    w == 0 || w == 0x8000_0000
  }

  /** `f32` `PartialEq`: NaN equals nothing, and +0.0 equals -0.0. */
  predicate F32Eq(a: Word, b: Word)
  {
    !IsNaN(a) && !IsNaN(b) && (a == b || (IsZero(a) && IsZero(b)))
  }

  /**
   * `(0.0..=1.0).contains(&f)`: the non-negative patterns from +0.0 (0x0000_0000)
   * up to 1.0 (0x3F80_0000) are ordered like their values, and -0.0 (0x8000_0000)
   * compares equal to 0.0; every other pattern is negative, above 1.0 or a NaN.
   */
  predicate InUnitRange(w: Word)
  {
    w <= 0x3F80_0000 || w == 0x8000_0000
  }

  /** The derived `PartialEq` on `Position`: both coordinates compare equal. */
  predicate PositionEq(p: Position, q: Position)
  {
    F32Eq(p.x, q.x) && F32Eq(p.y, q.y)
  }

  // ---- sequences of ids ----

  predicate Distinct(s: seq<Id>)
  {
    forall i, j :: 0 <= i < j < |s| ==> s[i] != s[j]
  }

  /** `order` visits every key of a map or set exactly once, as a `HashMap` iteration does. */
  ghost predicate Enumerates(order: seq<Id>, keys: set<Id>)
  {
    Distinct(order) && (forall id :: id in order <==> id in keys)
  }

  /** The ids a sequence mentions. */
  ghost function Elems(s: seq<Id>): set<Id>
  {
    set id | id in s
  }

  lemma {:induction false} DistinctCard(s: seq<Id>)
    requires Distinct(s)
    ensures |Elems(s)| == |s|
  {
    if s != [] {
      assert Distinct(s[1..]);
      DistinctCard(s[1..]);
      assert Elems(s) == {s[0]} + Elems(s[1..]);
    } else {
      assert Elems(s) == {};
    }
  }

  lemma EnumeratesCard(order: seq<Id>, keys: set<Id>)
    requires Enumerates(order, keys)
    ensures |order| == |keys|
  {
    DistinctCard(order);
    assert Elems(order) == keys;
  }

  /** Every set of ids drawn from 1..n has at most n members. */
  lemma {:induction false} BoundedIdsCard(s: set<int>, n: nat)
    requires forall id :: id in s ==> 1 <= id <= n
    ensures |s| <= n
  {
    if n == 0 {
      assert forall id :: id !in s;
      assert s == {};
    } else {
      BoundedIdsCard(s - {n}, n - 1);
    }
  }
}
