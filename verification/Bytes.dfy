/** Little-endian byte strings as words, and exclusive or on both. */
module Bytes {
  import opened Words

  type byte = x: int | 0 <= x < 256

  function Xor(x: nat, y: nat): nat
    decreases x + y
  {
    if x == 0 && y == 0 then 0
    else (if x % 2 != y % 2 then 1 else 0) + 2 * Xor(x / 2, y / 2)
  }

  lemma {:induction false} XorTwice(x: nat, y: nat)
    ensures Xor(Xor(x, y), y) == x
    decreases x + y
  {
    if x != 0 || y != 0 {
      var high := Xor(x / 2, y / 2);
      XorTwice(x / 2, y / 2);
      assert Xor(x, y) / 2 == high;
    }
  }

  lemma {:induction false} XorBound(x: nat, y: nat, n: nat)
    requires x < Pow2(n) && y < Pow2(n)
    ensures Xor(x, y) < Pow2(n)
    decreases n
  {
    if n > 0 && (x != 0 || y != 0) {
      XorBound(x / 2, y / 2, n - 1);
    }
  }

  /** Exclusive or acts separately on the low n bits and on the rest. */
  lemma {:induction false} XorConcat(x: nat, y: nat, u: nat, v: nat, n: nat)
    requires x < Pow2(n) && y < Pow2(n)
    ensures Xor(x + ShiftLeft(u, n), y + ShiftLeft(v, n)) == Xor(x, y) + ShiftLeft(Xor(u, v), n)
    decreases n
  {
    hide Xor;
    if n == 0 {
      XorZero();
    } else {
      XorConcat(x / 2, y / 2, u, v, n - 1);
      XorOfSums(x, y, ShiftLeft(u, n - 1), ShiftLeft(v, n - 1));
    }
  }

  lemma XorZero()
    ensures Xor(0, 0) == 0
  {
  }

  lemma XorOfSums(x: nat, y: nat, u: nat, v: nat)
    ensures Xor(x + 2 * u, y + 2 * v) == (if x % 2 != y % 2 then 1 else 0) + 2 * Xor(x / 2 + u, y / 2 + v)
    ensures Xor(x, y) == (if x % 2 != y % 2 then 1 else 0) + 2 * Xor(x / 2, y / 2)
  {
    assert (x + 2 * u) / 2 == x / 2 + u && (x + 2 * u) % 2 == x % 2;
    assert (y + 2 * v) / 2 == y / 2 + v && (y + 2 * v) % 2 == y % 2;
  }

  function XorByte(x: byte, y: byte): (r: byte)
  {
    assert Pow2(8) == 256;
    XorBound(x, y, 8);
    Xor(x, y)
  }

  function XorWord(x: word, y: word): (r: word)
  {
    PowersOfTwo();
    XorBound(x, y, 32);
    Xor(x, y)
  }

  // ----- words of four bytes -----

  function Word(b0: byte, b1: byte, b2: byte, b3: byte): word
  {
    b0 as int + 256 * (b1 as int) + 0x1_0000 * (b2 as int) + 0x100_0000 * (b3 as int)
  }

  function ByteOf(w: word, k: nat): byte
    requires k < 4
  {
    if k == 0 then w % 256
    else if k == 1 then w / 256 % 256
    else if k == 2 then w / 256 / 256 % 256
    else w / 256 / 256 / 256
  }

  lemma WordOfItsBytes(w: word)
    ensures Word(ByteOf(w, 0), ByteOf(w, 1), ByteOf(w, 2), ByteOf(w, 3)) == w
  {
    var h1 := w / 256;
    var h2 := h1 / 256;
    var h3 := h2 / 256;
    assert ByteOf(w, 0) == w - 256 * h1 && ByteOf(w, 1) == h1 - 256 * h2 && ByteOf(w, 2) == h2 - 256 * h3;
  }

  lemma BytesOfWord(b0: byte, b1: byte, b2: byte, b3: byte)
    ensures ByteOf(Word(b0, b1, b2, b3), 0) == b0 && ByteOf(Word(b0, b1, b2, b3), 1) == b1
    ensures ByteOf(Word(b0, b1, b2, b3), 2) == b2 && ByteOf(Word(b0, b1, b2, b3), 3) == b3
  {
    var w := Word(b0, b1, b2, b3);
    assert w / 256 == b1 as int + 256 * (b2 as int + 256 * (b3 as int));
    assert w / 256 / 256 == b2 as int + 256 * (b3 as int);
  }

  function ToWords(b: seq<byte>): (w: seq<word>)
    requires |b| % 4 == 0
    ensures |w| == |b| / 4
  {
    seq(|b| / 4, i requires 0 <= i < |b| / 4 => Word(b[4 * i], b[4 * i + 1], b[4 * i + 2], b[4 * i + 3]))
  }

  function ToBytes(w: seq<word>): (b: seq<byte>)
    ensures |b| == 4 * |w|
  {
    seq(4 * |w|, j requires 0 <= j < 4 * |w| => ByteOf(w[j / 4], j % 4))
  }

  lemma BytesRoundTrip(w: seq<word>)
    ensures ToWords(ToBytes(w)) == w
  {
    hide ByteOf, Word, ToBytes;
    var b := ToBytes(w);
    forall i | 0 <= i < |w| ensures ToWords(b)[i] == w[i] {
      WordOfItsBytes(w[i]);
      ByteAt(w, i, 0);
      ByteAt(w, i, 1);
      ByteAt(w, i, 2);
      ByteAt(w, i, 3);
    }
  }

  lemma ByteAt(w: seq<word>, i: nat, m: nat)
    requires i < |w| && m < 4
    ensures ToBytes(w)[4 * i + m] == ByteOf(w[i], m)
  {
    hide ByteOf;
    assert (4 * i + m) / 4 == i && (4 * i + m) % 4 == m;
  }

  lemma WordsRoundTrip(b: seq<byte>)
    requires |b| % 4 == 0
    ensures ToBytes(ToWords(b)) == b
  {
    hide ByteOf, Word;
    forall j | 0 <= j < |b| ensures ToBytes(ToWords(b))[j] == b[j] {
      var i := j / 4;
      BytesOfWord(b[4 * i], b[4 * i + 1], b[4 * i + 2], b[4 * i + 3]);
    }
  }

  lemma ToWordsConcat(a: seq<byte>, b: seq<byte>)
    requires |a| % 4 == 0 && |b| % 4 == 0
    ensures ToWords(a + b) == ToWords(a) + ToWords(b)
  {
    hide Word;
  }

  lemma ToWordsSlice(b: seq<byte>, lo: nat, hi: nat)
    requires |b| % 4 == 0 && lo <= hi && 4 * hi <= |b|
    ensures ToWords(b[4 * lo..4 * hi]) == ToWords(b)[lo..hi]
  {
    hide Word;
    var s := b[4 * lo..4 * hi];
    forall i | 0 <= i < hi - lo ensures ToWords(s)[i] == ToWords(b)[lo + i] {
      assert s[4 * i] == b[4 * (lo + i)] && s[4 * i + 1] == b[4 * (lo + i) + 1];
      assert s[4 * i + 2] == b[4 * (lo + i) + 2] && s[4 * i + 3] == b[4 * (lo + i) + 3];
    }
  }

  lemma ToBytesSlice(w: seq<word>, lo: nat, hi: nat)
    requires lo <= hi <= |w|
    ensures ToBytes(w)[4 * lo..4 * hi] == ToBytes(w[lo..hi])
  {
    hide ByteOf;
    var a, b := ToBytes(w)[4 * lo..4 * hi], ToBytes(w[lo..hi]);
    forall j | 0 <= j < |b| ensures a[j] == b[j] {
      assert (4 * lo + j) / 4 == lo + j / 4 && (4 * lo + j) % 4 == j % 4;
    }
  }

  lemma XorOfWords(a: seq<byte>, b: seq<byte>)
    requires |a| == |b| == 4
    ensures XorWord(Word(a[0], a[1], a[2], a[3]), Word(b[0], b[1], b[2], b[3]))
              == Word(XorByte(a[0], b[0]), XorByte(a[1], b[1]), XorByte(a[2], b[2]), XorByte(a[3], b[3]))
  {
    hide Xor, Pow2, ShiftLeft;
    XorLowByte(a[2], b[2], a[3], b[3]);
    var a2: nat, b2: nat := a[2] as int + 256 * (a[3] as int), b[2] as int + 256 * (b[3] as int);
    XorLowByte(a[1], b[1], a2, b2);
    var a1: nat, b1: nat := a[1] as int + 256 * a2, b[1] as int + 256 * b2;
    XorLowByte(a[0], b[0], a1, b1);
  }

  lemma XorLowByte(x: byte, y: byte, u: nat, v: nat)
    ensures Xor(x + 256 * u, y + 256 * v) == Xor(x, y) + 256 * Xor(u, v)
  {
    hide Xor;
    assert Pow2(8) == 256;
    ShiftLeftIsMul(u, 8);
    ShiftLeftIsMul(v, 8);
    ShiftLeftIsMul(Xor(u, v), 8);
    XorConcat(x, y, u, v, 8);
  }
}
