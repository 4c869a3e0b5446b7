/**
 * Packing and unpacking of an encrypted image: the packer of tools/sk/main.py, the
 * loader's ime_decrypt_verify of src/core/aead.c, and both against section 2.8 of
 * RFC 8439. Only the ChaCha20 block function is left abstract.
 */
module Aead {
  import opened Words
  import opened Bytes
  import Poly1305
  import Slices

  /** Sixteen words from a key, a counter and a nonce. */
  type KeyBlock = b: seq<word> | |b| == 16 witness seq(16, _ => 0)
  type Cipher = (seq<word>, word, seq<word>) -> KeyBlock

  // ----- little-endian numbers -----

  function LeNum(b: seq<byte>): nat
  {
    if b == [] then 0 else b[0] + 256 * LeNum(b[1..])
  }

  function LeBytes(n: nat, k: nat): (b: seq<byte>)
    ensures |b| == k
    decreases k, n
  {
    if k == 0 then [] else [n % 256] + LeBytes(n / 256, k - 1)
  }

  function Zeros(k: nat): (b: seq<byte>)
    ensures |b| == k
  {
    seq(k, _ => 0)
  }

  lemma ByteRoom(k: nat)
    requires k > 0
    ensures Pow2(8 * k) == 256 * Pow2(8 * (k - 1))
  {
    assert Pow2(8) == 256;
    Pow2Add(8, 8 * (k - 1));
  }

  lemma {:induction false} LeRoundTrip(n: nat, k: nat)
    requires n < Pow2(8 * k)
    ensures LeNum(LeBytes(n, k)) == n
    decreases k
  {
    if k > 0 {
      ByteRoom(k);
      hide Pow2;
      LeRoundTrip(n / 256, k - 1);
      assert LeBytes(n, k)[1..] == LeBytes(n / 256, k - 1);
    }
  }

  lemma LeNumSplit(b: seq<byte>)
    requires |b| >= 4
    ensures LeNum(b) == Word(b[0], b[1], b[2], b[3]) + 0x1_0000_0000 * LeNum(b[4..])
  {
    assert b[1..][1..] == b[2..] && b[2..][1..] == b[3..] && b[3..][1..] == b[4..];
    assert LeNum(b[1..]) == b[1] + 256 * LeNum(b[2..]);
    assert LeNum(b[2..]) == b[2] + 256 * LeNum(b[3..]);
    assert LeNum(b[3..]) == b[3] + 256 * LeNum(b[4..]);
  }

  /** Sixteen bytes and their four words are the same number. */
  lemma LeNumIsNum4(b: seq<byte>)
    requires |b| == 16
    ensures LeNum(b) == Poly1305.Num4(ToWords(b))
  {
    hide LeNum, Word;
    LeNumSplit(b);
    LeNumSplit(b[4..]);
    LeNumSplit(b[8..]);
    LeNumSplit(b[12..]);
    assert b[4..][4..] == b[8..] && b[8..][4..] == b[12..] && b[12..][4..] == [];
    LeNumEmpty();
  }

  lemma LeNumEmpty()
    ensures LeNum([]) == 0
  {
  }

  lemma WordOfLeBytes(n: word)
    ensures ToWords(LeBytes(n, 4)) == [n]
  {
    hide LeNum, LeBytes, Pow2;
    PowersOfTwo();
    LeRoundTrip(n, 4);
    LeNumSplit(LeBytes(n, 4));
    LeNumEmpty();
    assert LeBytes(n, 4)[4..] == [];
  }

  lemma {:induction false} LeBytesSplit(n: nat, k: nat)
    requires n < Pow2(8 * k)
    ensures LeBytes(n, k + 4) == LeBytes(n, k) + Zeros(4)
    decreases k, n
  {
    if k > 0 {
      ByteRoom(k);
      LeBytesSplit(n / 256, k - 1);
    } else {
      assert n == 0;
      ZeroBytes(4);
    }
  }

  lemma {:induction false} ZeroBytes(k: nat)
    ensures LeBytes(0, k) == Zeros(k)
  {
    if k > 0 {
      ZeroBytes(k - 1);
    }
  }

  lemma WordsOfLe64(n: word)
    ensures ToWords(LeBytes(n, 8)) == [n, 0]
  {
    hide LeBytes, Pow2;
    PowersOfTwo();
    LeBytesSplit(n, 4);
    WordOfLeBytes(n);
    ToWordsConcat(LeBytes(n, 4), Zeros(4));
  }

  // ----- section 2.8 of RFC 8439 -----

  function Pad16(b: seq<byte>): (p: seq<byte>)
    ensures |p| % 16 == 0 && b <= p
  {
    b + Zeros((16 - |b| % 16) % 16)
  }

  function MacData(aad: seq<byte>, ciphertext: seq<byte>): (d: seq<byte>)
  {
    Pad16(aad) + Pad16(ciphertext) + LeBytes(|aad|, 8) + LeBytes(|ciphertext|, 8)
  }

  /** Whole 16-byte blocks; MacData has no others. */
  function MacBlocks(d: seq<byte>): (n: seq<nat>)
    ensures |n| == |d| / 16
  {
    seq(|d| / 16, i requires 0 <= i < |d| / 16 => LeNum(d[16 * i..16 * i + 16]))
  }

  /** The two halves of the one-time key, the first one clamped. */
  function R(otk: seq<byte>): nat
    requires |otk| >= 32
  {
    BitAnd(LeNum(otk[..16]), Poly1305.CLAMP)
  }

  function S(otk: seq<byte>): nat
    requires |otk| >= 32
  {
    LeNum(otk[16..32])
  }

  function OneTimeKey(chacha: Cipher, key: seq<word>, iv: seq<word>): (otk: seq<byte>)
    ensures |otk| == 64
  {
    Bytes.ToBytes(chacha(key, 0, iv))
  }

  function RfcMac(chacha: Cipher, key: seq<word>, iv: seq<word>, aad: seq<byte>, ciphertext: seq<byte>): nat
  {
    var otk := OneTimeKey(chacha, key, iv);
    Poly1305.RfcTag(R(otk), S(otk), MacBlocks(MacData(aad, ciphertext)))
  }

  /** Byte j of the key stream, block counters from 1. */
  function KeyStream(chacha: Cipher, key: seq<word>, iv: seq<word>, j: nat): byte
    requires j < 0xFFFF_FFFF
  {
    ByteOf(chacha(key, j / 64 + 1, iv)[j % 64 / 4], j % 4)
  }

  function Encrypt(chacha: Cipher, key: seq<word>, iv: seq<word>, text: seq<byte>): (ciphertext: seq<byte>)
    requires |text| < 0x1_0000_0000
    ensures |ciphertext| == |text|
  {
    seq(|text|, j requires 0 <= j < |text| => XorByte(text[j], KeyStream(chacha, key, iv, j)))
  }

  // ----- the packer -----

  datatype Error = TextOnly | KeyLength | IvLength | TooLarge
  datatype Result<T> = Ok(value: T) | Err(error: Error)
  datatype Option<T> = None | Some(value: T)

  function Padded(b: seq<byte>): (p: seq<byte>)
    ensures |p| % 2048 == 0 && b <= p
  {
    if |b| % 2048 != 0 then b + Zeros(2048 - |b| % 2048) else b
  }

  /** The padding is zeros, and no more than the last 2048-byte chunk needs. */
  lemma PaddedExact(b: seq<byte>)
    ensures |b| <= |Padded(b)| < |b| + 2048
    ensures Padded(b)[..|b|] == b && forall i :: |b| <= i < |Padded(b)| ==> Padded(b)[i] == 0
    ensures |Padded(b)| == 2048 * ((|b| + 2047) / 2048) && |Padded(b)| / 2048 == (|b| + 2047) / 2048
  {
    var q, r := |b| / 2048, |b| % 2048;
    assert |b| == 2048 * q + r;
    if r == 0 {
      ModUnique(|b| + 2047, 2048, q, 2047);
    } else {
      ModUnique(|b| + 2047, 2048, q + 1, r - 1);
      ModUnique(|Padded(b)|, 2048, q + 1, 0);
    }
  }

  datatype Package = Package(mac: seq<byte>, iv: seq<byte>, sizeAad: nat, size: nat, textSize: nat, dataSize: nat,
                             text: seq<byte>, data: seq<byte>)
  {
    predicate Valid()
    {
      && |mac| == 16 && |iv| == 12
      && |text| == 2048 * textSize && |data| == 2048 * dataSize && size == 64 + |text| + |data|
      && (sizeAad == 64 || sizeAad == 64 + |text| || sizeAad == size)
    }

    /** What follows tag and nonce: sizes, padding, the text and the data. */
    function Body(): (b: seq<byte>)
      requires Valid()
      ensures |b| == size - 32
    {
      LeBytes(sizeAad, 4) + LeBytes(size, 4) + LeBytes(textSize, 4) + LeBytes(dataSize, 4) + Zeros(16) + text + data
    }

    /** The image: a 64-byte header, the text and the data. */
    function Image(): (b: seq<byte>)
      requires Valid()
      ensures |b| == size
    {
      [0xA5, 0xA5, 0xA5, 0xA5] + mac + iv + Body()
    }
  }

  class SubKernel {
    var mac: seq<byte>
    var iv: seq<byte>
    var sizeAad: nat
    var size: nat
    var textSize: nat
    var dataSize: nat
    var text: seq<byte>
    var data: seq<byte>

    function View(): Package
      reads this
    {
      Package(mac, iv, sizeAad, size, textSize, dataSize, text, data)
    }

    constructor (text: seq<byte>, data: seq<byte>, encText: bool, encData: bool)
      requires encText ==> encData
      ensures View().Valid() && View().mac == Zeros(16) && View().iv == Zeros(12)
      ensures View().text == Padded(text) && View().data == Padded(data)
      ensures View().sizeAad == if encText then 64 else if encData then 64 + |Padded(text)| else View().size
      ensures View().textSize == (|text| + 2047) / 2048 && View().dataSize == (|data| + 2047) / 2048
    {
      this.text := Padded(text);
      this.data := Padded(data);
      this.size := 64 + |Padded(text)| + |Padded(data)|;
      this.sizeAad := 64 + (if !encText then |Padded(text)| else 0) + (if !encData then |Padded(data)| else 0);
      this.textSize := |Padded(text)| / 2048;
      this.dataSize := |Padded(data)| / 2048;
      this.mac := Zeros(16);
      this.iv := Zeros(12);
      PaddedExact(text);
      PaddedExact(data);
    }

    /**
     * Encrypt and authenticate: the tag covers the header with a zero tag and a zero nonce, the
     * first time. Without a nonce the cipher draws one, which is the parameter `drawn`.
     */
    method Crypt(chacha: Cipher, key: seq<byte>, nonce: Option<seq<byte>>, drawn: seq<byte>)
        returns (r: Result<seq<byte>>)
      requires View().Valid() && |drawn| == 12
      modifies this`mac, this`iv
      ensures r.Err? <==> |key| != 32 || (nonce.Some? && |nonce.value| != 12) || size >= 0x1_0000_0000
      ensures r.Err? ==> View() == old(View())
      ensures r.Err? ==>
                r.error == if |key| != 32 then KeyLength
                           else if nonce.Some? && |nonce.value| != 12 then IvLength else TooLarge
      ensures r.Ok? ==>
                var used := if nonce.Some? then nonce.value else drawn;
                View().Valid() && View() == Sealed(chacha, key, used, old(View()))
      ensures r.Ok? ==>
                r.value == SealedImage(chacha, key, if nonce.Some? then nonce.value else drawn, old(View()))
    {
      if |key| != 32 {
        return Err(KeyLength);
      }
      if nonce.Some? && |nonce.value| != 12 {
        return Err(IvLength);
      }
      if size >= 0x1_0000_0000 {
        return Err(TooLarge);
      }
      hide RfcMac, Encrypt, LeBytes, Package.Image;
      var used := if nonce.Some? then nonce.value else drawn;
      var image := View().Image();
      assert image[sizeAad..size] == image[sizeAad..];
      var ciphertext := Encrypt(chacha, ToWords(key), ToWords(used), image[sizeAad..size]);
      mac := LeBytes(RfcMac(chacha, ToWords(key), ToWords(used), image[..sizeAad], ciphertext), 16);
      iv := used;
      r := Ok(View().Image()[..sizeAad] + ciphertext);
    }
  }

  /** SubKernel(text, data, ...), or the error for encrypting the text alone. */
  method Create(text: seq<byte>, data: seq<byte>, encText: bool, encData: bool) returns (r: Result<SubKernel>)
    ensures r.Err? <==> encText && !encData
    ensures r.Ok? ==> fresh(r.value) && r.value.View() == Packed(text, data, encText, encData)
    ensures r.Ok? ==> r.value.textSize == (|text| + 2047) / 2048 && r.value.dataSize == (|data| + 2047) / 2048
  {
    if encText && !encData {
      return Err(TextOnly);
    }
    var k := new SubKernel(text, data, encText, encData);
    r := Ok(k);
  }

  function Packed(text: seq<byte>, data: seq<byte>, encText: bool, encData: bool): (p: Package)
    requires encText ==> encData
    ensures p.Valid()
  {
    var t, d := Padded(text), Padded(data);
    var size := 64 + |t| + |d|;
    Package(Zeros(16), Zeros(12), if encText then 64 else if encData then 64 + |t| else size, size,
            |t| / 2048, |d| / 2048, t, d)
  }

  /** What crypt encrypts and authenticates. */
  function Ciphertext(chacha: Cipher, key: seq<byte>, nonce: seq<byte>, p: Package): (c: seq<byte>)
    requires p.Valid() && p.size < 0x1_0000_0000 && |key| == 32 && |nonce| == 12
    ensures |c| == p.size - p.sizeAad
  {
    Encrypt(chacha, ToWords(key), ToWords(nonce), p.Image()[p.sizeAad..])
  }

  function Tag(chacha: Cipher, key: seq<byte>, nonce: seq<byte>, p: Package): nat
    requires p.Valid() && p.size < 0x1_0000_0000 && |key| == 32 && |nonce| == 12
  {
    RfcMac(chacha, ToWords(key), ToWords(nonce), p.Image()[..p.sizeAad], Ciphertext(chacha, key, nonce, p))
  }

  function Sealed(chacha: Cipher, key: seq<byte>, nonce: seq<byte>, p: Package): (q: Package)
    requires p.Valid() && p.size < 0x1_0000_0000 && |key| == 32 && |nonce| == 12
    ensures q.Valid()
  {
    p.(mac := LeBytes(Tag(chacha, key, nonce, p), 16), iv := nonce)
  }

  function SealedImage(chacha: Cipher, key: seq<byte>, nonce: seq<byte>, p: Package): (b: seq<byte>)
    requires p.Valid() && p.size < 0x1_0000_0000 && |key| == 32 && |nonce| == 12
    ensures |b| == p.size
  {
    Sealed(chacha, key, nonce, p).Image()[..p.sizeAad] + Ciphertext(chacha, key, nonce, p)
  }

  // ----- the loader -----

  /** The image is long enough for what its header announces (words 8 and 9 hold size_aad and size). */
  predicate Complete(img: seq<word>)
  {
    |img| >= 16 && 4 * (img[8] / 16) <= |img| && 4 * (img[9] / 16) <= |img|
  }

  predicate FourWords(blocks: seq<seq<word>>)
  {
    forall i :: 0 <= i < |blocks| ==> |blocks[i]| == 4
  }

  /** The 16-byte chunks lo, lo + 1, ..., hi - 1 of an image. */
  function Chunks(img: seq<word>, lo: nat, hi: nat): (c: seq<seq<word>>)
    requires lo < hi ==> 4 * hi <= |img|
    ensures FourWords(c) && |c| == if lo < hi then hi - lo else 0
  {
    seq(if lo < hi then hi - lo else 0, i requires 0 <= i < hi - lo => img[4 * (lo + i)..4 * (lo + i) + 4])
  }

  /** 32-bit subtraction. */
  function Minus(x: word, y: word): word
  {
    (x as int - y as int) % 0x1_0000_0000
  }

  /** What the loader authenticates. */
  function LoaderBlocks(img: seq<word>): (blocks: seq<seq<word>>)
    requires Complete(img)
    ensures FourWords(blocks)
  {
    var aad, size := img[8], img[9];
    [[0xA5A5_A5A5, 0, 0, 0], [0, 0, 0, 0]] + Chunks(img, 2, aad / 16) + Chunks(img, aad / 16, size / 16)
    + [[aad, 0, Minus(size, aad), 0]]
  }

  function LoaderR(chacha: Cipher, key: seq<word>, img: seq<word>): nat
    requires |img| >= 16
  {
    BitAnd(Poly1305.Num4(chacha(key, 0, img[5..8])[..4]), Poly1305.CLAMP)
  }

  function LoaderS(chacha: Cipher, key: seq<word>, img: seq<word>): nat
    requires |img| >= 16
  {
    Poly1305.Num4(chacha(key, 0, img[5..8])[4..8])
  }

  function LoaderTag(chacha: Cipher, key: seq<word>, img: seq<word>): nat
    requires Complete(img)
  {
    var blocks := Poly1305.Nums(LoaderBlocks(img));
    Poly1305.Mod128(Poly1305.AccSpec(LoaderR(chacha, key, img), blocks) + LoaderS(chacha, key, img))
  }

  /** Every whole 64-byte chunk from size_aad on, combined with its key block. */
  function Decrypted(chacha: Cipher, key: seq<word>, img: seq<word>): (p: seq<word>)
    requires Complete(img)
    ensures |p| == |img|
  {
    seq(|img|, j requires 0 <= j < |img| =>
      if img[8] / 64 <= j / 16 < img[9] / 64 then
        XorWord(img[j], chacha(key, j / 16 - img[8] / 64 + 1, img[5..8])[j % 16])
      else img[j])
  }

  /** Feed the chunks lo..hi of the image at words sk..end. */
  method FeedChunks(ctx: Poly1305.PolyContext, mram: array<word>, sk: nat, ghost end: nat, lo: nat, hi: nat,
                    ghost fed: seq<seq<word>>)
    requires ctx.Valid() && mram != ctx.a && mram != ctx.r && mram != ctx.s
    requires sk <= end <= mram.Length && (lo < hi ==> sk + 4 * hi <= end) && FourWords(fed)
    requires ctx.A() == Poly1305.AccSpec(ctx.R(), Poly1305.Nums(fed))
    modifies ctx.a
    ensures ctx.A() == Poly1305.AccSpec(ctx.R(), Poly1305.Nums(fed + Chunks(mram[sk..end], lo, hi)))
  {
    hide Poly1305.AccSpec, Poly1305.Val, Poly1305.Num4, Poly1305.Nums;
    ghost var img := mram[sk..end];
    ChunksEmpty(img, lo, fed);
    hide Chunks;
    var i := lo;
    while i < hi
      invariant lo <= i && (i <= hi || i == lo)
      invariant ctx.A() == Poly1305.AccSpec(ctx.R(), Poly1305.Nums(fed + Chunks(img, lo, i)))
    {
      var buf := mram[sk + 4 * i..sk + 4 * i + 4];
      ctx.FeedBlock(buf);
      assert buf == img[4 * i..4 * i + 4];
      FeedOne(ctx.R(), fed + Chunks(img, lo, i), buf);
      ChunksStep(img, lo, i, fed);
      i := i + 1;
    }
    if lo > hi {
      ChunksEmpty(img, lo, fed);
      ChunksBackward(img, lo, hi);
    }
  }

  lemma ChunksEmpty(img: seq<word>, lo: nat, fed: seq<seq<word>>)
    ensures fed + Chunks(img, lo, lo) == fed && Chunks(img, lo, lo) == []
  {
  }

  lemma ChunksBackward(img: seq<word>, lo: nat, hi: nat)
    requires hi < lo
    ensures Chunks(img, lo, hi) == []
  {
  }

  lemma ChunksStep(img: seq<word>, lo: nat, i: nat, fed: seq<seq<word>>)
    requires lo <= i && 4 * (i + 1) <= |img|
    ensures fed + Chunks(img, lo, i + 1) == fed + Chunks(img, lo, i) + [img[4 * i..4 * i + 4]]
  {
    assert Chunks(img, lo, i + 1) == Chunks(img, lo, i) + [img[4 * i..4 * i + 4]];
  }

  lemma FeedOne(r: nat, fed: seq<seq<word>>, block: seq<word>)
    requires FourWords(fed) && |block| == 4
    ensures Poly1305.AccSpec(r, Poly1305.Nums(fed + [block]))
              == Poly1305.FeedSpec(Poly1305.AccSpec(r, Poly1305.Nums(fed)), r, Poly1305.Num4(block))
  {
    hide Poly1305.FeedSpec, Poly1305.Num4;
    var n := Poly1305.Nums(fed + [block]);
    assert n[..|n| - 1] == Poly1305.Nums(fed);
  }

  /** xor_sk_chunk: read a 64-byte chunk, combine it, write it back. */
  method XorChunk(mram: array<word>, sk: nat, ghost end: nat, chunk: nat, data: seq<word>)
    requires |data| == 16 && sk + 16 * chunk + 16 <= end <= mram.Length
    modifies mram
    ensures mram[..sk] == old(mram[..sk]) && mram[end..] == old(mram[end..])
    ensures mram[sk..end] == ChunkXored(old(mram[sk..end]), chunk, data)
  {
    hide XorWord;
    var at := sk + 16 * chunk;
    for i := 0 to 16
      invariant forall j :: 0 <= j < mram.Length ==>
                  (mram[j] == if at <= j < at + i then XorWord(old(mram[j]), data[j - at]) else old(mram[j]))
    {
      mram[at + i] := XorWord(mram[at + i], data[i]);
    }
    ghost var now, was := mram[sk..end], ChunkXored(old(mram[sk..end]), chunk, data);
    assert |now| == |was| && forall j :: 0 <= j < |now| ==> now[j] == mram[sk + j];
    assert forall j :: 0 <= j < |was| ==> was[j] == mram[sk + j];
  }

  function ChunkXored(img: seq<word>, chunk: nat, data: seq<word>): (r: seq<word>)
    requires |data| == 16
    ensures |r| == |img|
  {
    seq(|img|, j requires 0 <= j < |img| =>
      if 16 * chunk <= j < 16 * chunk + 16 then XorWord(img[j], data[j - 16 * chunk]) else img[j])
  }

  /** The image when the chunks first..i have been decrypted. */
  function DecryptedTo(chacha: Cipher, key: seq<word>, iv: seq<word>, img: seq<word>, first: nat,
                       i: nat): (r: seq<word>)
    requires i < 0xFFFF_FFFF
    ensures |r| == |img|
  {
    seq(|img|, j requires 0 <= j < |img| =>
      if first <= j / 16 < i then XorWord(img[j], chacha(key, j / 16 - first + 1, iv)[j % 16]) else img[j])
  }

  lemma DecryptOne(chacha: Cipher, key: seq<word>, iv: seq<word>, img: seq<word>, first: nat, i: nat)
    requires first <= i < 0xFFFF_FFFE
    ensures DecryptedTo(chacha, key, iv, img, first, i + 1)
              == ChunkXored(DecryptedTo(chacha, key, iv, img, first, i), i, chacha(key, i - first + 1, iv))
  {
    hide XorWord;
    ghost var after := DecryptedTo(chacha, key, iv, img, first, i + 1);
    ghost var xored := ChunkXored(DecryptedTo(chacha, key, iv, img, first, i), i, chacha(key, i - first + 1, iv));
    forall j | 0 <= j < |img| ensures after[j] == xored[j] {
      assert j / 16 == i <==> 16 * i <= j < 16 * i + 16;
    }
  }

  /** The decryption loop of ime_decrypt_verify. */
  method DecryptChunks(chacha: Cipher, key: seq<word>, mram: array<word>, sk: nat, ghost end: nat)
    requires sk <= end <= mram.Length && Complete(mram[sk..end])
    modifies mram
    ensures mram[..sk] == old(mram[..sk]) && mram[end..] == old(mram[end..])
    ensures mram[sk..end] == Decrypted(chacha, key, old(mram[sk..end]))
  {
    hide ChunkXored, DecryptedTo, Decrypted;
    ghost var img := mram[sk..end];
    ChunksInside(img);
    var iv, first, last := mram[sk + 5..sk + 8], mram[sk + 8] / 64, mram[sk + 9] / 64;
    assert iv == img[5..8] && first == img[8] / 64 && last == img[9] / 64;
    DecryptNone(chacha, key, img);
    hide Complete;
    var i := first;
    while i < last
      invariant first <= i && (i <= last || i == first)
      invariant mram[..sk] == old(mram[..sk]) && mram[end..] == old(mram[end..])
      invariant mram[sk..end] == DecryptedTo(chacha, key, iv, img, first, i)
    {
      DecryptOne(chacha, key, iv, img, first, i);
      var chacha_output := chacha(key, i - first + 1, iv);
      XorChunk(mram, sk, end, i, chacha_output);
      i := i + 1;
    }
    assert i == if first <= last then last else first;
    DecryptAll(chacha, key, img);
  }

  lemma ChunksInside(img: seq<word>)
    requires Complete(img)
    ensures 16 * (img[9] / 64) <= |img| && img[8] / 64 < 0x400_0000 && img[9] / 64 < 0x400_0000
  {
  }

  lemma DecryptNone(chacha: Cipher, key: seq<word>, img: seq<word>)
    requires Complete(img)
    ensures DecryptedTo(chacha, key, img[5..8], img, img[8] / 64, img[8] / 64) == img
  {
  }

  lemma DecryptAll(chacha: Cipher, key: seq<word>, img: seq<word>)
    requires Complete(img)
    ensures var first, end := img[8] / 64, img[9] / 64;
            DecryptedTo(chacha, key, img[5..8], img, first, if first <= end then end else first)
              == Decrypted(chacha, key, img)
  {
    hide XorWord;
  }

  /** The tag ime_decrypt_verify computes. */
  method ComputeTag(chacha: Cipher, key: seq<word>, mram: array<word>, sk: nat, ghost end: nat) returns (tag: seq<word>)
    requires sk <= end <= mram.Length && Complete(mram[sk..end])
    ensures |tag| == 4 && Poly1305.Num4(tag) == LoaderTag(chacha, key, mram[sk..end])
  {
    hide Poly1305.AccSpec, Poly1305.Val, Poly1305.Num4, Poly1305.Nums, Poly1305.FeedSpec, Poly1305.Mod128,
      BitAnd, Chunks, LoaderBlocks,
      Poly1305.FromArray;
    ghost var img := mram[sk..end];
    assert |img| >= 16;
    hide Complete;
    var chacha_output := chacha(key, 0, mram[sk + 5..sk + 8]);
    Slices.SliceOfSlice(mram[..], sk, end, 5, 8);
    KeyHalves(chacha_output);
    var ctx := new Poly1305.PolyContext(chacha_output[..8]);
    FeedHeader(ctx);
    FeedBody(ctx, mram, sk, end);
    tag := ctx.Finalize();
  }

  lemma KeyHalves(otk: KeyBlock)
    ensures otk[..8][..4] == otk[..4] && otk[..8][4..] == otk[4..8]
  {
  }

  method FeedHeader(ctx: Poly1305.PolyContext)
    requires ctx.Valid() && ctx.A() == 0
    modifies ctx.a
    ensures ctx.A() == Poly1305.AccSpec(ctx.R(), Poly1305.Nums([[0xA5A5_A5A5, 0, 0, 0], [0, 0, 0, 0]]))
  {
    hide Poly1305.AccSpec, Poly1305.Val, Poly1305.Num4, Poly1305.Nums, Poly1305.FeedSpec;
    var magic, zero := [0xA5A5_A5A5, 0, 0, 0], [0, 0, 0, 0];
    HeaderFed(ctx.R(), magic, zero);
    ctx.FeedBlock(magic);
    ctx.FeedBlock(zero);
  }

  method FeedBody(ctx: Poly1305.PolyContext, mram: array<word>, sk: nat, ghost end: nat)
    requires ctx.Valid() && mram != ctx.a && mram != ctx.r && mram != ctx.s
    requires sk <= end <= mram.Length && Complete(mram[sk..end])
    requires ctx.A() == Poly1305.AccSpec(ctx.R(), Poly1305.Nums([[0xA5A5_A5A5, 0, 0, 0], [0, 0, 0, 0]]))
    modifies ctx.a
    ensures ctx.A() == Poly1305.AccSpec(ctx.R(), Poly1305.Nums(LoaderBlocks(mram[sk..end])))
  {
    hide Poly1305.AccSpec, Poly1305.Val, Poly1305.Num4, Poly1305.Nums, Poly1305.FeedSpec, Chunks;
    ghost var img := mram[sk..end];
    var size_aad, size := mram[sk + 8], mram[sk + 9];
    ghost var fed := [[0xA5A5_A5A5, 0, 0, 0], [0, 0, 0, 0]];
    FeedChunks(ctx, mram, sk, end, 2, size_aad / 16, fed);
    fed := fed + Chunks(img, 2, size_aad / 16);
    FeedChunks(ctx, mram, sk, end, size_aad / 16, size / 16, fed);
    fed := fed + Chunks(img, size_aad / 16, size / 16);
    var length := [size_aad, 0, Minus(size, size_aad), 0];
    FeedOne(ctx.R(), fed, length);
    ctx.FeedBlock(length);
    assert fed + [length] == LoaderBlocks(img);
  }

  /** What lies behind an image in memory has no part in its tag or its decryption. */
  lemma PrefixDecides(chacha: Cipher, key: seq<word>, img: seq<word>, w: seq<word>)
    requires |w| <= |img| && w == img[..|w|] && Complete(w)
    ensures Complete(img) && LoaderTag(chacha, key, img) == LoaderTag(chacha, key, w)
    ensures Decrypted(chacha, key, img)[..|w|] == Decrypted(chacha, key, w)
  {
    hide BitAnd, Poly1305.AccSpec, Poly1305.Num4, Poly1305.Nums, Poly1305.Mod128, XorWord;
    assert img[5..8] == w[5..8] && img[8] == w[8] && img[9] == w[9];
    PrefixChunks(img, w, 2, img[8] / 16);
    PrefixChunks(img, w, img[8] / 16, img[9] / 16);
    hide Chunks;
    assert LoaderBlocks(img) == LoaderBlocks(w);
  }

  lemma PrefixChunks(img: seq<word>, w: seq<word>, lo: nat, hi: nat)
    requires |w| <= |img| && w == img[..|w|] && 4 * hi <= |w|
    ensures Chunks(img, lo, hi) == Chunks(w, lo, hi)
  {
    ghost var a, b := Chunks(img, lo, hi), Chunks(w, lo, hi);
    forall i | 0 <= i < |a| ensures a[i] == b[i] {
    }
  }

  /** ime_decrypt_verify: accept exactly when the tag is right, and only then decrypt in place. */
  method DecryptVerify(chacha: Cipher, key: seq<word>, mram: array<word>, sk: nat, ghost end: nat) returns (ok: bool)
    requires sk <= end <= mram.Length && Complete(mram[sk..end])
    modifies mram
    ensures ok <==> Poly1305.Num4(old(mram[sk..end])[1..5]) == LoaderTag(chacha, key, old(mram[sk..end]))
    ensures mram[..sk] == old(mram[..sk]) && mram[end..] == old(mram[end..])
    ensures mram[sk..end] == if ok then Decrypted(chacha, key, old(mram[sk..end])) else old(mram[sk..end])
  {
    hide Poly1305.Num4, Decrypted, LoaderTag;
    var tag := ComputeTag(chacha, key, mram, sk, end);
    var expected := mram[sk + 1..sk + 5];
    assert expected == mram[sk..end][1..5];
    SameFourWords(tag, expected);
    ok := tag == expected;
    if ok {
      DecryptChunks(chacha, key, mram, sk, end);
    }
  }

  lemma HeaderFed(r: nat, magic: seq<word>, zero: seq<word>)
    requires |magic| == |zero| == 4
    ensures Poly1305.AccSpec(r, Poly1305.Nums([magic, zero]))
              == Poly1305.FeedSpec(Poly1305.FeedSpec(0, r, Poly1305.Num4(magic)), r, Poly1305.Num4(zero))
  {
    hide Poly1305.FeedSpec, Poly1305.Num4;
    FeedNothing(r);
    FeedOne(r, [], magic);
    FeedOne(r, [magic], zero);
    assert [] + [magic] == [magic] && [magic] + [zero] == [magic, zero];
  }

  lemma FeedNothing(r: nat)
    ensures Poly1305.AccSpec(r, Poly1305.Nums([])) == 0
  {
  }

  lemma SameFourWords(a: seq<word>, b: seq<word>)
    requires |a| == |b| == 4
    ensures a == b <==> Poly1305.Num4(a) == Poly1305.Num4(b)
  {
    var a2: nat, b2: nat := a[2] as int + 0x1_0000_0000 * (a[3] as int), b[2] as int + 0x1_0000_0000 * (b[3] as int);
    var a1: nat, b1: nat := a[1] as int + 0x1_0000_0000 * a2, b[1] as int + 0x1_0000_0000 * b2;
    SameLowWord(a[2], a[3], b[2], b[3]);
    SameLowWord(a[1], a2, b[1], b2);
    SameLowWord(a[0], a1, b[0], b1);
  }

  lemma SameLowWord(x: word, u: nat, y: word, v: nat)
    ensures x as int + 0x1_0000_0000 * u == y as int + 0x1_0000_0000 * v <==> x == y && u == v
  {
  }

  // ----- what the loader authenticates is the RFC's input -----

  /** Sizes in whole 16-byte chunks, the header authenticated, and no more words than announced. */
  predicate Aligned(img: seq<word>)
  {
    |img| >= 16 && img[8] % 16 == 0 && img[9] % 16 == 0 && 32 <= img[8] <= img[9] == 4 * |img|
  }

  /** The image as the packer authenticated it: with a zero tag and a zero nonce. */
  function Blanked(img: seq<word>): (b: seq<byte>)
    requires Aligned(img)
    ensures |b| == img[9]
  {
    [0xA5, 0xA5, 0xA5, 0xA5] + Zeros(28) + Bytes.ToBytes(img[8..])
  }

  /** The words of the whole authenticated input. */
  function MacWords(img: seq<word>): (w: seq<word>)
    requires Aligned(img)
    ensures |w| == |img| + 4
  {
    [0xA5A5_A5A5, 0, 0, 0, 0, 0, 0, 0] + img[8..] + [img[8], 0, Minus(img[9], img[8]), 0]
  }

  lemma BlankedWords(img: seq<word>)
    requires Aligned(img)
    ensures ToWords(Blanked(img)) == [0xA5A5_A5A5, 0, 0, 0, 0, 0, 0, 0] + img[8..]
  {
    hide ByteOf;
    hide ToWords, Bytes.ToBytes;
    var head := [0xA5, 0xA5, 0xA5, 0xA5] + Zeros(28);
    HeadWords();
    BytesRoundTrip(img[8..]);
    ToWordsConcat(head, Bytes.ToBytes(img[8..]));
  }

  lemma HeadWords()
    ensures ToWords([0xA5, 0xA5, 0xA5, 0xA5] + Zeros(28)) == [0xA5A5_A5A5, 0, 0, 0, 0, 0, 0, 0]
  {
    hide Word;
    var head := [0xA5, 0xA5, 0xA5, 0xA5] + Zeros(28);
    WordValues();
    assert ToWords(head)[0] == Word(0xA5, 0xA5, 0xA5, 0xA5);
    forall i | 1 <= i < 8 ensures ToWords(head)[i] == 0 {
      assert head[4 * i] == head[4 * i + 1] == head[4 * i + 2] == head[4 * i + 3] == 0;
    }
  }

  lemma WordValues()
    ensures Word(0xA5, 0xA5, 0xA5, 0xA5) == 0xA5A5_A5A5 && Word(0, 0, 0, 0) == 0
  {
  }

  lemma Pad16Whole(b: seq<byte>)
    requires |b| % 16 == 0
    ensures Pad16(b) == b
  {
  }

  /** The input section 2.8 of RFC 8439 builds from the blanked header and section, the ciphertext and their lengths. */
  function RfcInput(img: seq<word>): (d: seq<byte>)
    requires Aligned(img)
    ensures |d| == 4 * |img| + 16 && |d| % 4 == 0
  {
    var b := Blanked(img);
    RfcInputSize(img);
    MacData(b[..img[8]], b[img[8]..])
  }

  lemma RfcInputSize(img: seq<word>)
    requires Aligned(img)
    ensures var n := |MacData(Blanked(img)[..img[8]], Blanked(img)[img[8]..])|;
            n == 4 * |img| + 16 && n % 4 == 0
  {
    hide Pad16, LeBytes, Blanked;
    var b := Blanked(img);
    Pad16Whole(b[..img[8]]);
    Pad16Whole(b[img[8]..]);
    hide Pad16;
    var n := |MacData(b[..img[8]], b[img[8]..])|;
    assert n == |b| + 16;
    Multiple(n, 4, |img| + 4);
  }

  lemma Multiple(n: nat, d: nat, k: nat)
    requires d > 0 && n == k * d
    ensures n % d == 0
  {
    ModUnique(n, d, k, 0);
  }

  /** The same input as words. */
  lemma MacDataWords(img: seq<word>)
    requires Aligned(img)
    ensures ToWords(RfcInput(img)) == MacWords(img)
  {
    hide LeBytes, Bytes.ToBytes, ToWords, Blanked, Pad16;
    var b, n, m := Blanked(img), img[8], Minus(img[9], img[8]);
    Pad16Whole(b[..n]);
    Pad16Whole(b[n..]);
    assert b[..n] + b[n..] == b;
    WordsOfLe64(n);
    WordsOfLe64(m);
    BlankedWords(img);
    ToWordsConcat(LeBytes(n, 8), LeBytes(m, 8));
    ToWordsConcat(b, LeBytes(n, 8) + LeBytes(m, 8));
    assert MacData(b[..n], b[n..]) == b + (LeBytes(n, 8) + LeBytes(m, 8));
    assert MacWords(img) == ToWords(b) + ([n, 0] + [m, 0]);
  }

  /** Block i of the loader is the i-th four of those words. */
  lemma LoaderBlockAt(img: seq<word>, i: nat)
    requires Aligned(img) && i <= |img| / 4
    ensures Complete(img) && |LoaderBlocks(img)| == |img| / 4 + 1
    ensures LoaderBlocks(img)[i] == MacWords(img)[4 * i..4 * i + 4]
  {
    LoaderBlockKinds(img, i);
    MacWordKinds(img, i);
    hide LoaderBlocks, MacWords;
  }

  lemma LoaderBlockKinds(img: seq<word>, i: nat)
    requires Aligned(img) && i <= |img| / 4
    ensures Complete(img) && |LoaderBlocks(img)| == |img| / 4 + 1
    ensures LoaderBlocks(img)[i] ==
            if i == 0 then [0xA5A5_A5A5, 0, 0, 0] else if i == 1 then [0, 0, 0, 0]
            else if i < |img| / 4 then img[4 * i..4 * i + 4]
            else [img[8], 0, Minus(img[9], img[8]), 0]
  {
    hide Minus;
    assert img[9] / 16 == |img| / 4;
  }

  lemma MacWordKinds(img: seq<word>, i: nat)
    requires Aligned(img) && i <= |img| / 4
    ensures MacWords(img)[4 * i..4 * i + 4] ==
            if i == 0 then [0xA5A5_A5A5, 0, 0, 0] else if i == 1 then [0, 0, 0, 0]
            else if i < |img| / 4 then img[4 * i..4 * i + 4]
            else [img[8], 0, Minus(img[9], img[8]), 0]
  {
    hide Minus;
    var w, n := MacWords(img), |img| / 4;
    assert |img| == 4 * n && n >= 2;
    if 2 <= i < n {
      assert forall k :: 8 <= k < |img| ==> w[k] == img[k];
    } else if i == n {
      assert w[|img|..] == [img[8], 0, Minus(img[9], img[8]), 0];
    }
  }

  lemma MacBlockAt(d: seq<byte>, w: seq<word>, n: nat, i: nat)
    requires |d| == 16 * n && |w| == 4 * n && i < n && ToWords(d) == w
    ensures |MacBlocks(d)| == n && MacBlocks(d)[i] == Poly1305.Num4(w[4 * i..4 * i + 4])
  {
    hide LeNum, Poly1305.Num4, ToWords;
    assert |d| / 16 == n;
    var lo := 4 * i;
    ghost var s := d[4 * lo..4 * (lo + 4)];
    assert s == d[16 * i..16 * i + 16];
    LeNumIsNum4(s);
    ToWordsSlice(d, lo, lo + 4);
  }

  /**
   * For every aligned image, the loader's block sequence is the RFC's input.
   */
  lemma LoaderFeedsRfcInput(img: seq<word>)
    requires Aligned(img)
    ensures Complete(img)
    ensures Poly1305.Nums(LoaderBlocks(img)) == MacBlocks(RfcInput(img))
  {
    hide MacBlocks, RfcInput, ToWords, Blanked, MacWords, Poly1305.Num4;
    var d := RfcInput(img);
    MacDataWords(img);
    LoaderBlockAt(img, 0);
    hide LoaderBlocks;
    var n := Poly1305.Nums(LoaderBlocks(img));
    assert |d| == 16 * (|img| / 4 + 1);
    forall i: nat | i < |n| ensures n[i] == MacBlocks(d)[i] {
      LoaderBlockAt(img, i);
      MacBlockAt(d, ToWords(d), |n|, i);
    }
  }

  lemma LoaderKeys(chacha: Cipher, key: seq<word>, img: seq<word>)
    requires |img| >= 16
    ensures LoaderR(chacha, key, img) == R(OneTimeKey(chacha, key, img[5..8])) < Pow2(124)
    ensures LoaderS(chacha, key, img) == S(OneTimeKey(chacha, key, img[5..8])) < Poly1305.TWO128
  {
    hide ToWords, Bytes.ToBytes, LeNum, Poly1305.Num4, BitAnd, Pow2;
    var w := chacha(key, 0, img[5..8]);
    var otk := OneTimeKey(chacha, key, img[5..8]);
    BytesRoundTrip(w);
    ToWordsSlice(otk, 0, 4);
    ToWordsSlice(otk, 4, 8);
    LeNumIsNum4(otk[..16]);
    LeNumIsNum4(otk[16..32]);
    Poly1305.ClampIsRfcClamp(w[..4]);
  }

  /** The assumption of the lazy reduction, for the blocks of this image. */
  ghost predicate NoLazyResidue(chacha: Cipher, key: seq<word>, img: seq<word>)
    requires Complete(img)
  {
    Poly1305.LastProductSmall(LoaderR(chacha, key, img), Poly1305.Nums(LoaderBlocks(img)))
  }

  /** On every aligned image the loader's tag is the RFC 8439 tag exactly when the last product is small. */
  lemma LoaderTagIsRfcTag(chacha: Cipher, key: seq<word>, img: seq<word>)
    requires Aligned(img)
    ensures Complete(img)
    ensures NoLazyResidue(chacha, key, img) <==>
            LoaderTag(chacha, key, img)
              == RfcMac(chacha, key, img[5..8], Blanked(img)[..img[8]], Blanked(img)[img[8]..])
  {
    hide Poly1305.AccSpec, Poly1305.Mod128, Poly1305.RfcTag, Poly1305.Num4, Poly1305.LastProductSmall, R, S, MacBlocks,
      MacData, LoaderBlocks, LoaderR, LoaderS, Blanked, Pow2;
    LoaderFeedsRfcInput(img);
    LoaderKeys(chacha, key, img);
    Poly1305.TagExactIff(LoaderR(chacha, key, img), LoaderS(chacha, key, img), Poly1305.Nums(LoaderBlocks(img)));
  }

  // ----- packing, then loading -----

  /** A package that crypt has not touched yet, small enough to be written out. */
  predicate Fresh(p: Package)
  {
    p.Valid() && p.size < 0x1_0000_0000 && p.mac == Zeros(16) && p.iv == Zeros(12)
  }

  predicate Keyed(key: seq<byte>, nonce: seq<byte>)
  {
    |key| == 32 && |nonce| == 12
  }

  function SealedWords(chacha: Cipher, key: seq<byte>, nonce: seq<byte>, p: Package): (img: seq<word>)
    requires Fresh(p) && Keyed(key, nonce)
  {
    SizesAligned(p);
    ToWords(SealedImage(chacha, key, nonce, p))
  }

  lemma SizesAligned(p: Package)
    requires p.Valid()
    ensures p.size % 64 == 0 && p.sizeAad % 64 == 0 && p.size % 4 == 0 && 64 <= p.sizeAad <= p.size
  {
    var t, d := 1 + 32 * p.textSize, 1 + 32 * p.textSize + 32 * p.dataSize;
    Multiple(64, 64, 1);
    Multiple(64 * t, 64, t);
    Multiple(64 * d, 64, d);
    Multiple(64 * d, 4, 16 * d);
  }

  /** Behind tag and nonce the sealed image is the body with its tail encrypted. */
  lemma SealedParts(chacha: Cipher, key: seq<byte>, nonce: seq<byte>, p: Package)
    requires Fresh(p) && Keyed(key, nonce)
    ensures var b, aad := SealedImage(chacha, key, nonce, p), p.sizeAad;
            && |b| == p.size && 64 <= aad <= p.size
            && b[4..20] == LeBytes(Tag(chacha, key, nonce, p), 16) && b[20..32] == nonce
            && b[32..] == p.Body()[..aad - 32] + Ciphertext(chacha, key, nonce, p)
  {
    hide Tag, Ciphertext, LeBytes, Package.Body;
    SizesAligned(p);
    var q, aad := Sealed(chacha, key, nonce, p), p.sizeAad;
    assert q.Body() == p.Body() by { BodyKept(p, q); }
    var mac, image := q.mac, q.Image();
    assert image == [0xA5, 0xA5, 0xA5, 0xA5] + mac + nonce + p.Body();
    assert image[4..20] == mac && image[20..32] == nonce && image[32..aad] == p.Body()[..aad - 32];
    var b := image[..aad] + Ciphertext(chacha, key, nonce, p);
    assert b[4..20] == image[4..20] && b[20..32] == image[20..32];
    assert b[32..] == image[32..aad] + Ciphertext(chacha, key, nonce, p);
  }

  lemma ImageParts(p: Package)
    requires p.Valid()
    ensures var b, t := p.Image(), 64 + |p.text|;
            t <= |b| && b[64..t] == p.text && b[t..] == p.data && b[64..] == p.text + p.data
  {
    hide LeBytes;
    var header := [0xA5, 0xA5, 0xA5, 0xA5] + p.mac + p.iv + LeBytes(p.sizeAad, 4) + LeBytes(p.size, 4)
                  + LeBytes(p.textSize, 4) + LeBytes(p.dataSize, 4) + Zeros(16);
    assert |header| == 64 && p.Image() == header + p.text + p.data;
  }

  /** The three modes: text and data are in the image in plain, only the data encrypted, or both as one text. */
  lemma ModesExact(chacha: Cipher, key: seq<byte>, nonce: seq<byte>, text: seq<byte>, data: seq<byte>,
                   encText: bool, encData: bool)
    requires (encText ==> encData) && Fresh(Packed(text, data, encText, encData)) && Keyed(key, nonce)
    ensures var p, k, n := Packed(text, data, encText, encData), ToWords(key), ToWords(nonce);
            var b, t, d := SealedImage(chacha, key, nonce, p), Padded(text), Padded(data);
            if encText then b[64..] == Encrypt(chacha, k, n, t + d)
            else b[64..64 + |t|] == t && b[64 + |t|..] == if encData then Encrypt(chacha, k, n, d) else d
  {
    var p := Packed(text, data, encText, encData);
    var q := Sealed(chacha, key, nonce, p);
    hide Tag, LeBytes, Package.Image, Package.Body, Padded, Encrypt, Bytes.ToWords;
    ImageParts(p);
    ImageParts(q);
    var b, aad, c := SealedImage(chacha, key, nonce, p), p.sizeAad, Ciphertext(chacha, key, nonce, p);
    assert b == q.Image()[..aad] + c;
    if encText {
      assert b[64..] == c;
    } else if encData {
      assert b[64..aad] == q.Image()[64..aad] && b[aad..] == c;
    } else {
      assert b == q.Image() + c && c == [] by {
        assert p.Image()[aad..] == [] && q.Image()[..aad] == q.Image();
      }
      assert b == q.Image();
    }
  }

  lemma BodyKept(p: Package, q: Package)
    requires p.Valid() && q == p.(mac := q.mac, iv := q.iv) && q.Valid()
    ensures q.Body() == p.Body()
  {
  }

  lemma BodyHeader(p: Package)
    requires p.Valid() && p.size < 0x1_0000_0000
    ensures p.Body()[..4] == LeBytes(p.sizeAad, 4) && p.Body()[4..8] == LeBytes(p.size, 4)
  {
    hide LeBytes;
  }

  /** The header words the loader will read. */
  lemma SealedHeader(chacha: Cipher, key: seq<byte>, nonce: seq<byte>, p: Package)
    requires Fresh(p) && Keyed(key, nonce)
    ensures var img := SealedWords(chacha, key, nonce, p);
            && 4 * |img| == p.size && |img| >= 16
            && img[8] == p.sizeAad && img[9] == p.size && img[5..8] == ToWords(nonce)
            && Poly1305.Num4(img[1..5]) == Tag(chacha, key, nonce, p)
  {
    hide SealedImage, ToWords, Tag, LeBytes, LeNum, Poly1305.Num4, Package.Body, Ciphertext, Pow2;
    var b, img := SealedImage(chacha, key, nonce, p), SealedWords(chacha, key, nonce, p);
    SizesAligned(p);
    SealedParts(chacha, key, nonce, p);
    ToWordsSlice(b, 1, 5);
    ToWordsSlice(b, 5, 8);
    TagNumber(chacha, key, nonce, p);
    LeNumIsNum4(b[4..20]);
    BodyHeader(p);
    SealedSizes(b, p.Body()[..p.sizeAad - 32], Ciphertext(chacha, key, nonce, p));
    assert p.Body()[..p.sizeAad - 32][..8] == p.Body()[..8];
    assert p.Body()[..8][..4] == p.Body()[..4] && p.Body()[..8][4..8] == p.Body()[4..8];
    ToWordsSlice(b, 8, 9);
    ToWordsSlice(b, 9, 10);
    WordOfLeBytes(p.sizeAad);
    WordOfLeBytes(p.size);
    assert img[8..9][0] == img[8] && img[9..10][0] == img[9];
  }

  lemma SealedSizes(b: seq<byte>, body: seq<byte>, tail: seq<byte>)
    requires |b| >= 32 && b[32..] == body + tail && |body| >= 8
    ensures b[32..36] == body[..8][..4] && b[36..40] == body[..8][4..8]
  {
    forall k | 0 <= k < 8 ensures b[32 + k] == body[k] {
      assert b[32..][k] == body[k];
    }
  }

  lemma TagNumber(chacha: Cipher, key: seq<byte>, nonce: seq<byte>, p: Package)
    requires Fresh(p) && Keyed(key, nonce)
    ensures LeNum(LeBytes(Tag(chacha, key, nonce, p), 16)) == Tag(chacha, key, nonce, p)
  {
    hide LeNum, LeBytes, Pow2, Poly1305.RfcAcc, R, S, MacBlocks, MacData;
    PowersOfTwo();
    LeRoundTrip(Tag(chacha, key, nonce, p), 16);
  }

  /** Blanking the sealed image gives back what crypt authenticated. */
  lemma SealedBlanked(chacha: Cipher, key: seq<byte>, nonce: seq<byte>, p: Package)
    requires Fresh(p) && Keyed(key, nonce)
    ensures var img := SealedWords(chacha, key, nonce, p);
            && Aligned(img)
            && Blanked(img)[..img[8]] == p.Image()[..p.sizeAad]
            && Blanked(img)[img[8]..] == Ciphertext(chacha, key, nonce, p)
  {
    hide SealedImage, ToWords, Bytes.ToBytes, Tag, LeBytes, Package.Body, Ciphertext;
    var b, img, aad := SealedImage(chacha, key, nonce, p), SealedWords(chacha, key, nonce, p), p.sizeAad;
    SizesAligned(p);
    Words64Are16(aad);
    Words64Are16(p.size);
    SealedHeader(chacha, key, nonce, p);
    SealedParts(chacha, key, nonce, p);
    BlankedTail(b, img);
    var head := [0xA5, 0xA5, 0xA5, 0xA5] + Zeros(28);
    var body, ct := p.Body()[..aad - 32], Ciphertext(chacha, key, nonce, p);
    assert Blanked(img) == (head + body) + ct;
    assert p.Image() == head + p.Body() by {
      assert Zeros(16) + Zeros(12) == Zeros(28);
    }
    assert p.Image()[..aad] == head + body;
  }

  lemma Words64Are16(n: nat)
    requires n % 64 == 0
    ensures n % 16 == 0
  {
    Multiple(n, 16, 4 * (n / 64));
  }

  lemma BlankedTail(b: seq<byte>, img: seq<word>)
    requires |b| % 4 == 0 && |b| >= 32 && img == ToWords(b) && Aligned(img)
    ensures Blanked(img) == [0xA5, 0xA5, 0xA5, 0xA5] + Zeros(28) + b[32..]
  {
    hide ToWords, Bytes.ToBytes;
    var n := |b| / 4;
    assert |b| == 4 * n;
    ToWordsSlice(b, 8, n);
    assert b[32..4 * n] == b[32..] && ToWords(b)[8..n] == img[8..];
    WordsRoundTrip(b[32..]);
  }

  /** The loader accepts a packed image exactly when the lazy reduction leaves no residue. */
  lemma SealedAccepted(chacha: Cipher, key: seq<byte>, nonce: seq<byte>, p: Package)
    requires Fresh(p) && Keyed(key, nonce)
    ensures var img := SealedWords(chacha, key, nonce, p);
            && Complete(img) && Aligned(img)
            && (NoLazyResidue(chacha, ToWords(key), img) <==>
                Poly1305.Num4(img[1..5]) == LoaderTag(chacha, ToWords(key), img))
  {
    hide SealedWords, LoaderTag, NoLazyResidue, RfcMac, Blanked, Ciphertext, Poly1305.Num4, ToWords, Package.Image;
    var img := SealedWords(chacha, key, nonce, p);
    SealedHeader(chacha, key, nonce, p);
    SealedBlanked(chacha, key, nonce, p);
    LoaderTagIsRfcTag(chacha, ToWords(key), img);
  }

  lemma CipherWord(t: seq<byte>, c: seq<byte>, ks: word)
    requires |t| == |c| == 4 && forall m :: 0 <= m < 4 ==> c[m] == XorByte(t[m], ByteOf(ks, m))
    ensures XorWord(Word(c[0], c[1], c[2], c[3]), ks) == Word(t[0], t[1], t[2], t[3])
  {
    var k := [ByteOf(ks, 0), ByteOf(ks, 1), ByteOf(ks, 2), ByteOf(ks, 3)];
    WordOfItsBytes(ks);
    XorOfWords(t, k);
    hide Word, XorByte, ByteOf;
    XorTwice(Word(t[0], t[1], t[2], t[3]), ks);
  }

  /** Word and byte positions in the key stream, counted from a 64-byte boundary. */
  lemma StreamPosition(j: nat, first: nat, m: nat)
    requires first <= j / 16 && m < 4
    ensures var q := 4 * j - 64 * first + m;
            q >= 0 && q / 64 == j / 16 - first && q % 64 / 4 == j % 16 && q % 4 == m
  {
    var q, d, r := 4 * j - 64 * first + m, j / 16 - first, j % 16;
    assert q == 64 * d + (4 * r + m);
    ModUnique(q, 64, d, 4 * r + m);
    ModUnique(4 * r + m, 4, r, m);
    ModUnique(q, 4, 16 * d + r, m);
  }

  /** Word j of the decrypted image, in the encrypted part. */
  lemma RecoveredWord(chacha: Cipher, key: seq<byte>, nonce: seq<byte>, p: Package, j: nat)
    requires Fresh(p) && Keyed(key, nonce) && p.sizeAad / 64 <= j / 16 && 4 * j + 4 <= p.size
    requires |SealedWords(chacha, key, nonce, p)| > j
    ensures XorWord(SealedWords(chacha, key, nonce, p)[j],
                    chacha(ToWords(key), j / 16 - p.sizeAad / 64 + 1, ToWords(nonce))[j % 16])
              == Word(p.Image()[4 * j], p.Image()[4 * j + 1], p.Image()[4 * j + 2], p.Image()[4 * j + 3])
  {
    hide Package.Image, Package.Body, KeyStream, XorByte, XorWord, ByteOf, Word, Tag, SealedImage, Ciphertext;
    SizesAligned(p);
    var b, aad, first := SealedImage(chacha, key, nonce, p), p.sizeAad, p.sizeAad / 64;
    assert aad == 64 * first;
    var plain := p.Image();
    var t, c := plain[4 * j..4 * j + 4], b[4 * j..4 * j + 4];
    var ks := chacha(ToWords(key), j / 16 - first + 1, ToWords(nonce))[j % 16];
    forall m | 0 <= m < 4 ensures c[m] == XorByte(t[m], ByteOf(ks, m)) {
      CipherByte(chacha, key, nonce, p, 4 * j + m);
      StreamPosition(j, first, m);
      StreamByte(chacha, ToWords(key), ToWords(nonce), 4 * j + m - aad);
    }
    CipherWord(t, c, ks);
  }

  lemma StreamByte(chacha: Cipher, key: seq<word>, iv: seq<word>, q: nat)
    requires q < 0xFFFF_FFFF
    ensures KeyStream(chacha, key, iv, q) == ByteOf(chacha(key, q / 64 + 1, iv)[q % 64 / 4], q % 4)
  {
  }

  lemma CipherByte(chacha: Cipher, key: seq<byte>, nonce: seq<byte>, p: Package, k: nat)
    requires Fresh(p) && Keyed(key, nonce) && p.sizeAad <= k < p.size
    ensures SealedImage(chacha, key, nonce, p)[k]
              == XorByte(p.Image()[k], KeyStream(chacha, ToWords(key), ToWords(nonce), k - p.sizeAad))
  {
    hide Package.Image, KeyStream, XorByte, Tag;
    assert p.Image()[p.sizeAad..][k - p.sizeAad] == p.Image()[k];
    assert SealedImage(chacha, key, nonce, p)[k] == Ciphertext(chacha, key, nonce, p)[k - p.sizeAad];
  }

  /** Decrypting the packed image gives back the header as sealed, and the padded text and data. */
  lemma SealedRecovered(chacha: Cipher, key: seq<byte>, nonce: seq<byte>, p: Package)
    requires Fresh(p) && Keyed(key, nonce)
    ensures var img := SealedWords(chacha, key, nonce, p);
            && Complete(img)
            && Bytes.ToBytes(Decrypted(chacha, ToWords(key), img)) == Sealed(chacha, key, nonce, p).Image()
  {
    hide Package.Image, Package.Body, SealedWords, XorWord, Word, ByteOf, Tag, Ciphertext, Blanked, Complete, ToWords;
    var img, q := SealedWords(chacha, key, nonce, p), Sealed(chacha, key, nonce, p);
    SealedHeader(chacha, key, nonce, p);
    SealedAccepted(chacha, key, nonce, p);
    SizesAligned(p);
    var plain := Decrypted(chacha, ToWords(key), img);
    forall j: nat | j < |img| ensures 4 * j + 4 <= p.size && plain[j] == WordAt(q.Image(), j) {
      if p.sizeAad / 64 <= j / 16 {
        assert j / 16 < p.size / 64;
        RecoveredWord(chacha, key, nonce, p, j);
        SealedTail(chacha, key, nonce, p, j);
      } else {
        ClearWord(chacha, key, nonce, p, j);
      }
    }
    AllWords(plain, q.Image());
  }

  function WordAt(b: seq<byte>, j: nat): word
    requires 4 * j + 4 <= |b|
  {
    Word(b[4 * j], b[4 * j + 1], b[4 * j + 2], b[4 * j + 3])
  }

  lemma AllWords(w: seq<word>, b: seq<byte>)
    requires |b| == 4 * |w| && forall j: nat :: j < |w| ==> w[j] == WordAt(b, j)
    ensures Bytes.ToBytes(w) == b
  {
    assert |b| % 4 == 0;
    hide Word;
    assert w == ToWords(b);
    WordsRoundTrip(b);
  }

  /** Sealing changes nothing behind tag and nonce. */
  lemma SealedTail(chacha: Cipher, key: seq<byte>, nonce: seq<byte>, p: Package, j: nat)
    requires Fresh(p) && Keyed(key, nonce) && 32 <= 4 * j && 4 * j + 4 <= p.size
    ensures WordAt(Sealed(chacha, key, nonce, p).Image(), j) == WordAt(p.Image(), j)
  {
    hide Package.Body, Word, Tag;
    BodyKept(p, Sealed(chacha, key, nonce, p));
    var b, c := Sealed(chacha, key, nonce, p).Image(), p.Image();
    assert b[32..] == p.Body() == c[32..];
    forall k: nat | 32 <= k < p.size ensures b[k] == c[k] {
      assert b[k] == b[32..][k - 32];
    }
  }

  lemma ClearWord(chacha: Cipher, key: seq<byte>, nonce: seq<byte>, p: Package, j: nat)
    requires Fresh(p) && Keyed(key, nonce) && |SealedWords(chacha, key, nonce, p)| > j && j / 16 < p.sizeAad / 64
    ensures 4 * j + 4 <= p.sizeAad <= p.size
    ensures SealedWords(chacha, key, nonce, p)[j] == WordAt(Sealed(chacha, key, nonce, p).Image(), j)
  {
    hide Package.Image, Package.Body, Word, Tag, Ciphertext;
    SizesAligned(p);
    var b := SealedImage(chacha, key, nonce, p);
    assert b[..p.sizeAad] == Sealed(chacha, key, nonce, p).Image()[..p.sizeAad];
  }

  /**
   * Create, crypt, and ime_decrypt_verify on the result placed at word sk of memory: the image
   * is accepted exactly when the last product is small, and an accepted one becomes the header
   * followed by the padded text and data, with nothing before it changed.
   */
  method PackAndLoad(chacha: Cipher, text: seq<byte>, data: seq<byte>, encText: bool, encData: bool,
                     key: seq<byte>, nonce: seq<byte>, before: seq<word>)
      returns (ok: bool, memory: seq<word>)
    requires (encText ==> encData) && Keyed(key, nonce) && Packed(text, data, encText, encData).size < 0x1_0000_0000
    ensures var p := Packed(text, data, encText, encData);
            var img := SealedWords(chacha, key, nonce, p);
            && Complete(img) && |memory| == |before| + |img| && memory[..|before|] == before
            && (ok <==> NoLazyResidue(chacha, ToWords(key), img))
            && (ok ==> Bytes.ToBytes(memory[|before|..]) == Sealed(chacha, key, nonce, p).Image())
            && (!ok ==> memory[|before|..] == img)
  {
    hide SealedWords, SealedImage, Decrypted, LoaderTag, NoLazyResidue, Poly1305.Num4, ToWords, Bytes.ToBytes, Tag,
      Package.Image;
    ghost var p := Packed(text, data, encText, encData);
    var k := Create(text, data, encText, encData);
    var image := k.value.Crypt(chacha, key, Some(nonce), Zeros(12));
    SizesAligned(p);
    var img := ToWords(image.value);
    assert img == SealedWords(chacha, key, nonce, p) by { SealedWordsAre(chacha, key, nonce, p); }
    SealedAccepted(chacha, key, nonce, p);
    SealedRecovered(chacha, key, nonce, p);
    var all, sk := before + img, |before|;
    assert all[..sk] == before && all[sk..] == img;
    var mram := new word[|all|] (i requires 0 <= i < |all| => all[i]);
    assert mram[..] == all;
    assert mram[..sk] == before && mram[sk..|all|] == img;
    ok := DecryptVerify(chacha, ToWords(key), mram, sk, |all|);
    memory := mram[..];
    assert memory[..sk] == mram[..sk];
    assert |memory| == |all| && memory[sk..] == memory[sk..|all|];
    assert memory[sk..|all|] == mram[sk..|all|];
  }

  lemma SealedWordsAre(chacha: Cipher, key: seq<byte>, nonce: seq<byte>, p: Package)
    requires Fresh(p) && Keyed(key, nonce) && |SealedImage(chacha, key, nonce, p)| % 4 == 0
    ensures SealedWords(chacha, key, nonce, p) == ToWords(SealedImage(chacha, key, nonce, p))
  {
  }

  // ----- the packer's own verification -----

  /** verify_sk_tag: the host decides over the image with tag and nonce blanked. */
  function HostVerify(chacha: Cipher, key: seq<byte>, sk: seq<byte>): bool
    requires |key| == 32 && |sk| >= 36
  {
    var blank := sk[0..4] + Zeros(28) + sk[32..];
    var n := LeNum(sk[32..36]);
    var aad := if n <= |sk| then n else |sk|;
    sk[4..20] == LeBytes(RfcMac(chacha, ToWords(key), ToWords(sk[20..32]), blank[..aad], blank[aad..]), 16)
  }

  lemma {:induction false} LeUnique(b: seq<byte>)
    ensures LeNum(b) < Pow2(8 * |b|) && LeBytes(LeNum(b), |b|) == b
  {
    if b != [] {
      LeUnique(b[1..]);
      ByteRoom(|b|);
      assert LeNum(b) % 256 == b[0] && LeNum(b) / 256 == LeNum(b[1..]);
    }
  }

  /** On an aligned image with the magic word in place the host accepts when the tag is the RFC's. */
  lemma HostAccepts(chacha: Cipher, key: seq<byte>, img: seq<word>)
    requires |key| == 32 && Aligned(img) && img[0] == 0xA5A5_A5A5
    ensures HostVerify(chacha, key, Bytes.ToBytes(img)) <==>
            Poly1305.Num4(img[1..5])
              == RfcMac(chacha, ToWords(key), img[5..8], Blanked(img)[..img[8]], Blanked(img)[img[8]..])
  {
    hide ToWords, Bytes.ToBytes, LeNum, LeBytes, RfcMac, Poly1305.Num4, Pow2, Blanked;
    var sk := Bytes.ToBytes(img);
    BytesRoundTrip(img);
    HostBlank(img);
    ToWordsSlice(sk, 5, 8);
    ToWordsSlice(sk, 1, 5);
    ToWordsSlice(sk, 8, 9);
    LeNumIsNum4(sk[4..20]);
    LeNumIsWord(sk[32..36]);
    assert LeNum(sk[32..36]) == img[8];
    TagBytes(sk[4..20], RfcMac(chacha, ToWords(key), img[5..8], Blanked(img)[..img[8]], Blanked(img)[img[8]..]));
    RfcMacBound(chacha, ToWords(key), img[5..8], Blanked(img)[..img[8]], Blanked(img)[img[8]..]);
  }

  lemma HostBlank(img: seq<word>)
    requires Aligned(img) && img[0] == 0xA5A5_A5A5
    ensures var sk := Bytes.ToBytes(img); sk[0..4] + Zeros(28) + sk[32..] == Blanked(img)
  {
    hide ByteOf;
    var magic: word := 0xA5A5_A5A5;
    assert ByteOf(magic, 0) == ByteOf(magic, 1) == ByteOf(magic, 2) == ByteOf(magic, 3) == 0xA5 by {
      BytesOfWord(0xA5, 0xA5, 0xA5, 0xA5);
    }
    var sk := Bytes.ToBytes(img);
    assert sk[0..4] == [0xA5, 0xA5, 0xA5, 0xA5];
    assert sk[32..] == Bytes.ToBytes(img[8..]);
  }

  lemma LeNumIsWord(b: seq<byte>)
    requires |b| == 4
    ensures [LeNum(b)] == ToWords(b)
  {
    LeNumSplit(b);
    LeNumEmpty();
    assert b[4..] == [];
  }

  lemma TagBytes(b: seq<byte>, t: nat)
    requires |b| == 16
    ensures t < Poly1305.TWO128 ==> (b == LeBytes(t, 16) <==> LeNum(b) == t)
  {
    hide LeNum, LeBytes, Pow2;
    PowersOfTwo();
    LeUnique(b);
    if t < Poly1305.TWO128 {
      LeRoundTrip(t, 16);
    }
  }

  lemma RfcMacBound(chacha: Cipher, key: seq<word>, iv: seq<word>, aad: seq<byte>, ciphertext: seq<byte>)
    ensures RfcMac(chacha, key, iv, aad, ciphertext) < Poly1305.TWO128
  {
    hide Poly1305.RfcAcc, R, S, MacBlocks, MacData;
  }

  /**
   * Host and loader decide alike on every aligned image that has the magic word, honest or
   * not, if the last product is small; otherwise they never both accept.
   */
  lemma HostAndLoaderAgree(chacha: Cipher, key: seq<byte>, img: seq<word>)
    requires |key| == 32 && Aligned(img) && Complete(img) && img[0] == 0xA5A5_A5A5
    ensures var host, loader := HostVerify(chacha, key, Bytes.ToBytes(img)),
                                Poly1305.Num4(img[1..5]) == LoaderTag(chacha, ToWords(key), img);
            if NoLazyResidue(chacha, ToWords(key), img) then host == loader else !(host && loader)
  {
    hide HostVerify, LoaderTag, NoLazyResidue, RfcMac, Poly1305.Num4, ToWords, Blanked;
    HostAccepts(chacha, key, img);
    LoaderTagIsRfcTag(chacha, ToWords(key), img);
  }
}
