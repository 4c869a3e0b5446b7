/**
 * The load path of src/core: ime_replace_sk saves the encrypted image, decrypts it in
 * place, scans its text, moves data and text to WRAM and IRAM, and restores the image.
 * Memories are arrays of 32-bit words; a DMA unit is two words.
 */
module Loader {
  import opened Words
  import Bytes
  import Poly1305
  import Aead
  import opened Slices

  // ----- instructions -----

  function Instruction(low: word, high: word): nat
  {
    low as int + 0x1_0000_0000 * (high as int)
  }

  /** Bits 39.., 20..23 and 0..8. */
  predicate IsLdmai(n: nat)
  {
    n / 0x80_0000_0000 == 0xe0 && n / 0x10_0000 % 16 == 0 && n % 512 == 1
  }

  /** Bits 41.., 39..40 and 28..33. */
  predicate IsThreadCtrl(n: nat)
  {
    n / 0x200_0000_0000 == 0x3e && n / 0x80_0000_0000 % 4 != 0 && n / 0x1000_0000 % 64 == 0x32
  }

  /** The five bits from 39 on, or, when those are 24 or more, bits 44..45 and 39..41 together. */
  predicate IsBannedReg(n: nat)
  {
    var wr := n / 0x80_0000_0000 % 32;
    if wr < 24 then wr == 20 || wr == 21
    else
      var wr := 8 * (n / 0x1000_0000_0000 % 4) + n / 0x80_0000_0000 % 8;
      wr == 20 || wr == 21
  }

  predicate Banned(low: word, high: word)
  {
    var n := Instruction(low, high);
    IsLdmai(n) || IsThreadCtrl(n) || IsBannedReg(n)
  }

  predicate Clean(text: seq<word>)
  {
    forall i: nat, j: nat :: i % 2 == 0 && j == i + 1 && j < |text| ==> !Banned(text[i], text[j])
  }

  // ----- images -----

  const MAGIC: word := 0xA5A5_A5A5
  const CANARY: word := 0xef11_b0d9

  /** Memory d from an image on holds all the text words 10 and 11 announce, in 2048-byte chunks. */
  predicate TextFits(d: seq<word>)
  {
    |d| >= 16 && 16 + 512 * (d[10] as int) <= |d|
  }

  /** And all the data. */
  predicate Fits(d: seq<word>)
  {
    |d| >= 16 && 16 + 512 * (d[10] as int) + 512 * (d[11] as int) <= |d|
  }

  function Text(d: seq<word>): (t: seq<word>)
    requires TextFits(d)
    ensures |t| == 512 * (d[10] as int)
  {
    d[16..16 + 512 * (d[10] as int)]
  }

  function Data(d: seq<word>): (t: seq<word>)
    requires Fits(d)
    ensures |t| == 512 * (d[11] as int)
  {
    d[16 + 512 * (d[10] as int)..16 + 512 * (d[10] as int) + 512 * (d[11] as int)]
  }

  /** How a part of the load ends. Overrun: its next DMA transfer would leave the memory, and the model stops. */
  datatype Outcome = Passed | SecFault | SanityFault | Overrun

  // ----- when the copy loop stops -----

  /** r4 after k rounds of ime_copy_sk_loop: less 8 each time, in 32 bits. */
  function Counter(size: word, k: nat): word
  {
    if k == 0 then size else Aead.Minus(Counter(size, k - 1), 8)
  }

  /** The loop is left after exactly k rounds. */
  ghost predicate StopsAfter(size: word, k: nat)
  {
    k > 0 && Counter(size, k) == 0 && forall j: nat :: 0 < j < k ==> Counter(size, j) != 0
  }

  lemma {:induction false} CounterIs(size: word, k: nat)
    ensures Counter(size, k) == (size - 8 * k) % 0x1_0000_0000
  {
    if k > 0 {
      CounterIs(size, k - 1);
      MinusEight(size, k - 1);
    }
  }

  lemma MinusEight(size: word, k: nat)
    ensures ((size - 8 * k) % 0x1_0000_0000 - 8) % 0x1_0000_0000 == (size - 8 * (k + 1)) % 0x1_0000_0000
  {
  }

  /** Zero after k rounds exactly when 8 * k is the size modulo 2^32. */
  lemma CounterZero(size: word, k: nat)
    ensures Counter(size, k) == 0 <==> exists q: nat :: 8 * k == size + 0x1_0000_0000 * q
  {
    CounterIs(size, k);
    if Counter(size, k) == 0 {
      var q := (8 * k - size) / 0x1_0000_0000;
      assert 8 * k == size + 0x1_0000_0000 * q && q >= 0;
    }
    if q: nat :| 8 * k == size + 0x1_0000_0000 * q {
      var back: int := 0 - (q as int);
      assert size - 8 * k == 0x1_0000_0000 * back;
    }
  }

  /**
   * The exact condition on the counter, for every size: the loop stops if and only if the size
   * is a multiple of 8, then after size / 8 rounds, or 2^29 rounds for size 0.
   */
  lemma StopsExactly(size: word, k: nat)
    ensures StopsAfter(size, k) <==> size % 8 == 0 && k == if size > 0 then size / 8 else 0x2000_0000
  {
    var rounds: nat := if size > 0 then size / 8 else 0x2000_0000;
    if size % 8 == 0 {
      StopsThere(size, rounds);
      OneStop(size, k, rounds);
    } else {
      CounterZero(size, k);
    }
  }

  lemma StopsThere(size: word, k: nat)
    requires size % 8 == 0 && k == if size > 0 then size / 8 else 0x2000_0000
    ensures StopsAfter(size, k)
  {
    CounterZero(size, k);
    assert 8 * k == size + 0x1_0000_0000 * (if size > 0 then 0 else 1);
    forall j: nat | 0 < j < k ensures Counter(size, j) != 0 {
      CounterZero(size, j);
    }
  }

  lemma OneStop(size: word, j: nat, k: nat)
    requires StopsAfter(size, k)
    ensures StopsAfter(size, j) <==> j == k
  {
  }

  /** A copy of `size` bytes comes to its end inside a memory of the given length in words. */
  predicate CopyStops(size: word, src: nat, dst: nat, length: nat)
  {
    size > 0 && size % 8 == 0 && src + size / 4 <= length && dst + size / 4 <= length
  }

  predicate Apart(size: word, src: nat, dst: nat)
  {
    src + size / 4 <= dst || dst + size / 4 <= src
  }

  /** Memory m after k rounds of the copy loop, whether or not source and destination overlap. */
  function CopyRounds(m: seq<word>, src: nat, dst: nat, k: nat): (r: seq<word>)
    requires src + 2 * k <= |m| && dst + 2 * k <= |m|
    ensures |r| == |m|
    decreases k
  {
    if k == 0 then m
    else
      var now := CopyRounds(m, src, dst, k - 1);
      Overwrite(now, dst + 2 * (k - 1), now[src + 2 * (k - 1)..src + 2 * k])
  }

  /** Memory m after the image at src, as long as its header says, has been copied to dst. */
  function WithCopy(m: seq<word>, src: nat, dst: nat): (r: seq<word>)
    requires src + 16 <= |m| && CopyStops(m[src + 9], src, dst, |m|)
    ensures |r| == |m|
  {
    CopyRounds(m, src, dst, m[src + 9] / 8)
  }

  // ----- how each part of a load ends -----

  function DecryptVerdict(chacha: Aead.Cipher, key: seq<word>, tag: Aead.Option<seq<word>>, img: seq<word>): Outcome
    requires |img| >= 16
  {
    if tag.Some? && tag.value != img[1..5] then SecFault
    else if !Aead.Complete(img) then Overrun
    else if Poly1305.Num4(img[1..5]) != Aead.LoaderTag(chacha, key, img) then SecFault
    else Passed
  }

  function ScanVerdict(d: seq<word>): Outcome
    requires |d| >= 16
  {
    if TextFits(d) then if Clean(Text(d)) then Passed else SecFault
    else if Clean(d[16..]) then Overrun
    else SecFault
  }

  /** The memories a load has to fit: words of WRAM, and words of IRAM from the user code's start on. */
  datatype Device = Device(wram: nat, room: nat)

  /** Of the copy to WRAM. */
  function WramVerdict(d: seq<word>, wramLength: nat): Outcome
    requires |d| >= 16
  {
    if d[0] != MAGIC then SanityFault
    else if d[11] > 0 && !(Fits(d) && 512 * (d[11] as int) <= wramLength) then Overrun
    else Passed
  }

  /** Of the copy to IRAM: the jump table takes 1 to 15 chunks, whether or not there is room for them. */
  function IramVerdict(d: seq<word>, room: nat): Outcome
    requires |d| >= 16
  {
    if d[10] == 0 || d[10] >= 16 then SecFault
    else if 512 * (d[10] as int) > room then Overrun
    else Passed
  }

  /** Of both copies. */
  function LoadVerdict(d: seq<word>, device: Device): Outcome
    requires |d| >= 16
  {
    var wram := WramVerdict(d, device.wram);
    if wram != Passed then wram else IramVerdict(d, device.room)
  }

  /** What of the text lands in IRAM: all of it, or the whole chunks there is room for. */
  function Landed(d: seq<word>, room: nat): (t: seq<word>)
    requires TextFits(d)
    ensures |t| <= room && t <= Text(d) && (512 * (d[10] as int) <= room ==> t == Text(d))
  {
    if d[10] as int <= room / 512 then Text(d) else Text(d)[..512 * (room / 512)]
  }

  /** Of everything before those copies, for memory img from the image on, once it has been saved. */
  function AdmitVerdict(chacha: Aead.Cipher, key: seq<word>, tag: Aead.Option<seq<word>>, img: seq<word>,
                        intact: bool): Outcome
    requires |img| >= 16
  {
    var decrypt := DecryptVerdict(chacha, key, tag, img);
    if decrypt != Passed then decrypt
    else
      var scan := ScanVerdict(Aead.Decrypted(chacha, key, img));
      if scan != Passed then scan else if !intact then SecFault else Passed
  }

  /** Of a whole load after the image has been saved, except the copy back. */
  function Verdict(
      chacha: Aead.Cipher, key: seq<word>, tag: Aead.Option<seq<word>>, img: seq<word>, intact: bool,
      device: Device): Outcome
    requires |img| >= 16
  {
    var admit := AdmitVerdict(chacha, key, tag, img, intact);
    if admit != Passed then admit else LoadVerdict(Aead.Decrypted(chacha, key, img), device)
  }

  /** Memory from the image on, once the image is saved and decrypted. */
  function Opened(chacha: Aead.Cipher, key: seq<word>, m: seq<word>, sk: nat, scratch: nat): (d: seq<word>)
    requires sk + 16 <= |m| && CopyStops(m[sk + 9], sk, scratch, |m|)
    requires Aead.Complete(WithCopy(m, sk, scratch)[sk..])
    ensures |d| == |m| - sk
  {
    Aead.Decrypted(chacha, key, WithCopy(m, sk, scratch)[sk..])
  }

  /** Everything but the copy back passes. */
  predicate Loads(chacha: Aead.Cipher, key: seq<word>, tag: Aead.Option<seq<word>>, m: seq<word>, sk: nat, scratch: nat,
                  intact: bool, device: Device)
    requires sk + 16 <= |m|
  {
    && CopyStops(m[sk + 9], sk, scratch, |m|)
    && Verdict(chacha, key, tag, WithCopy(m, sk, scratch)[sk..], intact, device) == Passed
  }

  /** The load gets as far as writing to IRAM: it would pass if there were room for any text. */
  predicate ReachesIram(chacha: Aead.Cipher, key: seq<word>, tag: Aead.Option<seq<word>>, m: seq<word>, sk: nat,
                        scratch: nat, intact: bool, device: Device)
    requires sk + 16 <= |m|
  {
    Loads(chacha, key, tag, m, sk, scratch, intact, device.(room := 512 * 15))
  }

  /** All of memory when the copy back begins. */
  function BeforePop(chacha: Aead.Cipher, key: seq<word>, m: seq<word>, sk: nat, scratch: nat): (m2: seq<word>)
    requires sk + 16 <= |m| && CopyStops(m[sk + 9], sk, scratch, |m|)
    requires Aead.Complete(WithCopy(m, sk, scratch)[sk..])
    ensures |m2| == |m|
  {
    WithCopy(m, sk, scratch)[..sk] + Opened(chacha, key, m, sk, scratch)
  }

  /** A load that passes has reached IRAM, and its whole text has landed there. */
  lemma LoadsReaches(chacha: Aead.Cipher, key: seq<word>, tag: Aead.Option<seq<word>>, m: seq<word>, sk: nat,
                     scratch: nat, intact: bool, device: Device)
    requires sk + 16 <= |m| && Loads(chacha, key, tag, m, sk, scratch, intact, device)
    ensures ReachesIram(chacha, key, tag, m, sk, scratch, intact, device)
    ensures Aead.Complete(WithCopy(m, sk, scratch)[sk..])
    ensures var d := Opened(chacha, key, m, sk, scratch);
            && TextFits(d) && Clean(Text(d)) && 1 <= d[10] <= 15 && 512 * (d[10] as int) <= device.room
            && Landed(d, device.room) == Text(d)
  {
    hide WithCopy, Aead.Decrypted, Aead.Complete, Clean, Text;
  }

  /** How ime_replace_sk ends, for any memory: the copy back goes by the size that scratch then holds. */
  function ReplaceVerdict(chacha: Aead.Cipher, key: seq<word>, tag: Aead.Option<seq<word>>, m: seq<word>,
                          sk: nat, scratch: nat, intact: bool, device: Device): Outcome
    requires sk + 16 <= |m| && scratch + 16 <= |m|
  {
    if !CopyStops(m[sk + 9], sk, scratch, |m|) then Overrun
    else
      var verdict := Verdict(chacha, key, tag, WithCopy(m, sk, scratch)[sk..], intact, device);
      if verdict != Passed then verdict
      else
        var m2 := BeforePop(chacha, key, m, sk, scratch);
        if CopyStops(m2[scratch + 9], scratch, sk, |m|) then Passed else Overrun
  }

  /** What WRAM holds from address 0 on: the data, or the header when there is none. */
  function InWram(d: seq<word>): (t: seq<word>)
    requires |d| >= 16 && (d[11] > 0 ==> Fits(d))
    ensures |t| == if d[11] > 0 then 512 * (d[11] as int) else 16
  {
    if d[11] > 0 then Data(d) else d[..16]
  }

  /** The first n words of the data section. */
  function DataPart(d: seq<word>, n: nat): (t: seq<word>)
    requires |d| >= 16 && 16 + 512 * (d[10] as int) + n <= |d|
    ensures |t| == n
  {
    d[16 + 512 * (d[10] as int)..16 + 512 * (d[10] as int) + n]
  }

  /** Move n words from one memory to another. */
  method Dma(src: array<word>, i: nat, dst: array<word>, j: nat, n: nat)
    requires src != dst && i + n <= src.Length && j + n <= dst.Length
    modifies dst
    ensures dst[..] == Overwrite(old(dst[..]), j, src[i..i + n])
  {
    ghost var was := dst[..];
    assert Overwrite(was, j, src[i..i]) == was;
    hide Overwrite;
    for k := 0 to n
      invariant dst[..] == Overwrite(was, j, src[i..i + k])
    {
      OverwriteMore(was, j, src[i..i + k], src[i + k]);
      assert src[i..i + k + 1] == src[i..i + k] + [src[i + k]];
      ghost var now := dst[..];
      dst[j + k] := src[i + k];
      assert dst[..] == now[j + k := src[i + k]];
    }
  }

  class Machine {
    const iram: array<word>
    const wram: array<word>
    const mram: array<word>

    /** MRAM is 64 MB. */
    predicate Valid()
    {
      iram != wram && iram != mram && wram != mram && wram.Length >= 16 && mram.Length <= 0x100_0000
    }

    constructor (iram: array<word>, wram: array<word>, mram: array<word>)
      requires iram != wram && iram != mram && wram != mram && wram.Length >= 16 && mram.Length <= 0x100_0000
      ensures Valid() && this.iram == iram && this.wram == wram && this.mram == mram
    {
      this.iram, this.wram, this.mram := iram, wram, mram;
    }

    /** What there is for user code that starts at a word of IRAM. */
    function Behind(user: nat): Device
      requires user <= iram.Length
    {
      Device(wram.Length, iram.Length - user)
    }

    /** Two words of MRAM to another place, through WRAM[0..8). */
    method Bounce(r0: nat, r1: nat)
      requires Valid() && r0 + 2 <= mram.Length && r1 + 2 <= mram.Length
      modifies wram, mram
      ensures wram[2..] == old(wram[2..])
      ensures mram[..] == Overwrite(old(mram[..]), r1, old(mram[r0..r0 + 2]))
    {
      Dma(mram, r0, wram, 0, 2);
      assert wram[0..2] == mram[r0..r0 + 2];
      Dma(wram, 0, mram, r1, 2);
    }

    /**
     * ime_copy_sk, for any size: eight bytes at a time until the counter is zero, or until the
     * next transfer would leave the memory.
     */
    method CopySk(src: nat, dst: nat) returns (stopped: bool)
      requires Valid() && src + 16 <= mram.Length
      modifies wram, mram
      ensures stopped <==> CopyStops(old(mram[src + 9]), src, dst, mram.Length)
      ensures stopped ==> wram[..] == old(wram[..])
      ensures stopped ==> mram[..] == WithCopy(old(mram[..]), src, dst)
    {
      hide Overwrite, CopyStops, Progress;
      var r2, r3 := wram[0], wram[1];
      ghost var m, w := mram[..], wram[..];
      wram[0], wram[1] := mram[src + 8], mram[src + 9];
      var r4 := wram[1];
      ghost var size := r4;
      var r0, r1 := src, dst;
      stopped := false;
      ghost var k: nat := 0;
      assert Progress(size, 0, false) by { NoProgress(size); }
      assert dst <= |m| ==> CopyRounds(m, src, dst, 0) == m;
      hide CopyRounds;
      while !stopped && r0 + 2 <= mram.Length && r1 + 2 <= mram.Length
        invariant r0 == src + 2 * k && r1 == dst + 2 * k && r4 == Counter(size, k) && 2 * k <= mram.Length
        invariant Progress(size, k, stopped) && (k > 0 ==> r0 <= mram.Length && r1 <= mram.Length)
        invariant wram[2..] == w[2..]
        invariant src + 2 * k <= mram.Length && dst + 2 * k <= mram.Length ==> mram[..] == CopyRounds(m, src, dst, k)
        decreases mram.Length - 2 * k
      {
        ghost var before := mram[..];
        assert before[r0..r0 + 2] == mram[r0..r0 + 2];
        Bounce(r0, r1);
        RoundStep(m, src, dst, k);
        ProgressStep(size, k);
        r0, r1, r4 := r0 + 2, r1 + 2, Aead.Minus(r4, 8);
        stopped := r4 == 0;
        k := k + 1;
      }
      StopDecides(size, src, dst, mram.Length, k, stopped);
      if stopped {
        wram[0], wram[1] := r2, r3;
        assert wram[..] == w && size / 8 == k;
      }
    }

    /** ime_push_sk: the image is saved to scratch. */
    method PushSk(sk: nat, scratch: nat) returns (stopped: bool)
      requires Valid() && sk + 16 <= mram.Length
      modifies wram, mram
      ensures stopped <==> CopyStops(old(mram[sk + 9]), sk, scratch, mram.Length)
      ensures stopped ==> wram[..] == old(wram[..]) && mram[..] == WithCopy(old(mram[..]), sk, scratch)
    {
      stopped := CopySk(sk, scratch);
    }

    /** ime_pop_sk: what scratch holds goes back, by the size found there. */
    method PopSk(sk: nat, scratch: nat) returns (stopped: bool)
      requires Valid() && scratch + 16 <= mram.Length
      modifies wram, mram
      ensures stopped <==> CopyStops(old(mram[scratch + 9]), scratch, sk, mram.Length)
      ensures stopped ==> wram[..] == old(wram[..]) && mram[..] == WithCopy(old(mram[..]), scratch, sk)
    {
      stopped := CopySk(scratch, sk);
    }

    /** ime_scan_sk: fault on the first banned instruction of the text. */
    method ScanSk(sk: nat) returns (outcome: Outcome)
      requires Valid() && sk + 16 <= mram.Length
      ensures outcome == ScanVerdict(mram[sk..])
    {
      hide Banned;
      ghost var d := mram[sk..];
      ghost var text := d[16..];
      var n: nat := 256 * (mram[sk + 10] as int);
      assert mram[sk + 10] == d[10];
      var i := 0;
      while i < n && sk + 16 + 2 * i + 2 <= mram.Length
        invariant 0 <= i <= n && 2 * i <= |text| && Clean(text[..2 * i])
      {
        assert mram[sk + 16 + 2 * i] == text[2 * i] && mram[sk + 16 + 2 * i + 1] == text[2 * i + 1];
        if Banned(mram[sk + 16 + 2 * i], mram[sk + 16 + 2 * i + 1]) {
          FoundBanned(d, i);
          return SecFault;
        }
        CleanStep(text, i);
        i := i + 1;
      }
      ScannedAll(d, i);
      outcome := if i == n then Passed else Overrun;
    }

    /** ime_load_wram: header check, then the data, from address 0 up. */
    method LoadWram(sk: nat) returns (outcome: Outcome)
      requires Valid() && sk + 16 <= mram.Length && TextFits(mram[sk..])
      modifies wram
      ensures outcome == WramVerdict(mram[sk..], wram.Length)
      ensures outcome == Passed ==> wram[..] == Overwrite(old(wram[..]), 0, InWram(mram[sk..]))
    {
      hide Overwrite, DataPart, InWram, Fits, TextFits;
      ghost var d, w := mram[sk..], wram[..];
      assert |d| >= 16 && 16 + 512 * (d[10] as int) <= |d| by { TextInside(d); }
      Dma(mram, sk, wram, 0, 16);
      HeaderInWram(w, d, wram[..], mram[sk..sk + 16]);
      if wram[0] != MAGIC {
        return SanityFault;
      }
      var r1, r2, r0 := sk + 16 + 512 * (wram[10] as int), wram[11], 0;
      ghost var n: nat := r2;
      ghost var k: nat := 0;
      while r2 != 0 && r1 + 512 <= mram.Length && r0 + 512 <= wram.Length
        invariant r2 == n - k && r0 == 512 * k && r1 == sk + 16 + 512 * (d[10] as int) + 512 * k
        invariant r1 <= mram.Length && r0 <= wram.Length
        invariant wram[..] == Overwrite(w, 0, if k == 0 then d[..16] else DataPart(d, 512 * k))
      {
        ghost var now := wram[..];
        DataAt(mram[..], sk, 512 * k, 512 * k + 512);
        Dma(mram, r1, wram, r0, 512);
        DataMore(w, d, k, now);
        r0, r1, r2 := r0 + 512, r1 + 512, r2 - 1;
        k := k + 1;
      }
      WramFilled(d, w, wram[..], k, r2 == 0);
      outcome := if r2 == 0 then Passed else Overrun;
    }

    /**
     * ime_load_iram: a fault unless text_size is 1 to 15; otherwise that many chunks through the
     * jump table, until the next one would leave IRAM.
     */
    method LoadIram(sk: nat, user: nat) returns (outcome: Outcome)
      requires Valid() && sk + 16 <= mram.Length && TextFits(mram[sk..]) && user <= iram.Length
      modifies wram, iram
      ensures wram[..] == old(wram[..])
      ensures outcome == IramVerdict(mram[sk..], iram.Length - user)
      ensures outcome == SecFault ==> iram[..] == old(iram[..])
      ensures outcome != SecFault ==>
                iram[..] == Overwrite(old(iram[..]), user, Landed(mram[sk..], iram.Length - user))
    {
      hide Overwrite, Landed;
      ghost var d, c, w := mram[sk..], iram[..], wram[..];
      var r0, r1 := wram[0], wram[1];
      wram[0], wram[1] := mram[sk + 10], mram[sk + 11];
      var r2 := wram[0];
      wram[0], wram[1] := r0, r1;
      assert wram[..] == w;
      assert r2 == d[10];
      if r2 == 0 || r2 / 16 != 0 {
        return SecFault;
      }
      var r20, r21 := user, sk + 16;
      var entry := 15 - r2;
      ghost var k: nat := 0;
      OverwriteNothing(c, user, Text(d)[..512 * 0]);
      while entry < 15 && r20 + 512 <= iram.Length
        invariant entry == 15 - r2 + k && k <= r2 && user + 512 * k <= iram.Length
        invariant k < r2 ==> r20 == user + 512 * k && r21 == sk + 16 + 512 * k
        invariant wram[..] == w
        invariant iram[..] == Overwrite(c, user, Text(d)[..512 * k])
      {
        ghost var now := iram[..];
        TextAt(mram[..], sk, 512 * k, 512 * k + 512);
        Dma(mram, r21, iram, r20, 512);
        AppendChunk(c, user, Text(d), k, now);
        if entry < 14 {
          r20, r21 := r20 + 512, r21 + 512;
        }
        entry := entry + 1;
        k := k + 1;
      }
      IramFilled(d, iram.Length - user, k);
      outcome := if entry == 15 then Passed else Overrun;
    }

    /** ime_decrypt_sk: the expected tag, if any, then ime_decrypt_verify. */
    method DecryptSk(chacha: Aead.Cipher, key: seq<word>, tag: Aead.Option<seq<word>>, sk: nat)
        returns (outcome: Outcome)
      requires Valid() && sk + 16 <= mram.Length
      modifies mram
      ensures outcome == DecryptVerdict(chacha, key, tag, old(mram[sk..]))
      ensures mram[..sk] == old(mram[..sk])
      ensures outcome == Passed ==>
                && Aead.Complete(old(mram[sk..]))
                && mram[sk..] == Aead.Decrypted(chacha, key, old(mram[sk..]))
    {
      hide Poly1305.Num4, Aead.LoaderTag, Aead.Decrypted, Aead.Complete;
      ghost var img := mram[sk..];
      assert mram[sk + 1..sk + 5] == img[1..5];
      if tag.Some? && tag.value != mram[sk + 1..sk + 5] {
        return SecFault;
      }
      var memory := mram[sk..];
      if !Aead.Complete(memory) {
        return Overrun;
      }
      assert img == mram[sk..mram.Length];
      var ok := Aead.DecryptVerify(chacha, key, mram, sk, mram.Length);
      assert mram[sk..] == mram[sk..mram.Length];
      outcome := if ok then Passed else SecFault;
    }

    /** The middle of ime_replace_sk, on the saved image: decrypt, scan, check the canary. */
    method Admit(chacha: Aead.Cipher, key: seq<word>, tag: Aead.Option<seq<word>>, sk: nat, frames: seq<word>,
                 canaryAt: nat)
        returns (outcome: Outcome)
      requires Valid() && sk + 16 <= mram.Length && |frames| == wram.Length && canaryAt < wram.Length
      modifies wram, mram
      ensures outcome == AdmitVerdict(chacha, key, tag, old(mram[sk..]), frames[canaryAt] == 0xef11_b0d9)
      ensures outcome == Passed ==>
                && Aead.Complete(old(mram[sk..])) && mram[..sk] == old(mram[..sk])
                && mram[sk..] == Aead.Decrypted(chacha, key, old(mram[sk..]))
                && wram[..] == frames && TextFits(mram[sk..]) && Clean(Text(mram[sk..]))
    {
      hide Aead.Decrypted, Aead.Complete, DecryptVerdict, Clean;
      wram[canaryAt] := CANARY;
      outcome := DecryptSk(chacha, key, tag, sk);
      if outcome != Passed {
        return;
      }
      outcome := ScanSk(sk);
      if outcome != Passed {
        return;
      }
      forall i | 0 <= i < wram.Length { wram[i] := frames[i]; }
      assert wram[..] == frames;
      if wram[canaryAt] != CANARY {
        outcome := SecFault;
      }
    }

    /**
     * ime_replace_sk, for every image. frames is what WRAM holds when the C routines, whose
     * stack it carries, are done; user is where text goes in IRAM, scratch where the image is kept.
     */
    method ReplaceSk(chacha: Aead.Cipher, key: seq<word>, tag: Aead.Option<seq<word>>, sk: nat, scratch: nat, user: nat,
                     frames: seq<word>, canaryAt: nat) returns (outcome: Outcome)
      requires Valid() && sk + 16 <= mram.Length && scratch + 16 <= mram.Length
      requires |frames| == wram.Length && canaryAt < wram.Length && user <= iram.Length
      modifies iram, wram, mram
      ensures outcome == ReplaceVerdict(chacha, key, tag, old(mram[..]), sk, scratch, frames[canaryAt] == 0xef11_b0d9,
                                        Behind(user))
      ensures var m, intact, device :=
                old(mram[..]), frames[canaryAt] == 0xef11_b0d9, Behind(user);
              if ReachesIram(chacha, key, tag, m, sk, scratch, intact, device) then
                var d := Opened(chacha, key, m, sk, scratch);
                Clean(Text(d)) && iram[..] == Overwrite(old(iram[..]), user, Landed(d, device.room))
              else iram[..] == old(iram[..])
      ensures var m := old(mram[..]);
              outcome == Passed ==>
                && Loads(chacha, key, tag, m, sk, scratch, frames[canaryAt] == 0xef11_b0d9,
                         Behind(user))
                && wram[..] == Overwrite(frames, 0, InWram(Opened(chacha, key, m, sk, scratch)))
                && var m2 := BeforePop(chacha, key, m, sk, scratch);
                   CopyStops(m2[scratch + 9], scratch, sk, |m|) && mram[..] == WithCopy(m2, scratch, sk)
      ensures var m := old(mram[..]);
              && Loads(chacha, key, tag, m, sk, scratch, frames[canaryAt] == 0xef11_b0d9,
                       Behind(user))
              && m[sk + 9] >= 40 && Apart(m[sk + 9], sk, scratch)
              ==> outcome == Passed && mram[..] == WithCopy(m, sk, scratch)
    {
      hide Overwrite, WithCopy, Aead.Decrypted, Aead.Complete, Clean, Text, InWram, AdmitVerdict, Landed;
      ghost var m, c0 := mram[..], iram[..];
      var copied := PushSk(sk, scratch);
      if !copied {
        return Overrun;
      }
      ghost var m1 := mram[..];
      ghost var img := m1[sk..];
      assert img == mram[sk..] && m1[..sk] == mram[..sk];
      outcome := Admit(chacha, key, tag, sk, frames, canaryAt);
      if outcome != Passed {
        return;
      }
      ghost var d, m2 := mram[sk..], mram[..];
      assert m2 == m1[..sk] + d && d == Opened(chacha, key, m, sk, scratch);
      outcome := LoadWram(sk);
      if outcome != Passed {
        return;
      }
      assert iram[..] == c0 && mram[sk..] == d;
      outcome := LoadIram(sk, user);
      if outcome != Passed {
        return;
      }
      assert mram[..] == m2 == BeforePop(chacha, key, m, sk, scratch);
      if m[sk + 9] >= 40 && Apart(m[sk + 9], sk, scratch) {
        Restored(chacha, key, m, sk, scratch);
      }
      var restored := PopSk(sk, scratch);
      outcome := if restored then Passed else Overrun;
    }
  }

  // ----- the copy loop -----

  /** Where the counter of a copy inside memory stands after k rounds. */
  predicate Progress(size: word, k: nat, stopped: bool)
  {
    if stopped then size == 8 * k && k > 0 else size > 0 && size % 8 == 0 ==> 8 * k < size
  }

  lemma NoProgress(size: word)
    ensures Progress(size, 0, false)
  {
  }

  lemma ProgressStep(size: word, k: nat)
    requires Progress(size, k, false) && k < 0x80_0000
    ensures Counter(size, k + 1) == Aead.Minus(Counter(size, k), 8)
    ensures Progress(size, k + 1, Counter(size, k + 1) == 0)
  {
    CounterIs(size, k + 1);
    hide Counter;
    if size >= 8 * (k + 1) {
      assert Counter(size, k + 1) == size - 8 * (k + 1);
    } else {
      assert Counter(size, k + 1) == size - 8 * (k + 1) + 0x1_0000_0000;
    }
  }

  lemma StopDecides(size: word, src: nat, dst: nat, length: nat, k: nat, stopped: bool)
    requires Progress(size, k, stopped) && (k > 0 ==> src + 2 * k <= length && dst + 2 * k <= length)
    requires !stopped ==> src + 2 * k + 2 > length || dst + 2 * k + 2 > length
    ensures stopped <==> CopyStops(size, src, dst, length)
    ensures stopped ==> size == 8 * k && k > 0
  {
  }

  lemma RoundStep(m: seq<word>, src: nat, dst: nat, k: nat)
    requires src + 2 * k + 2 <= |m| && dst + 2 * k + 2 <= |m|
    ensures var now, j := CopyRounds(m, src, dst, k), 2 * k;
            CopyRounds(m, src, dst, k + 1) == Overwrite(now, dst + j, now[src + j..src + j + 2])
  {
    hide Overwrite;
  }

  lemma RoundApart(m: seq<word>, src: nat, dst: nat, n: nat, k: nat)
    requires src + n <= |m| && dst + n <= |m| && (src + n <= dst || dst + n <= src) && 2 * k + 2 <= n
    requires CopyRounds(m, src, dst, k) == Overwrite(m, dst, m[src..src + 2 * k])
    ensures CopyRounds(m, src, dst, k + 1) == Overwrite(m, dst, m[src..src + 2 * (k + 1)])
  {
    hide Overwrite, CopyRounds;
    RoundStep(m, src, dst, k);
    OverwriteApart(m, src, dst, n, 2 * k);
  }

  /** Between regions that do not meet, k rounds move 2 * k words. */
  lemma {:induction false} RoundsApart(m: seq<word>, src: nat, dst: nat, n: nat, k: nat)
    requires src + n <= |m| && dst + n <= |m| && (src + n <= dst || dst + n <= src) && 2 * k <= n
    ensures CopyRounds(m, src, dst, k) == Overwrite(m, dst, m[src..src + 2 * k])
    decreases k
  {
    hide Overwrite, CopyRounds;
    if k == 0 {
      NoRounds(m, src, dst);
    } else {
      RoundsApart(m, src, dst, n, k - 1);
      RoundApart(m, src, dst, n, k - 1);
    }
  }

  lemma NoRounds(m: seq<word>, src: nat, dst: nat)
    requires src <= |m| && dst <= |m|
    ensures CopyRounds(m, src, dst, 0) == m == Overwrite(m, dst, m[src..src + 2 * 0])
  {
    OverwriteNothing(m, dst, m[src..src]);
  }

  lemma OverwriteNothing(m: seq<word>, i: nat, t: seq<word>)
    requires i <= |m| && t == []
    ensures Overwrite(m, i, t) == m
  {
  }

  /** Copying two more words after the first k, between regions that do not meet. */
  lemma OverwriteApart(m: seq<word>, src: nat, dst: nat, n: nat, k: nat)
    requires src + n <= |m| && dst + n <= |m| && (src + n <= dst || dst + n <= src) && k + 2 <= n
    ensures var now := Overwrite(m, dst, m[src..src + k]);
            Overwrite(now, dst + k, now[src + k..src + k + 2]) == Overwrite(m, dst, m[src..src + k + 2])
  {
    var now := Overwrite(m, dst, m[src..src + k]);
    assert now[src + k..src + k + 2] == m[src + k..src + k + 2];
    assert m[src..src + k + 2] == m[src..src + k] + m[src + k..src + k + 2];
  }

  /** Saving the image leaves it where it is. */
  lemma Saved(m: seq<word>, sk: nat, scratch: nat)
    requires sk + 16 <= |m| && CopyStops(m[sk + 9], sk, scratch, |m|) && Apart(m[sk + 9], sk, scratch)
    ensures var m1, n := WithCopy(m, sk, scratch), m[sk + 9] / 4;
            m1[sk..sk + n] == m[sk..sk + n] && m1[scratch..scratch + n] == m[sk..sk + n]
  {
    WithCopyIs(m, sk, scratch);
    hide WithCopy, Overwrite;
    var n := m[sk + 9] / 4;
    OverwriteBeside(m, scratch, m[sk..sk + n], sk, sk + n);
    Overwritten(m, scratch, m[sk..sk + n]);
  }

  /** Decryption stops at the image's size. */
  lemma TailUntouched(chacha: Aead.Cipher, key: seq<word>, img: seq<word>, n: nat)
    requires Aead.Complete(img) && n == img[9] / 4 && n <= |img|
    ensures Aead.Decrypted(chacha, key, img)[n..] == img[n..]
  {
    hide Bytes.XorWord;
  }

  /** Writing the saved copy back over the decrypted image leaves memory as it was after saving. */
  lemma Restored(chacha: Aead.Cipher, key: seq<word>, m: seq<word>, sk: nat, scratch: nat)
    requires sk + 16 <= |m| && scratch + 16 <= |m|
    requires CopyStops(m[sk + 9], sk, scratch, |m|) && Apart(m[sk + 9], sk, scratch) && m[sk + 9] >= 40
    requires Aead.Complete(WithCopy(m, sk, scratch)[sk..])
    ensures var m2 := WithCopy(m, sk, scratch)[..sk] + Opened(chacha, key, m, sk, scratch);
            m2[scratch + 9] == m[sk + 9] && WithCopy(m2, scratch, sk) == WithCopy(m, sk, scratch)
  {
    hide Aead.Decrypted, Aead.Complete, Overwrite;
    WithCopyIs(m, sk, scratch);
    hide WithCopy;
    var m1, n := WithCopy(m, sk, scratch), m[sk + 9] / 4;
    var img := m1[sk..];
    var m2 := m1[..sk] + Opened(chacha, key, m, sk, scratch);
    Saved(m, sk, scratch);
    assert img[9] == m1[sk..sk + n][9] == m[sk..sk + n][9];
    TailUntouched(chacha, key, img, n);
    OnlyImageDiffers(m1, m2, sk, n);
    assert m2[scratch..scratch + n] == m1[scratch..scratch + n] == m1[sk..sk + n];
    assert m2[scratch + 9] == m2[scratch..scratch + n][9] == m[sk..sk + n][9];
    PutBack(m1, m2, sk, n);
    WithCopyIs(m2, scratch, sk);
  }

  lemma OnlyImageDiffers(m1: seq<word>, m2: seq<word>, sk: nat, n: nat)
    requires sk + n <= |m1| == |m2| && m2[..sk] == m1[..sk] && m2[sk..][n..] == m1[sk..][n..]
    ensures m2[..sk] == m1[..sk] && m2[sk + n..] == m1[sk + n..]
    ensures forall i :: 0 <= i < |m1| && !(sk <= i < sk + n) ==> m2[i] == m1[i]
  {
    assert m2[sk..][n..] == m2[sk + n..] && m1[sk..][n..] == m1[sk + n..];
    forall i | 0 <= i < |m1| && !(sk <= i < sk + n) ensures m2[i] == m1[i] {
      if i < sk {
        assert m2[i] == m2[..sk][i];
      } else {
        assert m2[i] == m2[sk + n..][i - sk - n];
      }
    }
  }

  /** The copy of an image to a place apart from it. */
  lemma WithCopyIs(m: seq<word>, src: nat, dst: nat)
    requires src + 16 <= |m| && CopyStops(m[src + 9], src, dst, |m|) && Apart(m[src + 9], src, dst)
    ensures WithCopy(m, src, dst) == Overwrite(m, dst, m[src..src + m[src + 9] / 4])
  {
    hide Overwrite;
    var n, k: nat := m[src + 9] / 4, m[src + 9] / 8;
    assert 2 * k == n;
    RoundsApart(m, src, dst, n, k);
  }

  /** Memories that differ only in n words from sk on agree once those are written back. */
  lemma PutBack(m1: seq<word>, m2: seq<word>, sk: nat, n: nat)
    requires sk + n <= |m1| == |m2| && m2[..sk] == m1[..sk] && m2[sk + n..] == m1[sk + n..]
    ensures Overwrite(m2, sk, m1[sk..sk + n]) == m1
  {
    assert m1 == m1[..sk] + m1[sk..sk + n] + m1[sk + n..];
  }

  /**
   * A size below 40 does not cover the size word itself: the saved copy keeps what scratch had
   * there, so the copy back goes by the image's size, whatever scratch held, only from 40 on.
   */
  lemma SavedSize(m: seq<word>, sk: nat, scratch: nat)
    requires sk + 16 <= |m| && scratch + 16 <= |m|
    requires CopyStops(m[sk + 9], sk, scratch, |m|) && Apart(m[sk + 9], sk, scratch)
    ensures WithCopy(m, sk, scratch)[scratch + 9] == if m[sk + 9] >= 40 then m[sk + 9] else m[scratch + 9]
  {
    WithCopyIs(m, sk, scratch);
    hide WithCopy;
  }

  // ----- sections -----

  lemma TextAt(m: seq<word>, sk: nat, a: nat, b: nat)
    requires sk <= |m| && TextFits(m[sk..]) && a <= b <= |Text(m[sk..])|
    ensures sk + 16 + b <= |m| && m[sk + 16 + a..sk + 16 + b] == Text(m[sk..])[a..b]
  {
    var d := m[sk..];
    SliceOfSlice(d, 16, 16 + |Text(d)|, a, b);
    SliceOfSlice(m, sk, |m|, 16 + a, 16 + b);
    assert m[sk..|m|] == d;
  }

  lemma DataAt(m: seq<word>, sk: nat, a: nat, b: nat)
    requires sk <= |m| && TextFits(m[sk..]) && a <= b
    requires sk + 16 + 512 * (m[sk..][10] as int) + b <= |m|
    ensures var at := sk + 16 + 512 * (m[sk..][10] as int);
            m[at + a..at + b] == DataPart(m[sk..], b)[a..]
  {
    var d := m[sk..];
    var first := 16 + 512 * (d[10] as int);
    SliceOfSlice(d, first, first + b, a, b);
    SliceOfSlice(m, sk, |m|, first + a, first + b);
    assert m[sk..|m|] == d && DataPart(d, b)[a..] == DataPart(d, b)[a..b];
  }

  lemma TextInside(d: seq<word>)
    requires TextFits(d)
    ensures |d| >= 16 && 16 + 512 * (d[10] as int) <= |d|
  {
  }

  /** Where the text loop ends: all chunks across, or the next one outside IRAM. */
  lemma IramFilled(d: seq<word>, room: nat, k: nat)
    requires TextFits(d) && 1 <= d[10] <= 15 && k <= d[10] && 512 * k <= room
    requires k < d[10] ==> 512 * k + 512 > room
    ensures k == d[10] <==> IramVerdict(d, room) == Passed
    ensures k < d[10] <==> IramVerdict(d, room) == Overrun
    ensures Landed(d, room) == Text(d)[..512 * k]
  {
  }

  /** Where the data loop ends: all chunks across, or the next one outside the image or WRAM. */
  lemma WramFilled(d: seq<word>, w: seq<word>, now: seq<word>, k: nat, all: bool)
    requires |d| >= 16 && |w| >= 16 && 16 + 512 * (d[10] as int) + 512 * k <= |d| && 512 * k <= |w|
    requires now == Overwrite(w, 0, if k == 0 then d[..16] else DataPart(d, 512 * k))
    requires if all then k == d[11]
             else k < d[11] && (16 + 512 * (d[10] as int) + 512 * k + 512 > |d| || 512 * k + 512 > |w|)
    ensures all <==> (d[11] > 0 ==> Fits(d) && 512 * (d[11] as int) <= |w|)
    ensures all ==> now == Overwrite(w, 0, InWram(d))
  {
    hide Overwrite;
  }

  lemma FoundBanned(d: seq<word>, i: nat)
    requires |d| >= 16 && i < 256 * (d[10] as int) && 16 + 2 * i + 2 <= |d|
    requires Banned(d[16..][2 * i], d[16..][2 * i + 1])
    ensures ScanVerdict(d) == SecFault
  {
    hide Banned;
    NotClean(d[16..], 2 * i, 2 * i + 1);
    if TextFits(d) {
      NotClean(Text(d), 2 * i, 2 * i + 1);
    }
  }

  lemma ScannedAll(d: seq<word>, i: nat)
    requires |d| >= 16 && i <= 256 * (d[10] as int) && 16 + 2 * i <= |d| && Clean(d[16..][..2 * i])
    requires i < 256 * (d[10] as int) ==> 16 + 2 * i + 2 > |d|
    ensures ScanVerdict(d) == if i == 256 * (d[10] as int) then Passed else Overrun
  {
    hide Banned;
    if i == 256 * (d[10] as int) {
      assert Text(d) == d[16..][..2 * i];
    } else {
      OddWordLeft(d[16..], i);
    }
  }

  lemma OddWordLeft(text: seq<word>, i: nat)
    requires 2 * i <= |text| < 2 * i + 2 && Clean(text[..2 * i])
    ensures Clean(text)
  {
    hide Banned;
    forall a: nat, b: nat | a % 2 == 0 && b == a + 1 && b < |text| ensures !Banned(text[a], text[b]) {
      assert text[..2 * i][a] == text[a] && text[..2 * i][b] == text[b];
    }
  }

  lemma NotClean(text: seq<word>, i: nat, j: nat)
    requires i % 2 == 0 && j == i + 1 && j < |text| && Banned(text[i], text[j])
    ensures !Clean(text)
  {
  }

  lemma CleanStep(text: seq<word>, i: nat)
    requires 2 * i + 2 <= |text| && Clean(text[..2 * i]) && !Banned(text[2 * i], text[2 * i + 1])
    ensures Clean(text[..2 * (i + 1)])
  {
    hide Banned;
  }

  lemma HeaderInWram(w: seq<word>, d: seq<word>, w': seq<word>, header: seq<word>)
    requires |d| >= 16 && header == d[..16] && 16 <= |w| && w' == Overwrite(w, 0, header)
    ensures w'[0] == d[0] && w'[10] == d[10] && w'[11] == d[11]
  {
  }

  /** Chunk k of t written behind the first k. */
  lemma AppendChunk(c: seq<word>, i: nat, t: seq<word>, k: nat, now: seq<word>)
    requires 512 * k + 512 <= |t| && i + 512 * k + 512 <= |c| && now == Overwrite(c, i, t[..512 * k])
    ensures Overwrite(now, i + 512 * k, t[512 * k..512 * k + 512]) == Overwrite(c, i, t[..512 * (k + 1)])
  {
    assert t[..512 * (k + 1)] == t[..512 * k] + t[512 * k..512 * k + 512];
  }

  /** The first chunk of data replaces the header. */
  lemma DataMore(w: seq<word>, d: seq<word>, k: nat, now: seq<word>)
    requires |d| >= 16 && |w| >= 16 && 16 + 512 * (d[10] as int) + 512 * (k + 1) <= |d| && 512 * (k + 1) <= |w|
    requires now == Overwrite(w, 0, if k == 0 then d[..16] else DataPart(d, 512 * k))
    ensures Overwrite(now, 512 * k, DataPart(d, 512 * k + 512)[512 * k..])
              == Overwrite(w, 0, DataPart(d, 512 * (k + 1)))
  {
    var t := DataPart(d, 512 * (k + 1));
    assert t == DataPart(d, 512 * k + 512) && |t| == 512 * k + 512;
    if k == 0 {
      hide Overwrite, DataPart;
      Slices.OverwriteAgain(w, d[..16], t);
      assert t[0..] == t;
    } else {
      assert t[..512 * k] == DataPart(d, 512 * k);
      hide Overwrite, DataPart;
      AppendChunk(w, 0, t, k, now);
      assert t[..512 * (k + 1)] == t && t[512 * k..512 * k + 512] == t[512 * k..];
    }
  }

  // ----- packed images -----

  /** Once decrypted, a packed image has the fields and sections its packer put in. */
  lemma PackedImageLoads(chacha: Aead.Cipher, key: seq<Bytes.byte>, nonce: seq<Bytes.byte>, p: Aead.Package)
    requires Aead.Fresh(p) && Aead.Keyed(key, nonce)
    ensures var img := Aead.SealedWords(chacha, key, nonce, p);
            && Aead.Complete(img)
            && var d := Aead.Decrypted(chacha, Bytes.ToWords(key), img);
               && Fits(d) && d[0] == MAGIC && d[10] == p.textSize && d[11] == p.dataSize
               && Bytes.ToBytes(Text(d)) == p.text && Bytes.ToBytes(Data(d)) == p.data
  {
    hide Aead.SealedWords, Aead.Decrypted, Aead.Complete, Aead.Sealed, Bytes.ToWords, Bytes.ToBytes,
      Bytes.Word, Text, Data;
    Aead.SealedRecovered(chacha, key, nonce, p);
    var d := Aead.Decrypted(chacha, Bytes.ToWords(key), Aead.SealedWords(chacha, key, nonce, p));
    SealedKeeps(chacha, key, nonce, p);
    ImageSections(Aead.Sealed(chacha, key, nonce, p), d);
  }

  lemma SealedKeeps(chacha: Aead.Cipher, key: seq<Bytes.byte>, nonce: seq<Bytes.byte>, p: Aead.Package)
    requires Aead.Fresh(p) && Aead.Keyed(key, nonce)
    ensures var q := Aead.Sealed(chacha, key, nonce, p);
            && q.Valid() && q.size < 0x1_0000_0000 && q.textSize == p.textSize && q.dataSize == p.dataSize
            && q.text == p.text && q.data == p.data
  {
  }

  lemma ImageSections(q: Aead.Package, d: seq<word>)
    requires q.Valid() && q.size < 0x1_0000_0000 && Bytes.ToBytes(d) == q.Image()
    ensures Fits(d) && d[0] == MAGIC && d[10] == q.textSize && d[11] == q.dataSize
    ensures Bytes.ToBytes(Text(d)) == q.text && Bytes.ToBytes(Data(d)) == q.data
  {
    hide Bytes.ToBytes, Bytes.ToWords, Aead.LeBytes, Aead.Package.Image;
    var b, t, n := q.Image(), 512 * q.textSize, 512 * q.dataSize;
    assert |b| == 4 * |d| == 4 * (16 + t + n);
    ImageBytes(q);
    HeaderWord(d, 0);
    HeaderWord(d, 10);
    HeaderWord(d, 11);
    Aead.WordOfLeBytes(q.textSize);
    Aead.WordOfLeBytes(q.dataSize);
    MagicWord();
    Bytes.ToBytesSlice(d, 16, 16 + t);
    Bytes.ToBytesSlice(d, 16 + t, 16 + t + n);
  }

  lemma HeaderWord(d: seq<word>, i: nat)
    requires i < |d|
    ensures Bytes.ToWords(Bytes.ToBytes(d)[4 * i..4 * i + 4]) == [d[i]]
  {
    hide Bytes.ToBytes, Bytes.ToWords;
    Bytes.ToBytesSlice(d, i, i + 1);
    Bytes.BytesRoundTrip(d[i..i + 1]);
    assert d[i..i + 1] == [d[i]];
  }

  lemma ImageBytes(q: Aead.Package)
    requires q.Valid()
    ensures var b, t := q.Image(), |q.text|;
            && b[0..4] == [0xA5, 0xA5, 0xA5, 0xA5]
            && b[40..44] == Aead.LeBytes(q.textSize, 4) && b[44..48] == Aead.LeBytes(q.dataSize, 4)
            && b[64..64 + t] == q.text && b[64 + t..] == q.data && b[64 + t..q.size] == q.data
  {
    hide Aead.LeBytes;
    var b, t := q.Image(), |q.text|;
    assert b[64..64 + t] == q.text;
    assert b[64 + t..] == q.data;
    assert b[64 + t..q.size] == b[64 + t..];
  }

  lemma MagicWord()
    ensures Bytes.ToWords([0xA5, 0xA5, 0xA5, 0xA5]) == [MAGIC]
  {
  }

  /** The sections of a packed image do not depend on what lies behind it in memory. */
  lemma SameSections(d: seq<word>, w: seq<word>)
    requires |w| <= |d| && w == d[..|w|] && Fits(w)
    ensures TextFits(w) && Fits(d) && TextFits(d) && Text(d) == Text(w) && Data(d) == Data(w)
    ensures d[0] == w[0] && d[10] == w[10] && d[11] == w[11] && d[1..5] == w[1..5]
  {
  }

  /** The packed image at sk, room for its copy at scratch, apart. */
  predicate Deployed(m: seq<word>, w: seq<word>, sk: nat, scratch: nat)
  {
    && |w| >= 16 && sk + |w| <= |m| && scratch + |w| <= |m| && m[sk..sk + |w|] == w
    && (sk + |w| <= scratch || scratch + |w| <= sk)
  }

  /** Memory from the image on, once saved, begins with the packed image. */
  lemma DeployedSaved(m: seq<word>, w: seq<word>, sk: nat, scratch: nat)
    requires Deployed(m, w, sk, scratch) && w[9] == 4 * |w| && w[9] % 8 == 0
    ensures m[sk + 9] == w[9] >= 64 && CopyStops(w[9], sk, scratch, |m|) && Apart(w[9], sk, scratch)
    ensures var img := WithCopy(m, sk, scratch)[sk..]; |w| <= |img| && img[..|w|] == w
  {
    assert m[sk + 9] == m[sk..sk + |w|][9];
    Saved(m, sk, scratch);
    hide WithCopy;
    var m1 := WithCopy(m, sk, scratch);
    SliceOfSlice(m1, sk, |m1|, 0, |w|);
    assert m1[sk..] == m1[sk..|m1|];
  }

  lemma PackedWords(chacha: Aead.Cipher, key: seq<Bytes.byte>, nonce: seq<Bytes.byte>, p: Aead.Package)
    requires Aead.Fresh(p) && Aead.Keyed(key, nonce)
    ensures var w := Aead.SealedWords(chacha, key, nonce, p);
            |w| >= 16 && w[9] == 4 * |w| && w[9] % 8 == 0 && Aead.Complete(w)
    ensures |p.text| % 4 == 0
  {
    hide Aead.SealedWords, Aead.Complete;
    Aead.SealedHeader(chacha, key, nonce, p);
    Aead.SealedAccepted(chacha, key, nonce, p);
    Aead.SizesAligned(p);
    Aead.Multiple(p.size, 8, 8 * (p.size / 64));
    Aead.Multiple(|p.text|, 4, 512 * p.textSize);
  }

  /** When a packed image passes, over the packer's own terms. */
  ghost predicate Runnable(chacha: Aead.Cipher, key: seq<Bytes.byte>, nonce: seq<Bytes.byte>, p: Aead.Package,
                           tag: Aead.Option<seq<word>>, intact: bool, device: Device)
    requires Aead.Fresh(p) && Aead.Keyed(key, nonce)
  {
    PackedWords(chacha, key, nonce, p);
    && (tag.Some? ==> tag.value == Aead.SealedWords(chacha, key, nonce, p)[1..5])
    && Aead.NoLazyResidue(chacha, Bytes.ToWords(key), Aead.SealedWords(chacha, key, nonce, p))
    && Clean(Bytes.ToWords(p.text)) && intact && 1 <= p.textSize <= 15
    && 512 * p.textSize <= device.room && 512 * p.dataSize <= device.wram
  }

  /** A header that is not to be decrypted is not. */
  lemma HeaderPlain(chacha: Aead.Cipher, key: seq<word>, img: seq<word>)
    requires Aead.Complete(img) && img[8] >= 64
    ensures Aead.Decrypted(chacha, key, img)[..16] == img[..16]
  {
  }

  lemma HeaderSeen(chacha: Aead.Cipher, key: seq<Bytes.byte>, nonce: seq<Bytes.byte>, p: Aead.Package, img: seq<word>)
    requires Aead.Fresh(p) && Aead.Keyed(key, nonce) && Aead.Complete(img)
    requires var w := Aead.SealedWords(chacha, key, nonce, p); 16 <= |w| <= |img| && img[..|w|] == w
    ensures Aead.Decrypted(chacha, Bytes.ToWords(key), img)[..16] == Aead.SealedWords(chacha, key, nonce, p)[..16]
  {
    assert p.sizeAad >= 64 && |img| >= 16;
    hide Aead.SealedWords, Aead.Fresh, Aead.Decrypted, Aead.Complete, Bytes.ToWords, Aead.Package.Valid;
    var w := Aead.SealedWords(chacha, key, nonce, p);
    Aead.SealedHeader(chacha, key, nonce, p);
    assert img[8] == img[..|w|][8] == p.sizeAad;
    HeaderPlain(chacha, Bytes.ToWords(key), img);
    assert img[..16] == img[..|w|][..16];
  }

  /** What the loader sees of a packed image: its tag test, its sections and its sizes. */
  lemma PackedSeen(chacha: Aead.Cipher, key: seq<Bytes.byte>, nonce: seq<Bytes.byte>, p: Aead.Package, img: seq<word>)
    requires Aead.Fresh(p) && Aead.Keyed(key, nonce) && |p.text| % 4 == 0
    requires var w := Aead.SealedWords(chacha, key, nonce, p); |w| <= |img| && img[..|w|] == w
    ensures |img| >= 16 && Aead.Complete(img)
    ensures var w := Aead.SealedWords(chacha, key, nonce, p);
            && |w| >= 16 && Aead.Complete(w) && img[1..5] == w[1..5]
            && (Aead.NoLazyResidue(chacha, Bytes.ToWords(key), w) <==>
                Poly1305.Num4(img[1..5]) == Aead.LoaderTag(chacha, Bytes.ToWords(key), img))
    ensures var d := Aead.Decrypted(chacha, Bytes.ToWords(key), img);
            && TextFits(d) && Fits(d) && d[0] == MAGIC && d[10] == p.textSize && d[11] == p.dataSize
            && Text(d) == Bytes.ToWords(p.text) && Bytes.ToBytes(Data(d)) == p.data
  {
    hide Aead.SealedWords, Aead.LoaderTag, Aead.NoLazyResidue, Aead.Decrypted, Poly1305.Num4, Bytes.ToWords,
      Bytes.ToBytes,
      Aead.Complete, Text, Data, Fits, TextFits;
    var w, k := Aead.SealedWords(chacha, key, nonce, p), Bytes.ToWords(key);
    PackedWords(chacha, key, nonce, p);
    Aead.SealedAccepted(chacha, key, nonce, p);
    Aead.PrefixDecides(chacha, k, img, w);
    assert img[1..5] == w[1..5];
    PackedImageLoads(chacha, key, nonce, p);
    var d, dw := Aead.Decrypted(chacha, k, img), Aead.Decrypted(chacha, k, w);
    SameSections(d, dw);
    Bytes.BytesRoundTrip(Text(dw));
  }

  /**
   * A packed image is loaded and started exactly when the expected tag, if any, is its own, its
   * last product is small, its text is clean, of 1 to 15 chunks and fits IRAM, its data fits WRAM
   * and the canary survives.
   */
  lemma PackedPasses(chacha: Aead.Cipher, key: seq<Bytes.byte>, nonce: seq<Bytes.byte>, p: Aead.Package,
                     tag: Aead.Option<seq<word>>, m: seq<word>, sk: nat, scratch: nat, intact: bool, device: Device)
    requires Aead.Fresh(p) && Aead.Keyed(key, nonce) && |p.text| % 4 == 0
    requires Deployed(m, Aead.SealedWords(chacha, key, nonce, p), sk, scratch)
    ensures sk + 16 <= |m| && scratch + 16 <= |m|
    ensures Runnable(chacha, key, nonce, p, tag, intact, device) <==>
            Loads(chacha, Bytes.ToWords(key), tag, m, sk, scratch, intact, device)
    ensures CopyStops(m[sk + 9], sk, scratch, |m|) && Apart(m[sk + 9], sk, scratch) && m[sk + 9] >= 40
    ensures Aead.Complete(WithCopy(m, sk, scratch)[sk..])
    ensures var d := Opened(chacha, Bytes.ToWords(key), m, sk, scratch);
            && TextFits(d) && Fits(d) && d[11] == p.dataSize
            && Text(d) == Bytes.ToWords(p.text) && Bytes.ToBytes(Data(d)) == p.data
    ensures |Aead.SealedWords(chacha, key, nonce, p)| >= 16
    ensures Opened(chacha, Bytes.ToWords(key), m, sk, scratch)[..16] == Aead.SealedWords(chacha, key, nonce, p)[..16]
  {
    hide Aead.SealedWords, Aead.LoaderTag, Aead.NoLazyResidue, Aead.Decrypted, Poly1305.Num4, Bytes.ToWords,
      Bytes.ToBytes,
      Aead.Complete, Text, Data, WithCopy, Clean, CopyStops, Apart, Fits, TextFits;
    var w := Aead.SealedWords(chacha, key, nonce, p);
    PackedWords(chacha, key, nonce, p);
    DeployedSaved(m, w, sk, scratch);
    PackedSeen(chacha, key, nonce, p, WithCopy(m, sk, scratch)[sk..]);
    HeaderSeen(chacha, key, nonce, p, WithCopy(m, sk, scratch)[sk..]);
  }

  /** Words of the image packed from p. */
  function ImageLength(p: Aead.Package): nat
    requires p.Valid()
  {
    16 + 512 * p.textSize + 512 * p.dataSize
  }

  /** What machine memory holds when a package has been started. */
  ghost predicate Runs(chacha: Aead.Cipher, key: seq<Bytes.byte>, nonce: seq<Bytes.byte>, p: Aead.Package,
                       iram: seq<word>, wram: seq<word>, mram: seq<word>, sk: nat, user: nat)
    requires Aead.Fresh(p) && Aead.Keyed(key, nonce)
  {
    && user + 512 * p.textSize <= |iram| && 512 * p.dataSize <= |wram| && sk + ImageLength(p) <= |mram|
    && Bytes.ToBytes(iram[user..user + 512 * p.textSize]) == p.text
    && Bytes.ToBytes(wram[..512 * p.dataSize]) == p.data
    && (PackedWords(chacha, key, nonce, p);
        p.dataSize == 0 ==> |wram| >= 16 && wram[..16] == Aead.SealedWords(chacha, key, nonce, p)[..16])
    && mram[sk..sk + ImageLength(p)] == Aead.SealedWords(chacha, key, nonce, p)
  }

  lemma RunnableFits(chacha: Aead.Cipher, key: seq<Bytes.byte>, nonce: seq<Bytes.byte>, p: Aead.Package,
                     tag: Aead.Option<seq<word>>, intact: bool, device: Device)
    requires Aead.Fresh(p) && Aead.Keyed(key, nonce) && Runnable(chacha, key, nonce, p, tag, intact, device)
    ensures 1 <= p.textSize <= 15 && 512 * p.textSize <= device.room && 512 * p.dataSize <= device.wram
  {
  }

  /** Deploy the sealed image w of p and load it. */
  method Start(machine: Machine, chacha: Aead.Cipher, key: seq<Bytes.byte>, nonce: seq<Bytes.byte>,
               ghost p: Aead.Package, tag: Aead.Option<seq<word>>,
               w: seq<word>, sk: nat, scratch: nat, user: nat, frames: seq<word>,
               canaryAt: nat) returns (outcome: Outcome)
    requires machine.Valid() && Aead.Fresh(p) && Aead.Keyed(key, nonce)
    requires w == Aead.SealedWords(chacha, key, nonce, p) && |w| == ImageLength(p)
    requires sk + |w| <= machine.mram.Length && scratch + |w| <= machine.mram.Length
    requires sk + |w| <= scratch || scratch + |w| <= sk
    requires |frames| == machine.wram.Length && canaryAt < machine.wram.Length && user <= machine.iram.Length
    modifies machine.iram, machine.wram, machine.mram
    ensures outcome == Passed <==>
            Runnable(chacha, key, nonce, p, tag, frames[canaryAt] == 0xef11_b0d9, machine.Behind(user))
    ensures outcome == Passed ==>
              Runs(chacha, key, nonce, p, machine.iram[..], machine.wram[..], machine.mram[..], sk, user)
  {
    hide Aead.SealedWords, Bytes.ToWords, Bytes.ToBytes, Clean, Text, Data, ReplaceVerdict, Loads, ReachesIram, Opened,
      Overwrite, Runnable, InWram, WithCopy, CopyStops, Apart, BeforePop, Landed;
    PackedWords(chacha, key, nonce, p);
    Store(machine.mram, sk, w);
    ghost var m, c0, intact := machine.mram[..], machine.iram[..], frames[canaryAt] == 0xef11_b0d9;
    assert m[sk..sk + |w|] == w;
    PackedPasses(chacha, key, nonce, p, tag, m, sk, scratch, intact, machine.Behind(user));
    outcome := machine.ReplaceSk(chacha, Bytes.ToWords(key), tag, sk, scratch, user, frames, canaryAt);
    if outcome == Passed {
      ghost var d := Opened(chacha, Bytes.ToWords(key), m, sk, scratch);
      RunnableFits(chacha, key, nonce, p, tag, intact, machine.Behind(user));
      LoadsReaches(chacha, Bytes.ToWords(key), tag, m, sk, scratch, intact, machine.Behind(user));
      Delivered(d, p, c0, machine.iram[..], user, frames, machine.wram[..]);
      ImageStays(m, w, sk, scratch);
    }
  }

  /**
   * Pack, deploy and load: the sub-kernel starts exactly when it is runnable, and then IRAM holds
   * the padded text, WRAM the padded data, and MRAM the image as it was deployed.
   */
  method PackAndStart(machine: Machine, chacha: Aead.Cipher, text: seq<Bytes.byte>, data: seq<Bytes.byte>,
                      encText: bool, encData: bool, key: seq<Bytes.byte>, nonce: seq<Bytes.byte>,
                      tag: Aead.Option<seq<word>>, sk: nat, scratch: nat, user: nat, frames: seq<word>,
                      canaryAt: nat) returns (outcome: Outcome)
    requires machine.Valid() && (encText ==> encData) && Aead.Keyed(key, nonce)
    requires var n := ImageLength(Aead.Packed(text, data, encText, encData));
             && sk + n <= machine.mram.Length && scratch + n <= machine.mram.Length
             && (sk + n <= scratch || scratch + n <= sk)
    requires |frames| == machine.wram.Length && canaryAt < machine.wram.Length && user <= machine.iram.Length
    modifies machine.iram, machine.wram, machine.mram
    ensures var p := Aead.Packed(text, data, encText, encData);
            && Aead.Fresh(p) && p.text == Aead.Padded(text) && p.data == Aead.Padded(data)
            && (outcome == Passed <==>
                Runnable(chacha, key, nonce, p, tag, frames[canaryAt] == 0xef11_b0d9, machine.Behind(user)))
            && (outcome == Passed ==>
                Runs(chacha, key, nonce, p, machine.iram[..], machine.wram[..], machine.mram[..], sk, user))
  {
    hide Aead.SealedWords, Aead.SealedImage, Bytes.ToWords, Bytes.ToBytes, Aead.Tag, Aead.Padded, Runnable, Runs;
    ghost var p := Aead.Packed(text, data, encText, encData);
    var k := Aead.Create(text, data, encText, encData);
    assert p.size == 4 * ImageLength(p);
    var image := k.value.Crypt(chacha, key, Aead.Some(nonce), Aead.Zeros(12));
    Aead.SizesAligned(p);
    var w := Bytes.ToWords(image.value);
    Aead.SealedWordsAre(chacha, key, nonce, p);
    outcome := Start(machine, chacha, key, nonce, p, tag, w, sk, scratch, user, frames, canaryAt);
  }

  /** IRAM and WRAM after a load, against the package. */
  lemma Delivered(d: seq<word>, p: Aead.Package, c0: seq<word>, iram: seq<word>, user: nat, frames: seq<word>,
                  wram: seq<word>)
    requires p.Valid() && TextFits(d) && Fits(d) && d[11] == p.dataSize && |p.text| % 4 == 0
    requires Text(d) == Bytes.ToWords(p.text) && Bytes.ToBytes(Data(d)) == p.data
    requires user + 512 * p.textSize <= |c0| && |Text(d)| == 512 * p.textSize
    requires iram == Overwrite(c0, user, Text(d))
    requires |InWram(d)| <= |frames| && wram == Overwrite(frames, 0, InWram(d))
    ensures user + 512 * p.textSize <= |iram| && 512 * p.dataSize <= |wram|
    ensures Bytes.ToBytes(iram[user..user + 512 * p.textSize]) == p.text
    ensures Bytes.ToBytes(wram[..512 * p.dataSize]) == p.data
    ensures p.dataSize == 0 ==> |wram| >= 16 && wram[..16] == d[..16]
  {
    hide Bytes.ToWords, Bytes.ToBytes;
    Overwritten(c0, user, Text(d));
    Overwritten(frames, 0, InWram(d));
    Bytes.WordsRoundTrip(p.text);
    assert |Text(d)| == 512 * p.textSize;
    hide Overwrite;
    if d[11] > 0 {
      assert wram[..512 * p.dataSize] == wram[0..0 + |InWram(d)|] == Data(d);
    } else {
      assert wram[..512 * p.dataSize] == [] == Data(d);
      assert wram[..16] == wram[0..0 + |InWram(d)|] == d[..16];
    }
  }

  lemma Overwritten(s: seq<word>, i: nat, t: seq<word>)
    requires i + |t| <= |s|
    ensures Overwrite(s, i, t)[i..i + |t|] == t
  {
  }

  lemma ImageStays(m: seq<word>, w: seq<word>, sk: nat, scratch: nat)
    requires Deployed(m, w, sk, scratch) && w[9] == 4 * |w| && w[9] % 8 == 0
    ensures sk + 16 <= |m| && CopyStops(m[sk + 9], sk, scratch, |m|)
    ensures WithCopy(m, sk, scratch)[sk..sk + |w|] == w
  {
    DeployedSaved(m, w, sk, scratch);
    Saved(m, sk, scratch);
    hide WithCopy;
  }

  method Store(mram: array<word>, at: nat, w: seq<word>)
    requires at + |w| <= mram.Length
    modifies mram
    ensures mram[at..at + |w|] == w
  {
    for i := 0 to |w|
      invariant mram[at..at + i] == w[..i]
    {
      mram[at + i] := w[i];
    }
  }

  // ----- what the tag covers -----

  /** Words 8 up to here are among the blocks the loader authenticates. */
  function Authenticated(img: seq<word>): nat
    requires |img| >= 16
  {
    if img[8] >= img[9] then 4 * (img[8] / 16) else 4 * (img[9] / 16)
  }

  /** The same header and the same authenticated blocks: the loader accepts both images or neither. */
  ghost predicate Agree(img: seq<word>, other: seq<word>)
    requires Aead.Complete(img)
  {
    && |other| == |img| && other[..16] == img[..16] && Aead.Complete(other)
    && Aead.LoaderBlocks(other) == Aead.LoaderBlocks(img)
  }

  lemma AgreeAccepted(chacha: Aead.Cipher, key: seq<word>, tag: Aead.Option<seq<word>>, img: seq<word>,
                      other: seq<word>)
    requires Aead.Complete(img) && Agree(img, other)
    ensures DecryptVerdict(chacha, key, tag, other) == DecryptVerdict(chacha, key, tag, img)
  {
    assert |img| >= 16;
    hide Aead.LoaderBlocks, Aead.Complete, Poly1305.Mod128, Poly1305.AccSpec, Poly1305.Nums, Poly1305.Num4, BitAnd;
    assert img[1..5] == img[..16][1..5] && other[1..5] == other[..16][1..5];
    assert img[5..8] == img[..16][5..8] && other[5..8] == other[..16][5..8];
  }

  /** Where the chunk of an authenticated word stands among the blocks. */
  lemma BlockOfWord(img: seq<word>, j: nat)
    requires Aead.Complete(img) && 16 <= j < Authenticated(img)
    ensures var a, i := img[8] / 16, j / 4;
            var at := if i < a || a >= 2 then i else i + 2 - a;
            && at < |Aead.LoaderBlocks(img)| && 4 * i + 4 <= |img|
            && Aead.LoaderBlocks(img)[at] == img[4 * i..4 * i + 4]
  {
  }

  lemma AuthenticatedAgrees(img: seq<word>, other: seq<word>, j: nat)
    requires Aead.Complete(img) && Agree(img, other) && 16 <= j < Authenticated(img)
    ensures j < |img| && other[j] == img[j]
  {
    assert img[8] == img[..16][8] && other[8] == other[..16][8] && img[9] == img[..16][9] && other[9] == other[..16][9];
    BlockOfWord(img, j);
    BlockOfWord(other, j);
    hide Aead.LoaderBlocks;
    var i := j / 4;
    assert img[j] == img[4 * i..4 * i + 4][j - 4 * i] && other[j] == other[4 * i..4 * i + 4][j - 4 * i];
  }

  /** A word behind the authenticated ones can be anything. */
  lemma BehindAgrees(img: seq<word>, j: nat, x: word)
    requires Aead.Complete(img) && 16 <= j < |img| && Authenticated(img) <= j
    ensures Agree(img, img[j := x])
  {
    var other := img[j := x];
    var a, z := img[8] / 16, img[9] / 16;
    SameChunks(img, other, 2, a, j);
    SameChunks(img, other, a, z, j);
    hide Aead.Chunks;
  }

  lemma SameAuthenticated(img: seq<word>, other: seq<word>)
    requires Aead.Complete(img) && Agree(img, other)
    ensures Authenticated(other) == Authenticated(img)
  {
    hide Aead.LoaderBlocks;
    assert img[8] == img[..16][8] && other[8] == other[..16][8] && img[9] == img[..16][9] && other[9] == other[..16][9];
  }

  lemma SameChunks(img: seq<word>, other: seq<word>, lo: nat, hi: nat, j: nat)
    requires j < |img| == |other| && other == img[j := other[j]] && 4 * hi <= j
    ensures Aead.Chunks(other, lo, hi) == Aead.Chunks(img, lo, hi)
  {
    ghost var c, d := Aead.Chunks(img, lo, hi), Aead.Chunks(other, lo, hi);
    forall i | 0 <= i < |c| ensures c[i] == d[i] {
    }
  }

  /** Decryption takes each word on its own. */
  lemma DecryptedWord(chacha: Aead.Cipher, key: seq<word>, img: seq<word>, other: seq<word>, j: nat)
    requires Aead.Complete(img) && Agree(img, other) && j < |img| && other[j] == img[j]
    ensures Aead.Decrypted(chacha, key, other)[j] == Aead.Decrypted(chacha, key, img)[j]
  {
    hide Bytes.XorWord, Aead.LoaderBlocks;
    assert img[8] == img[..16][8] && other[8] == other[..16][8] && img[9] == img[..16][9] && other[9] == other[..16][9];
    assert img[5..8] == img[..16][5..8] && other[5..8] == other[..16][5..8];
  }

  /** And no word behind the authenticated ones is encrypted. */
  lemma BehindIsPlain(chacha: Aead.Cipher, key: seq<word>, img: seq<word>, j: nat)
    requires Aead.Complete(img) && Authenticated(img) <= j < |img|
    ensures Aead.Decrypted(chacha, key, img)[j] == img[j]
  {
    hide Bytes.XorWord;
    BehindSections(img[8], img[9], j);
  }

  lemma BehindSections(aad: word, size: word, j: nat)
    requires (if aad >= size then 4 * (aad / 16) else 4 * (size / 16)) <= j
    ensures !(aad / 64 <= j / 16 < size / 64)
  {
    var a, z, c, at := (aad / 64) as nat, (size / 64) as nat, (size / 16) as nat, j / 16;
    assert 64 * z <= size as int < 16 * c + 16 && aad as int < 64 * a + 64 && j < 16 * at + 16;
    if aad >= size {
      assert z < a + 1;
    } else {
      assert 4 * z < c + 1;
      assert z < at + 1;
    }
  }

  /** The tag decides the text: every image that agrees with this one has the same text section. */
  ghost predicate TextDecided(chacha: Aead.Cipher, key: seq<word>, img: seq<word>)
    requires Aead.Complete(img) && TextFits(Aead.Decrypted(chacha, key, img))
  {
    forall other: seq<word> :: Aead.Complete(img) && Agree(img, other) ==>
      SameText(Aead.Decrypted(chacha, key, img), Aead.Decrypted(chacha, key, other))
  }

  predicate SameText(d: seq<word>, other: seq<word>)
    requires TextFits(d) && |other| == |d|
  {
    other[16..16 + |Text(d)|] == Text(d)
  }

  /**
   * The exact condition under which what goes to IRAM was covered by the tag, for every image: an
   * empty text, or one that ends within the authenticated chunks. The loader does not compare the
   * two, so an image may announce more text than its size.
   */
  lemma TextDecidedExactly(chacha: Aead.Cipher, key: seq<word>, img: seq<word>)
    requires Aead.Complete(img) && TextFits(Aead.Decrypted(chacha, key, img))
    ensures TextDecided(chacha, key, img) <==>
            var n := |Text(Aead.Decrypted(chacha, key, img))|; n == 0 || 16 + n <= Authenticated(img)
  {
    hide Aead.Decrypted, Aead.LoaderBlocks, Authenticated, Aead.Complete;
    var d := Aead.Decrypted(chacha, key, img);
    var n, c := |Text(d)|, Authenticated(img);
    if n == 0 || 16 + n <= c {
      forall other: seq<word> | Agree(img, other) ensures SameText(d, Aead.Decrypted(chacha, key, other)) {
        CoveredText(chacha, key, img, other, n);
      }
    } else {
      var j := if c < 16 then 16 else c;
      var other := img[j := if img[j] == 0 then 1 else 0];
      BehindAgrees(img, j, other[j]);
      BehindIsPlain(chacha, key, img, j);
      SameAuthenticated(img, other);
      BehindIsPlain(chacha, key, other, j);
      var e := Aead.Decrypted(chacha, key, other);
      assert Text(d)[j - 16] == d[j] && e[16..16 + n][j - 16] == e[j];
      assert !SameText(d, e);
    }
  }

  lemma CoveredText(chacha: Aead.Cipher, key: seq<word>, img: seq<word>, other: seq<word>, n: nat)
    requires Aead.Complete(img) && Agree(img, other) && TextFits(Aead.Decrypted(chacha, key, img))
    requires n == |Text(Aead.Decrypted(chacha, key, img))| && (n == 0 || 16 + n <= Authenticated(img))
    ensures SameText(Aead.Decrypted(chacha, key, img), Aead.Decrypted(chacha, key, other))
  {
    assert |other| == |img| && Aead.Complete(other);
    var d, e := Aead.Decrypted(chacha, key, img), Aead.Decrypted(chacha, key, other);
    hide Aead.Decrypted, Aead.LoaderBlocks, Authenticated, Aead.Complete, Agree;
    forall j: nat | 16 <= j < 16 + n ensures e[j] == d[j] {
      AuthenticatedAgrees(img, other, j);
      DecryptedWord(chacha, key, img, other, j);
    }
  }

  /** The text of a packed image is always covered. */
  lemma PackedTextDecided(chacha: Aead.Cipher, key: seq<Bytes.byte>, nonce: seq<Bytes.byte>, p: Aead.Package)
    requires Aead.Fresh(p) && Aead.Keyed(key, nonce)
    ensures var w := Aead.SealedWords(chacha, key, nonce, p);
            && Aead.Complete(w) && TextFits(Aead.Decrypted(chacha, Bytes.ToWords(key), w))
            && TextDecided(chacha, Bytes.ToWords(key), w)
  {
    assert p.sizeAad <= p.size == 64 + 2048 * p.textSize + 2048 * p.dataSize;
    hide Aead.SealedWords, Aead.Decrypted, Aead.Complete, Bytes.ToWords, Bytes.ToBytes, TextDecided, Aead.Package.Valid,
      Aead.Fresh, Text, Data, Authenticated;
    var w := Aead.SealedWords(chacha, key, nonce, p);
    PackedImageLoads(chacha, key, nonce, p);
    Aead.SealedHeader(chacha, key, nonce, p);
    TextDecidedExactly(chacha, Bytes.ToWords(key), w);
    PackedSections(w, p.textSize, p.dataSize);
  }

  lemma PackedSections(img: seq<word>, text: nat, data: nat)
    requires |img| >= 16 && img[8] as int <= img[9] as int == 64 + 2048 * text + 2048 * data
    ensures 16 + 512 * text <= Authenticated(img)
  {
    Aead.Multiple(img[9] as int, 16, 4 + 128 * text + 128 * data);
  }

  // ----- the device -----

  /** 4096 instructions of IRAM and 64 KB of WRAM; user code starts at instruction 1024. */
  const IRAM: nat := 8192
  const WRAM: nat := 16384
  const USER: nat := 2048
  const DEVICE: Device := Device(16384, 6144)

  lemma DeviceRoom()
    ensures DEVICE == Device(WRAM, IRAM - USER) && DEVICE.room == 12 * 512
  {
  }

  /**
   * The exact condition on the device: the guard of ime_load_iram admits 1 to 15 chunks, of which
   * 1 to 12 fit behind the user code's start; 13 to 15 run past the end of IRAM.
   */
  lemma DeviceTextExact(d: seq<word>)
    requires |d| >= 16
    ensures IramVerdict(d, DEVICE.room) == Passed <==> 1 <= d[10] <= 12
    ensures IramVerdict(d, DEVICE.room) == Overrun <==> 13 <= d[10] <= 15
    ensures TextFits(d) && 13 <= d[10] <= 15 ==> |Landed(d, DEVICE.room)| == 12 * 512
  {
    DeviceRoom();
    hide Text;
  }

  /** A package of n chunks of zero words, which are no banned instructions, and no data. */
  function ZeroPackage(n: nat): (p: Aead.Package)
    ensures p == Aead.Packed(Aead.Zeros(2048 * n), [], false, false)
  {
    Aead.Packed(Aead.Zeros(2048 * n), [], false, false)
  }

  lemma ZeroPackageIs(n: nat)
    requires n <= 15
    ensures var p := ZeroPackage(n); Aead.Fresh(p) && p.textSize == n && p.dataSize == 0 && |p.text| % 4 == 0
    ensures Clean(Bytes.ToWords(ZeroPackage(n).text))
  {
    var b := Aead.Zeros(2048 * n);
    Aead.Multiple(2048 * n, 2048, n);
    Aead.Multiple(2048 * n, 4, 512 * n);
    ZeroClean(b, n);
    hide Clean, Bytes.ToWords;
    assert Aead.Padded(b) == b && Aead.Padded([]) == [];
  }

  lemma ZeroClean(b: seq<Bytes.byte>, n: nat)
    requires b == Aead.Zeros(2048 * n) && |b| % 4 == 0
    ensures Clean(Bytes.ToWords(b))
  {
    ZeroWords(512 * n);
    Bytes.BytesRoundTrip(Nulls(512 * n));
    hide Bytes.ToWords, Bytes.ToBytes, Banned, Nulls;
    assert Bytes.ToBytes(Nulls(512 * n)) == b;
    ZeroAllowed();
  }

  function Nulls(n: nat): (w: seq<word>)
    ensures |w| == n && forall i :: 0 <= i < n ==> w[i] == 0
  {
    seq(n, _ => 0)
  }

  lemma ZeroWords(n: nat)
    ensures Bytes.ToBytes(Nulls(n)) == Aead.Zeros(4 * n)
  {
    var b := Bytes.ToBytes(Nulls(n));
    forall j | 0 <= j < 4 * n ensures b[j] == 0 {
      assert b[j] == Bytes.ByteOf(0, j % 4);
    }
  }

  lemma ZeroAllowed()
    ensures !Banned(0, 0)
  {
  }

  /**
   * Thirteen chunks of harmless text on the device: every check passes, and still the load does
   * not; with twelve it does. Both under the same condition on the tag.
   */
  lemma ThirteenChunksOverrun(chacha: Aead.Cipher, key: seq<Bytes.byte>, nonce: seq<Bytes.byte>,
                              m: seq<word>, sk: nat, scratch: nat, n: nat)
    requires Aead.Keyed(key, nonce) && 1 <= n <= 15 && Aead.Fresh(ZeroPackage(n))
    requires Deployed(m, Aead.SealedWords(chacha, key, nonce, ZeroPackage(n)), sk, scratch)
    ensures Aead.Complete(Aead.SealedWords(chacha, key, nonce, ZeroPackage(n)))
    ensures sk + 16 <= |m| && scratch + 16 <= |m|
    ensures Aead.NoLazyResidue(chacha, Bytes.ToWords(key), Aead.SealedWords(chacha, key, nonce, ZeroPackage(n))) ==>
              && ReachesIram(chacha, Bytes.ToWords(key), Aead.None, m, sk, scratch, true, DEVICE)
              && (Loads(chacha, Bytes.ToWords(key), Aead.None, m, sk, scratch, true, DEVICE) <==> n <= 12)
              && (n >= 13 ==>
                    ReplaceVerdict(chacha, Bytes.ToWords(key), Aead.None, m, sk, scratch, true, DEVICE) == Overrun)
  {
    hide Aead.SealedWords, Aead.NoLazyResidue, Bytes.ToWords, Clean, Aead.Complete, ZeroPackage, Text, Data, Opened,
      WithCopy, Deployed;
    var p := ZeroPackage(n);
    ZeroPackageIs(n);
    PackedWords(chacha, key, nonce, p);
    PackedPasses(chacha, key, nonce, p, Aead.None, m, sk, scratch, true, DEVICE);
    PackedPasses(chacha, key, nonce, p, Aead.None, m, sk, scratch, true, DEVICE.(room := 512 * 15));
  }
}
