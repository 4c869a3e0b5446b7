/**
 * What the loader admits, said without its own checks: instructions composed from their fields,
 * and the words of the image against the outcome of a whole load.
 */
module Admission {
  import opened Words
  import Poly1305
  import Aead
  import Loader
  import Slices

  // ----- instructions by their fields -----

  /**
   * Forms of an instruction, highest field first. Single and Pair are the two ways to name a
   * destination register: in the five bits from 39 on, or, with the upper two of those set, in
   * bits 44..45 and 39..41.
   */
  datatype Form =
    | Single(rest: nat, register: nat, low: nat)
    | Pair(rest: nat, upper: nat, lower: nat, low: nat)
    | Ldmai(opcode: nat, mid: nat, zero: nat, size: nat, suffix: nat)
    | Thread(opcode: nat, kind: nat, mid: nat, operation: nat, low: nat)
  {
    predicate Valid()
    {
      match this
      case Single(_, register, low) => register < 24 && low < 0x80_0000_0000
      case Pair(_, upper, lower, low) => upper < 4 && lower < 8 && low < 0x80_0000_0000
      case Ldmai(_, mid, zero, size, suffix) => mid < 0x8000 && zero < 16 && size < 0x800 && suffix < 512
      case Thread(_, kind, mid, operation, low) => kind < 4 && mid < 32 && operation < 64 && low < 0x1000_0000
    }

    function Number(): nat
    {
      match this
      case Single(rest, register, low) => 0x1000_0000_0000 * rest + 0x80_0000_0000 * register + low
      case Pair(rest, upper, lower, low) =>
        0x4000_0000_0000 * rest + 0x1000_0000_0000 * upper + 0xC00_0000_0000 + 0x80_0000_0000 * lower + low
      case Ldmai(opcode, mid, zero, size, suffix) =>
        0x80_0000_0000 * opcode + 0x100_0000 * mid + 0x10_0000 * zero + 0x200 * size + suffix
      case Thread(opcode, kind, mid, operation, low) =>
        0x200_0000_0000 * opcode + 0x80_0000_0000 * kind + 0x4_0000_0000 * mid + 0x1000_0000 * operation + low
    }

    /** Registers 20 and 21 as destination, ldmai, and the instructions that control threads. */
    predicate Forbidden()
    {
      match this
      case Single(_, register, _) => register == 20 || register == 21
      case Pair(_, upper, lower, _) => 8 * upper + lower == 20 || 8 * upper + lower == 21
      case Ldmai(opcode, _, zero, _, suffix) => opcode == 0xe0 && zero == 0 && suffix == 1
      case Thread(opcode, kind, _, operation, _) => opcode == 0x3e && kind > 0 && operation == 0x32
    }
  }

  /** The instruction can be read as a forbidden form. */
  ghost predicate Harmful(n: nat)
  {
    exists f: Form :: f.Valid() && f.Forbidden() && f.Number() == n
  }

  lemma SingleExact(n: nat, rest: nat, register: nat, low: nat)
    requires Single(rest, register, low).Valid() && n == Single(rest, register, low).Number()
    ensures Loader.IsBannedReg(n) <==> register == 20 || register == 21
  {
    var top := n / 0x80_0000_0000;
    ModUnique(n, 0x80_0000_0000, 32 * rest + register, low);
    ModUnique(top, 32, rest, register);
  }

  lemma PairExact(n: nat, rest: nat, upper: nat, lower: nat, low: nat)
    requires Pair(rest, upper, lower, low).Valid() && n == Pair(rest, upper, lower, low).Number()
    ensures Loader.IsBannedReg(n) <==> 8 * upper + lower == 20 || 8 * upper + lower == 21
  {
    var top := n / 0x80_0000_0000;
    ModUnique(n, 0x80_0000_0000, 128 * rest + 32 * upper + 24 + lower, low);
    ModUnique(top, 32, 4 * rest + upper, 24 + lower);
    ModUnique(top, 8, 16 * rest + 4 * upper + 3, lower);
    ModUnique(n, 0x1000_0000_0000, 4 * rest + upper, 0xC00_0000_0000 + 0x80_0000_0000 * lower + low);
    ModUnique(n / 0x1000_0000_0000, 4, rest, upper);
  }

  lemma LdmaiExact(n: nat, opcode: nat, mid: nat, zero: nat, size: nat, suffix: nat)
    requires Ldmai(opcode, mid, zero, size, suffix).Valid() && n == Ldmai(opcode, mid, zero, size, suffix).Number()
    ensures Loader.IsLdmai(n) <==> opcode == 0xe0 && zero == 0 && suffix == 1
  {
    ModUnique(n, 0x80_0000_0000, opcode, 0x100_0000 * mid + 0x10_0000 * zero + 0x200 * size + suffix);
    ModUnique(n, 0x10_0000, 0x8_0000 * opcode + 16 * mid + zero, 0x200 * size + suffix);
    ModUnique(n / 0x10_0000, 16, 0x8000 * opcode + mid, zero);
    ModUnique(n, 512, 0x4000_0000 * opcode + 0x8000 * mid + 0x800 * zero + size, suffix);
  }

  lemma ThreadExact(n: nat, opcode: nat, kind: nat, mid: nat, operation: nat, low: nat)
    requires Thread(opcode, kind, mid, operation, low).Valid()
    requires n == Thread(opcode, kind, mid, operation, low).Number()
    ensures Loader.IsThreadCtrl(n) <==> opcode == 0x3e && kind > 0 && operation == 0x32
  {
    ModUnique(n, 0x200_0000_0000, opcode,
              0x80_0000_0000 * kind + 0x4_0000_0000 * mid + 0x1000_0000 * operation + low);
    ModUnique(n, 0x80_0000_0000, 4 * opcode + kind, 0x4_0000_0000 * mid + 0x1000_0000 * operation + low);
    ModUnique(n / 0x80_0000_0000, 4, opcode, kind);
    ModUnique(n, 0x1000_0000, 0x2000 * opcode + 0x800 * kind + 64 * mid + operation, low);
    ModUnique(n / 0x1000_0000, 64, 128 * opcode + 32 * kind + mid, operation);
  }

  /** Every number has exactly one of the two register forms. */
  lemma RegisterForm(n: nat) returns (f: Form)
    ensures (f.Single? || f.Pair?) && f.Valid() && f.Number() == n
  {
    var low, top := n % 0x80_0000_0000, n / 0x80_0000_0000;
    if top % 32 < 24 {
      f := Single(top / 32, top % 32, low);
    } else {
      f := Pair(top / 128, top / 32 % 4, top % 32 - 24, low);
      assert top == 128 * (top / 128) + 32 * (top / 32 % 4) + top % 32;
    }
  }

  lemma LdmaiForm(n: nat) returns (f: Form)
    ensures f.Ldmai? && f.Valid() && f.Number() == n
  {
    var a := n / 512;
    var b := a / 0x800;
    var c := b / 16;
    f := Ldmai(c / 0x8000, c % 0x8000, b % 16, a % 0x800, n % 512);
  }

  lemma ThreadForm(n: nat) returns (f: Form)
    ensures f.Thread? && f.Valid() && f.Number() == n
  {
    var a := n / 0x1000_0000;
    var b := a / 64;
    var c := b / 32;
    f := Thread(c / 4, c % 4, b % 32, a % 64, n % 0x1000_0000);
  }

  /** The scan's shifts and masks refuse an instruction if and only if it has a forbidden form. */
  lemma BannedExact(low: word, high: word)
    ensures Loader.Banned(low, high) <==> Harmful(low as int + 0x1_0000_0000 * (high as int))
  {
    var n: nat := low as int + 0x1_0000_0000 * (high as int);
    hide Form.Number, Form.Valid, Loader.IsLdmai, Loader.IsThreadCtrl, Loader.IsBannedReg;
    if Harmful(n) {
      var f: Form :| f.Valid() && f.Forbidden() && f.Number() == n;
      FormDecides(n, f);
    }
    if Loader.Banned(low, high) {
      var f := RegisterForm(n);
      var g := LdmaiForm(n);
      var h := ThreadForm(n);
      FormDecides(n, f);
      FormDecides(n, g);
      FormDecides(n, h);
    }
  }

  /** Each form decides its own check. */
  lemma FormDecides(n: nat, f: Form)
    requires f.Valid() && f.Number() == n
    ensures f.Forbidden() <==>
            match f
            case Ldmai(_, _, _, _, _) => Loader.IsLdmai(n)
            case Thread(_, _, _, _, _) => Loader.IsThreadCtrl(n)
            case _ => Loader.IsBannedReg(n)
  {
    hide Loader.IsLdmai, Loader.IsThreadCtrl, Loader.IsBannedReg;
    match f
    case Single(rest, register, low) => SingleExact(n, rest, register, low);
    case Pair(rest, upper, lower, low) => PairExact(n, rest, upper, lower, low);
    case Ldmai(opcode, mid, zero, size, suffix) => LdmaiExact(n, opcode, mid, zero, size, suffix);
    case Thread(opcode, kind, mid, operation, low) => ThreadExact(n, opcode, kind, mid, operation, low);
  }

  // ----- texts -----

  /** None of the first n instructions of the text behind an image's header is harmful. */
  ghost predicate Harmless(d: seq<word>, n: nat)
    requires 16 + 2 * n <= |d|
  {
    forall i: nat :: i < n ==> !HarmfulAt(d, i)
  }

  ghost predicate HarmfulAt(d: seq<word>, i: nat)
    requires 16 + 2 * i + 2 <= |d|
  {
    Harmful(d[16 + 2 * i] as int + 0x1_0000_0000 * (d[16 + 2 * i + 1] as int))
  }

  lemma CleanExact(d: seq<word>, n: nat)
    requires 16 + 2 * n <= |d|
    ensures Loader.Clean(d[16..16 + 2 * n]) <==> Harmless(d, n)
  {
    hide Harmful, Loader.Banned;
    var text := d[16..16 + 2 * n];
    forall i: nat | i < n ensures HarmfulAt(d, i) <==> Loader.Banned(text[2 * i], text[2 * i + 1]) {
      BannedExact(d[16 + 2 * i], d[16 + 2 * i + 1]);
    }
    if Harmless(d, n) {
      forall i: nat, j: nat | i % 2 == 0 && j == i + 1 && j < |text| ensures !Loader.Banned(text[i], text[j]) {
        assert i == 2 * (i / 2) && !HarmfulAt(d, i / 2);
      }
    }
  }

  /**
   * The exact outcome of the scan, for every header: it passes if and only if the whole text is
   * there and no instruction of it is harmful, and faults if and only if one it can read is.
   */
  lemma ScanExact(d: seq<word>)
    requires |d| >= 16
    ensures var n: nat, all: nat := 256 * (d[10] as int), (|d| - 16) / 2;
            && (Loader.ScanVerdict(d) == Loader.Passed <==> n <= all && Harmless(d, n))
            && (Loader.ScanVerdict(d) == Loader.SecFault <==> !Harmless(d, if n <= all then n else all))
  {
    hide Harmful, Loader.Clean;
    var n: nat, all: nat := 256 * (d[10] as int), (|d| - 16) / 2;
    if n <= all {
      CleanExact(d, n);
    } else {
      CleanExact(d, all);
      WholeInstructions(d, all);
    }
  }

  lemma WholeInstructions(d: seq<word>, all: nat)
    requires |d| >= 16 && all == (|d| - 16) / 2
    ensures Loader.Clean(d[16..]) <==> Loader.Clean(d[16..16 + 2 * all])
  {
    hide Loader.Banned;
    var t, u := d[16..], d[16..16 + 2 * all];
    forall i: nat, j: nat | i % 2 == 0 && j == i + 1 && j < |t| ensures j < |u| && t[i] == u[i] && t[j] == u[j] {
    }
  }

  // ----- whole loads -----

  /** The copy that saves the image changes nothing outside the place it goes to, overlap or not. */
  lemma {:induction false} RoundsKeep(m: seq<word>, src: nat, dst: nat, k: nat, i: nat)
    requires src + 2 * k <= |m| && dst + 2 * k <= |m| && i < |m| && (i < dst || dst + 2 * k <= i)
    ensures Loader.CopyRounds(m, src, dst, k)[i] == m[i]
    decreases k
  {
    if k > 0 {
      RoundsKeep(m, src, dst, k - 1, i);
    }
  }

  /** So where it does not meet the header, the loader sees the header that was in memory. */
  lemma HeaderKept(m: seq<word>, sk: nat, scratch: nat)
    requires sk + 16 <= |m| && Loader.CopyStops(m[sk + 9], sk, scratch, |m|)
    requires scratch + m[sk + 9] / 4 <= sk || sk + 16 <= scratch
    ensures Loader.WithCopy(m, sk, scratch)[sk..][..16] == m[sk..sk + 16]
  {
    var size := m[sk + 9];
    assert 2 * (size / 8) == size / 4;
    forall i | sk <= i < sk + 16 ensures Loader.WithCopy(m, sk, scratch)[i] == m[i] {
      RoundsKeep(m, sk, scratch, size / 8, i);
    }
  }

  /** What the image, as it is in memory w once saved, must have for the tag tests to pass. */
  ghost predicate Authentic(chacha: Aead.Cipher, key: seq<word>, tag: Aead.Option<seq<word>>, w: seq<word>)
    requires |w| >= 16
  {
    && (tag == Aead.None || tag == Aead.Some(w[1..5]))
    && Aead.Complete(w) && Poly1305.Num4(w[1..5]) == Aead.LoaderTag(chacha, key, w)
  }

  /** The data, if any, is there and has room in WRAM. */
  predicate DataFits(d: seq<word>, wram: nat)
    requires |d| >= 16
  {
    d[11] == 0 || (16 + 512 * (d[10] as int + d[11] as int) <= |d| && 512 * d[11] as int <= wram)
  }

  /** The exact condition under which everything but the copy back passes, for every memory and header. */
  lemma LoadsExactly(chacha: Aead.Cipher, key: seq<word>, tag: Aead.Option<seq<word>>, m: seq<word>, sk: nat,
                     scratch: nat, intact: bool, wram: nat, room: nat)
    requires sk + 16 <= |m|
    ensures Loader.Loads(chacha, key, tag, m, sk, scratch, intact, Loader.Device(wram, room)) <==>
            && Loader.CopyStops(m[sk + 9], sk, scratch, |m|)
            && var w := Loader.WithCopy(m, sk, scratch)[sk..];
               && Authentic(chacha, key, tag, w)
               && var d := Aead.Decrypted(chacha, key, w);
                  && 16 + 512 * d[10] as int <= |d| && Harmless(d, 256 * d[10] as int) && intact
                  && d[0] == 0xA5A5_A5A5 && DataFits(d, wram)
                  && 1 <= d[10] <= 15 && 512 * d[10] as int <= room
  {
    hide Loader.WithCopy, Loader.CopyStops, Aead.Complete, Aead.Decrypted, Harmless, Poly1305.Num4, Aead.LoaderTag,
      Loader.Clean, Loader.Text;
    if Loader.CopyStops(m[sk + 9], sk, scratch, |m|) {
      var w := Loader.WithCopy(m, sk, scratch)[sk..];
      if Authentic(chacha, key, tag, w) {
        ScanExact(Aead.Decrypted(chacha, key, w));
      }
    }
  }

  /** The load ends like this and has not touched IRAM. */
  ghost predicate Refused(chacha: Aead.Cipher, key: seq<word>, tag: Aead.Option<seq<word>>, m: seq<word>, sk: nat,
                          scratch: nat, intact: bool, device: Loader.Device, outcome: Loader.Outcome)
    requires sk + 16 <= |m| && scratch + 16 <= |m|
  {
    && Loader.ReplaceVerdict(chacha, key, tag, m, sk, scratch, intact, device) == outcome
    && !Loader.ReachesIram(chacha, key, tag, m, sk, scratch, intact, device)
  }

  /** An expected tag other than the image's own ends every load in a fault, authentic image or not. */
  lemma WrongTagFaults(chacha: Aead.Cipher, key: seq<word>, tag: seq<word>, m: seq<word>, sk: nat, scratch: nat,
                       intact: bool, device: Loader.Device)
    requires sk + 16 <= |m| && scratch + 16 <= |m| && Loader.CopyStops(m[sk + 9], sk, scratch, |m|)
    requires scratch + m[sk + 9] / 4 <= sk || sk + 16 <= scratch
    requires tag != m[sk + 1..sk + 5]
    ensures Refused(chacha, key, Aead.Some(tag), m, sk, scratch, intact, device, Loader.SecFault)
  {
    HeaderKept(m, sk, scratch);
    var w := Loader.WithCopy(m, sk, scratch)[sk..];
    assert w[1..5] == w[..16][1..5];
    Slices.SliceOfSlice(m, sk, sk + 16, 1, 5);
    hide Loader.WithCopy, Loader.CopyStops;
    WrongTag(chacha, key, tag, w, intact, device);
    WrongTag(chacha, key, tag, w, intact, device.(room := 512 * 15));
    hide Loader.Verdict;
  }

  lemma WrongTag(chacha: Aead.Cipher, key: seq<word>, tag: seq<word>, w: seq<word>, intact: bool, device: Loader.Device)
    requires |w| >= 16 && tag != w[1..5]
    ensures Loader.Verdict(chacha, key, Aead.Some(tag), w, intact, device) == Loader.SecFault
  {
    hide Aead.Complete, Aead.Decrypted, Poly1305.Num4, Aead.LoaderTag, Loader.ScanVerdict, Loader.LoadVerdict;
  }

  /** Which fault a load ends in when one check after another fails, IRAM untouched in every case. */
  lemma FaultsExactly(chacha: Aead.Cipher, key: seq<word>, tag: Aead.Option<seq<word>>, m: seq<word>, sk: nat,
                      scratch: nat, intact: bool, device: Loader.Device)
    requires sk + 16 <= |m| && scratch + 16 <= |m| && Loader.CopyStops(m[sk + 9], sk, scratch, |m|)
    requires Aead.Complete(Loader.WithCopy(m, sk, scratch)[sk..])
    ensures var w := Loader.WithCopy(m, sk, scratch)[sk..];
            var d := Aead.Decrypted(chacha, key, w);
            16 + 512 * d[10] as int <= |d| ==>
              if !Authentic(chacha, key, tag, w) || !Harmless(d, 256 * d[10] as int) || !intact then
                Refused(chacha, key, tag, m, sk, scratch, intact, device, Loader.SecFault)
              else if d[0] != 0xA5A5_A5A5 then
                Refused(chacha, key, tag, m, sk, scratch, intact, device, Loader.SanityFault)
              else if !DataFits(d, device.wram) then
                Refused(chacha, key, tag, m, sk, scratch, intact, device, Loader.Overrun)
              else
                !(1 <= d[10] <= 15) ==>
                  Refused(chacha, key, tag, m, sk, scratch, intact, device, Loader.SecFault)
  {
    hide Loader.WithCopy, Loader.CopyStops, Aead.Complete, Aead.Decrypted, Harmless, Poly1305.Num4, Aead.LoaderTag,
      Loader.Clean, Loader.Text, Loader.BeforePop;
    ScanExact(Aead.Decrypted(chacha, key, Loader.WithCopy(m, sk, scratch)[sk..]));
  }
}
