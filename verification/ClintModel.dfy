/**
 The core-local interruptor: a timer with one compare register and one software-interrupt bit per hart,
 in byte-addressed memory.
 */
module ClintModel {
  import opened Common

  const MTIMECMP_BASE: nat := 0x4000
  const MTIME_BASE: nat := 0xbff8

  type byte = x: nat | x < 256

  // ----- Little-endian bytes -----

  function Le(bytes: seq<byte>): nat {
    if bytes == [] then 0 else bytes[0] + 256 * Le(bytes[1..])
  }

  function ToBytes(n: nat, count: nat): (r: seq<byte>)
    ensures |r| == count
  {
    if count == 0 then [] else [n % 256] + ToBytes(n / 256, count - 1)
  }

  function Pow256(k: nat): (r: nat)
    ensures r > 0
  {
    if k == 0 then 1 else 256 * Pow256(k - 1)
  }

  lemma {:induction false} LeBound(bytes: seq<byte>)
    ensures Le(bytes) < Pow256(|bytes|)
  {
    if bytes != [] {
      LeBound(bytes[1..]);
    }
  }

  lemma {:induction false} LeToBytes(n: nat, count: nat)
    requires n < Pow256(count)
    ensures Le(ToBytes(n, count)) == n
    decreases count
  {
    if count > 0 {
      LeToBytes(n / 256, count - 1);
      assert ToBytes(n, count)[1..] == ToBytes(n / 256, count - 1);
    }
  }

  lemma {:induction false} ToBytesLe(bytes: seq<byte>)
    ensures ToBytes(Le(bytes), |bytes|) == bytes
  {
    if bytes != [] {
      ToBytesLe(bytes[1..]);
      ByteOff(bytes[0], Le(bytes[1..]));
      assert bytes == [bytes[0]] + bytes[1..];
    }
  }

  lemma ByteOff(low: byte, high: nat)
    ensures (low + 256 * high) % 256 == low && (low + 256 * high) / 256 == high
  {}

  lemma {:induction false} LeConcat(a: seq<byte>, b: seq<byte>)
    ensures Le(a + b) == Le(a) + Pow256(|a|) * Le(b)
  {
    if a == [] {
      assert a + b == b;
    } else {
      LeConcat(a[1..], b);
      assert (a + b)[1..] == a[1..] + b;
      assert 256 * (Pow256(|a| - 1) * Le(b)) == Pow256(|a|) * Le(b);
    }
  }

  lemma Pow256Values()
    ensures Pow256(4) == 0x1_0000_0000 && Pow256(8) == WORD
  {
    assert Pow256(1) == 256;
    assert Pow256(2) == 0x1_0000;
    assert Pow256(3) == 0x100_0000;
    assert Pow256(4) == 0x1_0000_0000;
    assert Pow256(5) == 0x100_0000_0000;
    assert Pow256(6) == 0x1_0000_0000_0000;
    assert Pow256(7) == 0x100_0000_0000_0000;
  }

  /** `words` as they lie in memory, eight bytes each. */
  function Flatten(words: seq<reg_t>): (r: seq<byte>)
    ensures |r| == 8 * |words|
  {
    if words == [] then [] else ToBytes(words[0], 8) + Flatten(words[1..])
  }

  function WordAt(bytes: seq<byte>, i: nat): (r: reg_t)
    requires 8 * i + 8 <= |bytes|
  {
    LeBound(bytes[8 * i..8 * i + 8]);
    Pow256Values();
    Le(bytes[8 * i..8 * i + 8])
  }

  function Unflatten(bytes: seq<byte>, n: nat): (r: seq<reg_t>)
    requires |bytes| == 8 * n
    ensures |r| == n
  {
    seq(n, i requires 0 <= i < n => WordAt(bytes, i))
  }

  lemma {:induction false} FlattenAt(words: seq<reg_t>, i: nat)
    requires i < |words|
    ensures Flatten(words)[8 * i..8 * i + 8] == ToBytes(words[i], 8)
  {
    if i > 0 {
      FlattenAt(words[1..], i - 1);
      assert Flatten(words)[8 * i..8 * i + 8] == Flatten(words[1..])[8 * (i - 1)..8 * (i - 1) + 8];
    }
  }

  lemma WordOfFlat(words: seq<reg_t>, i: nat)
    requires i < |words|
    ensures WordAt(Flatten(words), i) == words[i]
  {
    hide ToBytes, Le, Flatten;
    FlattenAt(words, i);
    Pow256Values();
    LeToBytes(words[i], 8);
  }

  /** `memcpy` */
  function Copy(memory: seq<byte>, offset: nat, bytes: seq<byte>): (r: seq<byte>)
    requires offset + |bytes| <= |memory|
    ensures |r| == |memory|
  {
    memory[..offset] + bytes + memory[offset + |bytes|..]
  }

  // ----- The device -----

  /** `mtip` and `msip` are bits 7 and 3 of each hart's mip. */
  datatype State = State(mtime: reg_t, mtimecmp: seq<reg_t>, mtip: seq<bool>, msip: seq<bool>)

  predicate Valid(s: State) {
    |s.mtimecmp| == |s.mtip| == |s.msip|
  }

  /** The timer interrupt of every hart is pending exactly when its time has come. */
  predicate TimersRight(s: State)
    requires Valid(s)
  {
    forall i :: 0 <= i < |s.mtip| ==> (s.mtip[i] <==> s.mtime >= s.mtimecmp[i])
  }

  function Pending(mtime: reg_t, mtimecmp: seq<reg_t>): (r: seq<bool>)
    ensures |r| == |mtimecmp|
  {
    seq(|mtimecmp|, i requires 0 <= i < |mtimecmp| => mtime >= mtimecmp[i])
  }

  /** clint.cc:64-72. */
  function Increment(s: State, inc: nat): (r: State)
    requires Valid(s)
    ensures Valid(r) && TimersRight(r)
  {
    var mtime := (s.mtime + inc) % WORD;
    s.(mtime := mtime, mtip := Pending(mtime, s.mtimecmp))
  }

  datatype Region = Msip | Mtimecmp | Mtime | Outside

  function RegionOf(harts: nat, addr: nat, len: nat): Region {
    if addr + len <= 4 * harts then Msip
    else if addr >= MTIMECMP_BASE && addr + len <= MTIMECMP_BASE + 8 * harts then Mtimecmp
    else if addr >= MTIME_BASE && addr + len <= MTIME_BASE + 8 then Mtime
    else Outside
  }

  /** clint.cc:48-51: a hart is touched if the low byte of its word is, and the low bit of that byte counts. */
  function StoreMsip(msip: seq<bool>, addr: nat, bytes: seq<byte>): (r: seq<bool>)
    ensures |r| == |msip|
  {
    seq(|msip|, i requires 0 <= i < |msip| =>
      if addr <= 4 * i < addr + |bytes| then bytes[4 * i - addr] % 2 == 1 else msip[i])
  }

  function StoreMtimecmp(words: seq<reg_t>, offset: nat, bytes: seq<byte>): (r: seq<reg_t>)
    requires offset + |bytes| <= 8 * |words|
    ensures |r| == |words|
  {
    Unflatten(Copy(Flatten(words), offset, bytes), |words|)
  }

  function StoreMtime(mtime: reg_t, offset: nat, bytes: seq<byte>): reg_t
    requires offset + |bytes| <= 8
  {
    WordAt(Copy(ToBytes(mtime, 8), offset, bytes), 0)
  }

  /** clint.cc:40-62; None when no register is there. */
  function Store(s: State, addr: nat, bytes: seq<byte>): (r: Option<State>)
    requires Valid(s)
    ensures r.Some? ==> Valid(r.value) && TimersRight(r.value)
  {
    match RegionOf(|s.msip|, addr, |bytes|)
    case Msip => Some(Increment(s.(msip := StoreMsip(s.msip, addr, bytes)), 0))
    case Mtimecmp => Some(Increment(s.(mtimecmp := StoreMtimecmp(s.mtimecmp, addr - MTIMECMP_BASE, bytes)), 0))
    case Mtime => Some(Increment(s.(mtime := StoreMtime(s.mtime, addr - MTIME_BASE, bytes)), 0))
    case Outside => None
  }

  function MsipBytes(msip: seq<bool>): (r: seq<byte>)
    ensures |r| == 4 * |msip|
  {
    if msip == [] then [] else ToBytes(if msip[0] then 1 else 0, 4) + MsipBytes(msip[1..])
  }

  /** clint.cc:23-38. */
  function Load(s: State, addr: nat, len: nat): (r: Option<seq<byte>>)
    requires Valid(s)
    ensures r.Some? ==> |r.value| == len
  {
    match RegionOf(|s.msip|, addr, len)
    case Msip => Some(MsipBytes(s.msip)[addr..addr + len])
    case Mtimecmp => Some(Flatten(s.mtimecmp)[addr - MTIMECMP_BASE..addr - MTIMECMP_BASE + len])
    case Mtime => Some(ToBytes(s.mtime, 8)[addr - MTIME_BASE..addr - MTIME_BASE + len])
    case Outside => None
  }

  // ----- What a store means -----

  lemma {:induction false} UnflattenFlatten(bytes: seq<byte>, n: nat)
    requires |bytes| == 8 * n
    ensures Flatten(Unflatten(bytes, n)) == bytes
    decreases n
  {
    var words := Unflatten(bytes, n);
    if n > 0 {
      var rest := bytes[8..];
      UnflattenFlatten(rest, n - 1);
      ToBytesLe(bytes[0..8]);
      forall i | 0 <= i < n - 1 ensures words[1..][i] == Unflatten(rest, n - 1)[i] {
        assert rest[8 * i..8 * i + 8] == bytes[8 * (i + 1)..8 * (i + 1) + 8];
      }
      assert words[1..] == Unflatten(rest, n - 1);
      assert bytes == bytes[0..8] + rest;
    }
  }

  /** What is stored to the compare registers is loaded back, at any alignment and length. */
  lemma CompareReadsBack(s: State, addr: nat, bytes: seq<byte>)
    requires Valid(s) && RegionOf(|s.msip|, addr, |bytes|).Mtimecmp?
    ensures Load(Store(s, addr, bytes).value, addr, |bytes|) == Some(bytes)
  {
    hide Flatten, Unflatten, Increment;
    var offset := addr - MTIMECMP_BASE;
    UnflattenFlatten(Copy(Flatten(s.mtimecmp), offset, bytes), |s.mtimecmp|);
    IncrementKeeps(s.(mtimecmp := StoreMtimecmp(s.mtimecmp, offset, bytes)));
  }

  lemma IncrementKeeps(s: State)
    requires Valid(s)
    ensures Increment(s, 0).mtime == s.mtime && Increment(s, 0).mtimecmp == s.mtimecmp
    ensures Increment(s, 0).msip == s.msip
  {}

  /** An aligned eight-byte store sets one compare register and no other. */
  lemma CompareDoubleword(words: seq<reg_t>, i: nat, value: reg_t)
    requires i < |words|
    ensures StoreMtimecmp(words, 8 * i, ToBytes(value, 8)) == words[i := value]
  {
    hide Flatten, ToBytes, Le;
    var memory := Copy(Flatten(words), 8 * i, ToBytes(value, 8));
    forall j | 0 <= j < |words| ensures WordAt(memory, j) == words[i := value][j] {
      if j == i {
        assert memory[8 * j..8 * j + 8] == ToBytes(value, 8);
        Pow256Values();
        LeToBytes(value, 8);
      } else {
        assert memory[8 * j..8 * j + 8] == Flatten(words)[8 * j..8 * j + 8];
        WordOfFlat(words, j);
      }
    }
  }

  /** A four-byte store to the low or high half of a compare register replaces that half. */
  lemma CompareWord(words: seq<reg_t>, i: nat, high: bool, value: nat)
    requires i < |words| && value < 0x1_0000_0000
    ensures var w := words[i];
            StoreMtimecmp(words, 8 * i + (if high then 4 else 0), ToBytes(value, 4))
            == words[i := if high then w % 0x1_0000_0000 + 0x1_0000_0000 * value
                          else value + 0x1_0000_0000 * (w / 0x1_0000_0000)]
  {
    hide Flatten, ToBytes, Le, Copy;
    var offset := 8 * i + (if high then 4 else 0);
    var memory := Copy(Flatten(words), offset, ToBytes(value, 4));
    var was := Flatten(words)[8 * i..8 * i + 8];
    var low, top := was[..4], was[4..];
    FlattenAt(words, i);
    Halves(words[i], low, top);
    Pow256Values();
    LeToBytes(value, 4);
    forall j | 0 <= j < |words| && j != i ensures WordAt(memory, j) == words[j] {
      OtherWord(words, i, offset, ToBytes(value, 4), j);
    }
    HalfCopied(Flatten(words), 8 * i, ToBytes(value, 4));
    if high {
      LeConcat(low, ToBytes(value, 4));
    } else {
      LeConcat(ToBytes(value, 4), top);
    }
  }

  /** Bytes copied into one word leave the others as they are. */
  lemma OtherWord(words: seq<reg_t>, i: nat, offset: nat, bytes: seq<byte>, j: nat)
    requires i < |words| && j < |words| && j != i && 8 * i <= offset && offset + |bytes| <= 8 * i + 8
    ensures WordAt(Copy(Flatten(words), offset, bytes), j) == words[j]
  {
    hide Flatten, Le, Copy, ToBytes;
    OtherBytes(Flatten(words), offset, bytes, 8 * j);
    WordOfFlat(words, j);
  }

  lemma OtherBytes(memory: seq<byte>, offset: nat, bytes: seq<byte>, at: nat)
    requires offset + |bytes| <= |memory| && at + 8 <= |memory| && (at + 8 <= offset || offset + |bytes| <= at)
    ensures Copy(memory, offset, bytes)[at..at + 8] == memory[at..at + 8]
  {
    forall k | at <= k < at + 8 ensures Copy(memory, offset, bytes)[k] == memory[k] {
    }
  }

  /** Four bytes copied over the low or the high half of a word. */
  lemma HalfCopied(memory: seq<byte>, at: nat, bytes: seq<byte>)
    requires |bytes| == 4 && at + 8 <= |memory|
    ensures Copy(memory, at, bytes)[at..at + 8] == bytes + memory[at..at + 8][4..]
    ensures Copy(memory, at + 4, bytes)[at..at + 8] == memory[at..at + 8][..4] + bytes
  {}

  lemma Halves(w: reg_t, low: seq<byte>, top: seq<byte>)
    requires |low| == |top| == 4 && low + top == ToBytes(w, 8)
    ensures Le(low) == w % 0x1_0000_0000 && Le(top) == w / 0x1_0000_0000
  {
    hide ToBytes, Le;
    Pow256Values();
    LeToBytes(w, 8);
    LeConcat(low, top);
    LeBound(low);
    LeBound(top);
  }

  /** A store of a word to the software interrupt register of one hart raises or clears its interrupt alone. */
  lemma SoftwareInterrupt(s: State, i: nat, bytes: seq<byte>)
    requires Valid(s) && i < |s.msip| && |bytes| == 4 && 4 * |s.msip| <= 0x4000
    ensures var r := Store(s, 4 * i, bytes);
            && r.Some? && r.value == s.(msip := s.msip[i := bytes[0] % 2 == 1], mtip := r.value.mtip)
            && Load(r.value, 4 * i, 4) == Some([bytes[0] % 2, 0, 0, 0])
  {
    hide ToBytes, Pending;
    var msip := s.msip[i := bytes[0] % 2 == 1];
    assert StoreMsip(s.msip, 4 * i, bytes) == msip;
    MsipAt(msip, i);
    OneByte(bytes[0] % 2);
  }

  lemma {:induction false} MsipAt(msip: seq<bool>, i: nat)
    requires i < |msip|
    ensures MsipBytes(msip)[4 * i..4 * i + 4] == ToBytes(if msip[i] then 1 else 0, 4)
  {
    hide ToBytes;
    if i > 0 {
      MsipAt(msip[1..], i - 1);
      assert MsipBytes(msip)[4 * i..4 * i + 4] == MsipBytes(msip[1..])[4 * (i - 1)..4 * (i - 1) + 4];
    }
  }

  lemma OneByte(b: nat)
    requires b < 2
    ensures ToBytes(b, 4) == [b, 0, 0, 0]
  {
    assert ToBytes(0, 3) == [0] + ToBytes(0, 2) && ToBytes(0, 2) == [0] + ToBytes(0, 1) && ToBytes(0, 1) == [0] + [];
  }

  /** Bytes stored to the time register are loaded back, and the others of its eight stay. */
  lemma TimeReadsBack(s: State, addr: nat, bytes: seq<byte>, k: nat)
    requires Valid(s) && 0xbff8 <= addr && addr + |bytes| <= 0xc000 && bytes != [] && k < 8
    requires 4 * |s.msip| <= 0x4000 && 0x4000 + 8 * |s.msip| <= 0xbff8
    ensures var r := Store(s, addr, bytes);
            && r.Some? && r.value == s.(mtime := r.value.mtime, mtip := r.value.mtip)
            && Load(r.value, 0xbff8 + k, 1)
               == if addr <= 0xbff8 + k < addr + |bytes| then Some([bytes[0xbff8 + k - addr]])
                  else Load(s, 0xbff8 + k, 1)
  {
    hide ToBytes, Increment, StoreMtime, RegionOf;
    TimeRegion(s, addr, |bytes|);
    var stored := s.(mtime := StoreMtime(s.mtime, addr - 0xbff8, bytes));
    IncrementKeeps(stored);
    TimeBytes(s.mtime, addr - 0xbff8, bytes);
    var r := Store(s, addr, bytes).value;
    TimeRegion(s, 0xbff8 + k, 1);
    TimeRegion(r, 0xbff8 + k, 1);
    OneCopied(ToBytes(s.mtime, 8), addr - 0xbff8, bytes, k);
  }

  lemma TimeBytes(mtime: reg_t, offset: nat, bytes: seq<byte>)
    requires offset + |bytes| <= 8
    ensures ToBytes(StoreMtime(mtime, offset, bytes), 8) == Copy(ToBytes(mtime, 8), offset, bytes)
  {
    hide ToBytes, Le;
    var memory := Copy(ToBytes(mtime, 8), offset, bytes);
    assert memory[0..8] == memory;
    ToBytesLe(memory);
  }

  lemma OneCopied(memory: seq<byte>, offset: nat, bytes: seq<byte>, k: nat)
    requires offset + |bytes| <= |memory| && k < |memory|
    ensures Copy(memory, offset, bytes)[k..k + 1]
            == if offset <= k < offset + |bytes| then [bytes[k - offset]] else memory[k..k + 1]
  {
    var after := Copy(memory, offset, bytes);
    assert after[k..k + 1] == [after[k]] && memory[k..k + 1] == [memory[k]];
    assert after[k] == if offset <= k < offset + |bytes| then bytes[k - offset] else memory[k];
  }

  lemma TimeRegion(s: State, addr: nat, len: nat)
    requires Valid(s) && 0xbff8 <= addr && addr + len <= 0xc000 && len > 0
    requires 4 * |s.msip| <= 0x4000 && 0x4000 + 8 * |s.msip| <= 0xbff8
    ensures RegionOf(|s.msip|, addr, len) == Mtime
  {}

  // ----- Ticks -----

  /** The state after `k` increments by `inc`. */
  function Ticked(s: State, inc: nat, k: nat): (r: State)
    requires Valid(s)
    ensures Valid(r)
  {
    if k == 0 then s else Increment(Ticked(s, inc, k - 1), inc)
  }

  /** Time is what it was plus the ticks, modulo 2^64; nothing else changes but the timer interrupts. */
  lemma {:induction false} TickedTime(s: State, inc: nat, k: nat)
    requires Valid(s)
    ensures var r := Ticked(s, inc, k);
            && r.mtime == (s.mtime + inc * k) % WORD && r.mtimecmp == s.mtimecmp && r.msip == s.msip
            && (k > 0 || TimersRight(s) ==> TimersRight(r))
    decreases k
  {
    hide Pending, TimersRight;
    if k > 0 {
      TickedTime(s, inc, k - 1);
      Distributes(inc, k);
      WrapSum(s.mtime + inc * (k - 1), inc);
    }
  }

  lemma Distributes(inc: nat, k: nat)
    requires k > 0
    ensures inc * k == inc * (k - 1) + inc
  {}

  lemma WrapSum(t: nat, inc: nat)
    ensures (t % WORD + inc) % WORD == (t + inc) % WORD
  {}

  lemma {:induction false} TickedSum(s: State, inc: nat, j: nat, k: nat)
    requires Valid(s)
    ensures Ticked(Ticked(s, inc, j), inc, k) == Ticked(s, inc, j + k)
    decreases k
  {
    hide Increment;
    if k > 0 {
      TickedSum(s, inc, j, k - 1);
    }
  }
}
