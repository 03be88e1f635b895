/** The data memory: 4096 words of eight byte lanes behave as 32768 bytes. */
module ByteMemory {
  import opened Words
  import opened Isa
  import opened Rtl
  import opened Core

  /** The memory a program sees: byte `a` is lane `a % 8` of word `a / 8`. */
  function Flat(ram: Ram): Memory {
    seq(MEM_SIZE, a requires 0 <= a < MEM_SIZE => ram[a / 8][a % 8])
  }

  /** The width code of the decoder. */
  function WidthCode(w: Width): bv3 {
    match w case Byte1 => 0 case Half2 => 1 case Word4 => 3 case Double8 => 7
  }

  /** An access of `w` bytes at `offset` stays within its doubleword. */
  predicate Fits(w: Width, offset: Offset) { offset + Bytes(w) <= 8 }

  /** The alignment signal is raised exactly for accesses that cross a doubleword. */
  lemma AlignDetectsCrossing(w: Width, offset: Offset)
    ensures AlignDetect(WidthCode(w), offset) <==> !Fits(w, offset)
  {
  }

  /** The mask selects exactly the bytes of the access. */
  lemma MaskIsWidth(w: Width, k: nat)
    requires k < 8
    ensures InMask(WidthCode(w), k) <==> k < Bytes(w)
  {
  }

  /** A value followed by zero bytes is that value. */
  lemma {:induction false} ZeroPadding(bytes: seq<Byte>, n: nat)
    ensures Value(bytes + seq(n, _ => 0)) == Value(bytes)
    decreases |bytes|, n
  {
    var zeros := seq<Byte>(n, _ => 0);
    if bytes != [] {
      assert (bytes + zeros)[1..] == bytes[1..] + zeros;
      ZeroPadding(bytes[1..], n);
    } else if n > 0 {
      assert (bytes + zeros)[1..] == [] + seq<Byte>(n - 1, _ => 0);
      ZeroPadding([], n - 1);
    }
  }

  /** A value followed by 0xff bytes up to eight is its negative reading. */
  lemma {:induction false} OnesPadding(bytes: seq<Byte>, n: nat)
    ensures Value(bytes + seq(n, _ => 0xff)) + Pow256(|bytes|) == Value(bytes) + Pow256(|bytes| + n)
    decreases |bytes|, n
  {
    var ones := seq<Byte>(n, _ => 0xff);
    if bytes != [] {
      assert (bytes + ones)[1..] == bytes[1..] + ones;
      OnesPadding(bytes[1..], n);
    } else if n > 0 {
      assert (bytes + ones)[1..] == [] + seq<Byte>(n - 1, _ => 0xff);
      OnesPadding([], n - 1);
    } else {
      assert bytes + ones == [];
    }
  }

  /** The top byte carries the sign bit. */
  lemma {:induction false} TopByte(bytes: seq<Byte>)
    requires bytes != []
    ensures Value(bytes) < Pow256(|bytes|) / 2 <==> bytes[|bytes| - 1] < 0x80
  {
    if |bytes| > 1 {
      TopByte(bytes[1..]);
      assert bytes[1..][|bytes| - 2] == bytes[|bytes| - 1];
      EvenPow256(|bytes| - 1);
    }
  }

  lemma EvenPow256(n: nat)
    requires n > 0
    ensures Pow256(n) % 2 == 0
  {
  }

  /** The bytes that the RAM presents to an access: those of one word, then zeros. */
  function Presented(word: Lanes, offset: Offset, n: nat): (bytes: seq<Byte>)
    ensures |bytes| == n
  {
    seq(n, k requires 0 <= k < n => if offset + k < 8 then word[offset + k] else 0)
  }

  /** Reading: the masked and extended lanes are the datum presented. */
  lemma LoadDatum(word: Lanes, w: Width, unsigned: bool, offset: Offset)
    requires w.Double8? ==> !unsigned
    ensures FromLanes(MemReadMask(word, !unsigned, WidthCode(w), offset))
            == Extend(Presented(word, offset, Bytes(w)), unsigned)
  {
    var n := Bytes(w);
    var bytes := Presented(word, offset, n);
    var lanes := MemReadMask(word, !unsigned, WidthCode(w), offset);
    Pow256Of8();
    TopByte(bytes);
    if !unsigned && n < 8 && bytes[n - 1] >= 0x80 {
      assert lanes == bytes + seq(8 - n, _ => 0xff);
      OnesPadding(bytes, 8 - n);
    } else {
      forall k | 0 <= k < 8 ensures lanes[k] == if k < n then bytes[k] else 0 {
        MaskIsWidth(w, k);
      }
      assert lanes == bytes + seq(8 - n, _ => 0);
      ZeroPadding(bytes, 8 - n);
    }
  }

  lemma LowPart(u: nat, p: nat)
    requires p == 0x100 || p == 0x10000 || p == TWO32 || p == TWO64
    requires u < p
    ensures u % TWO64 % p == u && (u - p) % TWO64 % p == u
  {
    assert p < TWO64 ==> (u - p) % TWO64 == u - p + TWO64;
    if p == 0x100 {
      assert u - p + TWO64 == u + (TWO64 / 0x100 - 1) * 0x100;
    } else if p == 0x10000 {
      assert u - p + TWO64 == u + (TWO64 / 0x10000 - 1) * 0x10000;
    }
  }

  lemma ExtendValue(bytes: seq<Byte>, unsigned: bool)
    requires |bytes| == 1 || |bytes| == 2 || |bytes| == 4 || |bytes| == 8
    ensures Extend(bytes, unsigned) % Pow256(|bytes|) == Value(bytes)
  {
    hide Value, Pow256;
    Pow256Of8();
    LowPart(Value(bytes), Pow256(|bytes|));
  }

  /** Different bytes extend to different words. */
  lemma ExtendInjective(x: seq<Byte>, y: seq<Byte>, unsigned: bool)
    requires |x| == |y| && (|x| == 1 || |x| == 2 || |x| == 4 || |x| == 8)
    requires Extend(x, unsigned) == Extend(y, unsigned)
    ensures x == y
  {
    ExtendValue(x, unsigned);
    ExtendValue(y, unsigned);
    LowBytesOfValue(x);
    LowBytesOfValue(y);
    hide Extend, Value, LowBytes;
  }

  lemma {:induction false} LowBytesPrefix(x: nat, n: nat, k: nat)
    requires n <= k
    ensures LowBytes(x, k)[..n] == LowBytes(x, n)
  {
    if n > 0 {
      LowBytesPrefix(x / 0x100, n - 1, k - 1);
    }
  }

  /** How many bytes of an access lie in its first word. */
  function Within(n: nat, offset: Offset): nat { if offset + n <= 8 then n else 8 - offset }

  /** Byte `x` of memory as a byte of the word addressed. */
  lemma StoreIndex(a: Word, x: nat)
    requires x < MEM_SIZE
    ensures var i, offset, k := a / 8 % 4096, a % 8, (x - a) % MEM_SIZE;
      && (x / 8 == i && offset <= x % 8 ==> k == x % 8 - offset)
      && (k < 8 - offset ==> x / 8 == i && x % 8 == offset + k)
  {
  }

  /** Writing: the enabled lanes take exactly the bytes of the datum that lie in the word. */
  lemma StoreDatum(ram: Ram, a: Word, w: Width, v: Word)
    ensures var i, offset := a / 8 % 4096, a % 8;
      Flat(ram[i := RamWrite(ram[i], ToLanes(v), WidthCode(w), offset)])
      == StoreBytes(Flat(ram), a, LowBytes(v, Bytes(w))[..Within(Bytes(w), offset)])
  {
    var i, offset, n := a / 8 % 4096, a % 8, Bytes(w);
    var ram' := ram[i := RamWrite(ram[i], ToLanes(v), WidthCode(w), offset)];
    var bytes := LowBytes(v, n)[..Within(n, offset)];
    var m := StoreBytes(Flat(ram), a, bytes);
    LowBytesPrefix(v, n, 8);
    forall x | 0 <= x < MEM_SIZE ensures Flat(ram')[x] == m[x] {
      var k := (x - a) % MEM_SIZE;
      StoreIndex(a, x);
      if x / 8 == i && offset <= x % 8 {
        MaskIsWidth(w, k);
        assert ToLanes(v)[..n] == LowBytes(v, n);
      }
    }
  }

  /** The RAM decodes 15 address bits: 12 select the word, 3 the byte. */
  lemma LoadIndex(a: nat, k: nat)
    requires a % 8 + k < 8
    ensures var x := (a + k) % MEM_SIZE; x / 8 == a / 8 % 4096 && x % 8 == a % 8 + k
  {
    var word, offset := a / 8, a % 8;
    assert a == 8 * word + offset;
    var page, i := word / 4096, word % 4096;
    assert a + k == MEM_SIZE * page + (8 * i + offset + k);
  }

  /** Reading bytes that lie in one word. */
  lemma LoadPresented(ram: Ram, a: Word, n: nat)
    requires a % 8 + n <= 8
    ensures LoadBytes(Flat(ram), a, n) == Presented(ram[a / 8 % 4096], a % 8, n)
  {
    var found, presented := LoadBytes(Flat(ram), a, n), Presented(ram[a / 8 % 4096], a % 8, n);
    forall k | 0 <= k < n ensures found[k] == presented[k] {
      LoadIndex(a, k);
    }
  }

  // ----- sequences of accesses -----

  datatype Access =
    | LoadAccess(w: Width, unsigned: bool, addr: Word)
    | StoreAccess(w: Width, addr: Word, v: Word)

  /** An access the hardware completes without raising the alignment signal. */
  predicate Aligned(a: Access) {
    Fits(a.w, a.addr % 8) && (a.LoadAccess? && a.w.Double8? ==> !a.unsigned)
  }

  /** What the RAM answers to one access (nothing for a store), and its contents after it. */
  function RamAccess(ram: Ram, access: Access): (seq<Word>, Ram) {
    var i, offset := access.addr / 8 % 4096, access.addr % 8;
    match access
    case LoadAccess(w, unsigned, _) =>
      ([FromLanes(MemReadMask(ram[i], !unsigned, WidthCode(w), offset))], ram)
    case StoreAccess(w, _, v) =>
      ([], ram[i := RamWrite(ram[i], ToLanes(v), WidthCode(w), offset)])
  }

  /** The same access on a plain little-endian byte memory. */
  function ByteAccess(m: Memory, access: Access): (seq<Word>, Memory) {
    match access
    case LoadAccess(w, unsigned, a) => ([Extend(LoadBytes(m, a, Bytes(w)), unsigned)], m)
    case StoreAccess(w, a, v) => ([], StoreBytes(m, a, LowBytes(v, Bytes(w))))
  }

  function RamRun(ram: Ram, accesses: seq<Access>): (seq<Word>, Ram)
    decreases |accesses|
  {
    if accesses == [] then ([], ram)
    else
      var (first, ram1) := RamAccess(ram, accesses[0]);
      var (rest, ram2) := RamRun(ram1, accesses[1..]);
      (first + rest, ram2)
  }

  function ByteRun(m: Memory, accesses: seq<Access>): (seq<Word>, Memory)
    decreases |accesses|
  {
    if accesses == [] then ([], m)
    else
      var (first, m1) := ByteAccess(m, accesses[0]);
      var (rest, m2) := ByteRun(m1, accesses[1..]);
      (first + rest, m2)
  }

  /** One aligned access gives the same answer on both memories and keeps their bytes equal. */
  lemma AccessAgrees(ram: Ram, access: Access)
    requires Aligned(access)
    ensures RamAccess(ram, access).0 == ByteAccess(Flat(ram), access).0
    ensures Flat(RamAccess(ram, access).1) == ByteAccess(Flat(ram), access).1
  {
    hide MemReadMask, FromLanes, Extend, Presented, RamWrite, ToLanes, StoreBytes, LoadBytes, Flat, LowBytes;
    var a, w := access.addr, access.w;
    if access.LoadAccess? {
      LoadPresented(ram, a, Bytes(w));
      LoadDatum(ram[a / 8 % 4096], w, access.unsigned, a % 8);
    } else {
      StoreDatum(ram, a, w, access.v);
      assert LowBytes(access.v, Bytes(w))[..Bytes(w)] == LowBytes(access.v, Bytes(w));
    }
  }

  /** Any sequence of aligned accesses gives the same loads on both memories and
      leaves them with the same bytes. */
  lemma {:induction false} RamIsByteMemory(ram: Ram, accesses: seq<Access>)
    requires forall k :: 0 <= k < |accesses| ==> Aligned(accesses[k])
    ensures RamRun(ram, accesses).0 == ByteRun(Flat(ram), accesses).0
    ensures Flat(RamRun(ram, accesses).1) == ByteRun(Flat(ram), accesses).1
    decreases |accesses|
  {
    hide RamAccess, ByteAccess, Flat;
    if accesses != [] {
      AccessAgrees(ram, accesses[0]);
      RamIsByteMemory(RamAccess(ram, accesses[0]).1, accesses[1..]);
    }
  }
}
