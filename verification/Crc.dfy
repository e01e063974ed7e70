/** CRC-32 as section 4.2 of the UEFI specification asks for it, with the polynomial of section 8.1.1.6.2 of
    ITU-T V.42, reflected: a 32-bit register clocked once for every bit of the message. */
module BitSerialCrc {
  import opened Folds

  const POLYNOMIAL: bv32 := 0xEDB8_8320

  function Tap(r: bv32): bv32 {
    if r & 1 == 1 then POLYNOMIAL else 0
  }

  /** One clock of the reflected register. */
  function Shift(r: bv32): bv32 {
    (r >> 1) ^ Tap(r)
  }

  function TakeBit(r: bv32, bit: bool): bv32 {
    Shift(r ^ (if bit then 1 else 0))
  }

  /** The n low bits of a byte, least significant first. */
  function Bits(b: bv8, n: nat): seq<bool> {
    if n == 0 then [] else [b & 1 == 1] + Bits(b >> 1, n - 1)
  }

  function Message(bytes: seq<bv8>): seq<bool> {
    Flatten(b => Bits(b, 8), bytes)
  }

  function Crc32(bytes: seq<bv8>): bv32 {
    FoldLeft(TakeBit, 0xFFFF_FFFF, Message(bytes)) ^ 0xFFFF_FFFF
  }
}

/** A byte at a time: eight clocks after the whole byte has been added to the register. */
module ByteSerialCrc {
  import opened BitSerialCrc
  import opened Folds

  function Shift8(r: bv32): bv32 {
    Shift(Shift(Shift(Shift(Shift(Shift(Shift(Shift(r))))))))
  }

  // The operations of the register machine, as values that the general lemmas below take.

  function Xor(a: bv32, b: bv32): bv32 { a ^ b }

  function Widen(b: bv8): bv32 { b as bv32 }

  function Take(r: bv32, b: bv8): bv32 {
    Shift8(Xor(r, Widen(b)))
  }

  // ----- The shift register is linear -----

  lemma XorParts(a: bv32, b: bv32)
    ensures (a ^ b) & 1 == (a & 1) ^ (b & 1) && (a ^ b) >> 1 == (a >> 1) ^ (b >> 1)
    ensures (a & 1 == 0 || a & 1 == 1) && (b & 1 == 0 || b & 1 == 1)
  {
  }

  lemma Regroup(r: bv32, s: bv32, b: bv32, c: bv32)
    ensures (r ^ b) ^ (s ^ c) == (r ^ s) ^ (b ^ c)
  {
  }

  lemma TapLinear(a: bv32, b: bv32)
    ensures Tap(a ^ b) == Tap(a) ^ Tap(b)
  {
    XorParts(a, b);
  }

  lemma ShiftLinear()
    ensures forall a, b :: Shift(Xor(a, b)) == Xor(Shift(a), Shift(b))
  {
    forall a, b
      ensures Shift(Xor(a, b)) == Xor(Shift(a), Shift(b))
    {
      ShiftOfSum(a, b);
    }
  }

  lemma ShiftOfSum(a: bv32, b: bv32)
    ensures Shift(Xor(a, b)) == Xor(Shift(a), Shift(b))
  {
    XorParts(a, b);
    TapLinear(a, b);
    Regroup(a >> 1, b >> 1, Tap(a), Tap(b));
  }

  function EightTimes<R>(f: R -> R, r: R): R {
    f(f(f(f(f(f(f(f(r))))))))
  }

  lemma EightTimesLinear<R(!new)>(f: R -> R, add: (R, R) -> R, x: R, y: R)
    requires forall a, b :: f(add(a, b)) == add(f(a), f(b))
    ensures EightTimes(f, add(x, y)) == add(EightTimes(f, x), EightTimes(f, y))
  {
  }

  lemma EightIterations<R>(f: R -> R, r: R)
    ensures Iterate(f, r, 8) == EightTimes(f, r)
  {
    var r4 := f(f(f(f(r))));
    assert Iterate(f, r, 8) == Iterate(f, f(f(r)), 6) == Iterate(f, r4, 4);
    assert Iterate(f, r4, 4) == Iterate(f, f(f(r4)), 2) == f(f(f(f(r4))));
  }

  lemma EightShifts(r: bv32)
    ensures EightTimes(Shift, r) == Shift8(r)
  {
  }

  lemma EightShiftsLinear(a: bv32, b: bv32)
    ensures EightTimes(Shift, Xor(a, b)) == Xor(EightTimes(Shift, a), EightTimes(Shift, b))
  {
    ShiftLinear();
    EightTimesLinear(Shift, Xor, a, b);
  }

  lemma Shift8Linear(a: bv32, b: bv32)
    ensures Shift8(Xor(a, b)) == Xor(Shift8(a), Shift8(b))
  {
    EightShiftsLinear(a, b);
    EightShifts(Xor(a, b));
    EightShifts(a);
    EightShifts(b);
  }

  /** When the top byte of the result is clear, no feedback took place. */
  lemma Shift8Small(d: bv32)
    requires Shift8(d) < 0x100_0000
    ensures d == Shift8(d) << 8
  {
  }

  // ----- A byte at a time is a bit at a time -----

  /** The bits of b end within n places. */
  predicate Within(b: bv8, n: nat) {
    if n == 0 then b == 0 else Within(b >> 1, n - 1)
  }

  /** Taking a bit at a time from a byte that has been added already is what f does to the sum. */
  ghost predicate SerialRegister<R(!new)>(f: R -> R, add: (R, R) -> R, widen: bv8 -> R, takeBit: (R, bool) -> R) {
    && (forall x, c :: f(add(x, widen(c))) == add(takeBit(x, c & 1 == 1), widen(c >> 1)))
    && (forall x :: add(x, widen(0)) == x)
  }

  /** In such a register, adding a byte's bits as they are due or all of them first is the same. */
  lemma {:induction false} FeedBits<R(!new)>(f: R -> R, add: (R, R) -> R, widen: bv8 -> R, takeBit: (R, bool) -> R,
                                             r: R, b: bv8, n: nat)
    requires SerialRegister(f, add, widen, takeBit) && Within(b, n)
    ensures FoldLeft(takeBit, r, Bits(b, n)) == Iterate(f, add(r, widen(b)), n)
    decreases n
  {
    if n > 0 {
      var bit, rest := b & 1 == 1, b >> 1;
      FeedBits(f, add, widen, takeBit, takeBit(r, bit), rest, n - 1);
      assert Bits(b, n)[1..] == Bits(rest, n - 1);
    }
  }

  lemma EightBits(b: bv8)
    ensures Within(b, 8)
  {
    var b4 := b >> 1 >> 1 >> 1 >> 1;
    assert Within(b4 >> 1 >> 1 >> 1, 1) && Within(b4 >> 1 >> 1, 2) && Within(b4 >> 1, 3) && Within(b4, 4);
    assert Within(b >> 1 >> 1 >> 1, 5) && Within(b >> 1 >> 1, 6) && Within(b >> 1, 7);
  }

  lemma LowBitFirst(x: bv32, c: bv8)
    ensures Xor(x, Widen(c)) == Xor(x ^ (if c & 1 == 1 then 1 else 0), (c >> 1) as bv32 << 1)
  {
  }

  lemma ShiftHalves(c: bv8)
    ensures Shift(c as bv32 << 1) == Widen(c)
  {
  }

  lemma ByteStep(x: bv32, c: bv8)
    ensures Shift(Xor(x, Widen(c))) == Xor(TakeBit(x, c & 1 == 1), Widen(c >> 1))
  {
    LowBitFirst(x, c);
    ShiftHalves(c >> 1);
    ShiftLinear();
  }

  lemma ShiftIsSerial()
    ensures SerialRegister(Shift, Xor, Widen, TakeBit)
  {
    forall x, c
      ensures Shift(Xor(x, Widen(c))) == Xor(TakeBit(x, c & 1 == 1), Widen(c >> 1))
    {
      ByteStep(x, c);
    }
    assert forall x :: Xor(x, Widen(0)) == x;
  }

  lemma FeedByte(r: bv32, b: bv8)
    ensures FoldLeft(TakeBit, r, Bits(b, 8)) == Iterate(Shift, Xor(r, Widen(b)), 8)
  {
    ShiftIsSerial();
    EightBits(b);
    FeedBits(Shift, Xor, Widen, TakeBit, r, b, 8);
  }

  lemma TakeIsEightBits(r: bv32, b: bv8)
    ensures Take(r, b) == FoldLeft(TakeBit, r, Bits(b, 8))
  {
    FeedByte(r, b);
    EightIterations(Shift, Xor(r, Widen(b)));
    EightShifts(Xor(r, Widen(b)));
  }

  lemma BytesAreBits(r: bv32, bytes: seq<bv8>)
    ensures FoldLeft(Take, r, bytes) == FoldLeft(TakeBit, r, Message(bytes))
  {
    forall s, b
      ensures Take(s, b) == FoldLeft(TakeBit, s, Bits(b, 8))
    {
      TakeIsEightBits(s, b);
    }
    FoldFlatten(Take, TakeBit, (b: bv8) => Bits(b, 8), r, bytes);
  }

  // ----- Two messages with the same checksum cannot differ in one short run -----

  /** d fits in its low `bytes` bytes. */
  predicate Size(d: bv32, bytes: nat) {
    match bytes
    case 0 => d == 0
    case 1 => d < 0x100
    case 2 => d < 0x1_0000
    case _ => d < 0x100_0000
  }

  predicate Close(r: bv32, s: bv32, bytes: nat) {
    Size(Xor(r, s), bytes)
  }

  /** How the difference d of two registers, their next bytes and the difference after them hang together. */
  predicate Before(d: bv32, b: bv8, c: bv8, after: bv32) {
    Xor(d, Xor(Widen(b), Widen(c))) == Up(after)
  }

  function Up(d: bv32): bv32 { d << 8 }

  /** f is linear, and on small results the inverse of `up`. */
  ghost predicate Invertible<R(!new)>(f: R -> R, add: (R, R) -> R, small: R -> bool, up: R -> R) {
    && (forall x, y :: f(add(x, y)) == add(f(x), f(y)))
    && (forall d :: small(f(d)) ==> d == up(f(d)))
    && (forall r, s, b, c :: add(add(r, b), add(s, c)) == add(add(r, s), add(b, c)))
  }

  /** Such an f tells the difference before a step from a small difference after it. */
  lemma TellsBefore<R(!new)>(f: R -> R, add: (R, R) -> R, small: R -> bool, up: R -> R, r: R, s: R, b: R, c: R)
    requires Invertible(f, add, small, up) && small(add(f(add(r, b)), f(add(s, c))))
    ensures add(add(r, s), add(b, c)) == up(add(f(add(r, b)), f(add(s, c))))
  {
    assert f(add(add(r, b), add(s, c))) == add(f(add(r, b)), f(add(s, c)));
  }

  predicate Small(d: bv32) {
    Size(d, 3)
  }

  lemma Shift8LinearEverywhere()
    ensures forall x, y :: Shift8(Xor(x, y)) == Xor(Shift8(x), Shift8(y))
  {
    forall x, y
      ensures Shift8(Xor(x, y)) == Xor(Shift8(x), Shift8(y))
    {
      Shift8Linear(x, y);
    }
  }

  lemma Shift8SmallEverywhere()
    ensures forall d :: Small(Shift8(d)) ==> d == Up(Shift8(d))
  {
    forall d | Small(Shift8(d))
      ensures d == Up(Shift8(d))
    {
      Shift8Small(d);
    }
  }

  lemma RegroupEverywhere()
    ensures forall r, s, b, c :: Xor(Xor(r, b), Xor(s, c)) == Xor(Xor(r, s), Xor(b, c))
  {
    forall r, s, b, c
      ensures Xor(Xor(r, b), Xor(s, c)) == Xor(Xor(r, s), Xor(b, c))
    {
      Regroup(r, s, b, c);
    }
  }

  lemma Shift8IsInvertible()
    ensures Invertible(Shift8, Xor, Small, Up)
  {
    Shift8LinearEverywhere();
    Shift8SmallEverywhere();
    RegroupEverywhere();
  }

  lemma Shift8TellsBefore(r: bv32, s: bv32, b: bv32, c: bv32)
    requires Small(Xor(Shift8(Xor(r, b)), Shift8(Xor(s, c))))
    ensures Xor(Xor(r, s), Xor(b, c)) == Up(Xor(Shift8(Xor(r, b)), Shift8(Xor(s, c))))
  {
    Shift8IsInvertible();
    TellsBefore(Shift8, Xor, Small, Up, r, s, b, c);
  }

  /** Steps that tell the difference before them, in differences that grow by one unit a step. */
  ghost predicate Telling<R(!new), B(!new)>(step: (R, B) -> R, diff: (R, R) -> R, size: (R, nat) -> bool,
                                            before: (R, B, B, R) -> bool, limit: nat) {
    && (forall r, s, b, c :: size(diff(step(r, b), step(s, c)), limit) ==>
          before(diff(r, s), b, c, diff(step(r, b), step(s, c))))
    && (forall d, b, c, after, k: nat :: k < limit && before(d, b, c, after) && size(after, k) ==> size(d, k + 1))
    && (forall d, b, after :: before(d, b, b, after) && size(after, 0) ==> size(d, 0))
    && (forall r, b, c, after :: before(diff(r, r), b, c, after) && size(after, limit) ==> b == c)
    && (forall r :: size(diff(r, r), 0))
    && (forall d, k: nat :: k <= limit && size(d, k) ==> size(d, limit))
  }

  lemma TellingSeparates<R(!new), B(!new)>(step: (R, B) -> R, diff: (R, R) -> R, size: (R, nat) -> bool,
                                           before: (R, B, B, R) -> bool, close: (R, R, nat) -> bool, limit: nat)
    requires Telling(step, diff, size, before, limit)
    requires forall r, s, k :: close(r, s, k) == size(diff(r, s), k)
    ensures Separates(step, close, limit)
  {
  }

  lemma SizeFacts()
    ensures forall d, b, c, after, k: nat :: k < 3 && Before(d, b, c, after) && Size(after, k) ==> Size(d, k + 1)
    ensures forall d, b, after :: Before(d, b, b, after) && Size(after, 0) ==> Size(d, 0)
    ensures forall d, k: nat :: k <= 3 && Size(d, k) ==> Size(d, 3)
    ensures forall r :: Size(Xor(r, r), 0)
  {
    forall d, b, c, after | Before(d, b, c, after)
      ensures Size(after, 0) ==> Size(d, 1) && (b == c ==> Size(d, 0))
      ensures Size(after, 1) ==> Size(d, 2)
      ensures Size(after, 2) ==> Size(d, 3)
    {
    }
  }

  lemma BeforeFromEqual(r: bv32, b: bv8, c: bv8, after: bv32)
    requires Before(Xor(r, r), b, c, after) && Size(after, 3)
    ensures b == c
  {
  }

  lemma TakeIsTelling()
    ensures Telling(Take, Xor, Size, Before, 3)
  {
    forall r, s, b, c | Size(Xor(Take(r, b), Take(s, c)), 3)
      ensures Before(Xor(r, s), b, c, Xor(Take(r, b), Take(s, c)))
    {
      Shift8TellsBefore(r, s, Widen(b), Widen(c));
    }
    SizeFacts();
    forall r, b, c, after | Before(Xor(r, r), b, c, after) && Size(after, 3)
      ensures b == c
    {
      BeforeFromEqual(r, b, c, after);
    }
  }

  lemma EqualRegistersEqualBytes(r: bv32, x: seq<bv8>, y: seq<bv8>)
    requires AgreeFrom(x, y, 4) && FoldLeft(Take, r, x) == FoldLeft(Take, r, y)
    ensures x == y
  {
    TakeIsTelling();
    TellingSeparates(Take, Xor, Size, Before, Close, 3);
    ShortRunIsSeen(Take, Close, 3, r, x, y, 4);
  }

  function Register(bytes: seq<bv8>): bv32 {
    FoldLeft(Take, 0xFFFF_FFFF, bytes)
  }

  lemma CrcOfRegister(bytes: seq<bv8>)
    ensures Crc32(bytes) == Register(bytes) ^ 0xFFFF_FFFF
  {
    BytesAreBits(0xFFFF_FFFF, bytes);
  }

  lemma CrcTellsRegister(x: seq<bv8>, y: seq<bv8>)
    ensures Crc32(x) == Crc32(y) <==> Register(x) == Register(y)
  {
    CrcOfRegister(x);
    CrcOfRegister(y);
    XorCancel(Crc32(x), Register(x), Crc32(y), Register(y), 0xFFFF_FFFF);
  }

  lemma RegisterConcat(x: seq<bv8>, y: seq<bv8>)
    ensures Register(x + y) == FoldLeft(Take, Register(x), y)
  {
    FoldConcat(Take, 0xFFFF_FFFF, x, y);
  }

  lemma BurstChangesRegister(p: seq<bv8>, x: seq<bv8>, y: seq<bv8>)
    requires AgreeFrom(x, y, 4) && x != y
    ensures Register(p + x) != Register(p + y)
  {
    RegisterConcat(p, x);
    RegisterConcat(p, y);
    if Register(p + x) == Register(p + y) {
      EqualRegistersEqualBytes(Register(p), x, y);
    }
  }

  /** A change confined to four consecutive bytes changes the CRC. */
  lemma BurstChangesCrc(x: seq<bv8>, y: seq<bv8>, at: nat)
    requires |x| == |y| && x != y
    requires forall i :: 0 <= i < |x| && (i < at || at + 4 <= i) ==> x[i] == y[i]
    ensures Crc32(x) != Crc32(y)
  {
    var p := if at <= |x| then at else |x|;
    assert x == x[..p] + x[p..] && y == y[..p] + y[p..] && x[..p] == y[..p];
    CrcTellsRegister(x, y);
    BurstChangesRegister(x[..p], x[p..], y[p..]);
  }

  lemma XorCancel(a: bv32, r: bv32, b: bv32, s: bv32, c: bv32)
    requires a == r ^ c && b == s ^ c
    ensures a == b <==> r == s
  {
    if a == b {
      XorInjective(r, s, c);
    }
  }

  lemma XorInjective(r: bv32, s: bv32, c: bv32)
    requires r ^ c == s ^ c
    ensures r == s
  {
  }
}

/** The table-driven loop and the checksum field of an EFI table header. */
module Crc {
  import opened BitSerialCrc
  import opened ByteSerialCrc
  import opened Folds

  function CRCTable(i: bv8): bv32 {
    match i >> 4
    case 0x0 => Row0(i & 0xF)
    case 0x1 => Row1(i & 0xF)
    case 0x2 => Row2(i & 0xF)
    case 0x3 => Row3(i & 0xF)
    case 0x4 => Row4(i & 0xF)
    case 0x5 => Row5(i & 0xF)
    case 0x6 => Row6(i & 0xF)
    case 0x7 => Row7(i & 0xF)
    case 0x8 => Row8(i & 0xF)
    case 0x9 => Row9(i & 0xF)
    case 0xA => RowA(i & 0xF)
    case 0xB => RowB(i & 0xF)
    case 0xC => RowC(i & 0xF)
    case 0xD => RowD(i & 0xF)
    case 0xE => RowE(i & 0xF)
    case _ => RowF(i & 0xF)
  }

  function Row0(k: bv8): bv32 {
    match k
    case 0x0 => 0x00000000 case 0x1 => 0x77073096 case 0x2 => 0xEE0E612C case 0x3 => 0x990951BA
    case 0x4 => 0x076DC419 case 0x5 => 0x706AF48F case 0x6 => 0xE963A535 case 0x7 => 0x9E6495A3
    case 0x8 => 0x0EDB8832 case 0x9 => 0x79DCB8A4 case 0xA => 0xE0D5E91E case 0xB => 0x97D2D988
    case 0xC => 0x09B64C2B case 0xD => 0x7EB17CBD case 0xE => 0xE7B82D07 case _ => 0x90BF1D91
  }

  function Row1(k: bv8): bv32 {
    match k
    case 0x0 => 0x1DB71064 case 0x1 => 0x6AB020F2 case 0x2 => 0xF3B97148 case 0x3 => 0x84BE41DE
    case 0x4 => 0x1ADAD47D case 0x5 => 0x6DDDE4EB case 0x6 => 0xF4D4B551 case 0x7 => 0x83D385C7
    case 0x8 => 0x136C9856 case 0x9 => 0x646BA8C0 case 0xA => 0xFD62F97A case 0xB => 0x8A65C9EC
    case 0xC => 0x14015C4F case 0xD => 0x63066CD9 case 0xE => 0xFA0F3D63 case _ => 0x8D080DF5
  }

  function Row2(k: bv8): bv32 {
    match k
    case 0x0 => 0x3B6E20C8 case 0x1 => 0x4C69105E case 0x2 => 0xD56041E4 case 0x3 => 0xA2677172
    case 0x4 => 0x3C03E4D1 case 0x5 => 0x4B04D447 case 0x6 => 0xD20D85FD case 0x7 => 0xA50AB56B
    case 0x8 => 0x35B5A8FA case 0x9 => 0x42B2986C case 0xA => 0xDBBBC9D6 case 0xB => 0xACBCF940
    case 0xC => 0x32D86CE3 case 0xD => 0x45DF5C75 case 0xE => 0xDCD60DCF case _ => 0xABD13D59
  }

  function Row3(k: bv8): bv32 {
    match k
    case 0x0 => 0x26D930AC case 0x1 => 0x51DE003A case 0x2 => 0xC8D75180 case 0x3 => 0xBFD06116
    case 0x4 => 0x21B4F4B5 case 0x5 => 0x56B3C423 case 0x6 => 0xCFBA9599 case 0x7 => 0xB8BDA50F
    case 0x8 => 0x2802B89E case 0x9 => 0x5F058808 case 0xA => 0xC60CD9B2 case 0xB => 0xB10BE924
    case 0xC => 0x2F6F7C87 case 0xD => 0x58684C11 case 0xE => 0xC1611DAB case _ => 0xB6662D3D
  }

  function Row4(k: bv8): bv32 {
    match k
    case 0x0 => 0x76DC4190 case 0x1 => 0x01DB7106 case 0x2 => 0x98D220BC case 0x3 => 0xEFD5102A
    case 0x4 => 0x71B18589 case 0x5 => 0x06B6B51F case 0x6 => 0x9FBFE4A5 case 0x7 => 0xE8B8D433
    case 0x8 => 0x7807C9A2 case 0x9 => 0x0F00F934 case 0xA => 0x9609A88E case 0xB => 0xE10E9818
    case 0xC => 0x7F6A0DBB case 0xD => 0x086D3D2D case 0xE => 0x91646C97 case _ => 0xE6635C01
  }

  function Row5(k: bv8): bv32 {
    match k
    case 0x0 => 0x6B6B51F4 case 0x1 => 0x1C6C6162 case 0x2 => 0x856530D8 case 0x3 => 0xF262004E
    case 0x4 => 0x6C0695ED case 0x5 => 0x1B01A57B case 0x6 => 0x8208F4C1 case 0x7 => 0xF50FC457
    case 0x8 => 0x65B0D9C6 case 0x9 => 0x12B7E950 case 0xA => 0x8BBEB8EA case 0xB => 0xFCB9887C
    case 0xC => 0x62DD1DDF case 0xD => 0x15DA2D49 case 0xE => 0x8CD37CF3 case _ => 0xFBD44C65
  }

  function Row6(k: bv8): bv32 {
    match k
    case 0x0 => 0x4DB26158 case 0x1 => 0x3AB551CE case 0x2 => 0xA3BC0074 case 0x3 => 0xD4BB30E2
    case 0x4 => 0x4ADFA541 case 0x5 => 0x3DD895D7 case 0x6 => 0xA4D1C46D case 0x7 => 0xD3D6F4FB
    case 0x8 => 0x4369E96A case 0x9 => 0x346ED9FC case 0xA => 0xAD678846 case 0xB => 0xDA60B8D0
    case 0xC => 0x44042D73 case 0xD => 0x33031DE5 case 0xE => 0xAA0A4C5F case _ => 0xDD0D7CC9
  }

  function Row7(k: bv8): bv32 {
    match k
    case 0x0 => 0x5005713C case 0x1 => 0x270241AA case 0x2 => 0xBE0B1010 case 0x3 => 0xC90C2086
    case 0x4 => 0x5768B525 case 0x5 => 0x206F85B3 case 0x6 => 0xB966D409 case 0x7 => 0xCE61E49F
    case 0x8 => 0x5EDEF90E case 0x9 => 0x29D9C998 case 0xA => 0xB0D09822 case 0xB => 0xC7D7A8B4
    case 0xC => 0x59B33D17 case 0xD => 0x2EB40D81 case 0xE => 0xB7BD5C3B case _ => 0xC0BA6CAD
  }

  function Row8(k: bv8): bv32 {
    match k
    case 0x0 => 0xEDB88320 case 0x1 => 0x9ABFB3B6 case 0x2 => 0x03B6E20C case 0x3 => 0x74B1D29A
    case 0x4 => 0xEAD54739 case 0x5 => 0x9DD277AF case 0x6 => 0x04DB2615 case 0x7 => 0x73DC1683
    case 0x8 => 0xE3630B12 case 0x9 => 0x94643B84 case 0xA => 0x0D6D6A3E case 0xB => 0x7A6A5AA8
    case 0xC => 0xE40ECF0B case 0xD => 0x9309FF9D case 0xE => 0x0A00AE27 case _ => 0x7D079EB1
  }

  function Row9(k: bv8): bv32 {
    match k
    case 0x0 => 0xF00F9344 case 0x1 => 0x8708A3D2 case 0x2 => 0x1E01F268 case 0x3 => 0x6906C2FE
    case 0x4 => 0xF762575D case 0x5 => 0x806567CB case 0x6 => 0x196C3671 case 0x7 => 0x6E6B06E7
    case 0x8 => 0xFED41B76 case 0x9 => 0x89D32BE0 case 0xA => 0x10DA7A5A case 0xB => 0x67DD4ACC
    case 0xC => 0xF9B9DF6F case 0xD => 0x8EBEEFF9 case 0xE => 0x17B7BE43 case _ => 0x60B08ED5
  }

  function RowA(k: bv8): bv32 {
    match k
    case 0x0 => 0xD6D6A3E8 case 0x1 => 0xA1D1937E case 0x2 => 0x38D8C2C4 case 0x3 => 0x4FDFF252
    case 0x4 => 0xD1BB67F1 case 0x5 => 0xA6BC5767 case 0x6 => 0x3FB506DD case 0x7 => 0x48B2364B
    case 0x8 => 0xD80D2BDA case 0x9 => 0xAF0A1B4C case 0xA => 0x36034AF6 case 0xB => 0x41047A60
    case 0xC => 0xDF60EFC3 case 0xD => 0xA867DF55 case 0xE => 0x316E8EEF case _ => 0x4669BE79
  }

  function RowB(k: bv8): bv32 {
    match k
    case 0x0 => 0xCB61B38C case 0x1 => 0xBC66831A case 0x2 => 0x256FD2A0 case 0x3 => 0x5268E236
    case 0x4 => 0xCC0C7795 case 0x5 => 0xBB0B4703 case 0x6 => 0x220216B9 case 0x7 => 0x5505262F
    case 0x8 => 0xC5BA3BBE case 0x9 => 0xB2BD0B28 case 0xA => 0x2BB45A92 case 0xB => 0x5CB36A04
    case 0xC => 0xC2D7FFA7 case 0xD => 0xB5D0CF31 case 0xE => 0x2CD99E8B case _ => 0x5BDEAE1D
  }

  function RowC(k: bv8): bv32 {
    match k
    case 0x0 => 0x9B64C2B0 case 0x1 => 0xEC63F226 case 0x2 => 0x756AA39C case 0x3 => 0x026D930A
    case 0x4 => 0x9C0906A9 case 0x5 => 0xEB0E363F case 0x6 => 0x72076785 case 0x7 => 0x05005713
    case 0x8 => 0x95BF4A82 case 0x9 => 0xE2B87A14 case 0xA => 0x7BB12BAE case 0xB => 0x0CB61B38
    case 0xC => 0x92D28E9B case 0xD => 0xE5D5BE0D case 0xE => 0x7CDCEFB7 case _ => 0x0BDBDF21
  }

  function RowD(k: bv8): bv32 {
    match k
    case 0x0 => 0x86D3D2D4 case 0x1 => 0xF1D4E242 case 0x2 => 0x68DDB3F8 case 0x3 => 0x1FDA836E
    case 0x4 => 0x81BE16CD case 0x5 => 0xF6B9265B case 0x6 => 0x6FB077E1 case 0x7 => 0x18B74777
    case 0x8 => 0x88085AE6 case 0x9 => 0xFF0F6A70 case 0xA => 0x66063BCA case 0xB => 0x11010B5C
    case 0xC => 0x8F659EFF case 0xD => 0xF862AE69 case 0xE => 0x616BFFD3 case _ => 0x166CCF45
  }

  function RowE(k: bv8): bv32 {
    match k
    case 0x0 => 0xA00AE278 case 0x1 => 0xD70DD2EE case 0x2 => 0x4E048354 case 0x3 => 0x3903B3C2
    case 0x4 => 0xA7672661 case 0x5 => 0xD06016F7 case 0x6 => 0x4969474D case 0x7 => 0x3E6E77DB
    case 0x8 => 0xAED16A4A case 0x9 => 0xD9D65ADC case 0xA => 0x40DF0B66 case 0xB => 0x37D83BF0
    case 0xC => 0xA9BCAE53 case 0xD => 0xDEBB9EC5 case 0xE => 0x47B2CF7F case _ => 0x30B5FFE9
  }

  function RowF(k: bv8): bv32 {
    match k
    case 0x0 => 0xBDBDF21C case 0x1 => 0xCABAC28A case 0x2 => 0x53B39330 case 0x3 => 0x24B4A3A6
    case 0x4 => 0xBAD03605 case 0x5 => 0xCDD70693 case 0x6 => 0x54DE5729 case 0x7 => 0x23D967BF
    case 0x8 => 0xB3667A2E case 0x9 => 0xC4614AB8 case 0xA => 0x5D681B02 case 0xB => 0x2A6F2B94
    case 0xC => 0xB40BBE37 case 0xD => 0xC30C8EA1 case 0xE => 0x5A05DF1B case _ => 0x2D02EF8D
  }

  lemma Row0IsShift8(i: bv8)
    requires i >> 4 == 0x0
    ensures Row0(i & 0xF) == Shift8(i as bv32)
  {
  }

  lemma Row1IsShift8(i: bv8)
    requires i >> 4 == 0x1
    ensures Row1(i & 0xF) == Shift8(i as bv32)
  {
  }

  lemma Row2IsShift8(i: bv8)
    requires i >> 4 == 0x2
    ensures Row2(i & 0xF) == Shift8(i as bv32)
  {
  }

  lemma Row3IsShift8(i: bv8)
    requires i >> 4 == 0x3
    ensures Row3(i & 0xF) == Shift8(i as bv32)
  {
  }

  lemma Row4IsShift8(i: bv8)
    requires i >> 4 == 0x4
    ensures Row4(i & 0xF) == Shift8(i as bv32)
  {
  }

  lemma Row5IsShift8(i: bv8)
    requires i >> 4 == 0x5
    ensures Row5(i & 0xF) == Shift8(i as bv32)
  {
  }

  lemma Row6IsShift8(i: bv8)
    requires i >> 4 == 0x6
    ensures Row6(i & 0xF) == Shift8(i as bv32)
  {
  }

  lemma Row7IsShift8(i: bv8)
    requires i >> 4 == 0x7
    ensures Row7(i & 0xF) == Shift8(i as bv32)
  {
  }

  lemma Row8IsShift8(i: bv8)
    requires i >> 4 == 0x8
    ensures Row8(i & 0xF) == Shift8(i as bv32)
  {
  }

  lemma Row9IsShift8(i: bv8)
    requires i >> 4 == 0x9
    ensures Row9(i & 0xF) == Shift8(i as bv32)
  {
  }

  lemma RowAIsShift8(i: bv8)
    requires i >> 4 == 0xA
    ensures RowA(i & 0xF) == Shift8(i as bv32)
  {
  }

  lemma RowBIsShift8(i: bv8)
    requires i >> 4 == 0xB
    ensures RowB(i & 0xF) == Shift8(i as bv32)
  {
  }

  lemma RowCIsShift8(i: bv8)
    requires i >> 4 == 0xC
    ensures RowC(i & 0xF) == Shift8(i as bv32)
  {
  }

  lemma RowDIsShift8(i: bv8)
    requires i >> 4 == 0xD
    ensures RowD(i & 0xF) == Shift8(i as bv32)
  {
  }

  lemma RowEIsShift8(i: bv8)
    requires i >> 4 == 0xE
    ensures RowE(i & 0xF) == Shift8(i as bv32)
  {
  }

  lemma RowFIsShift8(i: bv8)
    requires i >> 4 == 0xF
    ensures RowF(i & 0xF) == Shift8(i as bv32)
  {
  }

  lemma TableIsShift8(i: bv8)
    ensures CRCTable(i) == Shift8(i as bv32)
  {
    match i >> 4
    case 0x0 => Row0IsShift8(i);
    case 0x1 => Row1IsShift8(i);
    case 0x2 => Row2IsShift8(i);
    case 0x3 => Row3IsShift8(i);
    case 0x4 => Row4IsShift8(i);
    case 0x5 => Row5IsShift8(i);
    case 0x6 => Row6IsShift8(i);
    case 0x7 => Row7IsShift8(i);
    case 0x8 => Row8IsShift8(i);
    case 0x9 => Row9IsShift8(i);
    case 0xA => RowAIsShift8(i);
    case 0xB => RowBIsShift8(i);
    case 0xC => RowCIsShift8(i);
    case 0xD => RowDIsShift8(i);
    case 0xE => RowEIsShift8(i);
    case _ => RowFIsShift8(i);
  }

  // ----- The loop, with its accumulator wider than the register -----

  /** The low byte is looked up, the others move down. */
  lemma TakeByTable(r: bv32, b: bv8, low: bv8)
    requires low == LowByte(r, b)
    ensures Take(r, b) == Xor(r >> 8, CRCTable(low))
  {
    var high := (r >> 8) << 8;
    SplitLowByte(r, b);
    Shift8Linear(high, Widen(low));
    Shift8OfHighBytes(r);
    EntryIsShift8(low);
    BySplitting(Shift8, Xor, Xor(r, Widen(b)), high, Widen(low), r >> 8, CRCTable(low));
  }

  lemma BySplitting<R>(f: R -> R, add: (R, R) -> R, sum: R, x: R, y: R, fx: R, fy: R)
    requires sum == add(x, y) && f(add(x, y)) == add(f(x), f(y)) && f(x) == fx && f(y) == fy
    ensures f(sum) == add(fx, fy)
  {
  }

  lemma EntryIsShift8(i: bv8)
    ensures Shift8(Widen(i)) == CRCTable(i)
  {
    TableIsShift8(i);
  }

  function LowByte(r: bv32, b: bv8): bv8 { (r & 0xFF) as bv8 ^ b }

  lemma SplitLowByte(r: bv32, b: bv8)
    ensures Xor(r, Widen(b)) == Xor((r >> 8) << 8, Widen(LowByte(r, b)))
  {
    LowByteWidened(r, b);
    HighAndLow(r);
    Associate((r >> 8) << 8, r & 0xFF, Widen(b));
  }

  lemma LowByteWidened(r: bv32, b: bv8)
    ensures Widen(LowByte(r, b)) == (r & 0xFF) ^ Widen(b)
  {
  }

  lemma HighAndLow(r: bv32)
    ensures r == ((r >> 8) << 8) ^ (r & 0xFF)
  {
  }

  lemma Associate(x: bv32, y: bv32, z: bv32)
    ensures (x ^ y) ^ z == x ^ (y ^ z)
  {
  }

  lemma Shift8OfHighBytes(r: bv32)
    ensures Shift8((r >> 8) << 8) == r >> 8
  {
  }

  lemma Narrow(crc: bv64, b: bv8)
    requires crc < 0x1_0000_0000
    ensures Index(crc, b) == LowByte(crc as bv32, b)
  {
  }

  lemma NarrowXor(crc: bv64, entry: bv32)
    requires crc < 0x1_0000_0000
    ensures (crc >> 8) ^ entry as bv64 < 0x1_0000_0000
    ensures ((crc >> 8) ^ entry as bv64) as bv32 == Xor(crc as bv32 >> 8, entry)
  {
  }

  function Index(crc: bv64, b: bv8): bv8 { (crc & 0xFF) as bv8 ^ b }

  lemma WideLookUp(crc: bv64, b: bv8, i: bv8)
    requires crc < 0x1_0000_0000 && i == Index(crc, b)
    ensures Take(crc as bv32, b) == Xor(crc as bv32 >> 8, CRCTable(i))
  {
    Narrow(crc, b);
    TakeByTable(crc as bv32, b, i);
  }

  method LookUpEntry(crc: bv64, b: bv8) returns (entry: bv32)
    requires crc < 0x1_0000_0000
    ensures Take(crc as bv32, b) == Xor(crc as bv32 >> 8, entry)
  {
    WideLookUp(crc, b, Index(crc, b));
    entry := CRCTable((crc & 0xFF) as bv8 ^ b);
  }

  lemma RegisterOneMore(bytes: seq<bv8>, i: nat)
    requires i < |bytes|
    ensures Register(bytes[..i + 1]) == Take(Register(bytes[..i]), bytes[i])
  {
    FoldOneMore(Take, 0xFFFF_FFFF, bytes, i);
  }

  lemma TakeThree(r: bv32, a: bv8, b: bv8, c: bv8)
    ensures FoldLeft(Take, r, [a, b, c]) == Take(Take(Take(r, a), b), c)
  {
    assert [a, b, c][1..] == [b, c] && [b, c][1..] == [c] && [c][1..] == [];
    assert FoldLeft(Take, Take(Take(r, a), b), [c]) == Take(Take(Take(r, a), b), c);
    assert FoldLeft(Take, Take(r, a), [b, c]) == FoldLeft(Take, Take(Take(r, a), b), [c]);
  }

  lemma FirstThreeDigits()
    ensures FoldLeft(Take, 0xFFFF_FFFF, [0x31, 0x32, 0x33]) == 0x77B7_9C2D
  {
    TakeByTable(0xFFFF_FFFF, 0x31, 0xCE);
    TakeByTable(0x7C23_1048, 0x32, 0x7A);
    TakeByTable(0xB0AC_BB32, 0x33, 0x01);
    TakeThree(0xFFFF_FFFF, 0x31, 0x32, 0x33);
  }

  lemma SecondThreeDigits()
    ensures FoldLeft(Take, 0x77B7_9C2D, [0x34, 0x35, 0x36]) == 0xF68D_2C9E
  {
    TakeByTable(0x77B7_9C2D, 0x34, 0x19);
    TakeByTable(0x641C_1F5C, 0x35, 0x69);
    TakeByTable(0x340A_C5E3, 0x36, 0xD5);
    TakeThree(0x77B7_9C2D, 0x34, 0x35, 0x36);
  }

  lemma ThirdThreeDigits()
    ensures FoldLeft(Take, 0xF68D_2C9E, [0x37, 0x38, 0x39]) == 0x340B_C6D9
  {
    TakeByTable(0xF68D_2C9E, 0x37, 0xA9);
    TakeByTable(0xAFFC_9660, 0x38, 0x58);
    TakeByTable(0x651F_2550, 0x39, 0x69);
    TakeThree(0xF68D_2C9E, 0x37, 0x38, 0x39);
  }

  /** The digits 1 to 9 in ASCII have the check value of the CRC-32 of Ethernet and zip files, 0xCBF43926. */
  lemma CheckValue()
    ensures Crc32([0x31, 0x32, 0x33] + [0x34, 0x35, 0x36] + [0x37, 0x38, 0x39]) == 0xCBF4_3926
  {
    var x: seq<bv8>, y: seq<bv8>, z: seq<bv8> := [0x31, 0x32, 0x33], [0x34, 0x35, 0x36], [0x37, 0x38, 0x39];
    FirstThreeDigits();
    SecondThreeDigits();
    ThirdThreeDigits();
    FoldConcat(Take, 0xFFFF_FFFF, x, y);
    FoldConcat(Take, 0xFFFF_FFFF, x + y, z);
    CrcOfRegister(x + y + z);
  }

  method CalculateCrc(pt: array<bv8>, Size: nat) returns (result: bv32)
    requires Size <= pt.Length
    ensures result == Crc32(pt[..Size])
  {
    var Crc: bv64 := 0xFFFF_FFFF;
    var i := 0;
    while i < Size
      invariant 0 <= i <= Size && Crc < 0x1_0000_0000
      invariant Crc as bv32 == Register(pt[..i])
    {
      RegisterOneMore(pt[..], i);
      assert pt[..][..i] == pt[..i] && pt[..][..i + 1] == pt[..i + 1];
      var entry := LookUpEntry(Crc, pt[i]);
      NarrowXor(Crc, entry);
      Crc := (Crc >> 8) ^ entry as bv64;
      i := i + 1;
    }
    CrcOfRegister(pt[..Size]);
    FinalXor(Crc);
    Crc := Crc ^ 0xFFFF_FFFF;
    result := Crc as bv32;
  }

  lemma FinalXor(crc: bv64)
    requires crc < 0x1_0000_0000
    ensures crc ^ 0xFFFF_FFFF < 0x1_0000_0000 && (crc ^ 0xFFFF_FFFF) as bv32 == crc as bv32 ^ 0xFFFF_FFFF
  {
  }

  // ----- The CRC32 field of a table header: four bytes at offset 16, least significant first -----

  const FIELD := 16

  function Little(v: bv32): (b: seq<bv8>)
    ensures |b| == 4
  {
    [(v & 0xFF) as bv8, ((v >> 8) & 0xFF) as bv8, ((v >> 16) & 0xFF) as bv8, (v >> 24) as bv8]
  }

  function FromLittle(b: seq<bv8>): bv32
    requires |b| == 4
  {
    b[0] as bv32 | (b[1] as bv32 << 8) | (b[2] as bv32 << 16) | (b[3] as bv32 << 24)
  }

  /** The four bytes are the digits of the number in base 256, the lowest first. */
  lemma LittleIsPositional(b0: bv8, b1: bv8, b2: bv8, b3: bv8)
    ensures FromLittle([b0, b1, b2, b3])
         == b0 as bv32 + 0x100 * (b1 as bv32 + 0x100 * (b2 as bv32 + 0x100 * b3 as bv32))
  {
  }

  lemma LittleRoundTrip(v: bv32)
    ensures FromLittle(Little(v)) == v
  {
  }

  lemma FromLittleRoundTrip(b: seq<bv8>)
    requires |b| == 4
    ensures Little(FromLittle(b)) == b
  {
    var v := FromLittle(b);
    FromLittleBytes(b[0], b[1], b[2], b[3]);
  }

  lemma FromLittleBytes(b0: bv8, b1: bv8, b2: bv8, b3: bv8)
    ensures var v := b0 as bv32 | (b1 as bv32 << 8) | (b2 as bv32 << 16) | (b3 as bv32 << 24);
      && (v & 0xFF) as bv8 == b0 && ((v >> 8) & 0xFF) as bv8 == b1
      && ((v >> 16) & 0xFF) as bv8 == b2 && (v >> 24) as bv8 == b3
  {
  }

  /** The header with its CRC32 field set to v. */
  function WithField(h: seq<bv8>, v: bv32): (r: seq<bv8>)
    requires |h| >= FIELD + 4
    ensures |r| == |h| && Field(r) == v
    ensures forall i :: 0 <= i < |h| && (i < FIELD || FIELD + 4 <= i) ==> r[i] == h[i]
  {
    LittleRoundTrip(v);
    var r := h[..FIELD] + Little(v) + h[FIELD + 4..];
    assert r[FIELD..FIELD + 4] == Little(v);
    r
  }

  function Field(h: seq<bv8>): bv32
    requires |h| >= FIELD + 4
  {
    FromLittle(h[FIELD..FIELD + 4])
  }

  /** The checksum of the first size bytes, the field itself counted as zero. */
  function Checksum(h: seq<bv8>, size: nat): bv32
    requires |h| >= FIELD + 4 && size <= |h|
  {
    Crc32(WithField(h, 0)[..size])
  }

  /** Where the field is zero already, that is the checksum of the bytes as they are. */
  lemma ChecksumOfZeroField(h: seq<bv8>, size: nat)
    requires |h| >= FIELD + 4 && size <= |h| && Field(h) == 0
    ensures Checksum(h, size) == Crc32(h[..size])
  {
    SameOutsideField(h, 0, 0);
  }

  lemma SameOutsideField(h: seq<bv8>, v: bv32, w: bv32)
    requires |h| >= FIELD + 4
    ensures WithField(WithField(h, v), w) == WithField(h, w)
    ensures WithField(h, Field(h)) == h
  {
    FromLittleRoundTrip(h[FIELD..FIELD + 4]);
    assert WithField(h, v)[..FIELD] == h[..FIELD] && WithField(h, v)[FIELD + 4..] == h[FIELD + 4..];
    assert h == h[..FIELD] + h[FIELD..FIELD + 4] + h[FIELD + 4..];
  }

  method PutField(Hdr: array<bv8>, v: bv32)
    requires Hdr.Length >= FIELD + 4
    modifies Hdr
    ensures Hdr[..] == WithField(old(Hdr[..]), v)
  {
    var b := Little(v);
    Hdr[FIELD], Hdr[FIELD + 1], Hdr[FIELD + 2], Hdr[FIELD + 3] := b[0], b[1], b[2], b[3];
    assert Hdr[..] == old(Hdr[..])[..FIELD] + b + old(Hdr[..])[FIELD + 4..];
  }

  method SetCrcAltSize(Size: nat, Hdr: array<bv8>)
    requires Hdr.Length >= FIELD + 4 && Size <= Hdr.Length
    modifies Hdr
    ensures Hdr[..] == WithField(old(Hdr[..]), Checksum(old(Hdr[..]), Size))
  {
    PutField(Hdr, 0);
    assert Hdr[..][..Size] == Hdr[..Size];
    var crc := CalculateCrc(Hdr, Size);
    SameOutsideField(old(Hdr[..]), 0, crc);
    PutField(Hdr, crc);
  }

  /** Whether a check of these bytes succeeds. */
  predicate Accepted(h: seq<bv8>, maxSize: nat, size: nat)
    requires |h| >= FIELD + 4 && (maxSize == 0 || size <= maxSize ==> size <= |h|)
  {
    size != 0 && (maxSize == 0 || size <= maxSize) && Field(h) == Checksum(h, size)
  }

  method CheckCrcAltSize(MaxSize: nat, Size: nat, Hdr: array<bv8>) returns (f: bool)
    requires Hdr.Length >= FIELD + 4 && (MaxSize == 0 || Size <= MaxSize ==> Size <= Hdr.Length)
    modifies Hdr
    ensures Hdr[..] == old(Hdr[..])
    ensures f == Accepted(old(Hdr[..]), MaxSize, Size)
    ensures f ==> 0 < Size && (MaxSize == 0 || Size <= MaxSize)
  {
    if Size == 0 {
      return false;
    }
    if MaxSize != 0 && Size > MaxSize {
      return false;
    }
    ghost var was := Hdr[..];
    var b := Hdr[FIELD..FIELD + 4];
    var orgCrc := FromLittle(b);
    assert b == was[FIELD..FIELD + 4];
    PutField(Hdr, 0);
    assert Hdr[..][..Size] == Hdr[..Size];
    var crc := CalculateCrc(Hdr, Size);
    SameOutsideField(was, 0, orgCrc);
    PutField(Hdr, orgCrc);
    f := orgCrc == crc;
  }

  /** What SetCrcAltSize leaves is accepted by CheckCrcAltSize. */
  lemma SetThenCheck(h: seq<bv8>, maxSize: nat, size: nat)
    requires |h| >= FIELD + 4 && 0 < size <= |h| && (maxSize == 0 || size <= maxSize)
    ensures Accepted(WithField(h, Checksum(h, size)), maxSize, size)
  {
    SameOutsideField(h, Checksum(h, size), 0);
  }

  lemma SameField(h: seq<bv8>, g: seq<bv8>)
    requires |h| == |g| >= FIELD + 4 && g[FIELD..FIELD + 4] == h[FIELD..FIELD + 4]
    ensures forall i :: FIELD <= i < FIELD + 4 ==> h[i] == g[i]
  {
    assert forall i :: FIELD <= i < FIELD + 4 ==>
        h[i] == h[FIELD..FIELD + 4][i - FIELD] && g[i] == g[FIELD..FIELD + 4][i - FIELD];
  }

  /** An accepted header is rejected after any change to the covered bytes that leaves the field alone
      and is confined to four consecutive bytes. */
  lemma ShortChangeIsRejected(h: seq<bv8>, g: seq<bv8>, maxSize: nat, size: nat, at: nat)
    requires |h| == |g| >= FIELD + 4 && size <= |h| && Accepted(h, maxSize, size)
    requires h[..size] != g[..size] && g[FIELD..FIELD + 4] == h[FIELD..FIELD + 4]
    requires forall i :: 0 <= i < size && (i < at || at + 4 <= i) ==> h[i] == g[i]
    ensures !Accepted(g, maxSize, size)
  {
    var x, y := WithField(h, 0)[..size], WithField(g, 0)[..size];
    SameField(h, g);
    var i :| 0 <= i < size && h[..size][i] != g[..size][i];
    assert h[i] != g[i];
    assert x[i] != y[i];
    forall k | 0 <= k < size && (k < at || at + 4 <= k)
      ensures x[k] == y[k]
    {
      if FIELD <= k < FIELD + 4 {
        assert WithField(h, 0)[k] == Little(0)[k - FIELD] == WithField(g, 0)[k];
      }
    }
    BurstChangesCrc(x, y, at);
  }
}
