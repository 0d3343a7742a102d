/**
  * Ogg's CRC-32 (server/oggopus.py): the table, the byte loop, and long division over GF(2).
  *
  * A 32-bit word is its 32 bits, most significant first, so that `<<`, `>>`, `^` and the mask
  * 0xFFFFFFFF become appending zeros, slicing, and bitwise difference.
  */
module OggCrc {
  import opened Bytes

  type bits = seq<bool>
  type word = w: bits | |w| == 32 witness Zeros(32)

  function Zeros(n: nat): (r: bits)
    ensures |r| == n
  {
    seq(n, _ => false)
  }

  /** The low `k` bits of `n`, most significant first. */
  function Bits(n: nat, k: nat): (r: bits)
    ensures |r| == k
  {
    if k == 0 then [] else Bits(n / 2, k - 1) + [n % 2 == 1]
  }

  function BitsValue(s: bits): nat {
    if s == [] then 0 else 2 * BitsValue(s[..|s| - 1]) + if s[|s| - 1] then 1 else 0
  }

  function Pow2(k: nat): nat {
    if k == 0 then 1 else 2 * Pow2(k - 1)
  }

  lemma {:induction false} BitsRoundTrip(n: nat, k: nat)
    requires n < Pow2(k)
    ensures BitsValue(Bits(n, k)) == n
  {
    if k > 0 {
      BitsRoundTrip(n / 2, k - 1);
      assert Bits(n, k)[..k - 1] == Bits(n / 2, k - 1);
    }
  }

  lemma {:induction false} ValueRoundTrip(s: bits)
    ensures BitsValue(s) < Pow2(|s|) && Bits(BitsValue(s), |s|) == s
  {
    if s != [] {
      ValueRoundTrip(s[..|s| - 1]);
    }
  }

  lemma Pow2Widths()
    ensures Pow2(8) == 256 && Pow2(32) == Pow256(4) == 0x1_0000_0000
  {
    Widths();
    assert Pow2(8) == 16 * Pow2(4);
    Pow2Add(8, 8);
    Pow2Add(16, 16);
  }

  lemma {:induction false} Pow2Add(m: nat, n: nat)
    ensures Pow2(m + n) == Pow2(m) * Pow2(n)
  {
    if n > 0 {
      Pow2Add(m, n - 1);
      assert Pow2(m) * (2 * Pow2(n - 1)) == 2 * (Pow2(m) * Pow2(n - 1));
    }
  }

  // ---------------------------------------------------------------------
  // The shift register
  // ---------------------------------------------------------------------

  const POLY: word := Bits(0x04C11DB7, 32)

  function Xor(x: bits, y: bits): (r: bits)
    requires |x| == |y|
    ensures |r| == |x|
  {
    seq(|x|, i requires 0 <= i < |x| => x[i] != y[i])
  }

  /** One step of the table builder: multiply by x modulo the generator. */
  function Shift(r: word): word {
    if r[0] then Xor(r[1..] + [false], POLY) else r[1..] + [false]
  }

  function Shifts(r: word, n: nat): word {
    if n == 0 then r else Shift(Shifts(r, n - 1))
  }

  /** A byte in the top eight bits: `b << 24`. */
  function AtTop(b: byte): word {
    Bits(b, 8) + Zeros(24)
  }

  /** The register after one more message byte. */
  function Step(r: word, b: byte): word {
    Shifts(Xor(r, AtTop(b)), 8)
  }

  /** The register after `data`, from `r`. */
  function Register(r: word, data: bytes): word {
    if data == [] then r else Step(Register(r, data[..|data| - 1]), data[|data| - 1])
  }

  /** The checksum of `data` as the integer the code returns. */
  function Crc(data: bytes): (crc: nat)
    ensures crc < Pow256(4)
  {
    var r := Register(Zeros(32), data);
    ValueRoundTrip(r);
    Pow2Widths();
    BitsValue(r)
  }

  lemma ShiftLinear(x: word, y: word)
    ensures Shift(Xor(x, y)) == Xor(Shift(x), Shift(y))
  {}

  lemma {:induction false} ShiftsLinear(x: word, y: word, n: nat)
    ensures Shifts(Xor(x, y), n) == Xor(Shifts(x, n), Shifts(y, n))
  {
    if n > 0 {
      ShiftsLinear(x, y, n - 1);
      ShiftLinear(Shifts(x, n - 1), Shifts(y, n - 1));
    }
  }

  lemma {:induction false} ShiftsCompose(r: word, m: nat, n: nat)
    ensures Shifts(Shifts(r, m), n) == Shifts(r, m + n)
  {
    if n > 0 {
      ShiftsCompose(r, m, n - 1);
    }
  }

  /** While the leading bits are zero nothing is reduced. */
  lemma {:induction false} ShiftsOfSmall(r: word, n: nat)
    requires n <= 32 && r[..n] == Zeros(n)
    ensures Shifts(r, n) == r[n..] + Zeros(n)
  {
    if n > 0 {
      assert r[..n - 1] == r[..n][..n - 1] == Zeros(n - 1);
      ShiftsOfSmall(r, n - 1);
      assert Shifts(r, n - 1)[0] == r[n - 1] == r[..n][n - 1];
      assert (r[n - 1..] + Zeros(n - 1))[1..] + [false] == r[n..] + Zeros(n);
    }
  }

  lemma ConstantTerm(x: word)
    ensures Shift(x)[31] == x[0]
  {
    assert POLY == Bits(0x04C11DB7 / 2, 31) + [true];
  }

  /** The generator has constant term 1, so multiplying by x loses nothing. */
  lemma ShiftInjective(x: word, y: word)
    requires Shift(x) == Shift(y)
    ensures x == y
  {
    ConstantTerm(x);
    ConstantTerm(y);
    forall i | 0 < i < 32 ensures x[i] == y[i] {
      assert Shift(x)[i - 1] == Shift(y)[i - 1];
    }
  }

  lemma {:induction false} ShiftsInjective(x: word, y: word, n: nat)
    requires Shifts(x, n) == Shifts(y, n)
    ensures x == y
  {
    if n > 0 {
      ShiftInjective(Shifts(x, n - 1), Shifts(y, n - 1));
      ShiftsInjective(x, y, n - 1);
    }
  }

  // ---------------------------------------------------------------------
  // The table and the byte loop
  // ---------------------------------------------------------------------

  ghost predicate IsCrcTable(table: seq<word>) {
    && |table| == 256
    && forall i: byte :: table[i] == Shifts(AtTop(i), 8)
  }

  method MakeCrcTable() returns (table: seq<word>)
    ensures IsCrcTable(table)
  {
    table := [];
    for i := 0 to 256
      invariant |table| == i
      invariant forall j: byte :: j < i ==> table[j] == Shifts(AtTop(j), 8)
    {
      var r: word := AtTop(i);
      for k := 0 to 8
        invariant r == Shifts(AtTop(i), k)
      {
        r := if r[0] then Xor(r[1..] + [false], POLY) else r[1..] + [false];
      }
      table := table + [r];
    }
  }

  lemma TopByteApart(r: word, b: byte)
    ensures Xor(r, AtTop(b)) == Xor(Zeros(8) + r[8..], Xor(r[..8], Bits(b, 8)) + Zeros(24))
  {
    hide Bits;
  }

  /** One table lookup performs the eight single-bit steps of a whole byte. */
  lemma TableStep(r: word, b: byte)
    ensures var index := BitsValue(Xor(r[..8], Bits(b, 8)));
            && index < 256
            && Xor(r[8..] + Zeros(8), Shifts(AtTop(index), 8)) == Step(r, b)
  {
    var top := Xor(r[..8], Bits(b, 8));
    var low: word := Zeros(8) + r[8..];
    ValueRoundTrip(top);
    Pow2Widths();
    TopByteApart(r, b);
    hide Bits, BitsValue, Xor, Shift;
    ShiftsLinear(low, top + Zeros(24), 8);
    assert low[..8] == Zeros(8) && low[8..] == r[8..];
    ShiftsOfSmall(low, 8);
  }

  method OggCrc32(table: seq<word>, data: bytes) returns (crc: nat)
    requires IsCrcTable(table)
    ensures crc == BitsValue(Remainder(data))
    ensures crc == Crc(data)
  {
    var r: word := Zeros(32);
    for i := 0 to |data|
      invariant r == Register(Zeros(32), data[..i])
    {
      TableStep(r, data[i]);
      assert data[..i + 1][..i] == data[..i];
      r := Xor(r[8..] + Zeros(8), table[BitsValue(Xor(r[..8], Bits(data[i], 8)))]);
    }
    assert data[..|data|] == data;
    RegisterIsRemainder(data);
    crc := BitsValue(r);
  }

  // ---------------------------------------------------------------------
  // Long division
  // ---------------------------------------------------------------------

  function MessageBits(data: bytes): (r: bits)
    ensures |r| == 8 * |data|
  {
    if data == [] then [] else MessageBits(data[..|data| - 1]) + Bits(data[|data| - 1], 8)
  }

  /**
    * Long division by x^32 + POLY, one message bit at a time: bring down the next bit and
    * subtract the generator whenever the remainder reaches degree 32.
    */
  function Divide(message: bits): word {
    if message == [] then Zeros(32) else
      var r := Divide(message[..|message| - 1]);
      var down := r[1..] + [message[|message| - 1]];
      if r[0] then Xor(down, POLY) else down
  }

  /** The remainder of message * x^32. */
  function Remainder(data: bytes): word {
    Divide(MessageBits(data) + Zeros(32))
  }

  lemma {:induction false} DivideZeros(message: bits, n: nat)
    ensures Divide(message + Zeros(n)) == Shifts(Divide(message), n)
  {
    if n == 0 {
      assert message + Zeros(0) == message;
    } else {
      var all := message + Zeros(n);
      assert all[..|all| - 1] == message + Zeros(n - 1);
      DivideZeros(message, n - 1);
    }
  }

  /** A bit that enters at the top is 32 steps ahead of one that enters at the bottom. */
  function Feed(s: word, bit: bool): word {
    Shift(s[0 := s[0] != bit])
  }

  lemma XorTopBit(s: word, bit: bool)
    ensures Xor(s, [bit] + Zeros(31)) == s[0 := s[0] != bit]
  {}

  lemma XorInPlaces(r: word, a: bits, b: bits)
    requires |a| + |b| <= 32
    ensures Xor(r, a + b + Zeros(32 - |a| - |b|))
            == Xor(Xor(r, a + Zeros(32 - |a|)), Zeros(|a|) + b + Zeros(32 - |a| - |b|))
  {}

  function Unit(bit: bool): word {
    Zeros(31) + [bit]
  }

  lemma ShiftsOfBit(n: nat, bit: bool)
    requires n <= 31
    ensures Shifts(Zeros(n) + [bit] + Zeros(31 - n), n) == [bit] + Zeros(31)
  {
    var here: word := Zeros(n) + [bit] + Zeros(31 - n);
    assert here[..n] == Zeros(n) && here[n..] == [bit] + Zeros(31 - n);
    ShiftsOfSmall(here, n);
  }

  lemma {:induction false} DivideOneMore(message: bits, bit: bool)
    ensures Shifts(Divide(message + [bit]), 32) == Feed(Shifts(Divide(message), 32), bit)
  {
    var r := Divide(message);
    var s := Shifts(r, 32);
    assert (message + [bit])[..|message|] == message;
    assert Divide(message + [bit]) == Xor(Shift(r), Unit(bit));
    ShiftsLinear(Shift(r), Unit(bit), 32);
    ShiftsCompose(r, 1, 32);
    assert Shifts(r, 1) == Shift(r);
    ShiftsOfBit(31, bit);
    assert Unit(bit) + Zeros(0) == Unit(bit);
    ShiftLinear(s, [bit] + Zeros(31));
    XorTopBit(s, bit);
  }

  function FeedAll(s: word, more: bits): word {
    if more == [] then s else Feed(FeedAll(s, more[..|more| - 1]), more[|more| - 1])
  }

  lemma {:induction false} DivideMore(message: bits, more: bits)
    ensures Shifts(Divide(message + more), 32) == FeedAll(Shifts(Divide(message), 32), more)
  {
    if more == [] {
      assert message + more == message;
    } else {
      var init, last := more[..|more| - 1], more[|more| - 1];
      DivideMore(message, init);
      DivideOneMore(message + init, last);
      assert message + init + [last] == message + more;
    }
  }

  /** Feeding bits one by one equals adding them all at the top first. */
  lemma {:induction false} FeedAtOnce(s: word, more: bits)
    requires |more| <= 32
    ensures Shifts(Xor(s, more + Zeros(32 - |more|)), |more|) == FeedAll(s, more)
  {
    if more == [] {
      assert Xor(s, more + Zeros(32)) == s;
    } else {
      var k := |more| - 1;
      var init, last := more[..k], more[k];
      FeedAtOnce(s, init);
      XorInPlaces(s, init, [last]);
      ShiftsOfBit(k, last);
      ShiftsLinear(Xor(s, init + Zeros(32 - k)), Zeros(k) + [last] + Zeros(31 - k), k);
      XorTopBit(FeedAll(s, init), last);
      assert init + [last] == more;
    }
  }

  /** The byte-at-a-time register is the long-division remainder. */
  lemma {:induction false} RegisterIsRemainder(data: bytes)
    ensures Register(Zeros(32), data) == Remainder(data)
  {
    DivideZeros(MessageBits(data), 32);
    if data == [] {
      assert Zeros(32)[..32] == Zeros(32) && Zeros(32)[32..] == [];
      ShiftsOfSmall(Zeros(32), 32);
    } else {
      var init, b := data[..|data| - 1], data[|data| - 1];
      RegisterIsRemainder(init);
      DivideZeros(MessageBits(init), 32);
      DivideMore(MessageBits(init), Bits(b, 8));
      FeedAtOnce(Register(Zeros(32), init), Bits(b, 8));
    }
  }

  lemma OneAtTop()
    ensures AtTop(1) == Zeros(7) + [true] + Zeros(24)
  {
    assert Bits(1, 8) == Bits(0, 7) + [true] && Bits(0, 7) == Zeros(7);
  }

  /** The message 1 times x^32 is the generator's leading term, so its remainder is the rest of the generator. */
  lemma CrcOfOne()
    ensures Crc([1]) == 0x04C11DB7
  {
    OneAtTop();
    ShiftsOfBit(7, true);
    Pow2Widths();
    BitsRoundTrip(0x04C11DB7, 32);
    assert [1][..0] == [] && Register(Zeros(32), [1]) == Step(Zeros(32), 1);
    hide AtTop, Bits, BitsValue, Register, Pow2;
    assert Xor(Zeros(32), AtTop(1)) == AtTop(1);
    assert Shift([true] + Zeros(31)) == POLY;
  }

  // ---------------------------------------------------------------------
  // Burst damage
  // ---------------------------------------------------------------------

  lemma {:induction false} FeedAllConcat(s: word, a: bits, b: bits)
    ensures FeedAll(s, a + b) == FeedAll(FeedAll(s, a), b)
  {
    if b == [] {
      assert a + b == a;
    } else {
      assert (a + b)[..|a + b| - 1] == a + b[..|b| - 1];
      FeedAllConcat(s, a, b[..|b| - 1]);
    }
  }

  /** Equal bits never merge two different registers. */
  lemma {:induction false} FeedAllInjective(r: word, s: word, more: bits)
    requires FeedAll(r, more) == FeedAll(s, more)
    ensures r == s
  {
    if more != [] {
      var init, bit := more[..|more| - 1], more[|more| - 1];
      var r', s' := FeedAll(r, init), FeedAll(s, init);
      ShiftInjective(r'[0 := r'[0] != bit], s'[0 := s'[0] != bit]);
      forall i | 0 <= i < 32 ensures r'[i] == s'[i] {
        assert r'[0 := r'[0] != bit][i] == s'[0 := s'[0] != bit][i];
      }
      FeedAllInjective(r, s, init);
    }
  }

  /** Up to 32 different bits leave different registers. */
  lemma FeedWindowInjective(s: word, v: bits, w: bits)
    requires |v| == |w| <= 32 && FeedAll(s, v) == FeedAll(s, w)
    ensures v == w
  {
    var z := Zeros(32 - |v|);
    FeedAtOnce(s, v);
    FeedAtOnce(s, w);
    ShiftsInjective(Xor(s, v + z), Xor(s, w + z), |v|);
    forall i | 0 <= i < |v| ensures v[i] == w[i] {
      assert Xor(s, v + z)[i] == Xor(s, w + z)[i];
    }
  }

  lemma NothingDivided()
    ensures Shifts(Divide([]), 32) == Zeros(32)
  {
    assert Zeros(32)[..32] == Zeros(32) && Zeros(32)[32..] + Zeros(32) == Zeros(32);
    ShiftsOfSmall(Zeros(32), 32);
  }

  lemma RegisterFeeds(data: bytes)
    ensures Register(Zeros(32), data) == FeedAll(Zeros(32), MessageBits(data))
  {
    hide Register, FeedAll, Divide, Shifts, MessageBits;
    RegisterIsRemainder(data);
    DivideZeros(MessageBits(data), 32);
    DivideMore([], MessageBits(data));
    assert [] + MessageBits(data) == MessageBits(data);
    NothingDivided();
  }

  /** Changing bits inside one window of 32, wherever it starts, always changes the checksum. */
  lemma BitBurstChangesCrc(x: bytes, y: bytes, before: bits, v: bits, w: bits, after: bits)
    requires MessageBits(x) == before + v + after && MessageBits(y) == before + w + after
    requires |v| == |w| <= 32 && v != w
    ensures Crc(x) != Crc(y)
  {
    var s := FeedAll(Zeros(32), before);
    RegisterFeeds(x);
    RegisterFeeds(y);
    FeedAllConcat(Zeros(32), before, v);
    FeedAllConcat(Zeros(32), before, w);
    FeedAllConcat(Zeros(32), before + v, after);
    FeedAllConcat(Zeros(32), before + w, after);
    ValueRoundTrip(Register(Zeros(32), x));
    ValueRoundTrip(Register(Zeros(32), y));
    hide FeedAll, BitsValue, Bits, Register;
    if Crc(x) == Crc(y) {
      FeedAllInjective(FeedAll(s, v), FeedAll(s, w), after);
      FeedWindowInjective(s, v, w);
      assert false;
    }
  }

  lemma ByteBitsInjective(x: byte, y: byte)
    requires Bits(x, 8) == Bits(y, 8)
    ensures x == y
  {
    Pow2Widths();
    BitsRoundTrip(x, 8);
    BitsRoundTrip(y, 8);
  }

  lemma {:induction false} MessageBitsInjective(v: bytes, w: bytes)
    requires |v| == |w| && MessageBits(v) == MessageBits(w)
    ensures v == w
  {
    hide Bits;
    if v != [] {
      var k := |v| - 1;
      SplitEqual(MessageBits(v[..k]), Bits(v[k], 8), MessageBits(w[..k]), Bits(w[k], 8));
      ByteBitsInjective(v[k], w[k]);
      MessageBitsInjective(v[..k], w[..k]);
    }
  }

  lemma {:induction false} MessageBitsConcat(a: bytes, b: bytes)
    ensures MessageBits(a + b) == MessageBits(a) + MessageBits(b)
  {
    hide Bits;
    if b == [] {
      assert a + b == a;
    } else {
      assert (a + b)[..|a + b| - 1] == a + b[..|b| - 1];
      MessageBitsConcat(a, b[..|b| - 1]);
    }
  }

  lemma {:induction false} BitOfByte(data: bytes, i: nat)
    requires i < 8 * |data|
    ensures MessageBits(data)[i] == Bits(data[i / 8], 8)[i % 8]
  {
    hide Bits;
    var n := |data| - 1;
    if i < 8 * n {
      BitOfByte(data[..n], i);
    }
  }

  /** Different messages of one length whose bits agree outside a window of 32. */
  predicate BitDamage(x: bytes, y: bytes, at: nat) {
    && |x| == |y| && x != y
    && forall i | 0 <= i < 8 * |x| && !(at <= i < at + 32) :: MessageBits(x)[i] == MessageBits(y)[i]
  }

  lemma BitDamageChangesCrc(x: bytes, y: bytes, at: nat)
    requires BitDamage(x, y, at)
    ensures Crc(x) != Crc(y)
  {
    hide MessageBits, Crc;
    var a, b, n := MessageBits(x), MessageBits(y), 8 * |x|;
    var from := if at <= n then at else n;
    var to := if at + 32 <= n then at + 32 else n;
    assert a == a[..from] + a[from..to] + a[to..];
    assert a[..from] == b[..from] && a[to..] == b[to..];
    assert b == a[..from] + b[from..to] + a[to..];
    if a[from..to] == b[from..to] {
      MessageBitsInjective(x, y);
      assert false;
    }
    BitBurstChangesCrc(x, y, a[..from], a[from..to], b[from..to], a[to..]);
  }

  /** In particular, changing bytes inside one window of four. */
  lemma BurstChangesCrc(before: bytes, v: bytes, w: bytes, after: bytes)
    requires |v| == |w| <= 4 && v != w
    ensures Crc(before + v + after) != Crc(before + w + after)
  {
    hide MessageBits, Crc;
    MessageBitsConcat(before, v);
    MessageBitsConcat(before, w);
    MessageBitsConcat(before + v, after);
    MessageBitsConcat(before + w, after);
    if MessageBits(v) == MessageBits(w) {
      MessageBitsInjective(v, w);
      assert false;
    }
    BitBurstChangesCrc(before + v + after, before + w + after,
                       MessageBits(before), MessageBits(v), MessageBits(w), MessageBits(after));
  }
}
