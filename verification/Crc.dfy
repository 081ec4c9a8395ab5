// The CRC-32 of PKWARE's APPNOTE section 4.4.7: reflected polynomial 0xEDB88320, all ones in, complemented out.
module Crc {

  type Word = bv32
  type Octet = bv8

  const Polynomial: Word := 0xEDB88320
  const Ones: Word := 0xFFFFFFFF

  function Xor(a: Word, b: Word): Word { a ^ b }
  function Half(a: Word): Word { a >> 1 }
  function Low(a: Word): Word { a & 1 }
  function Widen(b: Octet): Word { b as Word }

  // --- The definition: one message bit at a time, least significant bit of each octet first ---

  function Feedback(low: Word): Word { if low == 1 then Polynomial else 0 }

  function Divide(crc: Word, bit: Word): Word { Xor(Half(crc), Feedback(Low(Xor(crc, bit)))) }

  // The low `n` bits of `bits`.
  function DivideBits(crc: Word, bits: Word, n: nat): Word
    decreases n
  {
    if n == 0 then crc else DivideBits(Divide(crc, Low(bits)), Half(bits), n - 1)
  }

  function DivideOctets(crc: Word, message: seq<Octet>): Word
    decreases |message|
  {
    if |message| == 0 then crc else DivideOctets(DivideBits(crc, Widen(message[0]), 8), message[1..])
  }

  function Crc32(message: seq<Octet>): Word { Xor(DivideOctets(Ones, message), Ones) }

  // --- The shift register: linear under exclusive or ---

  function Shift(w: Word): Word { if w & 1 == 1 then Polynomial ^ (w >> 1) else w >> 1 }

  function Shifts(w: Word, n: nat): Word
    decreases n
  {
    if n == 0 then w else Shifts(Shift(w), n - 1)
  }

  lemma ShiftForm(w: Word)
    ensures Shift(w) == Xor(Half(w), Feedback(Low(w)))
  {
    assert w & 1 == 1 ==> Polynomial ^ (w >> 1) == (w >> 1) ^ Polynomial;
    assert (w >> 1) ^ 0 == w >> 1;
  }

  lemma Commutes(a: Word, b: Word)
    ensures Xor(a, b) == Xor(b, a)
  {
  }

  lemma Zero(a: Word)
    ensures Xor(a, 0) == a && Xor(a, a) == 0
  {
  }

  lemma Associates(a: Word, b: Word, c: Word)
    ensures Xor(Xor(a, b), c) == Xor(a, Xor(b, c))
  {
  }

  lemma Swaps(a: Word, b: Word, c: Word, d: Word)
    ensures Xor(Xor(a, b), Xor(c, d)) == Xor(Xor(a, c), Xor(b, d))
  {
    hide *;
    Associates(a, b, Xor(c, d));
    Associates(b, c, d);
    Commutes(b, c);
    Associates(c, b, d);
    Associates(a, c, Xor(b, d));
  }

  lemma HalfDistributes(a: Word, b: Word)
    ensures Half(Xor(a, b)) == Xor(Half(a), Half(b))
  {
  }

  lemma LowDistributes(a: Word, b: Word)
    ensures Low(Xor(a, b)) == Xor(Low(a), Low(b))
  {
  }

  lemma LowIsBit(a: Word)
    ensures Low(a) == 0 || Low(a) == 1
    ensures Low(Low(a)) == Low(a)
  {
  }

  lemma FeedbackIsLinear(a: Word, b: Word)
    requires (a == 0 || a == 1) && (b == 0 || b == 1)
    ensures Feedback(Xor(a, b)) == Xor(Feedback(a), Feedback(b))
  {
  }

  lemma ShiftIsLinear(a: Word, b: Word)
    ensures Shift(Xor(a, b)) == Xor(Shift(a), Shift(b))
  {
    hide *;
    ShiftForm(a);
    ShiftForm(b);
    ShiftForm(Xor(a, b));
    HalfDistributes(a, b);
    LowDistributes(a, b);
    LowIsBit(a);
    LowIsBit(b);
    FeedbackIsLinear(Low(a), Low(b));
    Swaps(Half(a), Half(b), Feedback(Low(a)), Feedback(Low(b)));
  }

  lemma {:induction false} ShiftsAreLinear(a: Word, b: Word, n: nat)
    ensures Shifts(Xor(a, b), n) == Xor(Shifts(a, n), Shifts(b, n))
    decreases n
  {
    hide Shift, Xor;
    if n > 0 {
      ShiftIsLinear(a, b);
      ShiftsAreLinear(Shift(a), Shift(b), n - 1);
    }
  }

  // --- Feeding an octet at once ---

  function Drop(bits: Word, n: nat): Word
    decreases n
  {
    if n == 0 then bits else Drop(Half(bits), n - 1)
  }

  // One bit fed is one shift, with the rest of the bits still waiting.
  lemma BitStep(crc: Word, bits: Word)
    ensures Shift(Xor(crc, bits)) == Xor(Divide(crc, Low(bits)), Half(bits))
  {
    hide Shift, Xor, Half, Low, Feedback;
    ShiftForm(Xor(crc, bits));
    HalfDistributes(crc, bits);
    LowDistributes(crc, bits);
    LowDistributes(crc, Low(bits));
    LowIsBit(bits);
    var f := Feedback(Low(Xor(crc, bits)));
    Associates(Half(crc), Half(bits), f);
    Commutes(Half(bits), f);
    Associates(Half(crc), f, Half(bits));
  }

  lemma {:induction false} BitsAreShifts(crc: Word, bits: Word, n: nat)
    ensures Shifts(Xor(crc, bits), n) == Xor(DivideBits(crc, bits, n), Drop(bits, n))
    decreases n
  {
    hide Shift, Divide, Xor, Half, Low;
    if n > 0 {
      BitStep(crc, bits);
      BitsAreShifts(Divide(crc, Low(bits)), Half(bits), n - 1);
    }
  }

  lemma OctetIsDropped(b: Octet)
    ensures Drop(Widen(b), 8) == 0
  {
    var w := Widen(b);
    assert Drop(w, 8) == Drop(w >> 1 >> 1 >> 1 >> 1, 4);
  }

  lemma OctetIsShifts(crc: Word, b: Octet)
    ensures DivideBits(crc, Widen(b), 8) == Shifts(Xor(crc, Widen(b)), 8)
  {
    hide *;
    BitsAreShifts(crc, Widen(b), 8);
    OctetIsDropped(b);
    Zero(DivideBits(crc, Widen(b), 8));
  }

  // --- Splitting a word: the table needs only its low octet ---

  predicate LowZero(w: Word, n: nat)
    decreases n
  {
    n == 0 || (Low(w) == 0 && LowZero(Half(w), n - 1))
  }

  lemma {:induction false} ZeroesFallOut(w: Word, n: nat)
    requires LowZero(w, n)
    ensures Shifts(w, n) == Drop(w, n)
    decreases n
  {
    hide Shift, Half, Xor, Low;
    if n > 0 {
      ShiftForm(w);
      Zero(Half(w));
      ZeroesFallOut(Half(w), n - 1);
    }
  }

  function High(w: Word): Word { w >> 8 }
  function LowOctet(w: Word): Word { w & 0xff }
  function Raised(w: Word): Word { (w >> 8) << 8 }
  function Half4(w: Word): Word { Half(Half(Half(Half(w)))) }

  lemma RaisedBits(w: Word)
    ensures var r := Raised(w);
            && Low(r) == 0 && Low(Half(r)) == 0 && Low(Half(Half(r))) == 0 && Low(Half(Half(Half(r)))) == 0
  {
  }

  lemma RaisedHighBits(w: Word)
    ensures var r := Half4(Raised(w));
            && Low(r) == 0 && Low(Half(r)) == 0 && Low(Half(Half(r))) == 0 && Low(Half(Half(Half(r)))) == 0
            && Half4(r) == High(w)
  {
  }

  lemma FourZeroes(w: Word, n: nat)
    requires Low(w) == 0 && Low(Half(w)) == 0 && Low(Half(Half(w))) == 0 && Low(Half(Half(Half(w)))) == 0
    requires LowZero(Half4(w), n)
    ensures LowZero(w, n + 4) && Drop(w, n + 4) == Drop(Half4(w), n)
  {
    hide Half, Low;
    var h := Half(Half(w));
    assert LowZero(Half(h), n + 1) && Drop(Half(h), n + 1) == Drop(Half4(w), n);
    assert LowZero(h, n + 2) && Drop(h, n + 2) == Drop(Half4(w), n);
    assert LowZero(Half(w), n + 3) && Drop(Half(w), n + 3) == Drop(Half4(w), n);
  }

  lemma RaisedFallsOut(w: Word)
    ensures Shifts(Raised(w), 8) == High(w)
  {
    hide Half, Low, Raised, High, Half4, Shifts;
    RaisedBits(w);
    RaisedHighBits(w);
    FourZeroes(Half4(Raised(w)), 0);
    FourZeroes(Raised(w), 4);
    ZeroesFallOut(Raised(w), 8);
  }

  lemma Split(w: Word)
    ensures w == Xor(LowOctet(w), Raised(w))
  {
  }

  lemma TableStep(w: Word)
    ensures Shifts(w, 8) == Xor(High(w), Shifts(LowOctet(w), 8))
  {
    hide *;
    Split(w);
    RaisedFallsOut(w);
    ShiftsAreLinear(LowOctet(w), Raised(w), 8);
    Commutes(Shifts(LowOctet(w), 8), High(w));
  }

  lemma OctetHasNoHighPart(crc: Word, b: Octet)
    ensures High(Xor(crc, Widen(b))) == High(crc)
  {
  }

  // --- The implementation ---

  function Index(crc: Word, b: Octet): (i: nat)
    ensures i < 256
  {
    LowOctetIsSmall(Xor(crc, Widen(b)));
    LowOctet(Xor(crc, Widen(b))) as int
  }

  lemma LowOctetIsSmall(w: Word)
    ensures 0 <= LowOctet(w) as int < 256
  {
  }

  lemma IndexedWord(w: Word)
    ensures (w as int) as Word == w
  {
  }

  ghost predicate IsTable(t: seq<Word>) {
    |t| == 256 && forall i :: 0 <= i < 256 ==> t[i] == Shifts(i as Word, 8)
  }

  lemma Lookup(t: seq<Word>, crc: Word, b: Octet)
    requires IsTable(t)
    ensures |t| == 256 && Xor(High(crc), t[Index(crc, b)]) == DivideBits(crc, Widen(b), 8)
  {
    hide Xor, High, LowOctet, Widen, Shifts, DivideBits;
    IndexedWord(LowOctet(Xor(crc, Widen(b))));
    TableStep(Xor(crc, Widen(b)));
    OctetHasNoHighPart(crc, b);
    OctetIsShifts(crc, b);
  }

  class Checksum {
    var cachedCrc32Table: array?<Word>

    ghost predicate Valid()
      reads this, cachedCrc32Table
    {
      cachedCrc32Table != null ==> IsTable(cachedCrc32Table[..])
    }

    constructor ()
      ensures Valid() && cachedCrc32Table == null
    {
      cachedCrc32Table := null;
    }

    method Crc32Table() returns (table: array<Word>)
      requires Valid()
      modifies this
      ensures Valid() && cachedCrc32Table == table && IsTable(table[..])
      ensures if old(cachedCrc32Table) != null then table == old(cachedCrc32Table) else fresh(table)
    {
      hide Shift, Shifts;
      if cachedCrc32Table != null { return cachedCrc32Table; }
      table := new Word[256];
      for i := 0 to 256
        invariant forall j :: 0 <= j < i ==> table[j] == Shifts(j as Word, 8)
      {
        var value := TableEntry(i);
        table[i] := value;
      }
      cachedCrc32Table := table;
    }

    method TableEntry(i: nat) returns (value: Word)
      requires i < 256
      ensures value == Shifts(i as Word, 8)
    {
      hide Shift;
      value := i as Word;
      for bit := 0 to 8
        invariant Shifts(value, 8 - bit) == Shifts(i as Word, 8)
      {
        ShiftIsConditional(value);
        value := if value & 1 == 1 then Polynomial ^ (value >> 1) else value >> 1;
      }
    }

    // The table-driven loop computes the bit-at-a-time division.
    method Compute(buffer: seq<Octet>) returns (crc: Word)
      requires Valid()
      modifies this
      ensures Valid() && crc == Crc32(buffer)
    {
      hide IsTable, DivideBits, Xor, High, Index, Widen;
      crc := Ones;
      var table := Crc32Table();
      for k := 0 to |buffer|
        invariant cachedCrc32Table == table && IsTable(table[..])
        invariant DivideOctets(crc, buffer[k..]) == DivideOctets(Ones, buffer)
      {
        assert buffer[k..][1..] == buffer[k + 1..];
        Lookup(table[..], crc, buffer[k]);
        crc := Xor(High(crc), table[Index(crc, buffer[k])]);
      }
      crc := Xor(crc, Ones);
    }
  }

  lemma ShiftIsConditional(w: Word)
    ensures Shift(w) == if w & 1 == 1 then Polynomial ^ (w >> 1) else w >> 1
  {
  }

  // --- What the checksum detects ---

  lemma XorCancels(a: Word, b: Word, c: Word)
    requires Xor(a, c) == Xor(b, c)
    ensures a == b
  {
    hide *;
    Associates(a, c, c);
    Associates(b, c, c);
    Zero(c);
    Zero(a);
    Zero(b);
  }

  // The polynomial's top bit marks every shift that fed it back, so a shift loses nothing.
  lemma ShiftIsInjective(a: Word, b: Word)
    requires Shift(a) == Shift(b)
    ensures a == b
  {
    hide *;
    ShiftIsLinear(a, b);
    Zero(Shift(b));
    OnlyZeroShiftsToZero(Xor(a, b));
    Zero(b);
    XorCancels(a, b, b);
  }

  lemma OnlyZeroShiftsToZero(w: Word)
    ensures Shift(w) == 0 ==> w == 0
  {
  }

  lemma {:induction false} ShiftsAreInjective(a: Word, b: Word, n: nat)
    requires Shifts(a, n) == Shifts(b, n)
    ensures a == b
    decreases n
  {
    hide Shift;
    if n > 0 {
      ShiftsAreInjective(Shift(a), Shift(b), n - 1);
      ShiftIsInjective(a, b);
    }
  }

  lemma {:induction false} DivisionIsInjective(a: Word, b: Word, message: seq<Octet>)
    requires DivideOctets(a, message) == DivideOctets(b, message)
    ensures a == b
    decreases |message|
  {
    hide DivideBits, Shifts, Xor, Widen;
    if |message| > 0 {
      var o := message[0];
      DivisionIsInjective(DivideBits(a, Widen(o), 8), DivideBits(b, Widen(o), 8), message[1..]);
      OctetIsShifts(a, o);
      OctetIsShifts(b, o);
      ShiftsAreInjective(Xor(a, Widen(o)), Xor(b, Widen(o)), 8);
      XorCancels(a, b, Widen(o));
    }
  }

  lemma {:induction false} DivisionConcatenates(crc: Word, one: seq<Octet>, two: seq<Octet>)
    ensures DivideOctets(crc, one + two) == DivideOctets(DivideOctets(crc, one), two)
    decreases |one|
  {
    hide DivideBits, Widen;
    if |one| == 0 {
      assert one + two == two;
    } else {
      assert (one + two)[1..] == one[1..] + two;
      DivisionConcatenates(DivideBits(crc, Widen(one[0]), 8), one[1..], two);
    }
  }

  function Lift(w: Word): Word { w << 8 }

  // Up to four octets as one word, the first lowest.
  function Pack(message: seq<Octet>): Word {
    if |message| == 0 then 0 else Xor(Widen(message[0]), Lift(Pack(message[1..])))
  }

  // The octets above the first `n` of a word.
  function Above(n: nat): Word {
    if n == 0 then 0xffffffff else if n == 1 then 0xffffff00 else if n == 2 then 0xffff0000 else if n == 3 then 0xff000000 else 0
  }

  predicate Clear(w: Word, mask: Word) { w & mask == 0 }

  // The word has at most `n` octets.
  predicate Fits(w: Word, n: nat) { Clear(w, Above(n)) }

  lemma FitsOneMore(b: Octet, w: Word, n: nat)
    requires Fits(w, n) && n <= 3
    ensures Fits(Xor(Widen(b), Lift(w)), n + 1) && Fits(w, 3)
  {
    Masks();
    hide Xor, Widen, Lift, Clear, Above;
    if n == 0 { ClearOne(b, w); } else if n == 1 { ClearTwo(b, w); } else if n == 2 { ClearThree(b, w); }
    ClearNothing(Xor(Widen(b), Lift(w)));
  }

  lemma Masks()
    ensures Above(0) == 0xffffffff && Above(1) == 0xffffff00 && Above(2) == 0xffff0000 && Above(3) == 0xff000000 && Above(4) == 0
  {
  }

  lemma ClearOne(b: Octet, w: Word)
    requires Clear(w, 0xffffffff)
    ensures Clear(Xor(Widen(b), Lift(w)), 0xffffff00) && Clear(w, 0xff000000)
  {
  }

  lemma ClearTwo(b: Octet, w: Word)
    requires Clear(w, 0xffffff00)
    ensures Clear(Xor(Widen(b), Lift(w)), 0xffff0000) && Clear(w, 0xff000000)
  {
  }

  lemma ClearThree(b: Octet, w: Word)
    requires Clear(w, 0xffff0000)
    ensures Clear(Xor(Widen(b), Lift(w)), 0xff000000) && Clear(w, 0xff000000)
  {
  }

  lemma ClearNothing(w: Word)
    ensures Clear(w, 0)
  {
  }

  lemma {:induction false} PackFits(message: seq<Octet>)
    requires |message| <= 4
    ensures Fits(Pack(message), |message|)
  {
    hide Fits, Xor, Widen, Lift;
    if |message| > 0 {
      PackFits(message[1..]);
      FitsOneMore(message[0], Pack(message[1..]), |message| - 1);
    } else {
      EmptyFits();
    }
  }

  lemma EmptyFits()
    ensures Fits(0, 0)
  {
  }

  lemma LiftedWord(w: Word)
    requires Clear(w, 0xff000000)
    ensures Raised(Lift(w)) == Lift(w) && High(Lift(w)) == w
  {
  }

  lemma Unpack(b: Octet, c: Octet, v: Word, w: Word)
    requires Clear(v, 0xff000000) && Clear(w, 0xff000000)
    requires Xor(Widen(b), Lift(v)) == Xor(Widen(c), Lift(w))
    ensures b == c && v == w
  {
  }

  lemma {:induction false} PackIsInjective(one: seq<Octet>, two: seq<Octet>)
    requires |one| == |two| <= 4 && Pack(one) == Pack(two)
    ensures one == two
  {
    hide Clear, Xor, Widen, Lift;
    if |one| > 0 {
      PackFits(one[1..]);
      PackFits(two[1..]);
      FitsOneMore(one[0], Pack(one[1..]), |one| - 1);
      FitsOneMore(two[0], Pack(two[1..]), |two| - 1);
      Unpack(one[0], two[0], Pack(one[1..]), Pack(two[1..]));
      PackIsInjective(one[1..], two[1..]);
      assert one == [one[0]] + one[1..] && two == [two[0]] + two[1..];
    }
  }

  lemma {:induction false} ShiftsAdd(w: Word, m: nat, n: nat)
    ensures Shifts(Shifts(w, m), n) == Shifts(w, m + n)
    decreases m
  {
    hide Shift;
    if m > 0 { ShiftsAdd(Shift(w), m - 1, n); }
  }

  // Up to four octets are fed as one word.
  lemma {:induction false} WordIsFedAtOnce(crc: Word, message: seq<Octet>)
    requires |message| <= 4
    ensures DivideOctets(crc, message) == Shifts(Xor(crc, Pack(message)), 8 * |message|)
    decreases |message|
  {
    hide DivideBits, Xor, Widen, Lift, Clear, Shift, Raised, High;
    if |message| == 0 {
      Zero(crc);
    } else {
      var b, rest := message[0], message[1..];
      var first, tail := Xor(crc, Widen(b)), Pack(rest);
      WordIsFedAtOnce(DivideBits(crc, Widen(b), 8), rest);
      OctetIsShifts(crc, b);
      PackFits(rest);
      FitsOneMore(b, tail, |rest|);
      LiftedWord(tail);
      RaisedFallsOut(Lift(tail));
      ShiftsAreLinear(first, Lift(tail), 8);
      Associates(crc, Widen(b), Lift(tail));
      ShiftsAdd(Xor(first, Lift(tail)), 8, 8 * |rest|);
    }
  }

  // Two messages that differ only within four consecutive octets never have the same checksum.
  lemma BurstIsDetected(before: seq<Octet>, one: seq<Octet>, two: seq<Octet>, after: seq<Octet>)
    requires |one| == |two| <= 4 && one != two
    ensures Crc32(before + one + after) != Crc32(before + two + after)
  {
    hide Xor, DivideOctets, Pack, Shifts;
    var crc := DivideOctets(Ones, before);
    DivisionConcatenates(Ones, before, one);
    DivisionConcatenates(Ones, before, two);
    DivisionConcatenates(Ones, before + one, after);
    DivisionConcatenates(Ones, before + two, after);
    if Crc32(before + one + after) == Crc32(before + two + after) {
      XorCancels(DivideOctets(Ones, before + one + after), DivideOctets(Ones, before + two + after), Ones);
      DivisionIsInjective(DivideOctets(crc, one), DivideOctets(crc, two), after);
      WordIsFedAtOnce(crc, one);
      WordIsFedAtOnce(crc, two);
      ShiftsAreInjective(Xor(crc, Pack(one)), Xor(crc, Pack(two)), 8 * |one|);
      Commutes(crc, Pack(one));
      Commutes(crc, Pack(two));
      XorCancels(Pack(one), Pack(two), crc);
      PackIsInjective(one, two);
    }
  }

  // --- Known values ---

  // Those of no octet, of a zero and of all ones.
  lemma ShortMessages()
    ensures Crc32([]) == 0 && Crc32([0]) == 0xD202EF8D && Crc32([0xFF]) == 0xFF000000
  {
  }

  // And that of the letters a, b and c.
  lemma ThreeLetters()
    ensures Crc32([0x61, 0x62, 0x63]) == 0x352441C2
  {
    hide DivideBits;
    FirstLetter();
    SecondLetter();
    ThirdLetter();
    Next(0xFFFFFFFF, 0x61, [0x62, 0x63], 0x174841BC);
    Next(0x174841BC, 0x62, [0x63], 0x617CB792);
    Next(0x617CB792, 0x63, [], 0xCADBBE3D);
    assert [0x61] + [0x62, 0x63] == [0x61, 0x62, 0x63] && [0x62] + [0x63] == [0x62, 0x63] && [0x63] + [] == [0x63];
    assert DivideOctets(0xFFFFFFFF, [0x61, 0x62, 0x63]) == 0xCADBBE3D;
  }

  lemma FirstLetter()
    ensures DivideBits(0xFFFFFFFF, 0x61, 8) == 0x174841BC
  {
  }

  lemma SecondLetter()
    ensures DivideBits(0x174841BC, 0x62, 8) == 0x617CB792
  {
  }

  lemma ThirdLetter()
    ensures DivideBits(0x617CB792, 0x63, 8) == 0xCADBBE3D
  {
  }

  lemma Next(crc: Word, b: Octet, message: seq<Octet>, next: Word)
    requires DivideBits(crc, Widen(b), 8) == next
    ensures DivideOctets(crc, [b] + message) == DivideOctets(next, message)
  {
    assert ([b] + message)[1..] == message;
  }
}
