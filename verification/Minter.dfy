/**
 `Minter.Mint` of sortid/sortid.go. A call reads the clock outside the lock and takes its
 timestamp inside it, so the readings committed under the lock come in any order: the class
 takes an arbitrary reading a call, and `Event` traces spell the interleavings out. The ids are
 those of sections 5.7 and 6.2, Method 3, of RFC 9562.

 Machine words are integers reduced modulo 2^64 where Go's are; `|` over operands with no bit
 in common is `+`. The random bytes are arbitrary inputs.
 */
module Minter {
  import opened Bytes
  import opened Division
  import opened SortId

  const TWO60: nat := 0x1000_0000_0000_0000
  const TWO64: nat := 0x1_0000_0000_0000_0000
  const TWO52: nat := 0x10_0000_0000_0000
  const TWO48: nat := 0x1_0000_0000_0000
  const NANOS: int := 1_000_000

  /** The timestamp a clock reading gives, from nanoseconds since the Unix epoch: milliseconds
      shifted left 12 in 64 bits, which drops all but their low 52, and the fraction in 4,096ths. */
  function Reading(nanos: int): (ts: nat)
    ensures ts < TWO64
  {
    nanos / NANOS % TWO52 * 4096 + nanos % NANOS * 4096 / NANOS
  }

  /** The timestamp a call takes under the lock. */
  function Next(last: nat, reading: nat): nat {
    if reading <= last then (last + 1) % TWO64 else reading
  }

  /** The word of the eight leading bytes: 48 bits of milliseconds, a gap of four for the version,
      and the 12 of the fraction. */
  function Word(ts: nat): nat {
    ts / 4096 % TWO48 * 65536 + ts % 4096
  }

  function Stamp(ts: nat, random: seq<byte>): (id: ID)
    requires |random| == 8
  {
    var lead := BigEndian(Word(ts), 8);
    lead[..6] + [lead[6] % 16 + 0x70, lead[7], random[0] % 64 + 0x80] + random[1..]
  }

  // ---------------------------------------------------------------- bit layout

  /** The timestamp is the clock in 4,096ths of a millisecond, rounded down, in 64 bits; for Unix
      milliseconds of 48 bits it is that number itself and has 60 bits. */
  lemma ReadingIsTheClock(nanos: int)
    ensures Reading(nanos) == nanos * 4096 / 1_000_000 % TWO64
    ensures 0 <= nanos / 1_000_000 < TWO48 ==> Reading(nanos) == nanos * 4096 / 1_000_000 < TWO60
  {
    var ms, f := nanos / NANOS, nanos % NANOS;
    var part := f * 4096 / NANOS;
    assert 0 <= part < 4096;
    DivisionIs(nanos * 4096, NANOS, ms * 4096 + part, f * 4096 % NANOS);
    var q, r := ms / TWO52, ms % TWO52;
    DivisionIs(ms * 4096 + part, TWO64, q, r * 4096 + part);
  }

  /** `ts<<4 &^ 0xffff | ts & 0x0fff` in 64 bits is that word. */
  lemma ShiftAndMask(ts: nat)
    ensures ts * 16 % TWO64 / 65536 * 65536 + ts % 4096 == Word(ts) < TWO64
  {
    var a, b := ts / 4096, ts % 4096;
    var q, r := a / TWO48, a % TWO48;
    var low := r * 65536 + b * 16;
    assert ts * 16 == q * TWO64 + low;
    DivisionIs(ts * 16, TWO64, q, low);
    DivisionIs(low, 65536, r, b * 16);
  }

  lemma WordParts(ts: nat)
    ensures Word(ts) / 65536 == ts / 4096 % TWO48 && Word(ts) % 65536 == ts % 4096
  {
  }

  lemma LowDigits(w: nat, ts: nat)
    requires w % 65536 == ts % 4096
    ensures w % 256 == ts % 256 && w / 256 % 256 == ts % 4096 / 256 < 16
  {
    var q, p, r := w / 65536, ts / 4096, ts % 4096;
    DivisionIs(w, 256, 256 * q + r / 256, r % 256);
    DivisionIs(ts, 256, 16 * p + r / 256, r % 256);
    DivisionIs(256 * q + r / 256, 256, q, r / 256);
  }

  lemma LowTwoBytes(w: nat)
    ensures BigEndian(w, 8) == BigEndian(w / 65536, 6) + [w / 256 % 256, w % 256]
  {
    assert BigEndian(w, 8) == BigEndian(w / 256, 7) + [w % 256];
    assert BigEndian(w / 256, 7) == BigEndian(w / 256 / 256, 6) + [w / 256 % 256];
    assert w / 256 / 256 == w / 65536;
  }

  /** The 60 bits sit in the eight leading bytes around the version. */
  lemma StampLayout(ts: nat, random: seq<byte>)
    requires |random| == 8
    ensures var id := Stamp(ts, random);
            && id[..6] == BigEndian(ts / 4096 % TWO48, 6)
            && id[6] == 0x70 + ts % 4096 / 256 && id[7] == ts % 256
            && Minted(id)
  {
    hide BigEndian, Word;
    WordParts(ts);
    var w := Word(ts);
    LowTwoBytes(w);
    LowDigits(w, ts);
  }

  /** The timestamp an id's bytes carry. */
  function Timestamp(id: ID): int {
    4096 * FromBigEndian(id[..6]) + 256 * (id[6] as int % 16) + id[7]
  }

  lemma PowersOf256()
    ensures Power256(6) == TWO48 && Power256(8) == TWO64
  {
    assert Power256(4) == 0x1_0000_0000;
    assert Power256(6) == 65536 * Power256(4);
    assert Power256(8) == 65536 * Power256(6);
  }

  lemma TimestampReadsBack(ts: nat, random: seq<byte>)
    requires |random| == 8
    ensures Timestamp(Stamp(ts, random)) == ts % TWO60
  {
    hide Stamp, BigEndian;
    StampLayout(ts, random);
    PowersOf256();
    BigEndianReadsBack(ts / 4096 % TWO48, 6);
    Split60(ts);
  }

  lemma Split60(ts: nat)
    ensures ts % TWO60 == ts / 4096 % TWO48 * 4096 + ts % 4096
    ensures ts % 4096 == ts % 4096 / 256 * 256 + ts % 256
  {
    var a, b := ts / 4096, ts % 4096;
    DivisionIs(ts, TWO60, a / TWO48, a % TWO48 * 4096 + b);
    DivisionIs(ts, 256, a * 16 + b / 256, b % 256);
  }

  /** Three digits, the most significant first, compare as the number they spell. */
  lemma ThreeDigits(h: nat, m: nat, l: nat, h': nat, m': nat, l': nat)
    requires m < 16 && m' < 16 && l < 256 && l' < 256
    ensures var x, y := 4096 * h + 256 * m + l, 4096 * h' + 256 * m' + l';
            x < y <==> h < h' || (h == h' && (m < m' || (m == m' && l < l')))
  {
  }

  lemma LeadOrder(ts: nat, ts': nat, random: seq<byte>, random': seq<byte>)
    requires |random| == |random'| == 8
    ensures Compare(Stamp(ts, random)[..8], Stamp(ts', random')[..8])
            == if ts % TWO60 < ts' % TWO60 then -1 else if ts % TWO60 > ts' % TWO60 then 1 else 0
  {
    var a, b := Stamp(ts, random), Stamp(ts', random');
    var h, m, l := ts / 4096 % TWO48, ts % 4096 / 256, ts % 256;
    var h', m', l' := ts' / 4096 % TWO48, ts' % 4096 / 256, ts' % 256;
    assert a[..8] == BigEndian(h, 6) + [0x70 + m, l] by {
      StampLayout(ts, random);
    }
    assert b[..8] == BigEndian(h', 6) + [0x70 + m', l'] by {
      StampLayout(ts', random');
    }
    Split60(ts);
    Split60(ts');
    ThreeDigits(h, m, l, h', m', l');
    ThreeDigits(h', m', l', h, m, l);
    LeadDigits(h, m, l, h', m', l');
  }

  lemma LeadDigits(h: nat, m: nat, l: nat, h': nat, m': nat, l': nat)
    requires h < TWO48 && h' < TWO48 && m < 16 && m' < 16 && l < 256 && l' < 256
    ensures Compare(BigEndian(h, 6) + [0x70 + m, l], BigEndian(h', 6) + [0x70 + m', l'])
            == if h < h' || (h == h' && (m < m' || (m == m' && l < l'))) then -1
               else if h == h' && m == m' && l == l' then 0 else 1
  {
    PowersOf256();
    BigEndianOrder(h, h', 6);
    var p, q := [0x70 + m, l], [0x70 + m', l'];
    CompareConcat(BigEndian(h, 6), BigEndian(h', 6), p, q);
    assert p[1..] == [l] && q[1..] == [l'];
    assert Compare([l], [l']) == if l < l' then -1 else if l > l' then 1 else 0;
  }

  /** Ids of different timestamps sort as the low 60 bits do, whatever the random bytes are. */
  lemma StampOrder(ts: nat, ts': nat, random: seq<byte>, random': seq<byte>)
    requires |random| == |random'| == 8 && ts % TWO60 < ts' % TWO60
    ensures Below(Stamp(ts, random), Stamp(ts', random'))
  {
    LeadOrder(ts, ts', random, random');
    var a, b := Stamp(ts, random), Stamp(ts', random');
    assert a == a[..8] + a[8..] && b == b[..8] + b[8..];
    CompareConcat(a[..8], b[..8], a[8..], b[8..]);
  }

  /** Under one draw of random bytes nothing but the low 60 bits tells two ids apart. */
  lemma SameDraw(ts: nat, ts': nat, random: seq<byte>)
    requires |random| == 8
    ensures Below(Stamp(ts, random), Stamp(ts', random)) <==> ts % TWO60 < ts' % TWO60
  {
    hide Stamp, Compare;
    LeadOrder(ts, ts', random, random);
    StampTail(ts, random);
    StampTail(ts', random);
    var a, b := Stamp(ts, random), Stamp(ts', random);
    assert a[8..] == [a[8]] + a[9..] && b[8..] == [b[8]] + b[9..];
    assert a == a[..8] + a[8..] && b == b[..8] + b[8..];
    CompareConcat(a[..8], b[..8], a[8..], b[8..]);
    BelowIsTotal(a[8..], b[8..]);
  }

  /** Exactly when one timestamp's ids are below another's for every draw of random bytes. */
  lemma StampOrderIff(ts: nat, ts': nat)
    ensures ts % TWO60 < ts' % TWO60 <==>
            forall r: seq<byte>, r': seq<byte> :: |r| == |r'| == 8 ==> Below(Stamp(ts, r), Stamp(ts', r'))
  {
    if ts % TWO60 < ts' % TWO60 {
      forall r: seq<byte>, r': seq<byte> | |r| == |r'| == 8
        ensures Below(Stamp(ts, r), Stamp(ts', r'))
      {
        StampOrder(ts, ts', r, r');
      }
    } else {
      var r: seq<byte> := seq(8, i => 0);
      SameDraw(ts, ts', r);
    }
  }

  /** Every bit of an id but the version and the variant comes from the timestamp's low 60 or from the
      draw: two ids are one exactly when those agree, all 62 random bits among them. */
  lemma StampIff(ts: nat, ts': nat, random: seq<byte>, random': seq<byte>)
    requires |random| == |random'| == 8
    ensures Stamp(ts, random) == Stamp(ts', random') <==>
            ts % TWO60 == ts' % TWO60 && random[0] % 64 == random'[0] % 64 && random[1..] == random'[1..]
  {
    hide Stamp, Compare;
    LeadOrder(ts, ts', random, random');
    StampTail(ts, random);
    StampTail(ts', random');
    var a, b := Stamp(ts, random), Stamp(ts', random');
    CompareEqual(a[..8], b[..8]);
    SameLeads(a, b);
  }

  lemma SameLeads(a: ID, b: ID)
    ensures a == b <==> a[..8] == b[..8] && a[8] == b[8] && a[9..] == b[9..]
  {
    assert a == a[..8] + [a[8]] + a[9..] && b == b[..8] + [b[8]] + b[9..];
  }

  lemma StampTail(ts: nat, random: seq<byte>)
    requires |random| == 8
    ensures var id := Stamp(ts, random); id[8] == 0x80 + random[0] % 64 && id[9..] == random[1..]
  {
    hide BigEndian, Word;
  }

  /** The ids Parse and Page take are exactly those a Minter can write. */
  lemma MintedIff(id: ID)
    ensures Minted(id) <==> exists ts: nat, random: seq<byte> :: |random| == 8 && Stamp(ts, random) == id
  {
    hide Stamp;
    if Minted(id) {
      TimestampStamps(id);
    }
    forall ts: nat, random: seq<byte> | |random| == 8 && Stamp(ts, random) == id
      ensures Minted(id)
    {
      StampLayout(ts, random);
    }
  }

  lemma ThreeParts(h: nat, m: nat, l: nat)
    requires m < 16 && l < 256
    ensures var ts := 4096 * h + 256 * m + l;
            ts / 4096 == h && ts % 4096 / 256 == m && ts % 256 == l
  {
    var ts := 4096 * h + 256 * m + l;
    DivisionIs(ts, 4096, h, 256 * m + l);
    DivisionIs(256 * m + l, 256, m, l);
    DivisionIs(ts, 256, 16 * h + m, l);
  }

  lemma TimestampStamps(id: ID)
    requires Minted(id)
    ensures Timestamp(id) >= 0 && Stamp(Timestamp(id), id[8..]) == id
  {
    hide Stamp, BigEndian, FromBigEndian;
    var h: nat, m: nat, l: nat := FromBigEndian(id[..6]), id[6] % 16, id[7];
    var ts := Timestamp(id);
    FromBigEndianReadsBack(id[..6]);
    PowersOf256();
    ThreeParts(h, m, l);
    StampLayout(ts, id[8..]);
    StampTail(ts, id[8..]);
    SameIds(Stamp(ts, id[8..]), id);
  }

  /** Two ids of the same leading bytes and the same tail are one. */
  lemma SameIds(a: ID, b: ID)
    ensures a == b <==> a[..6] == b[..6] && a[6] == b[6] && a[7] == b[7] && a[8] == b[8] && a[9..] == b[9..]
  {
    assert a == a[..6] + [a[6], a[7], a[8]] + a[9..] && b == b[..6] + [b[6], b[7], b[8]] + b[9..];
  }

  // ---------------------------------------------------------------- the timestamps of a run

  /** `last` after a run of readings, in the order they were committed. */
  function LastAfter(readings: seq<nat>): nat {
    if readings == [] then 0 else Next(LastAfter(readings[..|readings| - 1]), readings[|readings| - 1])
  }

  /** The same without a machine word to wrap: the maximum of the clock and one past the last. */
  function Ideal(readings: seq<nat>): nat {
    if readings == [] then 0
    else
      var past, now := Ideal(readings[..|readings| - 1]) + 1, readings[|readings| - 1];
      if now > past then now else past
  }

  /** The closed form: the maximum of n and of every reading plus the commits since it. */
  lemma {:induction false} IdealIsTheMaximum(readings: seq<nat>)
    ensures Ideal(readings) >= |readings|
    ensures forall i :: 0 <= i < |readings| ==> Ideal(readings) >= readings[i] + (|readings| - 1 - i)
    ensures Ideal(readings) == |readings|
            || exists i :: 0 <= i < |readings| && Ideal(readings) == readings[i] + (|readings| - 1 - i)
  {
    if readings != [] {
      var n := |readings| - 1;
      IdealIsTheMaximum(readings[..n]);
      assert Ideal(readings) >= readings[n] + (n - n);
      if Ideal(readings) == readings[n] + (n - n) {
      } else if Ideal(readings[..n]) != n {
        var i :| 0 <= i < n && Ideal(readings[..n]) == readings[..n][i] + (n - 1 - i);
        assert Ideal(readings) == readings[i] + (|readings| - 1 - i);
      }
    }
  }

  lemma {:induction false} IdealGrows(readings: seq<nat>, m: nat)
    requires m < |readings|
    ensures Ideal(readings[..m]) < Ideal(readings)
  {
    var n := |readings| - 1;
    if m < n {
      assert readings[..n][..m] == readings[..m];
      IdealGrows(readings[..n], m);
    }
  }

  /** Until it would pass 64 bits, `last` is that maximum. */
  lemma {:induction false} LastIsIdeal(readings: seq<nat>)
    requires Ideal(readings) < TWO64
    ensures LastAfter(readings) == Ideal(readings)
  {
    if readings != [] {
      LastIsIdeal(readings[..|readings| - 1]);
    }
  }

  /** A clock that reads below 2^60 less the number of ids keeps every timestamp to 60 bits, and its ids
      in order. */
  lemma ClockWithRoom(readings: seq<nat>)
    requires |readings| < TWO60
    requires forall i :: 0 <= i < |readings| ==> readings[i] + |readings| <= TWO60
    ensures Ideal(readings) < TWO60 && Ordered(readings)
  {
    IdealIsTheMaximum(readings);
    SixtyBitsKeepOrder(readings);
  }

  // ---------------------------------------------------------------- when ids stay in order

  /** What a call needs of the clock for its id to be greater than the last: a clock that has moved on
      has moved on in its low 60 bits, and under one that has not the last timestamp's are not all ones. */
  predicate KeepsOrder(last: nat, reading: nat) {
    if reading <= last then last % TWO60 != TWO60 - 1 else last % TWO60 < reading % TWO60
  }

  lemma KeepsOrderIff(last: nat, reading: nat)
    ensures KeepsOrder(last, reading) <==> last % TWO60 < Next(last, reading) % TWO60
  {
    BlockOf(last + 1);
    var q, r := last / TWO60, last % TWO60;
    if r == TWO60 - 1 {
      DivisionIs(last + 1, TWO60, q + 1, 0);
    } else {
      DivisionIs(last + 1, TWO60, q, r + 1);
    }
  }

  lemma BlockOf(t: nat)
    ensures t % TWO64 % TWO60 == t % TWO60
  {
    var a, b := t / TWO64, t % TWO64;
    var c, d := b / TWO60, b % TWO60;
    DivisionIs(t, TWO60, a * 16 + c, d);
  }

  ghost predicate KeepsOrderAt(readings: seq<nat>, k: nat)
    requires k < |readings|
  {
    KeepsOrder(LastAfter(readings[..k]), readings[k])
  }

  /** Every call of the run but its first had that of the clock. */
  ghost predicate Ordered(readings: seq<nat>) {
    forall k :: 1 <= k < |readings| ==> KeepsOrderAt(readings, k)
  }

  lemma OneMoreReading(readings: seq<nat>, reading: nat)
    ensures var more := readings + [reading];
            && LastAfter(more) == Next(LastAfter(readings), reading)
            && (Ordered(more) <==> Ordered(readings) && (readings == [] || KeepsOrder(LastAfter(readings), reading)))
  {
    hide Next, KeepsOrder;
    var more, n := readings + [reading], |readings|;
    assert more[..n] == readings && more[n] == reading;
    forall k | 0 <= k < n
      ensures KeepsOrderAt(more, k) <==> KeepsOrderAt(readings, k)
    {
      assert more[..k] == readings[..k];
    }
    if Ordered(more) && n > 0 {
      assert KeepsOrderAt(more, n);
    }
  }

  lemma {:induction false} PrefixOrdered(readings: seq<nat>, m: nat)
    requires Ordered(readings) && m <= |readings|
    ensures Ordered(readings[..m])
  {
    forall k | 1 <= k < m
      ensures KeepsOrderAt(readings[..m], k)
    {
      assert readings[..m][..k] == readings[..k];
      assert KeepsOrderAt(readings, k);
    }
  }

  /** The low 60 bits increase over a run in which each call had that of the clock. */
  lemma {:induction false} LowBitsIncrease(readings: seq<nat>, m: nat)
    requires Ordered(readings) && 1 <= m < |readings|
    ensures LastAfter(readings[..m]) % TWO60 < LastAfter(readings) % TWO60
  {
    hide Next, KeepsOrder;
    var n := |readings| - 1;
    assert KeepsOrderAt(readings, n);
    KeepsOrderIff(LastAfter(readings[..n]), readings[n]);
    if m < n {
      PrefixOrdered(readings, n);
      LowBitsIncrease(readings[..n], m);
      assert readings[..n][..m] == readings[..m];
    }
  }

  lemma StampsIncrease(readings: seq<nat>, m: nat, n: nat, random: seq<byte>, random': seq<byte>)
    requires 1 <= m < n <= |readings| && |random| == |random'| == 8
    requires Ordered(readings)
    ensures Below(Stamp(LastAfter(readings[..m]), random), Stamp(LastAfter(readings[..n]), random'))
  {
    hide Next, Stamp, Compare;
    PrefixOrdered(readings, n);
    assert readings[..n][..m] == readings[..m];
    LowBitsIncrease(readings[..n], m);
    StampOrder(LastAfter(readings[..m]), LastAfter(readings[..n]), random, random');
  }

  /** Every run whose timestamps have 60 bits is one of those. */
  lemma {:induction false} SixtyBitsKeepOrder(readings: seq<nat>)
    requires Ideal(readings) < TWO60
    ensures Ordered(readings)
  {
    forall k | 1 <= k < |readings|
      ensures KeepsOrderAt(readings, k)
    {
      SixtyBitsKeepOrderAt(readings, k);
    }
  }

  lemma SixtyBitsKeepOrderAt(readings: seq<nat>, k: nat)
    requires Ideal(readings) < TWO60 && k < |readings|
    ensures KeepsOrderAt(readings, k)
  {
    hide LastAfter;
    var upTo := readings[..k + 1];
    if k + 1 < |readings| {
      IdealGrows(readings, k + 1);
    } else {
      assert upTo == readings;
    }
    assert upTo[..k] == readings[..k] && upTo[k] == readings[k];
    IdealGrows(upTo, k);
    LastIsIdeal(readings[..k]);
  }

  lemma TwoReadings(a: nat, b: nat)
    requires a > 0
    ensures LastAfter([a]) == a && LastAfter([a, b]) == Next(a, b)
  {
    assert [a][..0] == [];
    assert LastAfter([a]) == Next(LastAfter([]), a) == a;
    assert [a, b][..1] == [a] && [a, b][1] == b;
    assert LastAfter([a, b]) == Next(LastAfter([a]), b);
  }

  /** A clock past the year 10889 breaks the order: 2^48 milliseconds less a nanosecond, read
      twice, mints a second id below the first. */
  lemma FarClockBreaksTheOrder(random: seq<byte>, random': seq<byte>)
    requires |random| == |random'| == 8
    ensures var ts := Reading(TWO48 * NANOS - 1);
            Below(Stamp(LastAfter([ts, ts]), random'), Stamp(LastAfter([ts]), random))
  {
    var nanos := TWO48 * NANOS - 1;
    assert nanos / NANOS == TWO48 - 1 && nanos % NANOS == NANOS - 1;
    var ts := Reading(nanos);
    assert ts == (TWO48 - 1) * 4096 + 4095 == TWO60 - 1;
    TwoReadings(ts, ts);
    assert Next(ts, ts) == (ts + 1) % TWO64 == TWO60;
    StampOrder(TWO60, ts, random', random);
  }

  /** So does one before 1970: a nanosecond before the epoch and then the epoch, where the timestamp
      passes 64 bits. */
  lemma ClockBeforeTheEpochBreaksTheOrder(random: seq<byte>, random': seq<byte>)
    requires |random| == |random'| == 8
    ensures var a, b := Reading(-1), Reading(0);
            Below(Stamp(LastAfter([a, b]), random'), Stamp(LastAfter([a]), random))
  {
    var a, b := Reading(-1), Reading(0);
    assert a == TWO64 - 1 && b == 0;
    TwoReadings(a, b);
    assert Next(a, b) == (a + 1) % TWO64 == 0;
    assert a % TWO60 == TWO60 - 1;
    StampOrder(0, a, random', random);
  }

  // ---------------------------------------------------------------- the minter itself

  method PutUint64(u: array<byte>, x: nat)
    requires u.Length >= 8 && x < TWO64
    modifies u
    ensures u[..8] == BigEndian(x, 8) && u[8..] == old(u[8..])
  {
    var rest, i := x, 8;
    while i > 0
      invariant 0 <= i <= 8
      invariant BigEndian(x, 8) == BigEndian(rest, i) + u[i..8]
      invariant u[8..] == old(u[8..])
    {
      i := i - 1;
      u[i] := rest % 256;
      assert u[i..8] == [u[i]] + u[i + 1..8];
      rest := rest / 256;
    }
    assert BigEndian(rest, 0) == [];
  }

  /** The 16 bytes, written in place: the word, the random draw, then the version and variant. */
  method Write(ts: nat, random: seq<byte>) returns (id: ID)
    requires |random| == 8
    ensures id == Stamp(ts, random)
    ensures Timestamp(id) == ts % TWO60 && id[8] == 0x80 + random[0] % 64 && id[9..] == random[1..]
  {
    TimestampReadsBack(ts, random);
    StampTail(ts, random);
    var u := new byte[16](i => 0);
    ShiftAndMask(ts);
    var word := ts * 16 % TWO64 / 65536 * 65536 + ts % 4096;
    PutUint64(u, word);
    ghost var lead := u[..8];
    forall i | 8 <= i < 16 {
      u[i] := random[i - 8];
    }
    assert u[..8] == lead;
    u[6] := u[6] % 16 + 0x70;
    u[8] := u[8] % 64 + 0x80;
    id := u[..];
    assert id[..6] == lead[..6] && id[6] == lead[6] % 16 + 0x70 && id[7] == lead[7];
    assert id[9..] == random[1..];
    assert id == id[..6] + [id[6], id[7], id[8]] + id[9..];
  }

  /** The ids a run minted, in order, from its readings and its random draws. */
  ghost predicate Record(readings: seq<nat>, drawn: seq<seq<byte>>, minted: seq<ID>) {
    && |minted| == |drawn| == |readings|
    && (forall i :: 0 <= i < |drawn| ==> |drawn[i]| == 8)
    && forall i :: 0 <= i < |minted| ==> minted[i] == Stamp(LastAfter(readings[..i + 1]), drawn[i])
  }

  lemma RecordGrows(readings: seq<nat>, drawn: seq<seq<byte>>, minted: seq<ID>, reading: nat, random: seq<byte>)
    requires Record(readings, drawn, minted) && |random| == 8
    ensures Record(readings + [reading], drawn + [random], minted + [Stamp(LastAfter(readings + [reading]), random)])
  {
    var readings', drawn' := readings + [reading], drawn + [random];
    forall i | 0 <= i < |minted|
      ensures minted[i] == Stamp(LastAfter(readings'[..i + 1]), drawn'[i])
    {
      assert readings[..i + 1] == readings'[..i + 1];
    }
    assert readings'[..|minted| + 1] == readings';
  }

  /** The ids minted increase. */
  ghost predicate Increasing(minted: seq<ID>) {
    forall i, j :: 0 <= i < j < |minted| ==> Below(minted[i], minted[j])
  }

  lemma OrderedIsIncreasing(readings: seq<nat>, drawn: seq<seq<byte>>, minted: seq<ID>)
    requires Record(readings, drawn, minted) && Ordered(readings)
    ensures Increasing(minted)
  {
    forall i, j | 0 <= i < j < |minted|
      ensures Below(minted[i], minted[j])
    {
      StampsIncrease(readings, i + 1, j + 1, drawn[i], drawn[j]);
    }
  }

  lemma SomeRecord(readings: seq<nat>, random: seq<byte>) returns (drawn: seq<seq<byte>>, minted: seq<ID>)
    requires |random| == 8
    ensures Record(readings, drawn, minted) && forall i :: 0 <= i < |drawn| ==> drawn[i] == random
  {
    hide Stamp;
    drawn := seq(|readings|, i => random);
    minted := seq(|readings|, i requires 0 <= i < |readings| => Stamp(LastAfter(readings[..i + 1]), random));
  }

  /** Exactly the runs whose ids are each greater than every one minted before, whatever was drawn. */
  lemma OrderedIff(readings: seq<nat>)
    ensures Ordered(readings) <==> forall drawn, minted :: Record(readings, drawn, minted) ==> Increasing(minted)
  {
    hide Stamp, Compare, KeepsOrder;
    if Ordered(readings) {
      forall drawn, minted | Record(readings, drawn, minted)
        ensures Increasing(minted)
      {
        OrderedIsIncreasing(readings, drawn, minted);
      }
    } else {
      var k :| 1 <= k < |readings| && !KeepsOrderAt(readings, k);
      var r: seq<byte> := seq(8, i => 0);
      var drawn, minted := SomeRecord(readings, r);
      assert readings[..k + 1][..k] == readings[..k];
      KeepsOrderIff(LastAfter(readings[..k]), readings[k]);
      SameDraw(LastAfter(readings[..k]), LastAfter(readings[..k + 1]), r);
      assert !Below(minted[k - 1], minted[k]);
    }
  }

  lemma NextIsGreatest(readings: seq<nat>, drawn: seq<seq<byte>>, minted: seq<ID>, reading: nat, random: seq<byte>,
                       i: nat)
    requires Record(readings, drawn, minted) && Ordered(readings) && i < |minted| && |random| == 8
    requires KeepsOrder(LastAfter(readings), reading)
    ensures Below(minted[i], Stamp(Next(LastAfter(readings), reading), random))
  {
    hide KeepsOrder, Stamp, Compare, Ordered, LastAfter;
    var readings', n := readings + [reading], |minted|;
    OneMoreReading(readings, reading);
    assert readings'[..n + 1] == readings' && readings'[..i + 1] == readings[..i + 1];
    assert minted[i] == Stamp(LastAfter(readings[..i + 1]), drawn[i]);
    StampsIncrease(readings', i + 1, n + 1, drawn[i], random);
  }

  lemma NextIsNotGreatest(readings: seq<nat>, drawn: seq<seq<byte>>, minted: seq<ID>, reading: nat)
      returns (random: seq<byte>)
    requires Record(readings, drawn, minted) && minted != []
    requires !KeepsOrder(LastAfter(readings), reading)
    ensures |random| == 8
    ensures !Below(minted[|minted| - 1], Stamp(Next(LastAfter(readings), reading), random))
  {
    hide KeepsOrder, Stamp, Compare;
    var last, n := LastAfter(readings), |minted| - 1;
    assert readings[..n + 1] == readings;
    KeepsOrderIff(last, reading);
    random := drawn[n];
    SameDraw(last, Next(last, reading), random);
  }

  /** Mint's promise, call by call: after a run that kept it the next id is greater than every one minted
      before, whatever is drawn, exactly when the clock and the last timestamp are as they must be. */
  lemma NextIsGreatestIff(readings: seq<nat>, drawn: seq<seq<byte>>, minted: seq<ID>, reading: nat)
    requires Record(readings, drawn, minted) && minted != [] && Ordered(readings)
    ensures KeepsOrder(LastAfter(readings), reading) <==>
            forall random: seq<byte> :: |random| == 8 ==>
              forall i :: 0 <= i < |minted| ==> Below(minted[i], Stamp(Next(LastAfter(readings), reading), random))
  {
    hide KeepsOrder, Stamp, Compare, Record, Ordered, LastAfter;
    if KeepsOrder(LastAfter(readings), reading) {
      forall random: seq<byte>, i | |random| == 8 && 0 <= i < |minted|
        ensures Below(minted[i], Stamp(Next(LastAfter(readings), reading), random))
      {
        NextIsGreatest(readings, drawn, minted, reading, random, i);
      }
    } else {
      var random := NextIsNotGreatest(readings, drawn, minted, reading);
    }
  }

  lemma StampIsMinted(ts: nat, random: seq<byte>)
    requires |random| == 8
    ensures Minted(Stamp(ts, random)) && Timestamp(Stamp(ts, random)) == ts % TWO60
  {
    StampLayout(ts, random);
    TimestampReadsBack(ts, random);
  }

  /** What one more id keeps and adds. */
  lemma NextId(readings: seq<nat>, drawn: seq<seq<byte>>, minted: seq<ID>, reading: nat, random: seq<byte>)
    requires Record(readings, drawn, minted) && |random| == 8
    ensures var readings' := readings + [reading];
            var last := LastAfter(readings');
            var id := Stamp(last, random);
            && Record(readings', drawn + [random], minted + [id])
            && Minted(id) && Timestamp(id) == last % TWO60
            && id[8] == 0x80 + random[0] % 64 && id[9..] == random[1..]
            && (Ideal(readings') < TWO64 ==> last == Ideal(readings'))
            && (Ordered(readings') ==> forall i :: 0 <= i < |minted| ==> Below(minted[i], id))
  {
    var readings' := readings + [reading];
    var id := Stamp(LastAfter(readings'), random);
    RecordGrows(readings, drawn, minted, reading, random);
    StampIsMinted(LastAfter(readings'), random);
    StampTail(LastAfter(readings'), random);
    if Ideal(readings') < TWO64 {
      LastIsIdeal(readings');
    }
    if Ordered(readings') {
      OrderedIsIncreasing(readings', drawn + [random], minted + [id]);
      var more, n := minted + [id], |minted|;
      forall i | 0 <= i < n
        ensures Below(minted[i], id)
      {
        assert Below(more[i], more[n]);
      }
    }
  }

  class Mint {
    var last: nat
    /** Every reading committed, every draw of random bytes and every id minted, in order. */
    ghost var readings: seq<nat>
    ghost var drawn: seq<seq<byte>>
    ghost var minted: seq<ID>

    ghost predicate Valid()
      reads this
    {
      last == LastAfter(readings) < TWO64 && Record(readings, drawn, minted)
    }

    constructor ()
      ensures Valid() && readings == [] && minted == []
    {
      last := 0;
      readings, drawn, minted := [], [], [];
    }

    /** The timestamp, taken under the lock. */
    method Commit(reading: nat)
      requires reading < TWO64 && last == LastAfter(readings) < TWO64
      modifies this`last, this`readings
      ensures last == LastAfter(readings) < TWO64 && readings == old(readings) + [reading]
    {
      readings := readings + [reading];
      assert readings[..|readings| - 1] == old(readings);
      last := if reading <= last then (last + 1) % TWO64 else reading;
    }

    /**
     One id: greater than every one minted before for as long as every call had what it needs of the
     clock, carrying the maximum of the clock's reading and one past the last timestamp.
     */
    method Next(nanos: int, random: seq<byte>) returns (id: ID)
      requires Valid() && |random| == 8
      modifies this
      ensures Valid()
      ensures readings == old(readings) + [Reading(nanos)] && minted == old(minted) + [id]
      ensures Minted(id) && Timestamp(id) == last % TWO60
      ensures id[8] == 0x80 + random[0] % 64 && id[9..] == random[1..]
      ensures Ideal(readings) < TWO64 ==> last == Ideal(readings)
      ensures Ordered(readings) <==>
              old(Ordered(readings)) && (old(minted) == [] || KeepsOrder(old(last), Reading(nanos)))
      ensures Ideal(readings) < TWO60 ==> Ordered(readings)
      ensures Ordered(readings) ==> forall i :: 0 <= i < |old(minted)| ==> Below(old(minted)[i], id)
    {
      hide KeepsOrder, Ordered;
      var reading := Reading(nanos);
      Commit(reading);
      id := Write(last, random);
      NextId(old(readings), drawn, minted, reading, random);
      OneMoreReading(old(readings), reading);
      if Ideal(readings) < TWO60 {
        SixtyBitsKeepOrder(readings);
      }
      drawn, minted := drawn + [random], minted + [id];
    }
  }

  // ---------------------------------------------------------------- concurrent calls

  /** A call begins by reading the clock, outside the lock, and takes its timestamp inside it. */
  datatype Event = Read(call: nat, nanos: int) | Commit(call: nat, random: seq<byte>)

  /** Each call reads once, and commits at most once and after its read. */
  ghost predicate WellFormed(trace: seq<Event>) {
    && (forall i, j :: 0 <= i < j < |trace| && trace[i].Read? && trace[j].Read? ==> trace[i].call != trace[j].call)
    && (forall i, j :: 0 <= i < j < |trace| && trace[i].Commit? && trace[j].Commit? ==> trace[i].call != trace[j].call)
    && (forall j :: 0 <= j < |trace| && trace[j].Commit? ==>
          |trace[j].random| == 8 && exists i :: 0 <= i < j && trace[i].Read? && trace[i].call == trace[j].call)
    && (forall i, j :: 0 <= i < j < |trace| && trace[i].Commit? && trace[j].Read? ==> trace[i].call != trace[j].call)
  }

  /** What the call's own read of the clock gave it. */
  function ReadBy(trace: seq<Event>, call: nat): nat {
    if trace == [] then 0
    else if trace[0].Read? && trace[0].call == call then Reading(trace[0].nanos)
    else ReadBy(trace[1..], call)
  }

  /** The readings in the order the lock took them. */
  function Committed(trace: seq<Event>): seq<nat> {
    if trace == [] then []
    else
      var n := |trace| - 1;
      Committed(trace[..n]) + if trace[n].Commit? then [ReadBy(trace[..n], trace[n].call)] else []
  }

  function IdAt(trace: seq<Event>, i: nat): ID
    requires i < |trace| && trace[i].Commit? && |trace[i].random| == 8
  {
    Stamp(LastAfter(Committed(trace[..i + 1])), trace[i].random)
  }

  lemma {:induction false} CommittedPrefix(trace: seq<Event>, n: nat)
    requires n <= |trace|
    ensures Committed(trace[..n]) <= Committed(trace)
  {
    if n == |trace| {
      assert trace[..n] == trace;
    } else {
      assert trace[..|trace| - 1][..n] == trace[..n];
      CommittedPrefix(trace[..|trace| - 1], n);
    }
  }

  lemma CommittedInOrder(trace: seq<Event>, i: nat, j: nat)
    requires i < j < |trace| && trace[j].Commit?
    ensures var p, q, all := Committed(trace[..i + 1]), Committed(trace[..j + 1]), Committed(trace);
            |p| < |q| <= |all| && p == all[..|p|] && q == all[..|q|]
            && (trace[i].Commit? ==> p != [])
  {
    CommittedPrefix(trace, j + 1);
    assert trace[..j + 1][..j] == trace[..j] && trace[..j][..i + 1] == trace[..i + 1];
    CommittedPrefix(trace[..j], i + 1);
  }

  /** Whatever the interleaving of reads and commits and whatever the clock reads, ids increase
      in commit order in every run whose calls had what they need of the clock. */
  lemma MintedInCommitOrder(trace: seq<Event>, i: nat, j: nat)
    requires WellFormed(trace) && i < j < |trace| && trace[i].Commit? && trace[j].Commit?
    requires Ordered(Committed(trace))
    ensures Below(IdAt(trace, i), IdAt(trace, j))
  {
    hide Committed, Ordered, LastAfter, Stamp, Compare;
    var p, q, all := Committed(trace[..i + 1]), Committed(trace[..j + 1]), Committed(trace);
    CommittedInOrder(trace, i, j);
    StampsIncrease(all, |p|, |q|, trace[i].random, trace[j].random);
  }

  lemma {:induction false} ReadByIts(trace: seq<Event>, k: nat, n: nat)
    requires k < n <= |trace| && trace[k].Read?
    requires forall i :: 0 <= i < n && trace[i].Read? && i != k ==> trace[i].call != trace[k].call
    ensures ReadBy(trace[..n], trace[k].call) == Reading(trace[k].nanos)
  {
    hide Reading;
    if k == 0 {
      assert trace[..n][0] == trace[0];
    } else {
      var rest := trace[1..];
      forall i | 0 <= i < n - 1 && rest[i].Read? && i != k - 1
        ensures rest[i].call != trace[k].call
      {
        assert rest[i] == trace[i + 1];
      }
      ReadByIts(rest, k - 1, n - 1);
      assert trace[..n][1..] == rest[..n - 1];
      assert trace[..n][0] == trace[0] && (trace[0].Read? ==> trace[0].call != trace[k].call);
    }
  }

  /** A call's id is of its own clock reading or later, in every interleaving whose timestamps have 60
      bits. */
  lemma MintedAtItsReadingOrLater(trace: seq<Event>, k: nat, i: nat)
    requires WellFormed(trace) && k < |trace| && i < |trace|
    requires trace[k].Read? && trace[i].Commit? && trace[k].call == trace[i].call
    requires Ideal(Committed(trace[..i + 1])) < TWO60
    ensures Timestamp(IdAt(trace, i)) == Ideal(Committed(trace[..i + 1])) >= Reading(trace[k].nanos)
  {
    hide Stamp, Reading, Timestamp;
    var upTo := trace[..i + 1];
    assert k < i;
    ReadByIts(trace, k, i);
    assert upTo[..i] == trace[..i] && upTo[i] == trace[i];
    var readings := Committed(upTo);
    assert readings == Committed(trace[..i]) + [Reading(trace[k].nanos)];
    LastIsIdeal(readings);
    TimestampReadsBack(LastAfter(readings), trace[i].random);
  }

  /** A call that read its clock after another had committed gets the greater id. */
  lemma MintedInRealTimeOrder(trace: seq<Event>, i: nat, k: nat, j: nat)
    requires WellFormed(trace) && i < k < |trace| && j < |trace|
    requires trace[i].Commit? && trace[k].Read? && trace[j].Commit? && trace[j].call == trace[k].call
    requires Ordered(Committed(trace))
    ensures Below(IdAt(trace, i), IdAt(trace, j))
  {
    MintedInCommitOrder(trace, i, j);
  }

  /** No two ids of a run are equal. */
  lemma MintedOnce(trace: seq<Event>, i: nat, j: nat)
    requires WellFormed(trace) && i < |trace| && j < |trace| && trace[i].Commit? && trace[j].Commit?
    requires Ordered(Committed(trace))
    ensures IdAt(trace, i) == IdAt(trace, j) <==> i == j
  {
    if i < j {
      MintedInCommitOrder(trace, i, j);
      BelowIsTotal(IdAt(trace, i), IdAt(trace, j));
    } else if j < i {
      MintedInCommitOrder(trace, j, i);
      BelowIsTotal(IdAt(trace, j), IdAt(trace, i));
    }
  }
}
