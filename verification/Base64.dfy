/**
 encoding/base64 without padding, section 5 and section 4 of RFC 4648, as Go's RawURLEncoding and
 RawStdEncoding read it: the decoder skips line breaks and ignores the unused low bits of the last
 character, which section 3.5 leaves to the implementation.
 */
module Base64 {
  import opened Wrappers
  import opened Bytes

  type sextet = x: int | 0 <= x < 64

  function CharOf(url: bool, v: sextet): char {
    if v < 26 then ('A' as int + v) as char
    else if v < 52 then ('a' as int + v - 26) as char
    else if v < 62 then ('0' as int + v - 52) as char
    else if v == 62 then (if url then '-' else '+')
    else if url then '_' else '/'
  }

  function SextetOf(url: bool, c: char): Option<sextet> {
    if 'A' <= c <= 'Z' then Some(c as int - 'A' as int)
    else if 'a' <= c <= 'z' then Some(c as int - 'a' as int + 26)
    else if '0' <= c <= '9' then Some(c as int - '0' as int + 52)
    else if c == (if url then '-' else '+') then Some(62)
    else if c == (if url then '_' else '/') then Some(63)
    else None
  }

  predicate LineBreak(c: char) {
    c == '\r' || c == '\n'
  }

  lemma AlphabetReadsBack(url: bool, v: sextet, c: char)
    ensures SextetOf(url, CharOf(url, v)) == Some(v) && !LineBreak(CharOf(url, v))
    ensures SextetOf(url, c).Some? ==> CharOf(url, SextetOf(url, c).value) == c && !LineBreak(c)
  {
  }

  const UPPER: string := "ABCDEFGHIJKLMNOPQRSTUVWXYZ"
  const LOWER: string := "abcdefghijklmnopqrstuvwxyz"
  const DIGITS: string := "0123456789"

  function Alphabet(url: bool): (t: string)
    ensures |t| == 64
  {
    UPPER + LOWER + DIGITS + if url then "-_" else "+/"
  }

  lemma LettersInOrder(v: sextet)
    ensures v < 26 ==> UPPER[v] == ('A' as int + v) as char && LOWER[v] == ('a' as int + v) as char
    ensures v < 10 ==> DIGITS[v] == ('0' as int + v) as char
  {
  }

  /** Tables 1 and 2 of RFC 4648: each character written, and the one each value is read from. */
  lemma AlphabetIs(url: bool, v: sextet, c: char)
    ensures CharOf(url, v) == Alphabet(url)[v]
    ensures SextetOf(url, c) == Some(v) <==> c == Alphabet(url)[v]
  {
    AlphabetReadsBack(url, v, c);
    hide SextetOf;
    LettersInOrder(if v < 26 then v else if v < 52 then v - 26 else if v < 62 then v - 52 else 0);
    assert Alphabet(url)[v] == if v < 26 then UPPER[v] else if v < 52 then LOWER[v - 26]
                               else if v < 62 then DIGITS[v - 52] else (if url then "-_" else "+/")[v - 62];
  }

  // How bytes spread over sextets, and back.

  function First(b0: byte): sextet {
    b0 / 4
  }

  function Second(b0: byte, b1: int): sextet
    requires 0 <= b1 < 256
  {
    b0 as int % 4 * 16 + b1 / 16
  }

  function Third(b1: byte, b2: int): sextet
    requires 0 <= b2 < 256
  {
    b1 as int % 16 * 4 + b2 / 64
  }

  function Fourth(b2: byte): sextet {
    b2 % 64
  }

  function Byte0(x0: sextet, x1: sextet): byte {
    x0 as int * 4 + x1 / 16
  }

  function Byte1(x1: sextet, x2: sextet): byte {
    x1 as int % 16 * 16 + x2 / 4
  }

  function Byte2(x2: sextet, x3: sextet): byte {
    x2 as int % 4 * 64 + x3
  }

  /** Three bytes in four sextets; one or two left over in two or three, their low bits zero. */
  function Sextets(b: seq<byte>): seq<sextet> {
    if b == [] then []
    else if |b| == 1 then [First(b[0]), Second(b[0], 0)]
    else if |b| == 2 then [First(b[0]), Second(b[0], b[1]), Third(b[1], 0)]
    else [First(b[0]), Second(b[0], b[1]), Third(b[1], b[2]), Fourth(b[2])] + Sextets(b[3..])
  }

  function Unsextets(x: seq<sextet>): Option<seq<byte>> {
    if x == [] then Some([])
    else if |x| == 1 then None
    else if |x| == 2 then Some([Byte0(x[0], x[1])])
    else if |x| == 3 then Some([Byte0(x[0], x[1]), Byte1(x[1], x[2])])
    else
      var rest := Unsextets(x[4..]);
      if rest.None? then None
      else Some([Byte0(x[0], x[1]), Byte1(x[1], x[2]), Byte2(x[2], x[3])] + rest.value)
  }

  function Text(url: bool, x: seq<sextet>): (t: string)
    ensures |t| == |x|
  {
    seq(|x|, i requires 0 <= i < |x| => CharOf(url, x[i]))
  }

  /** What the decoder reads of a text: everything but its line breaks. */
  function Skim(text: string): (t: string)
    ensures |t| <= |text|
    ensures |t| == |text| ==> t == text
    ensures forall i :: 0 <= i < |t| ==> !LineBreak(t[i])
  {
    if text == "" then ""
    else if LineBreak(text[0]) then Skim(text[1..])
    else [text[0]] + Skim(text[1..])
  }

  function Values(url: bool, text: string): (x: Option<seq<sextet>>)
    ensures x.Some? <==> forall i :: 0 <= i < |text| ==> SextetOf(url, text[i]).Some?
    ensures x.Some? ==> |x.value| == |text|
                        && forall i :: 0 <= i < |text| ==> x.value[i] == SextetOf(url, text[i]).value
  {
    if text == "" then Some([])
    else
      var v, rest := SextetOf(url, text[0]), Values(url, text[1..]);
      if v.None? || rest.None? then None else Some([v.value] + rest.value)
  }

  function Encode(url: bool, b: seq<byte>): string {
    Text(url, Sextets(b))
  }

  function Decode(url: bool, text: string): Option<seq<byte>> {
    var x := Values(url, Skim(text));
    if x.None? then None else Unsextets(x.value)
  }

  lemma {:induction false} EncodedLength(b: seq<byte>)
    ensures |Sextets(b)| == |b| / 3 * 4 + (if |b| % 3 == 0 then 0 else |b| % 3 + 1)
  {
    if |b| >= 3 {
      EncodedLength(b[3..]);
    }
  }

  lemma {:induction false} DecodedLength(x: seq<sextet>)
    ensures Unsextets(x).Some? <==> |x| % 4 != 1
    ensures Unsextets(x).Some? ==> |Unsextets(x).value| == |x| / 4 * 3 + (if |x| % 4 == 0 then 0 else |x| % 4 - 1)
  {
    if |x| >= 4 {
      DecodedLength(x[4..]);
    }
  }

  lemma GroupReadsBack(b0: byte, b1: byte, b2: byte)
    ensures Byte0(First(b0), Second(b0, b1)) == b0
    ensures Byte1(Second(b0, b1), Third(b1, b2)) == b1
    ensures Byte2(Third(b1, b2), Fourth(b2)) == b2
  {
  }

  lemma {:induction false} SextetsReadBack(b: seq<byte>)
    ensures Unsextets(Sextets(b)) == Some(b)
  {
    hide First, Second, Third, Fourth, Byte0, Byte1, Byte2;
    if |b| == 1 {
      GroupReadsBack(b[0], 0, 0);
      assert b == [b[0]];
    } else if |b| == 2 {
      GroupReadsBack(b[0], b[1], 0);
      assert b == [b[0], b[1]];
    } else if |b| >= 3 {
      SextetsReadBack(b[3..]);
      GroupReadsBack(b[0], b[1], b[2]);
      assert Sextets(b)[4..] == Sextets(b[3..]);
      assert b == [b[0], b[1], b[2]] + b[3..];
    }
  }

  /** A text of the alphabet alone is read sextet by sextet. */
  lemma ReadsText(url: bool, x: seq<sextet>)
    ensures Skim(Text(url, x)) == Text(url, x) && Values(url, Text(url, x)) == Some(x)
  {
    var t := Text(url, x);
    forall i | 0 <= i < |t|
      ensures !LineBreak(t[i]) && SextetOf(url, t[i]) == Some(x[i])
    {
      AlphabetReadsBack(url, x[i], t[i]);
    }
    NothingToSkim(t);
    assert Values(url, t).value == x;
  }

  lemma {:induction false} NothingToSkim(text: string)
    requires forall i :: 0 <= i < |text| ==> !LineBreak(text[i])
    ensures Skim(text) == text
  {
    if text != "" {
      NothingToSkim(text[1..]);
    }
  }

  lemma ValuesAreText(url: bool, text: string)
    requires Values(url, text).Some?
    ensures Text(url, Values(url, text).value) == text
  {
    var x := Values(url, text).value;
    forall i | 0 <= i < |text|
      ensures Text(url, x)[i] == text[i]
    {
      AlphabetReadsBack(url, x[i], text[i]);
    }
  }

  lemma DecodeReadsEncode(url: bool, b: seq<byte>)
    ensures Decode(url, Encode(url, b)) == Some(b)
  {
    ReadsText(url, Sextets(b));
    SextetsReadBack(b);
  }

  lemma Byte0IsDetermined(x0: sextet, x1: sextet, b0: byte)
    ensures Byte0(x0, x1) == b0 <==> x0 == First(b0) && x1 / 16 == b0 % 4
  {
  }

  lemma Byte1IsDetermined(x1: sextet, x2: sextet, b1: byte)
    ensures Byte1(x1, x2) == b1 <==> x1 % 16 == b1 / 16 && x2 / 4 == b1 % 16
  {
  }

  lemma Byte2IsDetermined(x2: sextet, x3: sextet, b2: byte)
    ensures Byte2(x2, x3) == b2 <==> x2 % 4 == b2 / 64 && x3 == Fourth(b2)
  {
  }

  lemma SecondIsDetermined(x1: sextet, b0: byte, b1: byte)
    ensures x1 == Second(b0, b1) <==> x1 / 16 == b0 % 4 && x1 % 16 == b1 / 16
  {
  }

  lemma ThirdIsDetermined(x2: sextet, b1: byte, b2: byte)
    ensures x2 == Third(b1, b2) <==> x2 / 4 == b1 % 16 && x2 % 4 == b2 / 64
    ensures Third(b1, 0) / 4 == b1 % 16 && Third(b1, 0) % 4 == 0
  {
  }

  lemma GroupIsDetermined(x0: sextet, x1: sextet, x2: sextet, x3: sextet, b0: byte, b1: byte, b2: byte)
    ensures Byte0(x0, x1) == b0 && Byte1(x1, x2) == b1 && Byte2(x2, x3) == b2 <==>
            x0 == First(b0) && x1 == Second(b0, b1) && x2 == Third(b1, b2) && x3 == Fourth(b2)
    ensures Byte0(x0, x1) == b0 && Byte1(x1, x2) == b1 <==>
            x0 == First(b0) && x1 == Second(b0, b1) && x2 / 4 == Third(b1, 0) / 4
    ensures Third(b1, 0) % 4 == 0
    ensures Byte0(x0, x1) == b0 <==> x0 == First(b0) && x1 / 16 == Second(b0, 0) / 16
    ensures Second(b0, 0) % 16 == 0
  {
    hide First, Second, Third, Fourth, Byte0, Byte1, Byte2;
    Byte0IsDetermined(x0, x1, b0);
    Byte1IsDetermined(x1, x2, b1);
    Byte2IsDetermined(x2, x3, b2);
    SecondIsDetermined(x1, b0, b1);
    SecondIsDetermined(Second(b0, 0), b0, 0);
    ThirdIsDetermined(x2, b1, b2);
  }

  /** How many values of the last sextet say the same: with one byte left over its four low bits are
      unused, with two its two low bits. */
  function Slack(n: nat): (slack: nat)
    ensures slack > 0
  {
    if n % 3 == 1 then 16 else if n % 3 == 2 then 4 else 1
  }

  lemma LooseGroup(x: seq<sextet>, b: seq<byte>)
    requires 1 <= |b| <= 3 && |x| == |Sextets(b)|
    ensures |x| > 0 && Sextets(b)[|x| - 1] % Slack(|b|) == 0
    ensures Unsextets(x) == Some(b) <==>
            x[..|x| - 1] == Sextets(b)[..|x| - 1] && x[|x| - 1] / Slack(|b|) == Sextets(b)[|x| - 1] / Slack(|b|)
  {
    hide First, Second, Third, Fourth, Byte0, Byte1, Byte2;
    var y := Sextets(b);
    if |b| == 1 {
      assert x[..1] == [x[0]] && y[..1] == [y[0]];
      assert b == [b[0]];
      GroupIsDetermined(x[0], x[1], 0, 0, b[0], 0, 0);
    } else if |b| == 2 {
      assert x[..2] == [x[0], x[1]] && y[..2] == [y[0], y[1]];
      assert b == [b[0], b[1]];
      GroupIsDetermined(x[0], x[1], x[2], 0, b[0], b[1], 0);
    } else {
      LooseTriple(x, b);
    }
  }

  lemma LooseTriple(x: seq<sextet>, b: seq<byte>)
    requires |b| == 3 && |x| == 4
    ensures Unsextets(x) == Some(b) <==> x == Sextets(b)
    ensures |Sextets(b)| == 4 && (x == Sextets(b) <==> x[..3] == Sextets(b)[..3] && x[3] == Sextets(b)[3])
  {
    hide First, Second, Third, Fourth, Byte0, Byte1, Byte2;
    var y := Sextets(b);
    assert b == [b[0], b[1], b[2]] && b[3..] == [] && x[4..] == [];
    assert Sextets(b[3..]) == [] && Unsextets(x[4..]) == Some([]);
    assert y == [First(b[0]), Second(b[0], b[1]), Third(b[1], b[2]), Fourth(b[2])];
    var z := [Byte0(x[0], x[1]), Byte1(x[1], x[2]), Byte2(x[2], x[3])];
    assert z + [] == z;
    assert Unsextets(x) == Some(z + []);
    assert z == b <==> z[0] == b[0] && z[1] == b[1] && z[2] == b[2];
    GroupIsDetermined(x[0], x[1], x[2], x[3], b[0], b[1], b[2]);
    assert x == x[..3] + [x[3]] && y == y[..3] + [y[3]];
  }

  /** Sextets that decode to some bytes are those the encoder writes, but for the unused bits of the last
      one, which the encoder leaves zero. */
  lemma {:induction false} LooseSextets(x: seq<sextet>, b: seq<byte>)
    requires b != [] && |x| == |Sextets(b)|
    ensures |x| > 0 && Sextets(b)[|x| - 1] % Slack(|b|) == 0
    ensures Unsextets(x) == Some(b) <==>
            x[..|x| - 1] == Sextets(b)[..|x| - 1] && x[|x| - 1] / Slack(|b|) == Sextets(b)[|x| - 1] / Slack(|b|)
    decreases |b|
  {
    hide First, Second, Third, Fourth, Byte0, Byte1, Byte2;
    var y, n := Sextets(b), |x| - 1;
    if |b| <= 3 {
      LooseGroup(x, b);
    } else {
      GroupIsDetermined(x[0], x[1], x[2], x[3], b[0], b[1], b[2]);
      assert y[4..] == Sextets(b[3..]);
      LooseSextets(x[4..], b[3..]);
      assert (|b| - 3) % 3 == |b| % 3;
      LooseStep(x, y, b);
    }
  }

  lemma LooseStep(x: seq<sextet>, y: seq<sextet>, b: seq<byte>)
    requires |b| >= 3 && |x| == |y| > 4
    ensures Unsextets(x) == Some(b) <==>
            Byte0(x[0], x[1]) == b[0] && Byte1(x[1], x[2]) == b[1] && Byte2(x[2], x[3]) == b[2]
            && Unsextets(x[4..]) == Some(b[3..])
    ensures x[..|x| - 1] == y[..|x| - 1] <==>
            x[0] == y[0] && x[1] == y[1] && x[2] == y[2] && x[3] == y[3]
            && x[4..][..|x| - 5] == y[4..][..|x| - 5]
  {
    hide Byte0, Byte1, Byte2;
    var n := |x| - 1;
    assert b == [b[0], b[1], b[2]] + b[3..];
    if Unsextets(x) == Some(b) {
      assert b[3..] == Unsextets(x[4..]).value;
    }
    assert x[..n] == [x[0], x[1], x[2], x[3]] + x[4..][..n - 4];
    assert y[..n] == [y[0], y[1], y[2], y[3]] + y[4..][..n - 4];
    if x[..n] == y[..n] {
      assert x[..n][..4] == y[..n][..4];
      assert x[4..][..n - 4] == x[..n][4..] && y[4..][..n - 4] == y[..n][4..];
    }
  }

  /** The encoder's sextets but for the unused bits of the last one. */
  predicate SaysTheSame(x: seq<sextet>, b: seq<byte>)
    requires b != []
  {
    EncodedLength(b);
    var y, n := Sextets(b), |Sextets(b)| - 1;
    |x| == |y| && x[..n] == y[..n] && x[n] / Slack(|b|) == y[n] / Slack(|b|)
  }

  /** The texts of the alphabet that decode to some bytes, whether one or two are left over or none. */
  lemma LooseText(url: bool, x: seq<sextet>, b: seq<byte>)
    requires b != []
    ensures Decode(url, Text(url, x)) == Some(b) <==> SaysTheSame(x, b)
  {
    hide Sextets, Unsextets;
    ReadsText(url, x);
    EncodedLength(b);
    DecodedLength(x);
    if |x| == |Sextets(b)| {
      LooseSextets(x, b);
    }
  }

  lemma {:induction false} SkimHolds(text: string, i: nat)
    requires i < |text| && !LineBreak(text[i])
    ensures exists j :: 0 <= j < |Skim(text)| && Skim(text)[j] == text[i]
  {
    if i == 0 {
      assert Skim(text)[0] == text[0];
    } else {
      SkimHolds(text[1..], i - 1);
      var j :| 0 <= j < |Skim(text[1..])| && Skim(text[1..])[j] == text[i];
      var k := if LineBreak(text[0]) then j else j + 1;
      assert Skim(text)[k] == text[i];
    }
  }

  /** Exactly the texts that decode to some bytes: line breaks aside, they are of the alphabet and the
      encoder's but for the last character's unused bits. */
  lemma DecodeIff(url: bool, text: string, b: seq<byte>)
    requires b != []
    ensures Decode(url, text) == Some(b) <==> exists x :: Skim(text) == Text(url, x) && SaysTheSame(x, b)
  {
    hide Skim, Text, SaysTheSame, Unsextets;
    var t := Skim(text);
    NothingToSkim(t);
    if Decode(url, text) == Some(b) {
      var x := Values(url, t).value;
      ValuesAreText(url, t);
      LooseText(url, x, b);
      assert t == Text(url, x) && SaysTheSame(x, b);
    }
    forall x | t == Text(url, x) && SaysTheSame(x, b)
      ensures Decode(url, text) == Some(b)
    {
      LooseText(url, x, b);
    }
  }

  /** The k-th group of characters says the k-th three bytes as one number, high bits first; of one or two
      bytes left over the unused low bits are zero. */
  predicate GroupSpells(x: seq<sextet>, b: seq<byte>, k: nat)
    requires 3 * k < |b|
  {
    var i, j := 3 * k, 4 * k;
    if i + 1 == |b| then
      |x| == j + 2 && x[j] as int * 64 + x[j + 1] == b[i] as int * 16
    else if i + 2 == |b| then
      |x| == j + 3 && (x[j] as int * 64 + x[j + 1]) * 64 + x[j + 2] == (b[i] as int * 256 + b[i + 1]) * 4
    else
      |x| >= j + 4
      && ((x[j] as int * 64 + x[j + 1]) * 64 + x[j + 2]) * 64 + x[j + 3]
         == (b[i] as int * 256 + b[i + 1]) * 256 + b[i + 2]
  }

  lemma FirstGroupSpells(b: seq<byte>)
    requires b != []
    ensures GroupSpells(Sextets(b), b, 0)
  {
  }

  lemma LaterGroupSpells(x: seq<sextet>, b: seq<byte>, k: nat)
    requires 0 < k && 3 * k < |b| && |x| >= 4 && GroupSpells(x[4..], b[3..], k - 1)
    ensures GroupSpells(x, b, k)
  {
    var i, j := 3 * k, 4 * k;
    assert forall n :: i <= n < |b| ==> b[3..][n - 3] == b[n];
    assert forall n :: j <= n < |x| ==> x[4..][n - 4] == x[n];
  }

  lemma {:induction false} SextetsSpell(b: seq<byte>, k: nat)
    requires 3 * k < |b|
    ensures GroupSpells(Sextets(b), b, k)
  {
    hide GroupSpells;
    if k == 0 {
      FirstGroupSpells(b);
    } else {
      SextetsSpell(b[3..], k - 1);
      assert Sextets(b)[4..] == Sextets(b[3..]);
      LaterGroupSpells(Sextets(b), b, k);
    }
  }

  /** A character that is neither of the alphabet nor a line break, a pad among them, refuses the whole
      text. */
  lemma ForeignIsRefused(url: bool, text: string, i: nat)
    requires i < |text| && text[i] !in Alphabet(url) && text[i] != '\r' && text[i] != '\n'
    ensures Decode(url, text) == None
  {
    SkimHolds(text, i);
    var j :| 0 <= j < |Skim(text)| && Skim(text)[j] == text[i];
    if SextetOf(url, text[i]).Some? {
      AlphabetIs(url, SextetOf(url, text[i]).value, text[i]);
    }
  }

  lemma {:induction false} SkimOfConcat(a: string, b: string)
    ensures Skim(a + b) == Skim(a) + Skim(b)
  {
    if a == "" {
      assert a + b == b;
    } else {
      assert (a + b)[1..] == a[1..] + b;
      SkimOfConcat(a[1..], b);
    }
  }

  /** A line break anywhere is nothing. */
  lemma LineBreakIsSkipped(url: bool, a: string, c: char, b: string)
    requires c == '\r' || c == '\n'
    ensures Decode(url, a + [c] + b) == Decode(url, a + b)
  {
    assert Skim([c]) == "" by {
      assert [c][1..] == "";
    }
    hide Skim, Values, Unsextets;
    SkimOfConcat(a + [c], b);
    SkimOfConcat(a, [c]);
    SkimOfConcat(a, b);
    assert Skim(a) + "" == Skim(a);
  }
}
