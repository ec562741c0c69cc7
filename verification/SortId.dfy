/**
 Sortable ids of sortid/sortid.go: the bytes of a version 7 UUID of RFC 9562, and a text codec that
 accepts exactly what it writes (section 4) in the same order (section 6.11).
 */
module SortId {
  import opened Wrappers
  import opened Bytes

  const TEXT_LEN: nat := 36

  /** The 16 bytes of an id. */
  type ID = s: seq<byte> | |s| == 16 witness seq(16, i => 0)

  /** `minted`: version 7 in the high four bits of byte 6, and the RFC 9562 variant, binary 10, in
      the high two of byte 8. */
  predicate Minted(id: ID) {
    0x70 <= id[6] < 0x80 && 0x80 <= id[8] < 0xc0
  }

  // ---------------------------------------------------------------- text

  function HexDigit(n: int): char
    requires 0 <= n < 16
  {
    if n < 10 then ('0' as int + n) as char else ('a' as int + n - 10) as char
  }

  /** Either case, as the stdlib's parser reads. */
  function HexValue(c: char): (v: Option<int>)
    ensures v.Some? ==> 0 <= v.value < 16
  {
    if '0' <= c <= '9' then Some(c as int - '0' as int)
    else if 'a' <= c <= 'f' then Some(c as int - 'a' as int + 10)
    else if 'A' <= c <= 'F' then Some(c as int - 'A' as int + 10)
    else None
  }

  /** The 8-4-4-4-12 form has a dash after the bytes 3, 5, 7 and 9. */
  predicate DashAfter(i: nat) {
    i == 3 || i == 5 || i == 7 || i == 9
  }

  function Piece(b: byte, i: nat): (text: string)
    ensures |text| == if DashAfter(i) then 3 else 2
  {
    [HexDigit(b / 16), HexDigit(b % 16)] + if DashAfter(i) then "-" else ""
  }

  /** How long the text of the bytes from i on is. */
  function Width(i: nat): nat
    requires i <= 16
  {
    2 * (16 - i) + if i <= 3 then 4 else if i <= 5 then 3 else if i <= 7 then 2 else if i <= 9 then 1 else 0
  }

  /** The text of the bytes from i on. */
  function Written(id: ID, i: nat): (text: string)
    requires i <= 16
    ensures |text| == Width(i)
    decreases 16 - i
  {
    if i == 16 then "" else Piece(id[i], i) + Written(id, i + 1)
  }

  /** Byte i read off a text in the dashed form and either case, and the text left. */
  function TakeByte(text: string, i: nat): Option<(byte, string)> {
    var n := if DashAfter(i) then 3 else 2;
    if |text| < n || (n == 3 && text[2] != '-') || HexValue(text[0]).None? || HexValue(text[1]).None? then None
    else Some((16 * HexValue(text[0]).value + HexValue(text[1]).value, text[n..]))
  }

  /** The bytes from i on, and nothing after them. */
  function ReadFrom(text: string, i: nat): (b: Option<seq<byte>>)
    requires i <= 16
    ensures b.Some? ==> |b.value| == 16 - i
    decreases 16 - i
  {
    if i == 16 then (if text == "" then Some([]) else None)
    else
      var first := TakeByte(text, i);
      if first.None? then None
      else
        var rest := ReadFrom(first.value.1, i + 1);
        if rest.None? then None else Some([first.value.0] + rest.value)
  }

  /** `String`: lowercase 8-4-4-4-12. */
  function String(id: ID): string {
    Written(id, 0)
  }

  lemma StringWidth(id: ID)
    ensures |String(id)| == TEXT_LEN
  {
  }

  /** The stdlib's uuid.Parse on a text of 36 bytes, where the dashed form in either case is the
      only one of its four that fits. */
  function ParseUuid(text: string): (u: Option<ID>)
    requires |text| == TEXT_LEN
  {
    ReadFrom(text, 0)
  }

  datatype Malformed = Malformed

  function Parse(text: string): Result<ID, Malformed> {
    if |text| != TEXT_LEN then Err(Malformed)
    else
      var u := ParseUuid(text);
      if u.None? || String(u.value) != text then Err(Malformed)
      else if !Minted(u.value) then Err(Malformed)
      else Ok(u.value)
  }

  function MarshalText(id: ID): Result<string, Malformed> {
    if !Minted(id) then Err(Malformed) else Ok(String(id))
  }

  /** A variable an id is decoded into through its pointer. */
  class Cell {
    var id: ID

    constructor (id: ID)
      ensures this.id == id
    {
      this.id := id;
    }

    /** Takes the id a text was written for, and is left as it was by any other text. */
    method UnmarshalText(text: string) returns (ok: bool)
      modifies this
      ensures ok <==> exists u: ID :: Minted(u) && String(u) == text
      ensures ok ==> Minted(id) && String(id) == text
      ensures !ok ==> id == old(id)
    {
      var parsed := Parse(text);
      ParseRange(text);
      if parsed.Err? {
        return false;
      }
      id := parsed.value;
      return true;
    }
  }

  lemma HexDigitReads(n: int)
    requires 0 <= n < 16
    ensures HexValue(HexDigit(n)) == Some(n) == HexValue(UpperChar(HexDigit(n)))
  {
  }

  /** A byte's piece is read in either case, whatever text follows it. */
  lemma TakesPiece(b: byte, i: nat, text: string)
    ensures TakeByte(Piece(b, i) + text, i) == Some((b, text))
    ensures TakeByte(Upper(Piece(b, i)) + text, i) == Some((b, text))
  {
    HexDigitReads(b / 16);
    HexDigitReads(b % 16);
    assert 16 * (b / 16) + b % 16 == b;
    var n := |Piece(b, i)|;
    assert (Piece(b, i) + text)[n..] == text && (Upper(Piece(b, i)) + text)[n..] == text;
  }

  lemma {:induction false} ReadsWritten(id: ID, i: nat)
    requires i <= 16
    ensures ReadFrom(Written(id, i), i) == Some(id[i..])
    decreases 16 - i
  {
    hide TakeByte;
    if i == 16 {
      assert id[i..] == [];
    } else {
      ReadsWritten(id, i + 1);
      TakesPiece(id[i], i, Written(id, i + 1));
      assert id[i..] == [id[i]] + id[i + 1..];
    }
  }

  lemma ParseUuidReadsString(id: ID)
    ensures |String(id)| == TEXT_LEN && ParseUuid(String(id)) == Some(id)
  {
    StringWidth(id);
    ReadsWritten(id, 0);
  }

  /** Parse and String are mutual inverses between the accepted texts and the minted ids. */
  lemma ParseInvertsString(text: string, id: ID)
    ensures Parse(text) == Ok(id) <==> Minted(id) && String(id) == text
  {
    ParseUuidReadsString(id);
  }

  /** Parse accepts exactly the texts String writes for minted ids. */
  lemma ParseRange(text: string)
    ensures Parse(text).Ok? <==> exists id: ID :: Minted(id) && String(id) == text
    ensures Parse(text).Ok? ==> Minted(Parse(text).value) && String(Parse(text).value) == text
  {
    forall id: ID | Minted(id) && String(id) == text
      ensures Parse(text).Ok?
    {
      ParseInvertsString(text, id);
    }
  }

  /** What MarshalText writes is a text Parse accepts, and it fails on exactly the other ids. */
  lemma MarshalReadsBack(id: ID)
    ensures MarshalText(id).Ok? <==> Parse(String(id)).Ok?
    ensures MarshalText(id).Ok? ==> Parse(MarshalText(id).value) == Ok(id)
  {
    ParseInvertsString(String(id), id);
    ParseUuidReadsString(id);
  }

  function UpperChar(c: char): char {
    if 'a' <= c <= 'z' then (c as int - 32) as char else c
  }

  function Upper(text: string): (t: string)
    ensures |t| == |text|
  {
    seq(|text|, i requires 0 <= i < |text| => UpperChar(text[i]))
  }

  lemma UpperOfConcat(p: string, q: string)
    ensures Upper(p + q) == Upper(p) + Upper(q)
  {
  }

  lemma {:induction false} ReadsUpper(id: ID, i: nat)
    requires i <= 16
    ensures ReadFrom(Upper(Written(id, i)), i) == Some(id[i..])
    decreases 16 - i
  {
    hide TakeByte, Piece, Upper;
    if i == 16 {
      assert id[i..] == [];
    } else {
      ReadsUpper(id, i + 1);
      var p, t := Piece(id[i], i), Written(id, i + 1);
      TakesPiece(id[i], i, Upper(t));
      UpperOfConcat(p, t);
      assert id[i..] == [id[i]] + id[i + 1..];
    }
  }

  /** The stdlib reads an id off its upper-cased text too, and Parse refuses that text unless
      upper-casing changed nothing. */
  lemma UpperCaseIsRefused(id: ID)
    ensures |Upper(String(id))| == TEXT_LEN && ParseUuid(Upper(String(id))) == Some(id)
    ensures Parse(Upper(String(id))).Ok? <==> Minted(id) && Upper(String(id)) == String(id)
  {
    StringWidth(id);
    ReadsUpper(id, 0);
  }

  const LOWER_HEX: string := "0123456789abcdef"
  const UPPER_HEX: string := "0123456789ABCDEF"

  /** The digits written and those read. */
  lemma HexAlphabet(n: nat, c: char)
    requires n < 16
    ensures HexDigit(n) == LOWER_HEX[n]
    ensures HexValue(c) == Some(n) <==> c == LOWER_HEX[n] || c == UPPER_HEX[n]
  {
  }

  /** Where byte j's digits are in the text of the bytes from i on. */
  function DigitsAt(i: nat, j: nat): (k: nat)
    requires i <= j <= 16
    ensures k == Width(i) - Width(j)
    decreases j - i
  {
    if i == j then 0 else (if DashAfter(i) then 3 else 2) + DigitsAt(i + 1, j)
  }

  predicate PartAt(t: string, k: nat, part: string) {
    k + |part| <= |t| && t[k..k + |part|] == part
  }

  lemma PartInFront(p: string, rest: string)
    ensures PartAt(p + rest, 0, p)
  {
  }

  lemma PartBehind(p: string, rest: string, k: nat, part: string)
    requires PartAt(rest, k, part)
    ensures PartAt(p + rest, |p| + k, part)
  {
  }

  lemma {:induction false} WrittenAt(id: ID, i: nat, j: nat)
    requires i <= j < 16
    ensures PartAt(Written(id, i), DigitsAt(i, j), Piece(id[j], j))
    decreases j - i
  {
    hide PartAt, Piece, DashAfter;
    var p, rest := Piece(id[i], i), Written(id, i + 1);
    assert Written(id, i) == p + rest;
    if i == j {
      PartInFront(p, rest);
    } else {
      WrittenAt(id, i + 1, j);
      PartBehind(p, rest, DigitsAt(i + 1, j), Piece(id[j], j));
    }
  }

  /** The text laid out: two lower-case digits a byte, the high one first, with dashes at 8, 13, 18 and
      23. */
  lemma StringLayout(id: ID, j: nat)
    requires j < 16
    ensures var t, k := String(id), 2 * j + (if j < 4 then 0 else if j < 6 then 1 else if j < 8 then 2 else
                                             if j < 10 then 3 else 4);
            && |t| == TEXT_LEN && k + 1 < TEXT_LEN
            && t[k] == LOWER_HEX[id[j] / 16] && t[k + 1] == LOWER_HEX[id[j] % 16]
            && t[8] == t[13] == t[18] == t[23] == '-'
  {
    StringWidth(id);
    hide String, HexDigit, HexValue;
    HexAlphabet(id[j] / 16, '0');
    HexAlphabet(id[j] % 16, '0');
    PieceInString(id, j);
    PieceInString(id, 3);
    PieceInString(id, 5);
    PieceInString(id, 7);
    PieceInString(id, 9);
  }

  /** Byte b's digits at k, and the dash after them where there is one. */
  predicate HasByte(t: string, k: nat, b: byte, dash: bool) {
    k + (if dash then 2 else 1) < |t|
    && t[k] == HexDigit(b / 16) && t[k + 1] == HexDigit(b % 16) && (dash ==> t[k + 2] == '-')
  }

  lemma PieceInString(id: ID, j: nat)
    requires j < 16
    ensures HasByte(String(id), DigitsAt(0, j), id[j], DashAfter(j))
  {
    hide PartAt, Piece, HasByte, Written, DigitsAt, DashAfter, HexDigit;
    WrittenAt(id, 0, j);
    PartIsByte(String(id), DigitsAt(0, j), id[j], j);
  }

  lemma PartIsByte(t: string, k: nat, b: byte, i: nat)
    requires PartAt(t, k, Piece(b, i))
    ensures HasByte(t, k, b, DashAfter(i))
  {
    hide PartAt, HexDigit;
    var p := Piece(b, i);
    assert p[0] == HexDigit(b / 16) && p[1] == HexDigit(b % 16) && (DashAfter(i) ==> p[2] == '-');
    PartHolds(t, k, p);
    assert t[k + 0] == p[0];
  }

  lemma PartHolds(t: string, k: nat, part: string)
    requires PartAt(t, k, part)
    ensures k + |part| <= |t| && forall i :: 0 <= i < |part| ==> t[k + i] == part[i]
  {
    forall i | 0 <= i < |part|
      ensures t[k + i] == part[i]
    {
      assert t[k..k + |part|][i] == part[i];
    }
  }

  lemma HexPairOrder(x: byte, y: byte)
    ensures Compare(Codes([HexDigit(x / 16), HexDigit(x % 16)]), Codes([HexDigit(y / 16), HexDigit(y % 16)]))
            == if x < y then -1 else if x > y then 1 else 0
  {
    var p, q := Codes([HexDigit(x / 16), HexDigit(x % 16)]), Codes([HexDigit(y / 16), HexDigit(y % 16)]);
    assert x / 16 < y / 16 ==> p[0] < q[0];
    assert x / 16 > y / 16 ==> p[0] > q[0];
    assert x % 16 < y % 16 ==> p[1] < q[1];
    assert x % 16 > y % 16 ==> p[1] > q[1];
    assert x == 16 * (x / 16) + x % 16 && y == 16 * (y / 16) + y % 16;
    assert p[1..] == [p[1]] && q[1..] == [q[1]];
    assert Compare(p, q) == if p[0] < q[0] then -1 else if p[0] > q[0] then 1 else Compare([p[1]], [q[1]]);
  }

  lemma PieceOrder(x: byte, y: byte, i: nat)
    ensures Compare(Codes(Piece(x, i)), Codes(Piece(y, i))) == if x < y then -1 else if x > y then 1 else 0
  {
    HexPairOrder(x, y);
    var p, q := [HexDigit(x / 16), HexDigit(x % 16)], [HexDigit(y / 16), HexDigit(y % 16)];
    var dash := if DashAfter(i) then "-" else "";
    assert Codes(Piece(x, i)) == Codes(p) + Codes(dash) && Codes(Piece(y, i)) == Codes(q) + Codes(dash);
    CompareConcat(Codes(p), Codes(q), Codes(dash), Codes(dash));
    CompareEqual(Codes(dash), Codes(dash));
  }

  lemma OneByteOrder(x: byte, y: byte)
    ensures Compare([x], [y]) == if x < y then -1 else if x > y then 1 else 0
  {
    assert x == y ==> Compare([x][1..], [y][1..]) == 0;
  }

  lemma CodesOfConcat(p: string, q: string)
    ensures Codes(p + q) == Codes(p) + Codes(q)
  {
  }

  /** A byte before a text whose order is known. */
  lemma PieceBeforeOrder(x: byte, y: byte, i: nat, s: string, t: string, a: seq<byte>, b: seq<byte>)
    requires Compare(Codes(s), Codes(t)) == Compare(a, b)
    ensures Compare(Codes(Piece(x, i) + s), Codes(Piece(y, i) + t)) == Compare([x] + a, [y] + b)
  {
    hide Piece, Compare, Codes;
    var p, q := Piece(x, i), Piece(y, i);
    PieceOrder(x, y, i);
    OneByteOrder(x, y);
    CodesOfConcat(p, s);
    CodesOfConcat(q, t);
    CompareConcat(Codes(p), Codes(q), Codes(s), Codes(t));
    CompareConcat([x], [y], a, b);
  }

  lemma {:induction false} WrittenOrder(a: ID, b: ID, i: nat)
    requires i <= 16
    ensures Compare(Codes(Written(a, i)), Codes(Written(b, i))) == Compare(a[i..], b[i..])
    decreases 16 - i
  {
    hide Piece, Compare;
    if i == 16 {
      assert Written(a, i) == Written(b, i) == "" && a[i..] == b[i..] == [];
      CompareEqual(Codes(""), Codes(""));
      CompareEqual([], []);
    } else {
      WrittenOrder(a, b, i + 1);
      PieceBeforeOrder(a[i], b[i], i, Written(a, i + 1), Written(b, i + 1), a[i + 1..], b[i + 1..]);
      assert a[i..] == [a[i]] + a[i + 1..] && b[i..] == [b[i]] + b[i + 1..];
    }
  }

  /** Texts sort as the bytes do, dashes included, for all ids and not only minted ones. */
  lemma TextOrderIsByteOrder(a: ID, b: ID)
    ensures Compare(Codes(String(a)), Codes(String(b))) == Compare(a, b)
  {
    WrittenOrder(a, b, 0);
  }
}
