/**
 The PBKDF2 hasher of crypto/password/pbkdf2.go: the stored value it writes, the parser that reads
 it back, and a verification that runs under the value's own cost. The derivation is an arbitrary
 function of the password, the salt and the cost, which may refuse its parameters.
 */
module Password {
  import opened Wrappers
  import opened Bytes
  import opened Strings
  import opened Decimal
  import Base64

  const ALGORITHM: string := "pbkdf2-sha256"
  const COST_FIELD: string := "i="
  const SALT_LEN: nat := 16
  const KEY_LEN: nat := 32
  const DEFAULT_COST: int := 600_000

  /** What a stored value carries. */
  datatype Params = Params(cost: int, salt: seq<byte>, key: seq<byte>)

  predicate WellFormed(p: Params) {
    1 <= p.cost <= MAX_INT && |p.salt| == SALT_LEN && |p.key| == KEY_LEN
  }

  datatype Error = ErrMismatch | ErrUnreadable | Underivable

  /** The derivation: a key of KEY_LEN bytes, or none when it refuses what it was handed. */
  type Derivation = (seq<byte>, seq<byte>, int) -> Option<seq<byte>>

  function Fields(p: Params): seq<string>
    requires WellFormed(p)
  {
    ["", ALGORITHM, COST_FIELD + Itoa(p.cost), Base64.Encode(false, p.salt), Base64.Encode(false, p.key)]
  }

  /** The stored value `Hash` writes. */
  function Print(p: Params): string
    requires WellFormed(p)
  {
    Join(Fields(p), '$')
  }

  /** `parse`. */
  function Parse(stored: string): Result<Params, Error> {
    var f := Split(stored, '$');
    if |f| != 5 || f[0] != "" || f[1] != ALGORITHM then Err(ErrUnreadable)
    else if !(COST_FIELD <= f[2]) then Err(ErrUnreadable)
    else
      var cost := Atoi(f[2][|COST_FIELD|..]);
      if cost.None? || cost.value < 1 then Err(ErrUnreadable)
      else
        var salt := Base64.Decode(false, f[3]);
        if salt.None? || |salt.value| != SALT_LEN then Err(ErrUnreadable)
        else
          var key := Base64.Decode(false, f[4]);
          if key.None? || |key.value| != KEY_LEN then Err(ErrUnreadable)
          else Ok(Params(cost.value, salt.value, key.value))
  }

  // ---------------------------------------------------------------- the hasher

  datatype AnyHasher = Hasher(cost: int)

  /** A hasher NewPBKDF2 built. */
  type Hasher = h: AnyHasher | 1 <= h.cost <= MAX_INT witness Hasher(1)

  /** `NewPBKDF2`: each option sets the cost in turn, and the last one is checked. */
  method NewPBKDF2(costs: seq<int>) returns (r: Option<Hasher>)
    requires forall i :: 0 <= i < |costs| ==> MIN_INT <= costs[i] <= MAX_INT
    ensures var cost := if costs == [] then 600_000 else costs[|costs| - 1];
            r == if cost < 1 then None else Some(Hasher(cost))
  {
    var cost := DEFAULT_COST;
    for i := 0 to |costs|
      invariant cost == if i == 0 then DEFAULT_COST else costs[i - 1]
    {
      cost := costs[i];
    }
    if cost < 1 {
      return None;
    }
    return Some(Hasher(cost));
  }

  /** `Hash`, over the salt it drew. */
  function Hash(derive: Derivation, h: Hasher, plaintext: seq<byte>, salt: seq<byte>): Result<string, Error>
    requires |salt| == SALT_LEN
    requires forall p, s, c :: derive(p, s, c).Some? ==> |derive(p, s, c).value| == KEY_LEN
  {
    var key := derive(plaintext, salt, h.cost);
    if key.None? then Err(Underivable) else Ok(Print(Params(h.cost, salt, key.value)))
  }

  /** `Verify`: the cost is the stored value's and not this hasher's. None is the nil error. */
  function Verify(derive: Derivation, h: Hasher, stored: string, plaintext: seq<byte>): Option<Error> {
    var p := Parse(stored);
    if p.Err? then Some(p.error)
    else
      var got := derive(plaintext, p.value.salt, p.value.cost);
      if got.None? then Some(ErrUnreadable)
      else if got.value != p.value.key then Some(ErrMismatch)
      else None
  }

  // ---------------------------------------------------------------- what the format promises

  lemma AlphabetHasNoSeparator(x: seq<Base64.sextet>)
    ensures Without(Base64.Text(false, x), '$')
  {
    forall i | 0 <= i < |x|
      ensures Base64.Text(false, x)[i] != '$'
    {
    }
  }

  lemma EncodedHasNoSeparator(b: seq<byte>)
    ensures Without(Base64.Encode(false, b), '$')
  {
    AlphabetHasNoSeparator(Base64.Sextets(b));
  }

  lemma CostHasNoSeparator(n: nat)
    ensures Without(COST_FIELD + Itoa(n), '$')
  {
    forall i | 0 <= i < |COST_FIELD + Itoa(n)|
      ensures (COST_FIELD + Itoa(n))[i] != '$'
    {
      if i >= 2 {
        assert IsDigit(Itoa(n)[i - 2]);
      }
    }
  }

  lemma FieldsReadBack(p: Params)
    requires WellFormed(p)
    ensures Split(Print(p), '$') == Fields(p)
  {
    EncodedHasNoSeparator(p.salt);
    EncodedHasNoSeparator(p.key);
    CostHasNoSeparator(p.cost);
    SplitReadsJoin(Fields(p), '$');
  }

  /** A stored value reads back as exactly what it was written from. */
  lemma ParseReadsPrint(p: Params)
    requires WellFormed(p)
    ensures Parse(Print(p)) == Ok(p)
  {
    hide Print, Split, Base64.Encode, Base64.Decode, Itoa, Atoi;
    FieldsReadBack(p);
    var f := Fields(p);
    assert f[2][|COST_FIELD|..] == Itoa(p.cost);
    AtoiReadsItoa(p.cost);
    Base64.DecodeReadsEncode(false, p.salt);
    Base64.DecodeReadsEncode(false, p.key);
  }

  lemma ParsedIsWellFormed(stored: string)
    requires Parse(stored).Ok?
    ensures WellFormed(Parse(stored).value)
  {
  }

  /** A text is read as `p` exactly when it spells `p` in the five fields, each in any form its own
      reader takes: a sign or zeros before the cost, line breaks and loose bits in the rest. */
  ghost predicate Spells(stored: string, p: Params, digits: string, salt: string, key: string) {
    && stored == Join(["", ALGORITHM, COST_FIELD + digits, salt, key], '$')
    && Without(digits, '$') && Without(salt, '$') && Without(key, '$')
    && Atoi(digits) == Some(p.cost)
    && Base64.Decode(false, salt) == Some(p.salt) && Base64.Decode(false, key) == Some(p.key)
  }

  lemma ParseIff(stored: string, p: Params)
    ensures Parse(stored) == Ok(p) <==>
            WellFormed(p) && exists digits, salt, key :: Spells(stored, p, digits, salt, key)
  {
    hide Base64.Decode, Atoi;
    if Parse(stored) == Ok(p) {
      var f := Split(stored, '$');
      JoinReadsSplit(stored, '$');
      var digits := f[2][|COST_FIELD|..];
      assert f[2] == COST_FIELD + digits;
      assert f == ["", ALGORITHM, COST_FIELD + digits, f[3], f[4]];
      assert Without(digits, '$') by {
        forall i | 0 <= i < |digits|
          ensures digits[i] != '$'
        {
          assert digits[i] == f[2][i + 2];
        }
      }
      ParsedIsWellFormed(stored);
      assert Spells(stored, p, digits, f[3], f[4]);
    }
    if WellFormed(p) {
      forall digits, salt, key | Spells(stored, p, digits, salt, key)
        ensures Parse(stored) == Ok(p)
      {
        var f := ["", ALGORITHM, COST_FIELD + digits, salt, key];
        SplitReadsJoin(f, '$');
        assert f[2][|COST_FIELD|..] == digits;
      }
    }
  }

  /** Reprinting what was read gives a value that reads the same, and the very text exactly when the
      text was one Hash writes. */
  lemma ReprintReadsTheSame(stored: string)
    requires Parse(stored).Ok?
    ensures WellFormed(Parse(stored).value) && Parse(Print(Parse(stored).value)) == Parse(stored)
    ensures Print(Parse(stored).value) == stored <==> exists p :: WellFormed(p) && Print(p) == stored
  {
    hide Parse, Print;
    ParsedIsWellFormed(stored);
    ParseReadsPrint(Parse(stored).value);
    forall p | WellFormed(p) && Print(p) == stored
      ensures Print(Parse(stored).value) == stored
    {
      ParseReadsPrint(p);
    }
  }

  lemma DigitsHoldNoSeparator(digits: string)
    requires Digits(digits)
    ensures Without(digits, '$')
  {
    forall i | 0 <= i < |digits|
      ensures digits[i] != '$'
    {
      assert IsDigit(digits[i]);
    }
  }

  lemma LooseCostHasNoSeparator(plus: bool, k: nat, n: nat)
    ensures Without(Loose(plus, k, n), '$')
  {
    var d := Zeros(k) + Itoa(n);
    ZerosAreNothing(k, n);
    DigitsHoldNoSeparator(d);
  }

  /** A sign and zeros before the cost are read and never written: with either, the value reads the
      same and is another text. */
  lemma LooseCostReadsTheSame(p: Params, plus: bool, k: nat)
    requires WellFormed(p)
    ensures var f := Fields(p);
            var loose := Join(["", ALGORITHM, COST_FIELD + Loose(plus, k, p.cost), f[3], f[4]], '$');
            Parse(loose) == Ok(p) && (loose == Print(p) <==> !plus && k == 0)
  {
    hide Parse, Base64.Encode, Base64.Decode, Atoi, Loose, Itoa;
    var f, digits := Fields(p), Loose(plus, k, p.cost);
    AtoiIff(digits, p.cost);
    LooseCostHasNoSeparator(plus, k, p.cost);
    Fields3And4(p);
    var loose := Join(["", ALGORITHM, COST_FIELD + digits, f[3], f[4]], '$');
    assert Spells(loose, p, digits, f[3], f[4]);
    ParseIff(loose, p);
    CostFieldDecides(p, digits);
    LooseWidth(plus, k, p.cost);
  }

  lemma Fields3And4(p: Params)
    requires WellFormed(p)
    ensures var f := Fields(p);
            Without(f[3], '$') && Without(f[4], '$')
            && Base64.Decode(false, f[3]) == Some(p.salt) && Base64.Decode(false, f[4]) == Some(p.key)
  {
    EncodedHasNoSeparator(p.salt);
    EncodedHasNoSeparator(p.key);
    Base64.DecodeReadsEncode(false, p.salt);
    Base64.DecodeReadsEncode(false, p.key);
  }

  /** Two values that differ in the cost field alone are equal when those fields are. */
  lemma CostFieldDecides(p: Params, digits: string)
    requires WellFormed(p) && Without(digits, '$')
    ensures var f := Fields(p);
            Join(["", ALGORITHM, COST_FIELD + digits, f[3], f[4]], '$') == Print(p) <==> digits == Itoa(p.cost)
  {
    hide Base64.Encode;
    var f := Fields(p);
    var loose := ["", ALGORITHM, COST_FIELD + digits, f[3], f[4]];
    Fields3And4(p);
    FieldsReadBack(p);
    SplitReadsJoin(loose, '$');
    if Join(loose, '$') == Print(p) {
      assert loose[2] == f[2];
      assert digits == loose[2][2..] && Itoa(p.cost) == f[2][2..];
    }
    if digits == Itoa(p.cost) {
      assert loose == f;
    }
  }

  /** The value of `p`'s cost and of these texts in the place of its salt's and its key's. */
  function WithTexts(p: Params, salt: string, key: string): string
    requires WellFormed(p)
  {
    Join(["", ALGORITHM, COST_FIELD + Itoa(p.cost), salt, key], '$')
  }

  lemma WithTextsReads(p: Params, salt: string, key: string)
    requires WellFormed(p) && Without(salt, '$') && Without(key, '$')
    ensures Parse(WithTexts(p, salt, key)) == Ok(p) <==>
            Base64.Decode(false, salt) == Some(p.salt) && Base64.Decode(false, key) == Some(p.key)
    ensures WithTexts(p, salt, key) == Print(p) <==>
            salt == Base64.Encode(false, p.salt) && key == Base64.Encode(false, p.key)
  {
    hide Base64.Encode, Base64.Decode, Itoa, Atoi;
    var fields := ["", ALGORITHM, COST_FIELD + Itoa(p.cost), salt, key];
    CostHasNoSeparator(p.cost);
    SplitReadsJoin(fields, '$');
    AtoiReadsItoa(p.cost);
    assert fields[2][|COST_FIELD|..] == Itoa(p.cost);
    FieldsReadBack(p);
    if WithTexts(p, salt, key) == Print(p) {
      assert fields == Fields(p);
      assert fields[3] == Fields(p)[3] && fields[4] == Fields(p)[4];
    }
  }

  lemma SkimmedHasNoSeparator(text: string, b: seq<byte>)
    requires Base64.Skim(text) == Base64.Encode(false, b)
    ensures Without(text, '$')
  {
    hide Base64.Skim, Base64.Encode;
    EncodedHasNoSeparator(b);
    forall i | 0 <= i < |text|
      ensures text[i] != '$'
    {
      if !Base64.LineBreak(text[i]) {
        Base64.SkimHolds(text, i);
      }
    }
  }

  /** Line breaks anywhere in the salt and the key are skipped: with any, the value reads the same and is
      another text. */
  lemma LineBreakReadsTheSame(p: Params, salt: string, key: string)
    requires WellFormed(p)
    requires Base64.Skim(salt) == Base64.Encode(false, p.salt) && Base64.Skim(key) == Base64.Encode(false, p.key)
    ensures Parse(WithTexts(p, salt, key)) == Ok(p)
    ensures WithTexts(p, salt, key) == Print(p) <==>
            salt == Base64.Encode(false, p.salt) && key == Base64.Encode(false, p.key)
  {
    hide Parse, WithTexts, Print, Base64.Skim, Base64.Encode;
    SkimmedHasNoSeparator(salt, p.salt);
    SkimmedHasNoSeparator(key, p.key);
    DecodesSkimmed(salt, p.salt);
    DecodesSkimmed(key, p.key);
    WithTextsReads(p, salt, key);
  }

  lemma DecodesSkimmed(text: string, b: seq<byte>)
    requires Base64.Skim(text) == Base64.Encode(false, b)
    ensures Base64.Decode(false, text) == Some(b)
  {
    Base64.DecodeReadsEncode(false, b);
    Base64.NothingToSkim(Base64.Encode(false, b));
  }

  /** So are the unused low bits of the salt's last character, four of them, and of the key's, two: the
      values that differ from what Hash writes in those alone, and no others of the alphabet, read the
      same, and all but one are other texts. */
  lemma LooseBitsReadTheSame(p: Params, salt: seq<Base64.sextet>, key: seq<Base64.sextet>)
    requires WellFormed(p)
    ensures var value := WithTexts(p, Base64.Text(false, salt), Base64.Text(false, key));
            && (Parse(value) == Ok(p) <==> Base64.SaysTheSame(salt, p.salt) && Base64.SaysTheSame(key, p.key))
            && (value == Print(p) <==> salt == Base64.Sextets(p.salt) && key == Base64.Sextets(p.key))
  {
    hide Parse, WithTexts, Print, Base64.Text, Base64.Decode, Base64.SaysTheSame, Base64.Sextets, Base64.Values;
    var s, k := Base64.Text(false, salt), Base64.Text(false, key);
    AlphabetHasNoSeparator(salt);
    AlphabetHasNoSeparator(key);
    WithTextsReads(p, s, k);
    Base64.LooseText(false, salt, p.salt);
    Base64.LooseText(false, key, p.key);
    Base64.ReadsText(false, salt);
    Base64.ReadsText(false, key);
    Base64.ReadsText(false, Base64.Sextets(p.salt));
    Base64.ReadsText(false, Base64.Sextets(p.key));
  }

  /** A value any hasher wrote is verified by any other, whatever their costs: nil exactly when the
      derivation gives the stored key again, a mismatch when it gives another, and unreadable only
      when it refuses to run. */
  lemma VerifyUnderTheStoredCost(derive: Derivation, h: Hasher, other: Hasher, plaintext: seq<byte>,
                                 candidate: seq<byte>, salt: seq<byte>)
    requires |salt| == SALT_LEN
    requires forall p, s, c :: derive(p, s, c).Some? ==> |derive(p, s, c).value| == KEY_LEN
    requires Hash(derive, h, plaintext, salt).Ok?
    ensures var r := Verify(derive, other, Hash(derive, h, plaintext, salt).value, candidate);
            var got := derive(candidate, salt, h.cost);
            && (r == None <==> got == derive(plaintext, salt, h.cost))
            && (r == Some(ErrMismatch) <==> got.Some? && got != derive(plaintext, salt, h.cost))
            && (r == Some(ErrUnreadable) <==> got.None?)
  {
    ParseReadsPrint(Params(h.cost, salt, derive(plaintext, salt, h.cost).value));
  }

  lemma RefusedIsUnreadable(stored: string)
    ensures Parse(stored).Err? ==> Parse(stored).error == ErrUnreadable
  {
  }

  /** Verify of any text: nil exactly when it spells a cost, a salt and a key under which the password
      derives that key, a mismatch exactly when it derives another, and unreadable otherwise: a text that
      spells nothing never verifies. */
  lemma VerifyIff(derive: Derivation, h: Hasher, stored: string, plaintext: seq<byte>)
    ensures var r := Verify(derive, h, stored, plaintext);
            && (r == None <==>
                  exists p, digits, salt, key ::
                    WellFormed(p) && Spells(stored, p, digits, salt, key)
                    && derive(plaintext, p.salt, p.cost) == Some(p.key))
            && (r == Some(ErrMismatch) <==>
                  exists p, digits, salt, key ::
                    WellFormed(p) && Spells(stored, p, digits, salt, key)
                    && derive(plaintext, p.salt, p.cost).Some? && derive(plaintext, p.salt, p.cost) != Some(p.key))
            && (r == None || r == Some(ErrMismatch) || r == Some(ErrUnreadable))
  {
    hide Parse, Spells, WellFormed;
    RefusedIsUnreadable(stored);
    forall p, digits, salt, key | WellFormed(p) && Spells(stored, p, digits, salt, key)
      ensures Parse(stored) == Ok(p)
    {
      ParseIff(stored, p);
    }
    if Parse(stored).Ok? {
      ParseIff(stored, Parse(stored).value);
    }
  }

  /** Hash writes a value for every password whose key can be derived, under its own cost and the salt it
      drew. */
  lemma HashWrites(derive: Derivation, h: Hasher, plaintext: seq<byte>, salt: seq<byte>)
    requires |salt| == SALT_LEN
    requires forall p, s, c :: derive(p, s, c).Some? ==> |derive(p, s, c).value| == KEY_LEN
    ensures var r := Hash(derive, h, plaintext, salt);
            && (r.Ok? <==> derive(plaintext, salt, h.cost).Some?)
            && (r.Ok? ==> Parse(r.value) == Ok(Params(h.cost, salt, derive(plaintext, salt, h.cost).value)))
            && (r.Err? ==> r.error == Underivable)
  {
    hide Parse, Print;
    if derive(plaintext, salt, h.cost).Some? {
      ParseReadsPrint(Params(h.cost, salt, derive(plaintext, salt, h.cost).value));
    }
  }

  /** The stored value, laid out. */
  lemma WrittenForm(p: Params)
    requires WellFormed(p)
    ensures var salt, key := Base64.Encode(false, p.salt), Base64.Encode(false, p.key);
            && |salt| == 22 && |key| == 43
            && Print(p) == "$pbkdf2-sha256$i=" + Itoa(p.cost) + "$" + salt + "$" + key
  {
    hide Base64.Encode, Itoa;
    SaltAndKeyLengths(p);
    var f := Fields(p);
    var salt, key := f[3], f[4];
    assert f[1..][1..] == f[2..] && f[2..][1..] == f[3..] && f[3..][1..] == f[4..] && f[4..] == [key];
    assert Join(f[4..], '$') == key;
    assert Join(f[3..], '$') == salt + "$" + key;
    assert Join(f[2..], '$') == f[2] + "$" + (salt + "$" + key);
    assert Join(f[1..], '$') == ALGORITHM + "$" + (f[2] + "$" + (salt + "$" + key));
  }

  lemma SaltAndKeyLengths(p: Params)
    requires WellFormed(p)
    ensures |Base64.Encode(false, p.salt)| == 22 && |Base64.Encode(false, p.key)| == 43
  {
    Base64.EncodedLength(p.salt);
    Base64.EncodedLength(p.key);
  }
}
