/**
 The bearer token of crypto/token/token.go, 32 bytes written as 43 characters of base64url, and
 the Authorization header of authctx/authctx.go that brings it back.
 */
module Token {
  import opened Wrappers
  import opened Bytes
  import opened Strings
  import Base64

  const SIZE: nat := 32
  const TEXT_LEN: nat := 43

  type Secret = s: seq<byte> | |s| == SIZE witness [
    0, 0, 0, 0, 0, 0, 0, 0, 0, 0, 0, 0, 0, 0, 0, 0,
    0, 0, 0, 0, 0, 0, 0, 0, 0, 0, 0, 0, 0, 0, 0, 0]

  /** A carrier: its zero value holds no secret. */
  datatype Token = Empty | Holding(secret: Secret)

  datatype Malformed = Malformed

  function Reveal(t: Token): string {
    if t.Empty? then "" else Base64.Encode(true, t.secret)
  }

  /** What Parse answers. */
  function Read(text: string): Result<Token, Malformed> {
    if |text| != TEXT_LEN then Err(Malformed)
    else
      var secret := Base64.Decode(true, text);
      if secret.None? || |secret.value| != SIZE || Base64.Encode(true, secret.value) != text then Err(Malformed)
      else Ok(Holding(secret.value))
  }

  /** encoding.Decode into a buffer long enough: the bytes decoded fill its front. */
  method DecodeInto(dst: array<byte>, text: string) returns (n: nat, ok: bool)
    requires Base64.Decode(true, text).Some? ==> |Base64.Decode(true, text).value| <= dst.Length
    modifies dst
    ensures ok <==> Base64.Decode(true, text).Some?
    ensures ok ==> n <= dst.Length && dst[..n] == Base64.Decode(true, text).value && dst[n..] == old(dst[n..])
  {
    var decoded := Base64.Decode(true, text);
    if decoded.None? {
      return 0, false;
    }
    n, ok := |decoded.value|, true;
    forall i | 0 <= i < n {
      dst[i] := decoded.value[i];
    }
  }

  lemma DecodesToSizeAtMost(text: string)
    requires |text| == TEXT_LEN && Base64.Decode(true, text).Some?
    ensures |Base64.Decode(true, text).value| <= SIZE
  {
    Base64.DecodedLength(Base64.Values(true, Base64.Skim(text)).value);
  }

  lemma EncodesToTextLen(secret: Secret)
    ensures |Base64.Encode(true, secret)| == TEXT_LEN
  {
    Base64.EncodedLength(secret);
  }

  /** `Parse`: the decoded bytes are a token's only when they encode back to the very text. */
  method Parse(text: string) returns (r: Result<Token, Malformed>)
    ensures r == Read(text)
    ensures r.Ok? <==> exists secret: Secret :: Base64.Encode(true, secret) == text
    ensures r.Ok? ==> r.value.Holding? && Reveal(r.value) == text
  {
    ParseRange(text);
    if |text| != TEXT_LEN {
      return Err(Malformed);
    }
    if Base64.Decode(true, text).Some? {
      DecodesToSizeAtMost(text);
    }
    var secret := new byte[SIZE](i => 0);
    var n, ok := DecodeInto(secret, text);
    if ok && n == SIZE {
      assert secret[..] == secret[..n];
    }
    if !ok || n != SIZE || Base64.Encode(true, secret[..]) != text {
      return Err(Malformed);
    }
    return Ok(Holding(secret[..]));
  }

  class Cell {
    var token: Token

    constructor ()
      ensures token == Empty
    {
      token := Empty;
    }

    /** `UnmarshalText`: parsed like Parse, and left as it was by any other text. */
    method UnmarshalText(text: string) returns (ok: bool)
      modifies this
      ensures ok <==> Read(text).Ok?
      ensures token == if ok then Read(text).value else old(token)
    {
      var parsed := Parse(text);
      if parsed.Err? {
        return false;
      }
      token := parsed.value;
      return true;
    }
  }

  /** A text is read as a secret exactly when it is that secret's encoding. */
  lemma ReadInvertsReveal(text: string, secret: Secret)
    ensures Read(text) == Ok(Holding(secret)) <==> Reveal(Holding(secret)) == text
  {
    EncodesToTextLen(secret);
    Base64.DecodeReadsEncode(true, secret);
  }

  /** Parse accepts exactly the texts an issued token reveals. */
  lemma ParseRange(text: string)
    ensures Read(text).Ok? <==> exists secret: Secret :: Base64.Encode(true, secret) == text
    ensures Read(text).Ok? ==> Read(text).value.Holding? && Reveal(Read(text).value) == text
  {
    forall secret: Secret | Base64.Encode(true, secret) == text
      ensures Read(text).Ok?
    {
      ReadInvertsReveal(text, secret);
    }
  }

  /** The 43 sextets of a secret, the last with its two unused bits zero. */
  lemma SecretSextets(secret: Secret)
    ensures |Base64.Sextets(secret)| == TEXT_LEN && Base64.Sextets(secret)[TEXT_LEN - 1] as int % 4 == 0
  {
    hide Base64.Sextets, Base64.Unsextets;
    Base64.EncodedLength(secret);
    Base64.LooseSextets(Base64.Sextets(secret), secret);
  }

  /** The four texts of 43 characters that differ in the two bits the decoder ignores. */
  function Variant(secret: Secret, j: nat): string
    requires j < 4
  {
    SecretSextets(secret);
    var x := Base64.Sextets(secret);
    Base64.Text(true, x[TEXT_LEN - 1 := x[TEXT_LEN - 1] + j])
  }

  lemma VariantDecodes(secret: Secret, j: nat)
    requires j < 4
    ensures |Variant(secret, j)| == TEXT_LEN && Base64.Decode(true, Variant(secret, j)) == Some(secret)
  {
    hide Base64.Text, Base64.Decode, Base64.Sextets, Base64.Unsextets;
    SecretSextets(secret);
    var y, n := Base64.Sextets(secret), TEXT_LEN - 1;
    var x := y[n := y[n] + j];
    assert x[..n] == y[..n];
    Base64.LooseText(true, x, secret);
  }

  lemma VariantIsAccepted(secret: Secret, j: nat)
    requires j < 4
    ensures Read(Variant(secret, j)).Ok? <==> j == 0
  {
    hide Base64.CharOf, Base64.SextetOf, Base64.Sextets, Base64.Unsextets, Base64.Decode;
    VariantDecodes(secret, j);
    SecretSextets(secret);
    var y, n := Base64.Sextets(secret), TEXT_LEN - 1;
    var x := y[n := y[n] + j];
    assert Variant(secret, j)[n] == Base64.CharOf(true, x[n]);
    assert Base64.Encode(true, secret)[n] == Base64.CharOf(true, y[n]);
    Base64.AlphabetReadsBack(true, x[n], 'A');
    Base64.AlphabetReadsBack(true, y[n], 'A');
    if j == 0 {
      assert x == y;
    }
  }

  lemma DecodersAreVariants(secret: Secret, text: string) returns (j: nat)
    requires |text| == TEXT_LEN && Base64.Decode(true, text) == Some(secret)
    ensures j < 4 && text == Variant(secret, j)
  {
    hide Base64.Text, Base64.Values, Base64.Sextets, Base64.Unsextets;
    SecretSextets(secret);
    var y, n := Base64.Sextets(secret), TEXT_LEN - 1;
    var x := Base64.Values(true, Base64.Skim(text)).value;
    Base64.DecodedLength(x);
    Base64.ValuesAreText(true, text);
    Base64.LooseText(true, x, secret);
    j := x[n] - y[n];
    assert x == x[..n] + [x[n]] && y == y[..n] + [y[n]];
    assert x == y[n := y[n] + j];
  }

  /** Exactly those four decode to a secret, and of them Parse accepts the first alone. */
  lemma FourTextsOneAccepted(secret: Secret, text: string)
    requires |text| == TEXT_LEN
    ensures Base64.Decode(true, text) == Some(secret) <==> exists j: nat :: j < 4 && text == Variant(secret, j)
    ensures forall j: nat :: j < 4 ==> (Read(Variant(secret, j)).Ok? <==> j == 0)
  {
    hide Variant, Read;
    forall j: nat | j < 4
      ensures Base64.Decode(true, Variant(secret, j)) == Some(secret)
      ensures Read(Variant(secret, j)).Ok? <==> j == 0
    {
      VariantDecodes(secret, j);
      VariantIsAccepted(secret, j);
    }
    if Base64.Decode(true, text) == Some(secret) {
      var j := DecodersAreVariants(secret, text);
    }
  }

  /** A text holding a line break the decoder would skip is never accepted. */
  lemma LineBreakIsRefused(text: string, i: nat)
    requires i < |text| && Base64.LineBreak(text[i])
    ensures Read(text).Err?
  {
    if |text| == TEXT_LEN && Base64.Decode(true, text).Some? {
      var secret := Base64.Decode(true, text).value;
      Base64.ReadsText(true, Base64.Sextets(secret));
      assert Base64.Encode(true, secret) != text;
    }
  }

  // ---------------------------------------------------------------- the Authorization header

  const SCHEME: string := "Bearer"

  predicate EqualFold(s: string, t: string) {
    Lower(s) == Lower(t)
  }

  /** `Bearer` of the header's value, "" when the request carries none. */
  function Bearer(header: string): Option<string> {
    var cut := Cut(header, ' ');
    if cut.None? || !EqualFold(cut.value.0, SCHEME) then None
    else
      var token := TrimLeft(cut.value.1);
      if token == "" || !Without(token, ' ') || !Without(token, '\t') then None else Some(token)
  }

  /** The scheme's six letters, each in either case. */
  predicate InAnyCase(scheme: string) {
    |scheme| == 6 && forall i :: 0 <= i < 6 ==> scheme[i] == "bearer"[i] || scheme[i] == "BEARER"[i]
  }

  lemma FoldsToScheme(scheme: string)
    ensures EqualFold(scheme, SCHEME) <==> InAnyCase(scheme)
  {
    var l, r := Lower(scheme), Lower(SCHEME);
    assert r == "bearer";
    if |scheme| == 6 {
      assert forall i :: 0 <= i < 6 ==> (l[i] == r[i] <==> scheme[i] == "bearer"[i] || scheme[i] == "BEARER"[i]);
      assert l == r <==> forall i :: 0 <= i < 6 ==> l[i] == r[i];
    }
  }

  ghost predicate Carries(header: string, scheme: string, n: nat, token: string) {
    InAnyCase(scheme) && n >= 1 && header == scheme + Spaces(n) + token
  }

  lemma SchemeHasNoSpace(scheme: string)
    requires InAnyCase(scheme)
    ensures Without(scheme, ' ')
  {
    forall i | 0 <= i < |scheme|
      ensures scheme[i] != ' '
    {
      assert "bearer"[i] != ' ' && "BEARER"[i] != ' ';
    }
  }

  /** A token is read off a header exactly when the header is the scheme in any case, one space or
      more, and that token, which is not empty and holds no blank. */
  lemma BearerIff(header: string, token: string)
    ensures Bearer(header) == Some(token) <==>
            token != "" && Without(token, ' ') && Without(token, '\t')
            && exists scheme, n: nat :: Carries(header, scheme, n, token)
  {
    if Bearer(header) == Some(token) {
      var cut := Cut(header, ' ').value;
      CutIff(header, ' ', cut.0, cut.1);
      FoldsToScheme(cut.0);
      TrimLeftIff(cut.1, token);
      var n := |cut.1| - |token| + 1;
      assert Spaces(n) == [' '] + Spaces(n - 1);
      assert cut.0 + [' '] + cut.1 == cut.0 + Spaces(n) + token;
      assert Carries(header, cut.0, n, token);
    }
    if token != "" && Without(token, ' ') && Without(token, '\t') {
      forall scheme, n: nat | Carries(header, scheme, n, token)
        ensures Bearer(header) == Some(token)
      {
        SchemeHasNoSpace(scheme);
        FoldsToScheme(scheme);
        var after := Spaces(n - 1) + token;
        assert Spaces(n) == [' '] + Spaces(n - 1);
        assert header == scheme + [' '] + after;
        CutIff(header, ' ', scheme, after);
        TrimLeftIff(after, token);
      }
    }
  }

  /** What a token reveals, and that the zero value reveals nothing and is read from nothing. */
  lemma RevealedForm(t: Token, text: string)
    ensures t.Empty? ==> Reveal(t) == ""
    ensures t.Holding? ==> |t.secret| == 32 && |Reveal(t)| == 43 && Base64.Decode(true, Reveal(t)) == Some(t.secret)
    ensures Read(text) != Ok(Empty)
  {
    if t.Holding? {
      EncodesToTextLen(t.secret);
      Base64.DecodeReadsEncode(true, t.secret);
    }
  }

  lemma RevealedHasNoBlank(secret: Secret)
    ensures var t := Reveal(Holding(secret)); t != "" && Without(t, ' ') && Without(t, '\t')
  {
    EncodesToTextLen(secret);
    var x := Base64.Sextets(secret);
    forall i | 0 <= i < |x|
      ensures Base64.Text(true, x)[i] != ' ' && Base64.Text(true, x)[i] != '\t'
    {
    }
  }

  /** The headers that bring a secret back are the scheme in any case, any positive number of
      spaces, and the text its token revealed: no other header does. */
  lemma HeaderCarriesSecret(header: string, secret: Secret)
    ensures Bearer(header).Some? && Read(Bearer(header).value) == Ok(Holding(secret)) <==>
            exists scheme, n: nat :: Carries(header, scheme, n, Reveal(Holding(secret)))
  {
    var text := Reveal(Holding(secret));
    RevealedHasNoBlank(secret);
    BearerIff(header, text);
    if Bearer(header).Some? {
      ReadInvertsReveal(Bearer(header).value, secret);
    }
    ReadInvertsReveal(text, secret);
  }
}
