/** The parts of Go's strings package the codecs are written over. */
module Strings {
  import opened Wrappers

  predicate Without(text: string, c: char) {
    forall i :: 0 <= i < |text| ==> text[i] != c
  }

  /** strings.Cut at the first `sep`. */
  function Cut(text: string, sep: char): Option<(string, string)> {
    if text == "" then None
    else if text[0] == sep then Some(("", text[1..]))
    else
      var rest := Cut(text[1..], sep);
      if rest.None? then None else Some(([text[0]] + rest.value.0, rest.value.1))
  }

  /** strings.Split: as many fields as separators and one more. */
  function Split(text: string, sep: char): (fields: seq<string>)
    ensures fields != []
  {
    if text == "" then [""]
    else if text[0] == sep then [""] + Split(text[1..], sep)
    else
      var rest := Split(text[1..], sep);
      [[text[0]] + rest[0]] + rest[1..]
  }

  /** strings.Join. */
  function Join(fields: seq<string>, sep: char): string {
    if fields == [] then ""
    else if |fields| == 1 then fields[0]
    else fields[0] + [sep] + Join(fields[1..], sep)
  }

  function Spaces(n: nat): (text: string)
    ensures |text| == n
  {
    if n == 0 then "" else " " + Spaces(n - 1)
  }

  function TrimLeft(text: string): string {
    if text != "" && text[0] == ' ' then TrimLeft(text[1..]) else text
  }

  function LowerChar(c: char): char {
    if 'A' <= c <= 'Z' then (c as int + 32) as char else c
  }

  function Lower(text: string): (t: string)
    ensures |t| == |text|
  {
    seq(|text|, i requires 0 <= i < |text| => LowerChar(text[i]))
  }

  lemma {:induction false} CutIff(text: string, sep: char, before: string, after: string)
    ensures Cut(text, sep) == Some((before, after)) <==>
            Without(before, sep) && text == before + [sep] + after
  {
    if text != "" && text[0] != sep {
      if before == "" {
        assert (before + [sep] + after)[0] == sep;
      } else {
        CutIff(text[1..], sep, before[1..], after);
        assert text == [text[0]] + text[1..] && before == [before[0]] + before[1..];
        assert before + [sep] + after == [before[0]] + (before[1..] + [sep] + after);
        assert (before + [sep] + after)[1..] == before[1..] + [sep] + after;
        assert Without(before, sep) <==> before[0] != sep && Without(before[1..], sep) by {
          assert forall i :: 0 < i < |before| ==> before[i] == before[1..][i - 1];
        }
      }
    } else if text != "" {
      if before == "" {
        assert before + [sep] + after == [sep] + after;
        assert text == [text[0]] + text[1..];
      } else {
        assert (before + [sep] + after)[0] == before[0];
      }
    }
  }

  lemma {:induction false} SplitField(field: string, sep: char, rest: string)
    requires Without(field, sep)
    ensures Split(field + [sep] + rest, sep) == [field] + Split(rest, sep)
  {
    var text := field + [sep] + rest;
    if field == "" {
      assert text[1..] == rest;
    } else {
      SplitField(field[1..], sep, rest);
      assert text[1..] == field[1..] + [sep] + rest;
      assert [field[0]] + field[1..] == field;
    }
  }

  lemma {:induction false} SplitNone(field: string, sep: char)
    requires Without(field, sep)
    ensures Split(field, sep) == [field]
  {
    if field != "" {
      SplitNone(field[1..], sep);
      assert [field[0]] + field[1..] == field;
    }
  }

  /** Fields holding no separator come back from their join. */
  lemma {:induction false} SplitReadsJoin(fields: seq<string>, sep: char)
    requires fields != [] && forall i :: 0 <= i < |fields| ==> Without(fields[i], sep)
    ensures Split(Join(fields, sep), sep) == fields
  {
    if |fields| == 1 {
      SplitNone(fields[0], sep);
    } else {
      SplitField(fields[0], sep, Join(fields[1..], sep));
      SplitReadsJoin(fields[1..], sep);
      assert fields == [fields[0]] + fields[1..];
    }
  }

  lemma FirstCharOfJoin(c: char, fields: seq<string>, sep: char)
    requires fields != []
    ensures Join([[c] + fields[0]] + fields[1..], sep) == [c] + Join(fields, sep)
  {
    var more := [[c] + fields[0]] + fields[1..];
    assert more[1..] == fields[1..];
    if |fields| > 1 {
      var tail := Join(fields[1..], sep);
      assert ([c] + fields[0]) + [sep] + tail == [c] + (fields[0] + [sep] + tail);
    }
  }

  /** And every text is the join of its fields, none of which holds a separator. */
  lemma {:induction false} JoinReadsSplit(text: string, sep: char)
    ensures Join(Split(text, sep), sep) == text
    ensures forall i :: 0 <= i < |Split(text, sep)| ==> Without(Split(text, sep)[i], sep)
  {
    if text != "" {
      JoinReadsSplit(text[1..], sep);
      var rest := Split(text[1..], sep);
      if text[0] == sep {
        assert Split(text, sep)[1..] == rest;
        assert text == "" + [sep] + text[1..];
      } else {
        FirstCharOfJoin(text[0], rest, sep);
        assert Split(text, sep) == [[text[0]] + rest[0]] + rest[1..];
        assert text == [text[0]] + text[1..];
      }
    }
  }

  /** What TrimLeft leaves does not begin with a space, and what it takes is nothing but spaces. */
  lemma {:induction false} TrimLeftIff(text: string, token: string)
    ensures TrimLeft(text) == token <==>
            (token == "" || token[0] != ' ') && |text| >= |token| && text == Spaces(|text| - |token|) + token
  {
    if text != "" && text[0] == ' ' {
      TrimLeftIff(text[1..], token);
      if |text| > |token| {
        var n := |text| - |token|;
        assert Spaces(n) == " " + Spaces(n - 1);
        assert Spaces(n) + token == " " + (Spaces(n - 1) + token);
        assert text == " " + text[1..];
        assert text[1..] == Spaces(n - 1) + token <==> text == Spaces(n) + token by {
          assert (Spaces(n) + token)[1..] == Spaces(n - 1) + token;
        }
      } else if |text| == |token| {
        assert Spaces(0) + token == token;
      }
    } else if |text| > |token| {
      assert (Spaces(|text| - |token|) + token)[0] == ' ';
    } else if |text| == |token| {
      assert Spaces(0) + token == token;
    }
  }
}
