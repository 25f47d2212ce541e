/** The "a,b" option values of get_my_opts, um_lat_ping.c: -H for the histogram and -w for the warm-up. */
module PairOption {
  import opened SafeAtoi

  /** Both options store into int variables. */
  const INT := IntType(32, true)

  datatype Token = Null | Token(text: string)

  datatype Kind = HistogramOption | WarmupOption

  /** Rejected is an exit with a message.  NullUsed is undefined behaviour: a null pointer handed to strlen. */
  datatype Outcome = Pair(a: int, b: int) | Rejected | NullUsed

  /** strspn and strcspn for ",". */
  function SkipCommas(s: string): (i: nat)
    ensures i <= |s| && (forall j :: 0 <= j < i ==> s[j] == ',') && (i < |s| ==> s[i] != ',')
  {
    if |s| == 0 || s[0] != ',' then 0 else 1 + SkipCommas(s[1..])
  }

  function UpToComma(s: string): (i: nat)
    ensures i <= |s| && ',' !in s[..i] && (i < |s| ==> s[i] == ',')
  {
    if |s| == 0 || s[0] == ',' then 0
    else
      var i := 1 + UpToComma(s[1..]);
      assert s[..i] == [s[0]] + s[1..][..i - 1];
      i
  }

  /** strtok_r with delimiter ",": the token and the text kept for the next call. */
  function Strtok(s: string): (Token, string) {
    var t := s[SkipCommas(s)..];
    var e := UpToComma(t);
    if |t| == 0 then (Null, "") else (Token(t[..e]), t[if e < |t| then e + 1 else e..])
  }

  /** A field spells a value of type int. */
  ghost predicate SpellsInt(field: string) {
    exists n :: INT.InRange(n) && Denotes(Body(field), Base(field), n)
  }

  lemma ConvertsIff(field: string)
    ensures Convert(field, INT).Ok? <==> SpellsInt(field)
  {
    if Convert(field, INT).Ok? {
      SignedConversionIff(field, INT, Convert(field, INT).value);
    }
    if n :| INT.InRange(n) && Denotes(Body(field), Base(field), n) {
      SignedConversionIff(field, INT, n);
    }
  }

  /** How reading a token as an int ends. */
  datatype Reading = Int(value: int) | NotAnInt | NoToken

  ghost predicate IsReading(t: Token, r: Reading) {
    && (r == NoToken <==> t.Null?)
    && (r == NotAnInt <==> t.Token? && !SpellsInt(t.text))
    && (r.Int? ==> INT.InRange(r.value) && Denotes(Body(t.text), Base(t.text), r.value))
  }

  lemma ReadingMeans(t: Token, r: Reading)
    requires IsReading(t, r)
    ensures r.Int? ==> Convert(t.text, INT) == Ok(r.value)
    ensures r == NotAnInt ==> !Convert(t.text, INT).Ok?
  {
    if t.Token? {
      ConvertsIff(t.text);
    }
    if r.Int? {
      SignedConversionIff(t.text, INT, r.value);
    }
  }

  /** CPRT_ATOI into an int. */
  method Atoi32(t: Token) returns (r: Reading)
    ensures IsReading(t, r)
  {
    if t == Null {
      return NoToken;
    }
    ConvertsIff(t.text);
    var converted := Atoi(t.text, INT);
    if converted.Ok? {
      SignedConversionIff(t.text, INT, converted.value);
      r := Int(converted.value);
    } else {
      r := NotAnInt;
    }
  }

  /** One more character in front: a comma starts a new piece, others join the first. */
  function Cons(c: char, pieces: seq<string>): (r: seq<string>)
    requires |pieces| > 0
    ensures |r| > 0
  {
    if c == ',' then [""] + pieces else [[c] + pieces[0]] + pieces[1..]
  }

  /** A text cut at every comma, and without its empty pieces. */
  function Cut(s: string): (r: seq<string>)
    ensures |r| > 0
  {
    if |s| == 0 then [""] else Cons(s[0], Cut(s[1..]))
  }

  function NonEmpty(pieces: seq<string>): seq<string> {
    if |pieces| == 0 then []
    else (if |pieces[0]| == 0 then [] else [pieces[0]]) + NonEmpty(pieces[1..])
  }

  function Fields(s: string): seq<string> {
    NonEmpty(Cut(s))
  }

  /** What the fields of an option value amount to. */
  function Meaning(fields: seq<string>, kind: Kind): Outcome {
    if |fields| == 1 && kind == HistogramOption && Convert(fields[0], INT).Ok? then NullUsed
    else if |fields| != 2 || !Convert(fields[0], INT).Ok? || !Convert(fields[1], INT).Ok? then Rejected
    else
      var a, b := Convert(fields[0], INT).value, Convert(fields[1], INT).value;
      if kind == WarmupOption && a > 0 && b <= 0 then Rejected else Pair(a, b)
  }

  /** Gluing pieces back together with commas. */
  function Glue(pieces: seq<string>): string
    requires |pieces| > 0
  {
    if |pieces| == 1 then pieces[0] else pieces[0] + "," + Glue(pieces[1..])
  }

  /** Cutting loses nothing and leaves no comma inside a piece: it is the inverse of gluing. */
  lemma {:induction false} CutGlues(s: string)
    ensures Glue(Cut(s)) == s && forall k :: 0 <= k < |Cut(s)| ==> ',' !in Cut(s)[k]
  {
    if |s| == 0 {
    } else {
      CutGlues(s[1..]);
      assert s == [s[0]] + s[1..];
      var rest := Cut(s[1..]);
      if s[0] == ',' {
        assert Cut(s)[1..] == rest;
      } else {
        assert Cut(s)[1..] == rest[1..];
        assert Glue(Cut(s)) == [s[0]] + Glue(rest);
      }
    }
  }

  lemma {:induction false} CutAtComma(s: string)
    requires UpToComma(s) < |s|
    ensures var e := UpToComma(s); Cut(s) == [s[..e]] + Cut(s[e + 1..])
  {
    var e := UpToComma(s);
    if s[0] == ',' {
      assert s[..0] == "";
    } else {
      CutAtComma(s[1..]);
      assert s[1..][e..] == s[e + 1..];
      assert [s[0]] + s[1..][..e - 1] == s[..e];
    }
  }

  lemma {:induction false} CutWithoutComma(s: string)
    requires UpToComma(s) == |s|
    ensures Cut(s) == [s]
  {
    if |s| == 0 {
    } else {
      CutWithoutComma(s[1..]);
      assert [s[0]] + s[1..] == s;
    }
  }

  lemma {:induction false} FieldsAfterCommas(s: string)
    ensures Fields(s) == Fields(s[SkipCommas(s)..])
  {
    if |s| > 0 && s[0] == ',' {
      FieldsAfterCommas(s[1..]);
      assert Cut(s)[1..] == Cut(s[1..]);
      assert s[1..][SkipCommas(s[1..])..] == s[SkipCommas(s)..];
    } else {
      assert s[0..] == s;
    }
  }

  /** Each call to strtok_r gives the first field and keeps the others for the next. */
  lemma FieldsFromStrtok(s: string)
    ensures var (token, rest) := Strtok(s);
      Fields(s) == if token.Null? then [] else [token.text] + Fields(rest)
  {
    FieldsAfterCommas(s);
    var t := s[SkipCommas(s)..];
    var e := UpToComma(t);
    if |t| > 0 {
      if e < |t| {
        CutAtComma(t);
        assert Cut(t)[1..] == Cut(t[e + 1..]);
      } else {
        CutWithoutComma(t);
        assert t[e..] == "" && t[..e] == t;
      }
    }
  }

  /** What three calls in a row tell about the fields. */
  lemma FirstThree(text: string)
    ensures var (first, rest) := Strtok(text);
      var (second, rest') := Strtok(rest);
      var (third, _) := Strtok(rest');
      && (first.Null? <==> |Fields(text)| == 0)
      && (first.Token? ==> Fields(text)[0] == first.text && (second.Null? <==> |Fields(text)| == 1))
      && (first.Token? && second.Token? ==>
            Fields(text)[1] == second.text && (third.Null? <==> |Fields(text)| == 2))
  {
    FieldsFromStrtok(text);
    FieldsFromStrtok(Strtok(text).1);
    FieldsFromStrtok(Strtok(Strtok(text).1).1);
  }

  predicate IsInt(t: Token) {
    t.Token? && Convert(t.text, INT).Ok?
  }

  /** The meaning, token by token. */
  function Verdict(first: Token, second: Token, third: Token, kind: Kind): Outcome {
    if !IsInt(first) then Rejected
    else if second.Null? then if kind == HistogramOption then NullUsed else Rejected
    else if !IsInt(second) || third.Token? then Rejected
    else
      var a, b := Convert(first.text, INT).value, Convert(second.text, INT).value;
      if kind == WarmupOption && a > 0 && b <= 0 then Rejected else Pair(a, b)
  }

  lemma VerdictIs(text: string, kind: Kind)
    ensures var (first, rest) := Strtok(text);
      var (second, rest') := Strtok(rest);
      var (third, _) := Strtok(rest');
      Meaning(Fields(text), kind) == Verdict(first, second, third, kind)
  {
    FirstThree(text);
  }

  /** The 'H' and 'w' cases.  In the 'H' case the check meant for the second token tests the first again. */
  method ParsePair(text: string, kind: Kind) returns (r: Outcome)
    ensures r == Meaning(Fields(text), kind)
  {
    VerdictIs(text, kind);
    var (first, rest) := Strtok(text);
    if first == Null {
      return Rejected;
    }
    var a := Atoi32(first);
    ReadingMeans(first, a);
    if a == NotAnInt {
      return Rejected;
    }
    var (second, rest') := Strtok(rest);
    if kind == HistogramOption {
      if first == Null {
        return Rejected;
      }
    } else {
      if second == Null {
        return Rejected;
      }
    }
    var b := Atoi32(second);
    if b == NoToken {
      return NullUsed;
    }
    ReadingMeans(second, b);
    if b == NotAnInt {
      return Rejected;
    }
    var (third, _) := Strtok(rest');
    if third != Null {
      return Rejected;
    }
    if kind == WarmupOption && a.value > 0 && b.value <= 0 {
      return Rejected;
    }
    r := Pair(a.value, b.value);
  }

  lemma ConsJoins(c: char, p: seq<string>, q: seq<string>)
    requires |p| > 0
    ensures Cons(c, p + q) == Cons(c, p) + q
  {
    assert (p + q)[0] == p[0] && (p + q)[1..] == p[1..] + q;
    if c == ',' {
      assert [""] + (p + q) == ([""] + p) + q;
    } else {
      assert [[c] + p[0]] + (p[1..] + q) == ([[c] + p[0]] + p[1..]) + q;
    }
  }

  lemma CutHead(c: char, s: string)
    ensures Cut([c] + s) == Cons(c, Cut(s))
  {
    assert ([c] + s)[1..] == s;
  }

  lemma {:induction false} CutJoins(a: string, b: string)
    ensures Cut(a + "," + b) == Cut(a) + Cut(b)
  {
    if |a| == 0 {
      assert a + "," + b == [','] + b;
      CutHead(',', b);
    } else {
      var c, rest := a[0], a[1..];
      CutJoins(rest, b);
      ConsJoins(c, Cut(rest), Cut(b));
      CutHead(c, rest);
      CutHead(c, rest + "," + b);
      assert a == [c] + rest;
      assert a + "," + b == [c] + (rest + "," + b);
    }
  }

  lemma {:induction false} NonEmptyJoins(p: seq<string>, q: seq<string>)
    ensures NonEmpty(p + q) == NonEmpty(p) + NonEmpty(q)
  {
    if |p| == 0 {
      assert p + q == q;
    } else {
      NonEmptyJoins(p[1..], q);
      assert (p + q)[0] == p[0] && (p + q)[1..] == p[1..] + q;
      var first := if |p[0]| == 0 then [] else [p[0]];
      assert NonEmpty(p + q) == first + (NonEmpty(p[1..]) + NonEmpty(q));
      assert first + (NonEmpty(p[1..]) + NonEmpty(q)) == (first + NonEmpty(p[1..])) + NonEmpty(q);
    }
  }

  lemma NonEmptyCons(piece: string, pieces: seq<string>)
    requires |piece| > 0
    ensures NonEmpty([piece] + pieces) == [piece] + NonEmpty(pieces)
  {
  }

  lemma {:induction false} UpToFirstComma(s: string, rest: string)
    requires ',' !in s
    ensures UpToComma(s) == |s| && UpToComma(s + "," + rest) == |s|
  {
    if |s| > 0 {
      assert s == [s[0]] + s[1..];
      UpToFirstComma(s[1..], rest);
      assert (s + "," + rest)[1..] == s[1..] + "," + rest;
    } else {
      assert s + "," + rest == "," + rest;
    }
  }

  /** What the fields are: a text without a comma is one, unless it is empty, and a comma separates. */
  lemma FieldsAre(a: string, b: string)
    ensures Fields(a + "," + b) == Fields(a) + Fields(b)
    ensures ',' !in a ==> Fields(a) == if a == "" then [] else [a]
  {
    CutJoins(a, b);
    NonEmptyJoins(Cut(a), Cut(b));
    if ',' !in a {
      UpToFirstComma(a, "");
      CutWithoutComma(a);
      if a != "" {
        NonEmptyCons(a, []);
      }
    }
  }

  /** Exactly the texts accepted, and what they give. */
  lemma AcceptedIff(text: string, kind: Kind, a: int, b: int)
    ensures Meaning(Fields(text), kind) == Pair(a, b) <==> (
      && |Fields(text)| == 2
      && Denotes(Body(Fields(text)[0]), Base(Fields(text)[0]), a) && -0x8000_0000 <= a < 0x8000_0000
      && Denotes(Body(Fields(text)[1]), Base(Fields(text)[1]), b) && -0x8000_0000 <= b < 0x8000_0000
      && (kind == WarmupOption && a > 0 ==> b > 0))
  {
    if |Fields(text)| == 2 {
      SignedConversionIff(Fields(text)[0], INT, a);
      SignedConversionIff(Fields(text)[1], INT, b);
    }
  }

  /** The misplaced check: exactly the -H values that spell one int, between any number of commas, reach the
      null pointer. */
  lemma NullUsedIff(text: string, kind: Kind)
    ensures Meaning(Fields(text), kind) == NullUsed <==> (
      kind == HistogramOption && |Fields(text)| == 1 && SpellsInt(Fields(text)[0]))
  {
    if |Fields(text)| == 1 {
      ConvertsIff(Fields(text)[0]);
    }
  }

  /** For example "-H 10". */
  lemma OneNumberUsesNull(n: int)
    requires INT.InRange(n)
    ensures Meaning(Fields(Decimal(n)), HistogramOption) == NullUsed
    ensures Meaning(Fields(Decimal(n)), WarmupOption) == Rejected
  {
    PrintThenConvert(n, INT, false);
    DecimalHasNoComma(n);
    CutWithoutComma(Decimal(n));
    NonEmptyCons(Decimal(n), []);
  }

  lemma DecimalHasNoComma(n: int)
    ensures ',' !in Decimal(n) && |Decimal(n)| > 0 && UpToComma(Decimal(n)) == |Decimal(n)|
  {
  }

  /** Printing "a,b" and parsing it is the identity on every pair of ints, except that a warm-up of some
      messages needs a rate. */
  lemma PairRoundTrip(a: int, b: int, kind: Kind)
    requires INT.InRange(a) && INT.InRange(b)
    ensures Meaning(Fields(Decimal(a) + "," + Decimal(b)), kind)
      == if kind == WarmupOption && a > 0 && b <= 0 then Rejected else Pair(a, b)
  {
    var left, right := Decimal(a), Decimal(b);
    var text := left + "," + right;
    DecimalHasNoComma(a);
    DecimalHasNoComma(b);
    UpToFirstComma(left, right);
    CutAtComma(text);
    assert text[..|left|] == left && text[|left| + 1..] == right;
    CutWithoutComma(right);
    assert Cut(text) == [left] + [right];
    NonEmptyCons(left, [right]);
    NonEmptyCons(right, []);
    PrintThenConvert(a, INT, false);
    PrintThenConvert(b, INT, false);
  }
}
