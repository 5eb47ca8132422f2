/**
 * The pattern serialiser and parser: a pattern is stored as the concatenation of the decimal
 * ids of its dots, and read back one character per dot.
 */
module PatternCodec {
  import opened Results
  import opened Dots
  import Decimal

  /** `Character.getNumericValue` on the characters a stored pattern can hold: decimal digits
      are 0-9, Latin letters of either case are 10-35, and everything else is -1. */
  function NumericValue(ch: char): (v: int)
    ensures -1 <= v <= 35
    ensures Decimal.IsDigit(ch) ==> v == Decimal.DigitValue(ch)
    ensures !Decimal.IsDigit(ch) ==> v != 0 && (v >= 0 ==> v >= 10)
  {
    if '0' <= ch <= '9' then ch as int - '0' as int
    else if 'a' <= ch <= 'z' then ch as int - 'a' as int + 10
    else if 'A' <= ch <= 'Z' then ch as int - 'A' as int + 10
    else -1
  }

  /** What `patternToString` appends for one dot: its id `row * count + column` in decimal. */
  function DotDigits(d: Dot, count: int): string
  {
    Decimal.IntToString(Id(d, count))
  }

  /** Specification of `patternToString` on a non-null list: each dot's decimal id, in pattern order. */
  function Encode(p: seq<Dot>, count: int): string
  {
    if p == [] then "" else Encode(p[..|p| - 1], count) + DotDigits(p[|p| - 1], count)
  }

  /** `patternToString`: null and the empty list both give the empty string. */
  method PatternToString(pattern: Option<seq<Dot>>, count: int) returns (s: string)
    ensures pattern.None? ==> s == ""
    ensures pattern.Some? ==> s == Encode(pattern.value, count)
  {
    s := "";
    if pattern.None? {
      return;
    }
    var p := pattern.value;
    var i := 0;
    while i < |p|
      invariant 0 <= i <= |p|
      invariant s == Encode(p[..i], count)
    {
      s := s + Decimal.IntToString(p[i].row * count + p[i].column);
      i := i + 1;
      assert p[..i][..i - 1] == p[..i - 1];
    }
    assert p[..|p|] == p;
  }

  /** One character of `stringToPattern`: its numeric value split by truncating `/` and `%`
      into row and column, then `Dot.of(row, column)` (the arithmetic of `Dot.of(id)`). */
  function DecodeChar(ch: char, count: nat): Result<Dot, Failure>
  {
    OfId(NumericValue(ch), count)
  }

  /** Specification of `stringToPattern`: one dot per character, or the first character's failure. */
  function Decode(s: string, count: nat): Result<seq<Dot>, Failure>
  {
    if s == [] then Ok([])
    else
      match Decode(s[..|s| - 1], count)
      case Err(e) => Err(e)
      case Ok(p) =>
        match DecodeChar(s[|s| - 1], count)
        case Err(e) => Err(e)
        case Ok(d) => Ok(p + [d])
  }

  /** `stringToPattern`, which throws at the first character that is not a dot id. */
  method StringToPattern(s: string, count: nat) returns (r: Result<seq<Dot>, Failure>)
    ensures r == Decode(s, count)
  {
    var result: seq<Dot> := [];
    var i := 0;
    while i < |s|
      invariant 0 <= i <= |s|
      invariant Decode(s[..i], count) == Ok(result)
    {
      assert s[..i + 1][..i] == s[..i];
      var number := NumericValue(s[i]);
      if count == 0 {
        r := Err(DivisionByZero);
        FailureSticks(s, i + 1, count);
        return;
      }
      var dot := Of(TruncDiv(number, count), TruncRem(number, count), count);
      if dot.Err? {
        r := Err(dot.error);
        FailureSticks(s, i + 1, count);
        return;
      }
      result := result + [dot.value];
      i := i + 1;
    }
    assert s[..|s|] == s;
    r := Ok(result);
  }

  /** Once a prefix fails, the whole string fails with the same exception. */
  lemma {:induction false} FailureSticks(s: string, i: nat, count: nat)
    requires i <= |s| && Decode(s[..i], count).Err?
    ensures Decode(s, count) == Decode(s[..i], count)
    decreases |s| - i
  {
    if i < |s| {
      assert s[..i + 1][..i] == s[..i];
      FailureSticks(s, i + 1, count);
    } else {
      assert s[..i] == s;
    }
  }

  /** The serialisation of a concatenation is the concatenation of the serialisations. */
  lemma {:induction false} EncodeAppend(p: seq<Dot>, q: seq<Dot>, count: int)
    ensures Encode(p + q, count) == Encode(p, count) + Encode(q, count)
    decreases |q|
  {
    if q == [] {
      assert p + q == p;
    } else {
      var q' := q[..|q| - 1];
      assert (p + q)[..|p + q| - 1] == p + q' && (p + q)[|p + q| - 1] == q[|q| - 1];
      EncodeAppend(p, q', count);
      AppendAssoc(Encode(p, count), Encode(q', count), DotDigits(q[|q| - 1], count));
    }
  }

  lemma AppendAssoc(a: string, b: string, c: string)
    ensures (a + b) + c == a + (b + c)
  {
  }

  /** `stringToPattern` succeeds exactly when every character's value is a dot id, and then
      yields one dot per character, in order, with row = value div count and column = value mod count. */
  lemma {:induction false} DecodeMeaning(s: string, count: nat)
    ensures Decode(s, count).Ok? <==> forall i :: 0 <= i < |s| ==> 0 <= NumericValue(s[i]) < count * count
    ensures Decode(s, count).Ok? ==>
              |Decode(s, count).value| == |s| &&
              forall i :: 0 <= i < |s| ==>
                Decode(s, count).value[i] == Dot(NumericValue(s[i]) / count, NumericValue(s[i]) % count)
  {
    if s != [] {
      var s' := s[..|s| - 1];
      var ch := s[|s| - 1];
      DecodeMeaning(s', count);
      var v := NumericValue(ch);
      if 0 <= v < count * count {
        IdOfOfId(v, count);
        var d := OfId(v, count).value;
        assert d == Dot(v / count, v % count) by {
          DivModUnique(v, count, d.row, d.column);
        }
      } else {
        OfIdRejects(v, count);
      }
      forall i | 0 <= i < |s'| ensures s'[i] == s[i] { }
    }
  }

  /** The ids of a pattern all fit in one decimal digit. */
  predicate SingleDigitIds(p: seq<Dot>, count: int) {
    forall i :: 0 <= i < |p| ==> Id(p[i], count) < 10
  }

  /** Round trip: reading back a stored in-range pattern gives the pattern, provided every id
      is a single digit. */
  lemma {:induction false} DecodeEncode(p: seq<Dot>, count: nat)
    requires forall i :: 0 <= i < |p| ==> InGrid(p[i], count)
    requires SingleDigitIds(p, count)
    ensures Decode(Encode(p, count), count) == Ok(p)
  {
    if p != [] {
      var p' := p[..|p| - 1];
      var d := p[|p| - 1];
      DecodeEncode(p', count);
      var id := Id(d, count);
      IdInRange(d, count);
      var digits := DotDigits(d, count);
      assert |digits| == 1;
      var s := Encode(p', count) + digits;
      assert s[..|s| - 1] == Encode(p', count);
      OfIdOfId(d, count);
      assert NumericValue(s[|s| - 1]) == id by {
        Decimal.ValueOfNatToString(id);
      }
      assert p' + [d] == p;
    }
  }

  /** On grids of at most 3 x 3 every in-range pattern round-trips. */
  lemma DecodeEncodeSmallGrid(p: seq<Dot>, count: nat)
    requires count <= 3
    requires forall i :: 0 <= i < |p| ==> InGrid(p[i], count)
    ensures Decode(Encode(p, count), count) == Ok(p)
  {
    forall i | 0 <= i < |p| ensures Id(p[i], count) < 10 {
      IdInRange(p[i], count);
      assert count * count <= 9;
    }
    DecodeEncode(p, count);
  }

  /** Parsing one more character: the prefix's failure, the character's failure, or one more dot. */
  lemma DecodeSnoc(s: string, ch: char, count: nat)
    ensures Decode(s + [ch], count) ==
              match Decode(s, count)
              case Err(e) => Err(e)
              case Ok(p) =>
                match DecodeChar(ch, count)
                case Err(e) => Err(e)
                case Ok(d) => Ok(p + [d])
  {
    assert (s + [ch])[..|s|] == s;
  }

  /** On every grid from 4 x 4 up the round trip fails: the dot with id 10 (the dot (2,2) on a
      4 x 4 grid) is stored as "10" and read back as the two dots (0,1) and (0,0). */
  lemma DecodeEncodeFailsFromFourByFour(count: nat)
    requires count >= 4
    ensures OfId(10, count).Ok?
    ensures count == 4 ==> OfId(10, count) == Ok(Dot(2, 2))
    ensures var d := OfId(10, count).value;
      InGrid(d, count) && Id(d, count) == 10 && Encode([d], count) == "10" &&
      Decode("10", count) == Ok([Dot(0, 1), Dot(0, 0)]) &&
      Decode(Encode([d], count), count) != Ok([d])
  {
    MulMonotone(4, count, 4);
    MulMonotone(4, count, count);
    IdOfOfId(10, count);
    if count == 4 {
      DivModUnique(10, 4, 2, 2);
    }
    var d := OfId(10, count).value;
    EncodeIdTen(d, count);
    DecodeTen(count);
  }

  lemma EncodeIdTen(d: Dot, count: int)
    requires Id(d, count) == 10
    ensures Encode([d], count) == "10"
  {
    assert [d][..0] == [];
    assert Decimal.NatToString(10) == Decimal.NatToString(1) + [Decimal.DigitChar(0)] == "10";
    assert Encode([d], count) == "" + DotDigits(d, count) == "10";
  }

  lemma DecodeTen(count: nat)
    requires count >= 2
    ensures Decode("10", count) == Ok([Dot(0, 1), Dot(0, 0)])
  {
    DecodeOne(count);
    DivModUnique(0, count, 0, 0);
    assert DecodeChar('0', count) == Ok(Dot(0, 0));
    DecodeSnoc("1", '0', count);
    assert "1" + ['0'] == "10" && [Dot(0, 1)] + [Dot(0, 0)] == [Dot(0, 1), Dot(0, 0)];
  }

  lemma DecodeOne(count: nat)
    requires count >= 2
    ensures Decode("1", count) == Ok([Dot(0, 1)])
  {
    DivModUnique(1, count, 0, 1);
    assert DecodeChar('1', count) == Ok(Dot(0, 1));
    assert Decode([], count) == Ok([]);
    DecodeSnoc([], '1', count);
    assert [] + ['1'] == "1" && [] + [Dot(0, 1)] == [Dot(0, 1)];
  }

  /** Round trip the other way: a string of decimal digits that are all dot ids is stored back unchanged. */
  lemma {:induction false} EncodeDecode(s: string, count: nat)
    requires Decimal.AllDigits(s)
    requires forall i :: 0 <= i < |s| ==> Decimal.DigitValue(s[i]) < count * count
    ensures Decode(s, count).Ok? && Encode(Decode(s, count).value, count) == s
  {
    if s != [] {
      var s' := s[..|s| - 1];
      var ch := s[|s| - 1];
      EncodeDecode(s', count);
      var p' := Decode(s', count).value;
      var v := Decimal.DigitValue(ch);
      IdOfOfId(v, count);
      var d := OfId(v, count).value;
      assert (p' + [d])[..|p'|] == p';
      Decimal.SingleDigit(ch);
      assert s' + [ch] == s;
    }
  }

  /** Characters that are not dot ids make `stringToPattern` throw: a digit past the grid,
      a letter past the grid, or a character with no numeric value. A letter within the grid is a dot. */
  lemma DecodeRejects()
    ensures Decode("9", 3) == Err(OutOfRange)
    ensures Decode("a", 3) == Err(OutOfRange)
    ensures Decode("#", 3) == Err(OutOfRange)
    ensures Decode("a", 4) == Ok([Dot(2, 2)])
    ensures Decode("0", 0) == Err(DivisionByZero)
  {
    assert DecodeChar('9', 3) == Err(OutOfRange) by { OfIdRejects(9, 3); }
    assert DecodeChar('a', 3) == Err(OutOfRange) by { OfIdRejects(10, 3); }
    assert DecodeChar('#', 3) == Err(OutOfRange) by { OfIdRejects(-1, 3); }
    assert DecodeChar('a', 4) == Ok(Dot(2, 2));
    assert Decode([], 4) == Ok([]);
    DecodeSnoc([], 'a', 4);
    assert [] + ['a'] == "a" && [] + [Dot(2, 2)] == [Dot(2, 2)];
  }

  /** A failing character stops the parse even after valid ones. */
  lemma DecodeStopsAtFirstFailure()
    ensures Decode("01#", 3) == Err(OutOfRange)
  {
    assert "01#"[..2] == "01";
    assert "01"[..1] == "0";
    assert "0"[..0] == "";
    assert DecodeChar('0', 3) == Ok(Dot(0, 0));
    assert DecodeChar('1', 3) == Ok(Dot(0, 1));
    assert DecodeChar('#', 3) == Err(OutOfRange) by { OfIdRejects(-1, 3); }
  }
}
