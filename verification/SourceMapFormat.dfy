/**
  The format itself, apart from the decoder and its printer: the alphabet in full, what a quantity
  is, and which texts can be accepted at all.
 */
module SourceMapFormat {
  import opened Wrappers
  import opened SourceMaps
  import opened SourceMapTheorems

  function Alphabet(): (alphabet: string)
    ensures |alphabet| == 64
  {
    "ABCDEFGHIJKLMNOP" + "QRSTUVWXYZabcdef" + "ghijklmnopqrstuv" + "wxyz0123456789+/"
  }

  /** The character stands for the six-bit digit. */
  ghost predicate StandsFor(c: char, digit: nat) {
    digit < 64 && c == Alphabet()[digit]
  }

  lemma AlphabetAt(digit: nat)
    requires digit < 64
    ensures Alphabet()[digit] == Letter(digit)
  {
    var a, b, c, d := "ABCDEFGHIJKLMNOP", "QRSTUVWXYZabcdef", "ghijklmnopqrstuv", "wxyz0123456789+/";
    assert Alphabet() == a + b + c + d;
    hide Alphabet;
    if digit < 16 {
      assert (a + b + c + d)[digit] == a[digit];
      FirstAt(digit);
    } else if digit < 32 {
      assert (a + b + c + d)[digit] == b[digit - 16];
      SecondAt(digit - 16);
    } else if digit < 48 {
      assert (a + b + c + d)[digit] == c[digit - 32];
      ThirdAt(digit - 32);
    } else {
      assert (a + b + c + d)[digit] == d[digit - 48];
      FourthAt(digit - 48);
    }
  }

  lemma FirstAt(i: nat)
    requires i < 16
    ensures "ABCDEFGHIJKLMNOP"[i] == Letter(i)
  {
  }

  lemma SecondAt(i: nat)
    requires i < 16
    ensures "QRSTUVWXYZabcdef"[i] == Letter(i + 16)
  {
  }

  lemma ThirdAt(i: nat)
    requires i < 16
    ensures "ghijklmnopqrstuv"[i] == Letter(i + 32)
  {
  }

  lemma FourthAt(i: nat)
    requires i < 16
    ensures "wxyz0123456789+/"[i] == Letter(i + 48)
  {
  }

  /** Reading a character finds its position in the alphabet, and nothing for any other character. */
  lemma DigitExactly(c: char, digit: nat)
    ensures Digit(c) == Some(digit) <==> StandsFor(c, digit)
    ensures Digit(c).None? <==> c !in Alphabet()
  {
    hide Alphabet, Letter;
    forall d: nat | d < 64 ensures Digit(Alphabet()[d]) == Some(d) {
      AlphabetAt(d);
    }
    if Digit(c).Some? {
      LetterIs(c);
      AlphabetAt(Digit(c).value);
    }
    hide Digit;
    if c in Alphabet() {
      var d :| 0 <= d < 64 && Alphabet()[d] == c;
    }
  }

  lemma LetterIs(c: char)
    requires Digit(c).Some?
    ensures Letter(Digit(c).value) == c
  {
  }

  // Quantities

  /** Five bits from each digit, the lowest first. */
  function Weighted(digits: seq<nat>): nat {
    if digits == [] then 0 else digits[0] % 32 + 32 * Weighted(digits[1..])
  }

  /**
    The text begins with digits of which all but the last say that more follow; `room` is how many
    may follow, the last of those with two bits only.
   */
  ghost predicate Begins(text: string, digits: seq<nat>, room: nat) {
    && 1 <= |digits| <= room && |digits| <= |text|
    && (forall i :: 0 <= i < |digits| ==> StandsFor(text[i], digits[i]))
    && (forall i :: 0 <= i < |digits| - 1 ==> digits[i] >= 32)
    && digits[|digits| - 1] < 32
    && (|digits| == room ==> digits[room - 1] <= 3)
  }

  /** A quantity is read exactly when a text begins with up to seven such digits, and then it is their weighted sum. */
  lemma QuantityExactly(text: string)
    ensures forall digits :: Begins(text, digits, 7) ==> ReadVlq(text, 0, 0) == Ok((Weighted(digits), text[|digits|..]))
    ensures ReadVlq(text, 0, 0).Ok? ==> exists digits :: Begins(text, digits, 7)
  {
    hide ReadVlq, Begins, Weighted, Alphabet;
    forall digits | Begins(text, digits, 7)
      ensures |digits| <= |text| && ReadVlq(text, 0, 0) == Ok((Weighted(digits), text[|digits|..]))
    {
      BeginningIsRead(text, digits);
    }
    if ReadVlq(text, 0, 0).Ok? {
      var digits := DigitsRead(text, 0, 0);
      assert Begins(text, digits, 7);
    }
  }

  lemma BeginningIsRead(text: string, digits: seq<nat>)
    requires Begins(text, digits, 7)
    ensures |digits| <= |text| && ReadVlq(text, 0, 0) == Ok((Weighted(digits), text[|digits|..]))
  {
    hide ReadVlq, Begins, Weighted, Pow2, Scaled, Alphabet, StandsFor, Digit;
    BeginsFacts(text, digits, 7);
    var total := ReadsDigits(text, digits, 0, 0);
    ScaledByOne(Weighted(digits));
  }

  lemma {:induction false} ReadsDigits(text: string, digits: seq<nat>, value: nat, k: nat) returns (total: nat)
    requires k <= 6 && Begins(text, digits, 7 - k)
    ensures total == value + Scaled(Weighted(digits), Pow2(5 * k))
    ensures ReadVlq(text, value, 5 * k) == Ok((total, text[|digits|..]))
    decreases |digits|
  {
    hide ReadVlq, Pow2, Digit, StandsFor, Begins, Weighted, Scaled, IsShift;
    IsShiftAt(k);
    BeginsFacts(text, digits, 7 - k);
    StandsIsDigit(text[0], digits[0]);
    var sum := NextRead(text, value, 5 * k);
    WeightedFirst(digits);
    if |digits| == 1 {
      assert digits[1..] == [];
      total := sum;
    } else {
      total := ReadsDigits(text[1..], digits[1..], sum, k + 1);
      assert text[1..][|digits| - 1..] == text[|digits|..];
      Pow2Step(5 * k);
      Assembles(value, digits[0] % 32, Weighted(digits[1..]), Pow2(5 * k), Pow2(5 * k + 5));
    }
  }

  /** A digit at its weight. */
  function Scaled(digit: int, weight: int): int {
    digit * weight
  }

  lemma Assembles(value: int, low: int, high: int, weight: int, next: int)
    requires next == 32 * weight
    ensures value + Scaled(low, weight) + Scaled(high, next) == value + Scaled(low + 32 * high, weight)
  {
    assert high * (32 * weight) == 32 * high * weight;
    assert (low + 32 * high) * weight == low * weight + 32 * high * weight;
  }

  /** One turn of the reading: the digit is added, and then the rest is read or there is none. */
  lemma NextRead(text: string, value: nat, shift: nat) returns (sum: nat)
    requires text != "" && IsShift(shift) && Digit(text[0]).Some?
    ensures var digit := Digit(text[0]).value;
            && sum == value + Scaled(digit % 32, Pow2(shift))
            && ReadVlq(text, value, shift) ==
               if shift == 30 && digit % 32 > 3 then Err(Format)
               else if digit >= 32 then ReadVlq(text[1..], sum, shift + 5)
               else Ok((sum, text[1..]))
  {
    FirstDigit(text, value, shift);
    sum := value + Digit(text[0]).value % 32 * Pow2(shift);
  }

  lemma ScaledByOne(n: nat)
    ensures Scaled(n, Pow2(5 * 0)) == n
  {
  }

  lemma WeightedFirst(digits: seq<nat>)
    requires digits != []
    ensures Weighted(digits) == digits[0] % 32 + 32 * Weighted(digits[1..])
    ensures Weighted([]) == 0
  {
  }

  lemma BeginsFacts(text: string, digits: seq<nat>, room: nat)
    requires Begins(text, digits, room)
    ensures 1 <= |digits| <= room && |digits| <= |text| && StandsFor(text[0], digits[0])
    ensures |digits| == 1 ==> digits[0] < 32 && (room == 1 ==> digits[0] <= 3)
    ensures |digits| > 1 ==> digits[0] >= 32 && Begins(text[1..], digits[1..], room - 1)
  {
    hide StandsFor;
  }

  lemma StandsIsDigit(c: char, digit: nat)
    requires StandsFor(c, digit)
    ensures Digit(c) == Some(digit) && digit < 64
  {
    DigitExactly(c, digit);
  }

  lemma {:induction false} DigitsRead(text: string, value: nat, k: nat) returns (digits: seq<nat>)
    requires k <= 6 && ReadVlq(text, value, 5 * k).Ok?
    ensures Begins(text, digits, 7 - k)
    decreases |text|
  {
    hide ReadVlq, StandsFor, Digit, Pow2, Begins, IsShift, Scaled, Alphabet;
    NotEmpty(text, value, 5 * k);
    IsShiftAt(k);
    var digit := Digit(text[0]).value;
    LetterStands(text[0]);
    var sum := NextRead(text, value, 5 * k);
    if digit < 32 {
      digits := [digit];
      BeginsLast(text, digit, 7 - k);
    } else {
      if k == 6 {
        NoneAfterSeven(text[1..], sum);
      }
      var rest := DigitsRead(text[1..], sum, k + 1);
      digits := [digit] + rest;
      BeginsMore(text, digit, rest, 7 - k);
    }
  }

  lemma IsShiftAt(k: nat)
    requires k <= 6
    ensures IsShift(5 * k)
  {
  }

  lemma LetterStands(c: char)
    requires Digit(c).Some?
    ensures StandsFor(c, Digit(c).value) && c in Alphabet()
  {
    DigitExactly(c, Digit(c).value);
  }

  lemma NotEmpty(text: string, value: nat, shift: nat)
    requires ReadVlq(text, value, shift).Ok?
    ensures text != "" && Digit(text[0]).Some?
  {
  }

  lemma BeginsLast(text: string, digit: nat, room: nat)
    requires text != "" && room >= 1 && digit < 32 && StandsFor(text[0], digit) && (room == 1 ==> digit <= 3)
    ensures Begins(text, [digit], room)
  {
    hide StandsFor;
  }

  lemma NoneAfterSeven(text: string, value: nat)
    ensures ReadVlq(text, value, 35).Err?
  {
  }

  lemma BeginsMore(text: string, digit: nat, rest: seq<nat>, room: nat)
    requires text != "" && room > 1 && 32 <= digit && StandsFor(text[0], digit) && Begins(text[1..], rest, room - 1)
    ensures Begins(text, [digit] + rest, room)
  {
    hide StandsFor;
    forall i | 0 <= i < |rest| + 1 ensures StandsFor(text[i], ([digit] + rest)[i]) {
      assert i > 0 ==> text[i] == text[1..][i - 1];
    }
  }

  /** The lowest bit of a quantity is the sign of the number in the others. */
  lemma SignIsLowestBit(n: int)
    requires n >= 0
    ensures Signed(2 * n) == n && Signed(2 * n + 1) == -n
  {
  }

  // What can be accepted at all

  ghost predicate InAlphabet(text: string) {
    forall i :: 0 <= i < |text| ==> text[i] in Alphabet()
  }

  /** Any map that is accepted consists of letters of the alphabet, commas and semicolons. */
  lemma AcceptedIsClean(stored: StoredMap, line: int, column: int, i: nat)
    requires Decode(stored, line, column).Ok? && i < |stored.mappings|
    ensures stored.mappings[i] in Alphabet() || stored.mappings[i] == ',' || stored.mappings[i] == ';'
  {
    hide Alphabet, Split, NonEmpty, DecodeLines;
    var lines := Split(stored.mappings, ';');
    LinesClean(stored, lines, line, column, BEGIN);
    PartsAreText(stored.mappings, ';', i);
    if stored.mappings[i] != ';' {
      var p, j :| 0 <= p < |lines| && 0 <= j < |lines[p]| && lines[p][j] == stored.mappings[i];
      PartsAreText(lines[p], ',', j);
      if lines[p][j] != ',' {
        var segments := Split(lines[p], ',');
        var q, k :| 0 <= q < |segments| && 0 <= k < |segments[q]| && segments[q][k] == lines[p][j];
        KeptNonEmpty(segments, q);
        var r :| 0 <= r < |Segments(lines[p])| && Segments(lines[p])[r] == segments[q];
        assert InAlphabet(Segments(lines[p])[r]);
      }
    }
  }

  /** So a map that reaches any other character is refused, at every position. */
  lemma ForeignIsRefused(stored: StoredMap, line: int, column: int, i: nat)
    requires i < |stored.mappings| && stored.mappings[i] !in Alphabet() && stored.mappings[i] != ','
             && stored.mappings[i] != ';'
    ensures Decode(stored, line, column).Err?
  {
    if Decode(stored, line, column).Ok? {
      AcceptedIsClean(stored, line, column, i);
    }
  }

  lemma {:induction false} VlqClean(text: string, value: nat, shift: nat)
    requires ReadVlq(text, value, shift).Ok?
    ensures var rest := ReadVlq(text, value, shift).value.1;
            |rest| < |text| && rest == text[|text| - |rest|..] && InAlphabet(text[..|text| - |rest|])
    decreases |text|
  {
    hide Digit, Alphabet, StandsFor, InAlphabet, Pow2, ReadVlq;
    NotEmpty(text, value, shift);
    var sum := AnyNextRead(text, value, shift);
    var digit := Digit(text[0]).value;
    var rest := ReadVlq(text, value, shift).value.1;
    LetterStands(text[0]);
    var n := |text| - |rest|;
    if digit >= 32 {
      VlqClean(text[1..], sum, shift + 5);
      assert text[..n] == [text[0]] + text[1..][..n - 1];
      CleanFirst(text[0], text[1..][..n - 1]);
    } else {
      assert text[..n] == [text[0]] + "";
      CleanFirst(text[0], "");
    }
  }

  lemma AnyNextRead(text: string, value: nat, shift: nat) returns (sum: nat)
    requires ReadVlq(text, value, shift).Ok?
    ensures if Digit(text[0]).value >= 32 then ReadVlq(text, value, shift) == ReadVlq(text[1..], sum, shift + 5)
            else ReadVlq(text, value, shift) == Ok((sum, text[1..]))
  {
    sum := value + Digit(text[0]).value % 32 * Pow2(shift);
  }

  lemma CleanFirst(c: char, rest: string)
    requires c in Alphabet() && (rest == "" || InAlphabet(rest))
    ensures InAlphabet([c] + rest)
  {
    hide Alphabet;
  }

  lemma {:induction false} ValuesClean(text: string, values: seq<int>)
    requires ReadValues(text, values).Ok?
    ensures InAlphabet(text)
    decreases |text|
  {
    hide InAlphabet, Alphabet, ReadVlq, Signed;
    if text != "" {
      VlqClean(text, 0, 0);
      var (value, rest) := ReadVlq(text, 0, 0).value;
      ValuesClean(rest, values + [Signed(value)]);
      assert text == text[..|text| - |rest|] + rest;
      CleanTogether(text[..|text| - |rest|], rest);
    } else {
      CleanEmpty();
    }
  }

  lemma CleanEmpty()
    ensures InAlphabet("")
  {
  }

  lemma CleanTogether(a: string, b: string)
    requires InAlphabet(a) && InAlphabet(b)
    ensures InAlphabet(a + b)
  {
    hide Alphabet;
  }

  lemma {:induction false} SegmentsClean(stored: StoredMap, segments: seq<string>, wanted: Option<int>,
                                         state: LineState)
    requires DecodeLine(stored, segments, wanted, state).Ok?
    ensures forall i :: 0 <= i < |segments| ==> InAlphabet(segments[i])
    decreases |segments|
  {
    hide ReadValues, Apply, InAlphabet;
    if segments != [] {
      ValuesClean(segments[0], []);
      var decoded := ReadSegment(stored, state.cursor, state.column, segments[0]).value;
      var result := if wanted.Some? && decoded.column <= wanted.value then decoded.position else state.result;
      SegmentsClean(stored, segments[1..], wanted,
                    LineState(decoded.column, decoded.cursor, state.segments + 1, result));
    }
  }

  lemma {:induction false} LinesClean(stored: StoredMap, lines: seq<string>, line: int, column: int, state: LineState)
    requires DecodeLines(stored, lines, line, column, state).Ok?
    ensures forall p, q :: 0 <= p < |lines| && 0 <= q < |Segments(lines[p])| ==> InAlphabet(Segments(lines[p])[q])
    decreases |lines|
  {
    hide DecodeLine, InAlphabet, Segments;
    if lines != [] {
      var wanted := if line == 0 then Some(column) else None;
      SegmentsClean(stored, Segments(lines[0]), wanted, state.(column := 0));
      var next := DecodeLine(stored, Segments(lines[0]), wanted, state.(column := 0)).value;
      LinesClean(stored, lines[1..], line - 1, column, next);
      forall p, q | 0 <= p < |lines| && 0 <= q < |Segments(lines[p])| ensures InAlphabet(Segments(lines[p])[q]) {
        if p > 0 {
          assert lines[p] == lines[1..][p - 1];
        }
      }
    }
  }

  ghost predicate Holds(parts: seq<string>, c: char) {
    exists p, j :: 0 <= p < |parts| && 0 <= j < |parts[p]| && parts[p][j] == c
  }

  lemma HoldsAt(parts: seq<string>, p: nat, j: nat)
    requires p < |parts| && j < |parts[p]|
    ensures Holds(parts, parts[p][j])
  {
  }

  /** Every character of a text that is not the separator is in one of its parts. */
  lemma {:induction false} PartsAreText(text: string, separator: char, i: nat)
    requires i < |text|
    ensures text[i] == separator || Holds(Split(text, separator), text[i])
    decreases |text|
  {
    var rest, parts := Split(text[1..], separator), Split(text, separator);
    if text[i] != separator {
      if i == 0 {
        HoldsAt(parts, 0, 0);
      } else {
        PartsAreText(text[1..], separator, i - 1);
        var p, j :| 0 <= p < |rest| && 0 <= j < |rest[p]| && rest[p][j] == text[i];
        if text[0] == separator {
          HoldsAt(parts, p + 1, j);
        } else if p == 0 {
          HoldsAt(parts, 0, j + 1);
        } else {
          HoldsAt(parts, p, j);
        }
      }
    }
  }

  lemma {:induction false} KeptNonEmpty(parts: seq<string>, i: nat)
    requires i < |parts| && parts[i] != ""
    ensures parts[i] in NonEmpty(parts)
    decreases |parts|
  {
    if i > 0 {
      KeptNonEmpty(parts[1..], i - 1);
    }
  }

  // One map in full


  /** Every field of this map differs from every other, in order and in sign. */
  lemma ExampleMap()
    ensures var stored := StoredMap(["a", "b"], ["f", "g"], "AAAA,ECGEA;CDFDC");
            && Decode(stored, 0, 1) == Ok(Some(SourcePosition("a", 1, 1, None)))
            && Decode(stored, 0, 2) == Ok(Some(SourcePosition("b", 4, 3, Some("f"))))
            && Decode(stored, 1, 1) == Ok(Some(SourcePosition("a", 2, 2, Some("g"))))
            && Decode(stored, 1, 0) == Ok(None) && Decode(stored, 2, 5) == Ok(None)
  {
    var stored := StoredMap(["a", "b"], ["f", "g"], "AAAA,ECGEA;CDFDC");
    ExamplePrints();
    ExampleAnswers(stored);
  }

  const FIRST := Mapping(0, Some(Original(0, 0, 0, None)))
  const SECOND := Mapping(2, Some(Original(1, 3, 2, Some(0))))
  const THIRD := Mapping(1, Some(Original(0, 1, 1, Some(1))))

  lemma ExampleAnswers(stored: StoredMap)
    requires |stored.sources| == 2 && |stored.names| == 2 && stored.mappings == Print([[FIRST, SECOND], [THIRD]])
    ensures Decode(stored, 0, 1) == Ok(Some(SourcePosition(stored.sources[0], 1, 1, None)))
    ensures Decode(stored, 0, 2) == Ok(Some(SourcePosition(stored.sources[1], 4, 3, Some(stored.names[0]))))
    ensures Decode(stored, 1, 1) == Ok(Some(SourcePosition(stored.sources[0], 2, 2, Some(stored.names[1]))))
    ensures Decode(stored, 1, 0) == Ok(None) && Decode(stored, 2, 5) == Ok(None)
  {
    hide Print, Decode, LastAtOrBefore, Count;
    var lines := [[FIRST, SECOND], [THIRD]];
    ExampleCount(FIRST, SECOND, THIRD);
    DecodePrint(stored, lines, 0, 1);
    AnswerIsLast(stored, lines[0], 1, 0);
    DecodePrint(stored, lines, 0, 2);
    AnswerIsLast(stored, lines[0], 2, 1);
    DecodePrint(stored, lines, 1, 1);
    AnswerIsLast(stored, lines[1], 1, 0);
    DecodePrint(stored, lines, 1, 0);
    NothingBefore(stored, lines[1], 0);
    DecodePrint(stored, lines, 2, 5);
  }

  lemma ExampleCount(first: Mapping, second: Mapping, third: Mapping)
    ensures Count([[first, second], [third]]) == 3
  {
    var lines := [[first, second], [third]];
    assert lines[1..] == [[third]] && lines[1..][1..] == [];
    assert Count(lines) == 2 + Count(lines[1..]) && Count(lines[1..]) == 1 + Count(lines[1..][1..]);
  }

  lemma ExamplePrints()
    ensures Print([[FIRST, SECOND], [THIRD]]) == "AAAA,ECGEA;CDFDC"
  {
    var a, b := Cursor(0, 0, 0, 0), Cursor(1, 3, 2, 0);
    ExampleDeltas();
    hide Deltas, Advance, Print, PrintSegments, AdvanceAll, PrintValues;
    TwoPrinted(FIRST, SECOND, START);
    OnePrinted(THIRD, 0, b);
    PrintsTwoLines([FIRST, SECOND], [THIRD]);
    var x, y, z := PrintValues([0, 0, 0, 0]), PrintValues([2, 1, 3, 2, 0]), PrintValues([1, -1, -2, -1, 1]);
    TwoJoined(x, y, ',');
    OneJoined(z, ',');
    TwoJoined(x + [','] + y, z, ';');
    ExampleText();
  }

  lemma ExampleText()
    ensures PrintValues([0, 0, 0, 0]) + [','] + PrintValues([2, 1, 3, 2, 0]) + [';'] + PrintValues([1, -1, -2, -1, 1])
         == "AAAA,ECGEA;CDFDC"
  {
    ExampleValues();
    hide PrintValues;
  }

  lemma ExampleValues()
    ensures PrintValues([0, 0, 0, 0]) == "AAAA"
    ensures PrintValues([2, 1, 3, 2, 0]) == "ECGEA"
    ensures PrintValues([1, -1, -2, -1, 1]) == "CDFDC"
  {
    hide PrintValues;
    PrintsFour(0, 0, 0, 0);
    PrintsFive(2, 1, 3, 2, 0);
    PrintsFive(1, -1, -2, -1, 1);
    SmallNumbers();
    hide PrintVlq;
  }

  lemma SmallNumbers()
    ensures PrintVlq(0) == "A" && PrintVlq(1) == "C" && PrintVlq(2) == "E" && PrintVlq(3) == "G"
    ensures PrintVlq(-1) == "D" && PrintVlq(-2) == "F"
  {
  }

  lemma PrintsTwoLines(first: seq<Mapping>, second: seq<Mapping>)
    ensures Print([first, second])
         == Join([Join(PrintSegments(first, 0, START), ','),
                  Join(PrintSegments(second, 0, AdvanceAll(START, first)), ',')], ';')
  {
    hide Join, PrintSegments, AdvanceAll;
    var lines, next := [first, second], AdvanceAll(START, first);
    var x, y := Join(PrintSegments(first, 0, START), ','), Join(PrintSegments(second, 0, next), ',');
    assert lines[1..] == [second] && lines[1..][1..] == [];
    assert PrintLines(lines[1..][1..], AdvanceAll(next, second)) == [];
    assert PrintLines(lines[1..], next) == [y] + PrintLines(lines[1..][1..], AdvanceAll(next, second)) == [y];
    assert PrintLines(lines, START) == [x] + PrintLines(lines[1..], next) == [x, y];
  }

  lemma OneJoined(a: string, separator: char)
    ensures Join([a], separator) == a
  {
  }

  lemma TwoJoined(a: string, b: string, separator: char)
    ensures Join([a, b], separator) == a + [separator] + b
  {
    OneJoined(b, separator);
    var parts := [a, b];
    assert parts[1..] == [b] && Join(parts, separator) == parts[0] + [separator] + Join(parts[1..], separator);
  }

  lemma ExampleDeltas()
    ensures Deltas(START, 0, FIRST) == [0, 0, 0, 0] && Advance(START, FIRST) == Cursor(0, 0, 0, 0)
    ensures Deltas(Cursor(0, 0, 0, 0), 0, SECOND) == [2, 1, 3, 2, 0]
    ensures Advance(Cursor(0, 0, 0, 0), SECOND) == Cursor(1, 3, 2, 0)
    ensures Deltas(Cursor(1, 3, 2, 0), 0, THIRD) == [1, -1, -2, -1, 1]
  {
  }

  lemma TwoPrinted(a: Mapping, b: Mapping, cursor: Cursor)
    ensures PrintSegments([a, b], 0, cursor)
         == [PrintValues(Deltas(cursor, 0, a)), PrintValues(Deltas(Advance(cursor, a), a.column, b))]
    ensures AdvanceAll(cursor, [a, b]) == Advance(Advance(cursor, a), b)
  {
    hide PrintValues, Deltas, Advance;
    var both := [a, b];
    assert both[1..] == [b] && [b][1..] == [];
    OnePrinted(b, a.column, Advance(cursor, a));
    assert PrintSegments(both, 0, cursor)
        == [PrintValues(Deltas(cursor, 0, a))] + PrintSegments(both[1..], a.column, Advance(cursor, a));
    assert AdvanceAll(cursor, both) == AdvanceAll(Advance(cursor, a), both[1..]);
    assert AdvanceAll(Advance(cursor, a), [b]) == AdvanceAll(Advance(Advance(cursor, a), b), [b][1..]);
  }

  lemma OnePrinted(m: Mapping, column: int, cursor: Cursor)
    ensures PrintSegments([m], column, cursor) == [PrintValues(Deltas(cursor, column, m))]
  {
    assert [m][1..] == [];
  }

  lemma PrintsFirst(values: seq<int>)
    requires values != []
    ensures PrintValues(values) == PrintVlq(values[0]) + PrintValues(values[1..])
    ensures PrintValues([]) == ""
  {
  }

  lemma PrintsFour(a: int, b: int, c: int, d: int)
    ensures PrintValues([a, b, c, d]) == PrintVlq(a) + PrintVlq(b) + PrintVlq(c) + PrintVlq(d)
  {
    hide PrintVlq, PrintValues;
    assert [a, b, c, d][1..] == [b, c, d] && [b, c, d][1..] == [c, d] && [c, d][1..] == [d] && [d][1..] == [];
    PrintsFirst([a, b, c, d]);
    PrintsFirst([b, c, d]);
    PrintsFirst([c, d]);
    PrintsFirst([d]);
    var x, y, z := PrintVlq(b), PrintVlq(c), PrintVlq(d);
    assert PrintValues([a, b, c, d]) == PrintVlq(a) + (x + (y + (z + "")));
    assert PrintVlq(a) + (x + (y + (z + ""))) == PrintVlq(a) + x + y + z;
  }

  lemma PrintsFive(a: int, b: int, c: int, d: int, e: int)
    ensures PrintValues([a, b, c, d, e]) == PrintVlq(a) + PrintVlq(b) + PrintVlq(c) + PrintVlq(d) + PrintVlq(e)
  {
    hide PrintVlq, PrintValues;
    PrintsFour(b, c, d, e);
    PrintsFirst([a, b, c, d, e]);
    assert [a, b, c, d, e][1..] == [b, c, d, e];
    var w, x, y, z := PrintVlq(b), PrintVlq(c), PrintVlq(d), PrintVlq(e);
    assert PrintValues([a, b, c, d, e]) == PrintVlq(a) + (w + x + y + z);
    assert PrintVlq(a) + (w + x + y + z) == PrintVlq(a) + w + x + y + z;
  }
}
