/** Decoding a printed map finds what was printed, and whether decoding fails does not depend on the question. */
module SourceMapTheorems {
  import opened Wrappers
  import opened SourceMaps

  // The printer: the specification of the format

  datatype Original = Original(source: int, line: int, column: int, name: Option<int>)

  /** One segment in absolute terms, counted from zero. */
  datatype Mapping = Mapping(column: int, original: Option<Original>)

  function Digits(n: nat): (s: string)
    ensures s != ""
  {
    if n < 32 then [Letter(n)] else [Letter(32 + n % 32)] + Digits(n / 32)
  }

  function PrintVlq(x: int): string {
    Digits(if x < 0 then 2 * -x + 1 else 2 * x)
  }

  function Deltas(cursor: Cursor, column: int, m: Mapping): seq<int> {
    match m.original
    case None => [m.column - column]
    case Some(o) =>
      [m.column - column, o.source - cursor.source, o.line - cursor.line, o.column - cursor.column]
      + if o.name.Some? then [o.name.value - cursor.name] else []
  }

  function Advance(cursor: Cursor, m: Mapping): Cursor {
    match m.original
    case None => cursor
    case Some(o) => Cursor(o.source, o.line, o.column, if o.name.Some? then o.name.value else cursor.name)
  }

  function PrintValues(values: seq<int>): string {
    if values == [] then "" else PrintVlq(values[0]) + PrintValues(values[1..])
  }

  /** The segments of one line: the column restarts with the line, everything else carries over. */
  function PrintSegments(line: seq<Mapping>, column: int, cursor: Cursor): seq<string>
    decreases |line|
  {
    if line == [] then []
    else
      var first := PrintValues(Deltas(cursor, column, line[0]));
      [first] + PrintSegments(line[1..], line[0].column, Advance(cursor, line[0]))
  }

  function AdvanceAll(cursor: Cursor, line: seq<Mapping>): Cursor
    decreases |line|
  {
    if line == [] then cursor else AdvanceAll(Advance(cursor, line[0]), line[1..])
  }

  function Join(parts: seq<string>, separator: char): string {
    if parts == [] then "" else if |parts| == 1 then parts[0] else parts[0] + [separator] + Join(parts[1..], separator)
  }

  function PrintLines(lines: seq<seq<Mapping>>, cursor: Cursor): seq<string>
    decreases |lines|
  {
    if lines == [] then []
    else [Join(PrintSegments(lines[0], 0, cursor), ',')] + PrintLines(lines[1..], AdvanceAll(cursor, lines[0]))
  }

  function Print(lines: seq<seq<Mapping>>): string {
    Join(PrintLines(lines, START), ';')
  }

  // The question the decoder answers

  function PositionOf(stored: StoredMap, m: Mapping): Option<SourcePosition>
    requires Expressible(stored, m)
  {
    match m.original
    case None => None
    case Some(o) =>
      Some(SourcePosition(stored.sources[o.source], o.line + 1, o.column + 1,
                          if o.name.Some? then Some(stored.names[o.name.value]) else None))
  }

  /** The position of the last segment at or before a column. */
  function LastAtOrBefore(stored: StoredMap, line: seq<Mapping>, column: int): Option<SourcePosition>
    requires forall i :: 0 <= i < |line| ==> Expressible(stored, line[i])
  {
    if line == [] then None
    else
      var last := line[|line| - 1];
      if last.column <= column then PositionOf(stored, last) else LastAtOrBefore(stored, line[..|line| - 1], column)
  }

  function Lookup(stored: StoredMap, lines: seq<seq<Mapping>>, line: int, column: int): Option<SourcePosition>
    requires AllExpressible(stored, lines)
  {
    if 0 <= line < |lines| then LastAtOrBefore(stored, lines[line], column) else None
  }

  /** A segment the format can carry: indices in their tables and positions in a signed 32-bit word. */
  predicate Expressible(stored: StoredMap, m: Mapping) {
    && 0 <= m.column <= INT_MAX
    && (m.original.Some? ==>
          var o := m.original.value;
          && 0 <= o.source < |stored.sources| && o.source <= INT_MAX
          && 0 <= o.line < INT_MAX && 0 <= o.column < INT_MAX
          && (o.name.Some? ==> 0 <= o.name.value < |stored.names| && o.name.value <= INT_MAX))
  }

  predicate AllExpressible(stored: StoredMap, lines: seq<seq<Mapping>>) {
    forall i, j :: 0 <= i < |lines| && 0 <= j < |lines[i]| ==> Expressible(stored, lines[i][j])
  }

  function Count(lines: seq<seq<Mapping>>): nat {
    if lines == [] then 0 else |lines[0]| + Count(lines[1..])
  }

  // Quantities

  lemma {:induction false} ReadsDigits(n: nat, value: nat, shift: nat, rest: string)
    requires IsShift(shift) && n * Pow2(shift) < WORD
    ensures ReadVlq(Digits(n) + rest, value, shift) == Ok((value + n * Pow2(shift), rest))
    decreases n
  {
    hide Pow2, ReadVlq, Digits, Digit, Letter;
    if n < 32 {
      ReadsLastDigit(n, value, shift, rest);
    } else {
      MoreFollows(n, shift);
      ReadsDigits(n / 32, value + n % 32 * Pow2(shift), shift + 5, rest);
      ReadsFirstOfMore(n, value, shift, rest);
      AddsUp(value, n % 32 * Pow2(shift), n / 32 * Pow2(shift + 5), n * Pow2(shift));
    }
  }

  lemma AddsUp(value: int, low: int, high: int, all: int)
    requires low + high == all
    ensures value + low + high == value + all
  {
  }

  /** The first letter of a quantity with more digits is read, and then the others. */
  lemma ReadsFirstOfMore(n: nat, value: nat, shift: nat, rest: string)
    requires n >= 32 && IsShift(shift) && shift < 30
    ensures n % 32 * Pow2(shift) >= 0
    ensures ReadVlq(Digits(n) + rest, value, shift)
         == ReadVlq(Digits(n / 32) + rest, value + n % 32 * Pow2(shift), shift + 5)
  {
    hide Pow2, ReadVlq, Digits, Digit, Letter;
    FirstLetter(n);
    FirstDigit(Digits(n) + rest, value, shift);
    assert (Digits(n) + rest)[1..] == Digits(n / 32) + rest;
  }

  lemma ReadsLastDigit(n: nat, value: nat, shift: nat, rest: string)
    requires n < 32 && IsShift(shift) && n * Pow2(shift) < WORD
    ensures ReadVlq(Digits(n) + rest, value, shift) == Ok((value + n * Pow2(shift), rest))
  {
    hide Pow2, ReadVlq, Digits, Digit, Letter;
    Pow2Values();
    FirstLetter(n);
    FirstDigit(Digits(n) + rest, value, shift);
    if n > 3 {
      Times(4, n, Pow2(shift));
    }
    assert (Digits(n) + rest)[1..] == rest;
  }

  /** A quantity with more digits still has room for them, and its remaining digits carry the rest of its weight. */
  lemma MoreFollows(n: nat, shift: nat)
    requires n >= 32 && IsShift(shift) && n * Pow2(shift) < WORD
    ensures shift < 30 && Pow2(shift + 5) == 32 * Pow2(shift)
    ensures n % 32 * Pow2(shift) + n / 32 * Pow2(shift + 5) == n * Pow2(shift)
    ensures n / 32 * Pow2(shift + 5) < WORD
  {
    hide Pow2;
    Pow2Values();
    Times(32, n, Pow2(shift));
    Pow2Step(shift);
    SplitProduct(n, Pow2(shift));
  }

  /** The first letter of a quantity says whether there are more, and carries its lowest five bits. */
  lemma FirstLetter(n: nat)
    ensures n < 32 ==> Digits(n) == [Letter(n)]
    ensures n >= 32 ==> Digits(n) == [Letter(32 + n % 32)] + Digits(n / 32) && (32 + n % 32) % 32 == n % 32
    ensures Digit(Digits(n)[0]) == Some(if n < 32 then n else 32 + n % 32)
  {
    var first := if n < 32 then n else 32 + n % 32;
    assert first < 64 && Digits(n)[0] == Letter(first);
    LetterHasDigit(first);
    hide Digit, Letter;
  }

  lemma LetterHasDigit(digit: nat)
    requires digit < 64
    ensures Digit(Letter(digit)) == Some(digit)
  {
  }

  /** One unfolding of `ReadVlq`. */
  lemma FirstDigit(text: string, value: nat, shift: nat)
    requires text != "" && IsShift(shift) && Digit(text[0]).Some?
    ensures var digit := Digit(text[0]).value;
            ReadVlq(text, value, shift) ==
            if shift == 30 && digit % 32 > 3 then Err(Format)
            else if digit >= 32 then ReadVlq(text[1..], value + digit % 32 * Pow2(shift), shift + 5)
            else Ok((value + digit % 32 * Pow2(shift), text[1..]))
  {
  }

  lemma SplitProduct(n: nat, w: nat)
    ensures n % 32 * w + n / 32 * (32 * w) == n * w
  {
    assert n == n % 32 + 32 * (n / 32);
    assert n * w == (n % 32) * w + (32 * (n / 32)) * w;
    assert (32 * (n / 32)) * w == n / 32 * (32 * w);
  }

  predicate Deltable(x: int) {
    -INT_MAX <= x <= INT_MAX
  }

  /** One printed number is read back, sign included, with 32 bits to spare for it. */
  lemma ReadsNumber(x: int, rest: string)
    requires Deltable(x)
    ensures var r := ReadVlq(PrintVlq(x) + rest, 0, 0);
            r.Ok? && Signed(r.value.0) == x && r.value.1 == rest && PrintVlq(x) != ""
  {
    hide ReadVlq, Digits;
    assert Pow2(0) == 1;
    ReadsDigits(if x < 0 then 2 * -x + 1 else 2 * x, 0, 0, rest);
  }

  lemma {:induction false} ReadsValues(values: seq<int>, read: seq<int>)
    requires |read| + |values| <= 5
    requires forall i :: 0 <= i < |values| ==> Deltable(values[i])
    ensures ReadValues(PrintValues(values), read) == Ok(read + values)
    decreases |values|
  {
    hide ReadVlq, PrintVlq, Signed, Deltable;
    if values != [] {
      ReadsNumber(values[0], PrintValues(values[1..]));
      ReadsValues(values[1..], read + [values[0]]);
      assert read + [values[0]] + values[1..] == read + values;
    } else {
      assert read + values == read;
    }
  }

  // Segments

  ghost predicate InRange(cursor: Cursor) {
    0 <= cursor.source <= INT_MAX && 0 <= cursor.line <= INT_MAX && 0 <= cursor.column <= INT_MAX
      && 0 <= cursor.name <= INT_MAX
  }

  lemma ReadsSegment(stored: StoredMap, cursor: Cursor, column: int, m: Mapping)
    requires Expressible(stored, m) && InRange(cursor) && 0 <= column <= INT_MAX
    ensures ReadSegment(stored, cursor, column, PrintValues(Deltas(cursor, column, m)))
         == Ok(Decoded(m.column, Advance(cursor, m), PositionOf(stored, m)))
    ensures InRange(Advance(cursor, m)) && 0 <= m.column <= INT_MAX
  {
    var values := Deltas(cursor, column, m);
    ReadsValues(values, []);
    assert [] + values == values;
    AppliesDeltas(stored, cursor, column, m);
    hide Apply, ReadValues, PrintValues, Deltas, Advance, Expressible, PositionOf;
  }

  /** Adding the differences back gives the absolute values. */
  lemma AppliesDeltas(stored: StoredMap, cursor: Cursor, column: int, m: Mapping)
    requires Expressible(stored, m) && InRange(cursor) && 0 <= column <= INT_MAX
    ensures Apply(stored, cursor, column, Deltas(cursor, column, m)) ==
      Ok(Decoded(m.column, Advance(cursor, m), PositionOf(stored, m)))
    ensures InRange(Advance(cursor, m)) && 0 <= m.column <= INT_MAX
  {
  }

  /** Reading a printed line yields the last segment at or before the wanted column. */
  lemma {:induction false} ReadsLine(stored: StoredMap, line: seq<Mapping>, wanted: Option<int>, state: LineState)
    requires forall i :: 0 <= i < |line| ==> Expressible(stored, line[i])
    requires InRange(state.cursor) && 0 <= state.column <= INT_MAX && state.segments + |line| <= MAX_SEGMENTS
    ensures InRange(AdvanceAll(state.cursor, line))
    ensures DecodeLine(stored, PrintSegments(line, state.column, state.cursor), wanted, state).Ok?
    ensures var after := DecodeLine(stored, PrintSegments(line, state.column, state.cursor), wanted, state).value;
            && after.cursor == AdvanceAll(state.cursor, line)
            && after.segments == state.segments + |line|
            && after.result == if wanted.Some? then LastOr(stored, line, wanted.value, state.result) else state.result
    decreases |line|
  {
    hide ReadSegment, Deltas, PrintValues, PositionOf, Expressible;
    if line != [] {
      ReadsSegment(stored, state.cursor, state.column, line[0]);
      var result := if wanted.Some? && line[0].column <= wanted.value then PositionOf(stored, line[0])
                    else state.result;
      var next := LineState(line[0].column, Advance(state.cursor, line[0]), state.segments + 1, result);
      assert PrintSegments(line, state.column, state.cursor)[1..] == PrintSegments(line[1..], next.column, next.cursor);
      ReadsLine(stored, line[1..], wanted, next);
    }
  }

  /** The running result after a line, folded from the front as the decoder does. */
  function LastOr(stored: StoredMap, line: seq<Mapping>, column: int,
                  otherwise: Option<SourcePosition>): Option<SourcePosition>
    requires forall i :: 0 <= i < |line| ==> Expressible(stored, line[i])
    decreases |line|
  {
    if line == [] then otherwise
    else LastOr(stored, line[1..], column, if line[0].column <= column then PositionOf(stored, line[0]) else otherwise)
  }

  lemma {:induction false} LastOrIsLast(stored: StoredMap, line: seq<Mapping>, column: int,
                                        otherwise: Option<SourcePosition>)
    requires forall i :: 0 <= i < |line| ==> Expressible(stored, line[i])
    ensures LastOr(stored, line, column, otherwise)
         == if exists i :: 0 <= i < |line| && line[i].column <= column then LastAtOrBefore(stored, line, column)
            else otherwise
    decreases |line|
  {
    if line != [] {
      var next := if line[0].column <= column then PositionOf(stored, line[0]) else otherwise;
      LastOrIsLast(stored, line[1..], column, next);
      FirstMatters(stored, line, column);
      if exists i :: 0 <= i < |line[1..]| && line[1..][i].column <= column {
        var i :| 0 <= i < |line[1..]| && line[1..][i].column <= column;
        assert line[i + 1].column <= column;
      } else {
        forall i | 0 < i < |line| ensures line[i].column > column {
          assert line[1..][i - 1].column > column;
        }
      }
    }
  }

  /** The first segment decides only if no later one is at or before the column. */
  lemma {:induction false} FirstMatters(stored: StoredMap, line: seq<Mapping>, column: int)
    requires line != [] && forall i :: 0 <= i < |line| ==> Expressible(stored, line[i])
    ensures LastAtOrBefore(stored, line, column)
         == if exists i :: 0 <= i < |line[1..]| && line[1..][i].column <= column
            then LastAtOrBefore(stored, line[1..], column)
            else if line[0].column <= column then PositionOf(stored, line[0]) else None
    decreases |line|
  {
    var n := |line| - 1;
    if n == 0 {
      assert line[..0] == [];
    } else if line[n].column <= column {
      assert line[1..][n - 1] == line[n];
    } else {
      FirstMatters(stored, line[..n], column);
      assert line[..n][1..] == line[1..][..n - 1];
      if exists i :: 0 <= i < |line[..n][1..]| && line[..n][1..][i].column <= column {
        var i :| 0 <= i < |line[..n][1..]| && line[..n][1..][i].column <= column;
        assert line[1..][i].column <= column;
      } else {
        forall i | 0 <= i < n ensures line[1..][i].column > column {
          if i < n - 1 {
            assert line[..n][1..][i].column > column;
          }
        }
      }
    }
  }

  // Separators

  ghost predicate Clean(part: string) {
    forall i :: 0 <= i < |part| ==> part[i] != ',' && part[i] != ';'
  }

  lemma {:induction false} SplitClean(part: string, separator: char, rest: string)
    requires forall i :: 0 <= i < |part| ==> part[i] != separator
    ensures Split(part, separator) == [part]
    ensures Split(part + [separator] + rest, separator) == [part] + Split(rest, separator)
    decreases |part|
  {
    var text := part + [separator] + rest;
    if part == "" {
      assert text[1..] == rest;
    } else {
      SplitClean(part[1..], separator, rest);
      assert text[1..] == part[1..] + [separator] + rest;
      assert [part[0]] + part[1..] == part;
    }
  }

  lemma {:induction false} SplitJoin(parts: seq<string>, separator: char)
    requires parts != []
    requires forall i, j :: 0 <= i < |parts| && 0 <= j < |parts[i]| ==> parts[i][j] != separator
    ensures Split(Join(parts, separator), separator) == parts
    decreases |parts|
  {
    if |parts| == 1 {
      SplitClean(parts[0], separator, "");
    } else {
      SplitJoin(parts[1..], separator);
      SplitClean(parts[0], separator, Join(parts[1..], separator));
      assert Join(parts, separator) == parts[0] + [separator] + Join(parts[1..], separator);
    }
  }

  lemma {:induction false} NonEmptyKeepsAll(parts: seq<string>)
    requires forall i :: 0 <= i < |parts| ==> parts[i] != ""
    ensures NonEmpty(parts) == parts
    decreases |parts|
  {
    if parts != [] {
      NonEmptyKeepsAll(parts[1..]);
    }
  }

  lemma {:induction false} DigitsClean(n: nat)
    ensures Clean(Digits(n))
  {
    if n >= 32 {
      DigitsClean(n / 32);
    }
  }

  lemma {:induction false} ValuesClean(values: seq<int>)
    ensures Clean(PrintValues(values)) && (values != [] ==> PrintValues(values) != "")
    decreases |values|
  {
    if values != [] {
      var x := values[0];
      DigitsClean(if x < 0 then 2 * -x + 1 else 2 * x);
      ValuesClean(values[1..]);
    }
  }

  lemma {:induction false} SegmentsClean(line: seq<Mapping>, column: int, cursor: Cursor)
    ensures forall i :: 0 <= i < |PrintSegments(line, column, cursor)| ==>
      Clean(PrintSegments(line, column, cursor)[i]) && PrintSegments(line, column, cursor)[i] != ""
    decreases |line|
  {
    if line != [] {
      ValuesClean(Deltas(cursor, column, line[0]));
      SegmentsClean(line[1..], line[0].column, Advance(cursor, line[0]));
    }
  }

  lemma {:induction false} JoinClean(parts: seq<string>)
    requires forall i :: 0 <= i < |parts| ==> Clean(parts[i])
    ensures forall i :: 0 <= i < |Join(parts, ',')| ==> Join(parts, ',')[i] != ';'
    decreases |parts|
  {
    if |parts| > 1 {
      JoinClean(parts[1..]);
    }
  }

  /** Cutting a printed line gives back its segments. */
  lemma SegmentsOfLine(line: seq<Mapping>, cursor: Cursor)
    ensures Segments(Join(PrintSegments(line, 0, cursor), ',')) == PrintSegments(line, 0, cursor)
    ensures forall i :: 0 <= i < |Join(PrintSegments(line, 0, cursor), ',')| ==>
      Join(PrintSegments(line, 0, cursor), ',')[i] != ';'
  {
    var parts := PrintSegments(line, 0, cursor);
    SegmentsClean(line, 0, cursor);
    JoinClean(parts);
    if line == [] {
      assert Split("", ',') == [""];
      assert NonEmpty([""]) == [];
    } else {
      SplitJoin(parts, ',');
      NonEmptyKeepsAll(parts);
    }
  }

  lemma {:induction false} LinesClean(lines: seq<seq<Mapping>>, cursor: Cursor)
    ensures var parts := PrintLines(lines, cursor);
            |parts| == |lines| && forall i, j :: 0 <= i < |parts| && 0 <= j < |parts[i]| ==> parts[i][j] != ';'
    decreases |lines|
  {
    if lines != [] {
      SegmentsOfLine(lines[0], cursor);
      LinesClean(lines[1..], AdvanceAll(cursor, lines[0]));
    }
  }

  // Whole maps

  lemma {:induction false} ReadsLines(stored: StoredMap, lines: seq<seq<Mapping>>, line: int, column: int,
                                      state: LineState)
    requires AllExpressible(stored, lines) && InRange(state.cursor) && state.segments + Count(lines) <= MAX_SEGMENTS
    ensures DecodeLines(stored, PrintLines(lines, state.cursor), line, column, state)
         == Ok(if 0 <= line < |lines| then LastOr(stored, lines[line], column, state.result) else state.result)
    decreases |lines|
  {
    hide DecodeLine, Segments, Join, PrintSegments, Expressible;
    if lines != [] {
      SegmentsOfLine(lines[0], state.cursor);
      var wanted := if line == 0 then Some(column) else None;
      var begin := state.(column := 0);
      forall j | 0 <= j < |lines[0]| ensures Expressible(stored, lines[0][j]) {
      }
      ReadsLine(stored, lines[0], wanted, begin);
      var next := DecodeLine(stored, PrintSegments(lines[0], 0, state.cursor), wanted, begin).value;
      assert AllExpressible(stored, lines[1..]) by {
        forall i, j | 0 <= i < |lines[1..]| && 0 <= j < |lines[1..][i]| ensures Expressible(stored, lines[1..][i][j]) {
          assert lines[1..][i] == lines[i + 1];
        }
      }
      ReadsLines(stored, lines[1..], line - 1, column, next);
    }
  }

  /**
    Round trip: for every list of lines of expressible segments, at most 16384 in all, decoding
    what the printer wrote answers every question with the last segment on the requested line at or
    before the requested column.
   */
  lemma DecodePrint(stored: StoredMap, lines: seq<seq<Mapping>>, line: int, column: int)
    requires AllExpressible(stored, lines) && Count(lines) <= MAX_SEGMENTS
    requires stored.mappings == Print(lines)
    ensures Decode(stored, line, column) == Ok(Lookup(stored, lines, line, column))
  {
    var parts := PrintLines(lines, START);
    LinesClean(lines, START);
    if lines != [] {
      SplitJoin(parts, ';');
      ReadsLines(stored, lines, line, column, BEGIN);
      if 0 <= line < |lines| {
        LastOrIsLast(stored, lines[line], column, None);
        NothingBefore(stored, lines[line], column);
      }
    } else {
      assert Segments("") == [] by {
        assert Split("", ',') == [""];
        assert NonEmpty([""]) == [];
      }
      assert Split("", ';') == [""];
      assert DecodeLines(stored, [""], line, column, BEGIN) == DecodeLines(stored, [], line - 1, column, BEGIN);
    }
  }

  lemma {:induction false} NothingBefore(stored: StoredMap, line: seq<Mapping>, column: int)
    requires forall i :: 0 <= i < |line| ==> Expressible(stored, line[i])
    ensures (forall i :: 0 <= i < |line| ==> line[i].column > column) ==> LastAtOrBefore(stored, line, column) == None
    decreases |line|
  {
    if line != [] {
      NothingBefore(stored, line[..|line| - 1], column);
    }
  }

  /** The answer is the last segment at or before the requested column. */
  lemma {:induction false} AnswerIsLast(stored: StoredMap, line: seq<Mapping>, column: int, k: nat)
    requires forall i :: 0 <= i < |line| ==> Expressible(stored, line[i])
    requires k < |line| && line[k].column <= column && forall i :: k < i < |line| ==> line[i].column > column
    ensures LastAtOrBefore(stored, line, column) == PositionOf(stored, line[k])
    decreases |line|
  {
    hide PositionOf;
    if k < |line| - 1 {
      AnswerIsLast(stored, line[..|line| - 1], column, k);
    }
  }

  /** With columns in order, it is the segment at the greatest column not after the requested one. */
  lemma SortedIsGreatestLowerBound(stored: StoredMap, line: seq<Mapping>, column: int, k: nat)
    requires forall i :: 0 <= i < |line| ==> Expressible(stored, line[i])
    requires forall i, j :: 0 <= i < j < |line| ==> line[i].column <= line[j].column
    requires k < |line| && line[k].column <= column && (k + 1 < |line| ==> line[k + 1].column > column)
    ensures LastAtOrBefore(stored, line, column) == PositionOf(stored, line[k])
    ensures forall i :: 0 <= i < |line| && line[i].column <= column ==> i <= k && line[i].column <= line[k].column
  {
    hide PositionOf;
    forall i | k < i < |line| ensures line[i].column > column {
      assert line[k + 1].column <= line[i].column;
    }
    AnswerIsLast(stored, line, column, k);
  }

  // Failure does not depend on the question

  ghost predicate SameButResult(a: Result<LineState, Fault>, b: Result<LineState, Fault>) {
    (a.Ok? && b.Ok? && a.value == b.value.(result := a.value.result)) || (a.Err? && b.Err? && a.error == b.error)
  }

  lemma {:induction false} LineFailureIndependent(
    stored: StoredMap, segments: seq<string>, wanted: Option<int>, other: Option<int>, state: LineState,
    result: Option<SourcePosition>)
    ensures SameButResult(DecodeLine(stored, segments, wanted, state),
                          DecodeLine(stored, segments, other, state.(result := result)))
    decreases |segments|
  {
    if segments != [] && state.segments < MAX_SEGMENTS {
      var read := ReadSegment(stored, state.cursor, state.column, segments[0]);
      if read.Ok? {
        var decoded := read.value;
        var first := if wanted.Some? && decoded.column <= wanted.value then decoded.position else state.result;
        var second := if other.Some? && decoded.column <= other.value then decoded.position else result;
        LineFailureIndependent(stored, segments[1..], wanted, other,
                               LineState(decoded.column, decoded.cursor, state.segments + 1, first), second);
      }
    }
  }

  lemma {:induction false} LinesFailureIndependent(
    stored: StoredMap, lines: seq<string>, line: int, column: int, line': int, column': int, state: LineState,
    result: Option<SourcePosition>)
    ensures var a := DecodeLines(stored, lines, line, column, state);
            var b := DecodeLines(stored, lines, line', column', state.(result := result));
            (a.Ok? && b.Ok?) || (a.Err? && b.Err? && a.error == b.error)
    decreases |lines|
  {
    hide DecodeLine, Segments;
    if lines != [] {
      var wanted := if line == 0 then Some(column) else None;
      var other := if line' == 0 then Some(column') else None;
      var begin := state.(column := 0);
      LineFailureIndependent(stored, Segments(lines[0]), wanted, other, begin, result);
      var a := DecodeLine(stored, Segments(lines[0]), wanted, begin);
      var b := DecodeLine(stored, Segments(lines[0]), other, begin.(result := result));
      if a.Ok? {
        LinesFailureIndependent(stored, lines[1..], line - 1, column, line' - 1, column', a.value, b.value.result);
      }
    }
  }

  /** A map accepted at one position is decoded without failing at every other. */
  lemma FailureIndependent(stored: StoredMap, line: int, column: int, line': int, column': int)
    ensures var a := Decode(stored, line, column);
            var b := Decode(stored, line', column');
            (a.Ok? <==> b.Ok?) && (a.Err? ==> b.Err? && a.error == b.error)
  {
    LinesFailureIndependent(stored, Split(stored.mappings, ';'), line, column, line', column', BEGIN, None);
  }

  // What an accepted map means

  /** The segment a decoded one stands for, in absolute terms. */
  function SegmentMeaning(d: Decoded): Mapping {
    Mapping(d.column,
            if d.position.None? then None
            else Some(Original(d.cursor.source, d.cursor.line, d.cursor.column,
                               if d.position.value.func.Some? then Some(d.cursor.name) else None)))
  }

  lemma SegmentSound(stored: StoredMap, cursor: Cursor, column: int, text: string)
    requires ReadSegment(stored, cursor, column, text).Ok?
    ensures var d := ReadSegment(stored, cursor, column, text).value;
            Expressible(stored, SegmentMeaning(d)) && PositionOf(stored, SegmentMeaning(d)) == d.position
  {
    hide ReadValues;
  }

  function LineMeaning(stored: StoredMap, segments: seq<string>, column: int, cursor: Cursor): seq<Mapping>
    decreases |segments|
  {
    if segments == [] then []
    else match ReadSegment(stored, cursor, column, segments[0])
      case Err(_) => []
      case Ok(d) => [SegmentMeaning(d)] + LineMeaning(stored, segments[1..], d.column, d.cursor)
  }

  /**
    A line that decodes consists of expressible segments, and the decoder takes the last one at or
    before the wanted column.
   */
  lemma {:induction false} LineSound(stored: StoredMap, segments: seq<string>, wanted: Option<int>, state: LineState)
    requires DecodeLine(stored, segments, wanted, state).Ok?
    ensures var line := LineMeaning(stored, segments, state.column, state.cursor);
            var after := DecodeLine(stored, segments, wanted, state).value;
            && (forall i :: 0 <= i < |line| ==> Expressible(stored, line[i]))
            && after.segments == state.segments + |line|
            && (state.segments <= MAX_SEGMENTS ==> after.segments <= MAX_SEGMENTS)
            && after.result == if wanted.Some? then LastOr(stored, line, wanted.value, state.result) else state.result
    decreases |segments|
  {
    hide ReadSegment, SegmentMeaning, Expressible, PositionOf;
    if segments != [] {
      SegmentSound(stored, state.cursor, state.column, segments[0]);
      var d := ReadSegment(stored, state.cursor, state.column, segments[0]).value;
      var result := if wanted.Some? && d.column <= wanted.value then d.position else state.result;
      var next := LineState(d.column, d.cursor, state.segments + 1, result);
      LineSound(stored, segments[1..], wanted, next);
      MeaningColumn(d);
      var rest := LineMeaning(stored, segments[1..], d.column, d.cursor);
      assert ([SegmentMeaning(d)] + rest)[1..] == rest;
    }
  }

  lemma MeaningColumn(d: Decoded)
    ensures SegmentMeaning(d).column == d.column
  {
  }

  function MapMeaning(stored: StoredMap, lines: seq<string>, state: LineState): seq<seq<Mapping>>
    decreases |lines|
  {
    if lines == [] then []
    else match DecodeLine(stored, Segments(lines[0]), None, state.(column := 0))
      case Err(_) => []
      case Ok(next) => [LineMeaning(stored, Segments(lines[0]), 0, state.cursor)] + MapMeaning(stored, lines[1..], next)
  }

  lemma {:induction false} LinesSound(stored: StoredMap, lines: seq<string>, line: int, column: int, state: LineState,
                                      other: LineState)
    requires DecodeLines(stored, lines, line, column, state).Ok?
             && other == state.(column := other.column, result := other.result)
    ensures var meaning := MapMeaning(stored, lines, other);
            && AllExpressible(stored, meaning) && |meaning| == |lines|
            && (state.segments <= MAX_SEGMENTS ==> state.segments + Count(meaning) <= MAX_SEGMENTS)
            && DecodeLines(stored, lines, line, column, state)
               == Ok(if 0 <= line < |meaning| then LastOr(stored, meaning[line], column, state.result)
                     else state.result)
    decreases |lines|
  {
    hide DecodeLine, Segments, LineMeaning, Expressible, LastOr;
    if lines != [] {
      var segments := Segments(lines[0]);
      var wanted := if line == 0 then Some(column) else None;
      var begin := state.(column := 0);
      LineFailureIndependent(stored, segments, wanted, None, begin, other.result);
      assert other.(column := 0) == begin.(result := other.result);
      var next := DecodeLine(stored, segments, wanted, begin).value;
      var next' := DecodeLine(stored, segments, None, other.(column := 0)).value;
      LineSound(stored, segments, wanted, begin);
      LinesSound(stored, lines[1..], line - 1, column, next, next');
      FirstLine(stored, LineMeaning(stored, segments, 0, state.cursor), MapMeaning(stored, lines[1..], next'));
    }
  }

  lemma FirstLine(stored: StoredMap, first: seq<Mapping>, rest: seq<seq<Mapping>>)
    requires AllExpressible(stored, rest) && forall i :: 0 <= i < |first| ==> Expressible(stored, first[i])
    ensures AllExpressible(stored, [first] + rest) && Count([first] + rest) == |first| + Count(rest)
  {
    hide Expressible;
    var all := [first] + rest;
    assert all[1..] == rest;
    forall i, j | 0 <= i < |all| && 0 <= j < |all[i]| ensures Expressible(stored, all[i][j]) {
      assert i > 0 ==> all[i] == rest[i - 1];
    }
  }

  /**
    A map that is accepted means something: lines of expressible segments, one line for each part
    of its text, at most 16384 segments in all, and decoding at any position looks that position up
    in them.
   */
  lemma AcceptedMapsMeanLines(stored: StoredMap, line: int, column: int)
    requires Decode(stored, 0, 0).Ok?
    ensures var meaning := MapMeaning(stored, Split(stored.mappings, ';'), BEGIN);
            && AllExpressible(stored, meaning) && Count(meaning) <= MAX_SEGMENTS
               && |meaning| == |Split(stored.mappings, ';')|
            && Decode(stored, line, column) == Ok(Lookup(stored, meaning, line, column))
  {
    FailureIndependent(stored, 0, 0, line, column);
    var parts := Split(stored.mappings, ';');
    LinesSound(stored, parts, line, column, BEGIN, BEGIN);
    var meaning := MapMeaning(stored, parts, BEGIN);
    if 0 <= line < |meaning| {
      LastOrIsLast(stored, meaning[line], column, None);
      NothingBefore(stored, meaning[line], column);
    }
  }

  /** Printing what an accepted map means gives a canonical map that answers every question alike. */
  lemma CanonicalForm(stored: StoredMap, line: int, column: int)
    requires Decode(stored, 0, 0).Ok?
    ensures var canonical := stored.(mappings := Print(MapMeaning(stored, Split(stored.mappings, ';'), BEGIN)));
            Decode(canonical, line, column) == Decode(stored, line, column)
  {
    var meaning := MapMeaning(stored, Split(stored.mappings, ';'), BEGIN);
    var canonical := stored.(mappings := Print(meaning));
    AcceptedMapsMeanLines(stored, line, column);
    hide Decode, MapMeaning, LastAtOrBefore, Print, Split;
    SameTables(stored, canonical, meaning, line, column);
    DecodePrint(canonical, meaning, line, column);
  }

  /** What lines mean depends on a map's tables only. */
  lemma SameTables(a: StoredMap, b: StoredMap, lines: seq<seq<Mapping>>, line: int, column: int)
    requires a.sources == b.sources && a.names == b.names && AllExpressible(a, lines)
    ensures AllExpressible(b, lines) && Lookup(a, lines, line, column) == Lookup(b, lines, line, column)
  {
    forall i, j | 0 <= i < |lines| && 0 <= j < |lines[i]| ensures Expressible(b, lines[i][j]) {
      assert Expressible(a, lines[i][j]);
    }
    if 0 <= line < |lines| {
      SameAnswers(a, b, lines[line], column);
    }
  }

  lemma {:induction false} SameAnswers(a: StoredMap, b: StoredMap, line: seq<Mapping>, column: int)
    requires a.sources == b.sources && a.names == b.names
    requires forall i :: 0 <= i < |line| ==> Expressible(a, line[i]) && Expressible(b, line[i])
    ensures LastAtOrBefore(a, line, column) == LastAtOrBefore(b, line, column)
    decreases |line|
  {
    if line != [] {
      SameAnswers(a, b, line[..|line| - 1], column);
    }
  }
}
