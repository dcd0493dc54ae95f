/**
  Base32 (section 6 of RFC 4648) as the sign-in tests decode it: a signed 32-bit buffer is shifted
  left five bits per character and bytes are cut from it, its upper bits never being cleared. A
  word is represented by its bit pattern, a number below 2^32.
 */
module Base32 {
  import opened Wrappers
  import SM = SourceMaps

  const WORD := SM.WORD

  // Words

  /** The number a word stands for. */
  function Signed(word: nat): int {
    if word >= WORD / 2 then word - WORD else word
  }

  /** The arithmetic right shift rounds down, which is what copying the sign bit does. */
  function ShiftRight(word: nat, n: nat): int {
    Signed(word) / SM.Pow2(n)
  }

  lemma Products(x: int, y: int)
    ensures (2 * x) * y == 2 * (x * y)
    ensures x >= 1 && y > 0 ==> x * y >= y
  {
  }

  lemma {:induction false} PowerAdds(a: nat, b: nat)
    ensures SM.Pow2(a) * SM.Pow2(b) == SM.Pow2(a + b)
    ensures SM.Pow2(b) <= SM.Pow2(a + b)
    ensures a + b == 32 ==> SM.Pow2(a + b) == WORD
  {
    if a > 0 {
      PowerAdds(a - 1, b);
      assert SM.Pow2(a) == 2 * SM.Pow2(a - 1) && SM.Pow2(a + b) == 2 * SM.Pow2(a - 1 + b);
      hide SM.Pow2;
      Products(SM.Pow2(a - 1), SM.Pow2(b));
      SmallPowers();
    } else {
      assert SM.Pow2(0) == 1;
      hide SM.Pow2;
      SmallPowers();
    }
  }

  lemma SmallPowers()
    ensures SM.Pow2(0) == 1 && SM.Pow2(5) == 32 && SM.Pow2(8) == 256
    ensures SM.Pow2(24) == 0x100_0000 && SM.Pow2(27) == 0x800_0000 && SM.Pow2(32) == WORD
  {
    assert SM.Pow2(8) == 256;
    assert SM.Pow2(16) == 0x1_0000;
    assert SM.Pow2(24) == 0x100_0000;
    assert SM.Pow2(32) == WORD;
  }

  lemma Ordered(m: int, a: int, b: int)
    requires m > 0 && a < b
    ensures m * a + m <= m * b
  {
    assert m * (b - a) >= m by {
      Products(b - a, m);
    }
    assert m * (b - a) == m * b - m * a;
  }

  /** A number determines its quotient and its remainder. */
  lemma DivModUnique(x: int, m: int, q: int, r: int)
    requires m > 0 && 0 <= r < m && x == m * q + r
    ensures x / m == q && x % m == r
  {
    DivMod(x, m);
    Unique(m, x / m, x % m, q, r);
  }

  lemma DivMod(x: int, m: int)
    requires m > 0
    ensures x == m * (x / m) + x % m && 0 <= x % m < m
  {
  }

  lemma Unique(m: int, k: int, s: int, q: int, r: int)
    requires m > 0 && 0 <= r < m && 0 <= s < m && m * k + s == m * q + r
    ensures k == q && s == r
  {
    if k < q {
      Ordered(m, k, q);
    } else if q < k {
      Ordered(m, q, k);
    }
  }

  // Bit strings, most significant bit first

  type Bits = seq<nat>

  ghost predicate IsBits(bits: Bits) {
    forall i :: 0 <= i < |bits| ==> bits[i] < 2
  }

  function BitsOf(n: nat, k: nat): (bits: Bits)
    ensures |bits| == k && IsBits(bits)
  {
    if k == 0 then [] else BitsOf(n / 2, k - 1) + [n % 2]
  }

  function Number(bits: Bits): nat {
    if bits == [] then 0 else 2 * Number(bits[..|bits| - 1]) + bits[|bits| - 1]
  }

  lemma {:induction false} NumberOfBits(n: nat, k: nat)
    requires n < SM.Pow2(k)
    ensures Number(BitsOf(n, k)) == n
  {
    if k > 0 {
      NumberOfBits(n / 2, k - 1);
      assert BitsOf(n, k)[..k - 1] == BitsOf(n / 2, k - 1);
    }
  }

  lemma {:induction false} BitsOfNumber(bits: Bits)
    requires IsBits(bits)
    ensures BitsOf(Number(bits), |bits|) == bits && Number(bits) < SM.Pow2(|bits|)
  {
    hide BitsOf, Number;
    NoBits();
    if bits != [] {
      var n := |bits| - 1;
      BitsOfNumber(bits[..n]);
      LastBit(bits);
      LastOfBits(Number(bits[..n]), n, bits[n]);
      assert bits == bits[..n] + [bits[n]] && SM.Pow2(n + 1) == 2 * SM.Pow2(n);
    }
  }

  lemma {:induction false} NumberAppend(a: Bits, b: Bits)
    ensures Number(a + b) == Number(a) * SM.Pow2(|b|) + Number(b)
  {
    if b == [] {
      assert a + b == a && SM.Pow2(0) == 1;
    } else {
      var n := |b| - 1;
      assert SM.Pow2(|b|) == 2 * SM.Pow2(n);
      hide Number, SM.Pow2;
      NumberAppend(a, b[..n]);
      assert (a + b)[..|a| + n] == a + b[..n];
      LastBit(a + b);
      LastBit(b);
      Doubled(Number(a), SM.Pow2(n));
    }
  }

  lemma LastBit(bits: Bits)
    requires bits != []
    ensures Number(bits) == 2 * Number(bits[..|bits| - 1]) + bits[|bits| - 1]
  {
  }

  lemma Doubled(x: int, y: int)
    ensures x * (2 * y) == 2 * (x * y)
  {
  }

  /** Five bits of each value. */
  function Fives(values: seq<nat>): (bits: Bits)
    ensures |bits| == 5 * |values| && IsBits(bits)
  {
    if values == [] then [] else Fives(values[..|values| - 1]) + BitsOf(values[|values| - 1], 5)
  }

  /** The whole bytes at the front of a bit string. */
  function Bytes(bits: Bits): seq<nat>
    decreases |bits|
  {
    if |bits| < 8 then [] else [Number(bits[..8])] + Bytes(bits[8..])
  }

  lemma {:induction false} BytesAppend(a: Bits, b: Bits)
    requires |a| % 8 == 0
    ensures Bytes(a + b) == Bytes(a) + Bytes(b) && 8 * |Bytes(a)| == |a|
    decreases |a|
  {
    hide Number, Bytes;
    FirstByte(a);
    if a == [] {
      assert a + b == b;
    } else {
      BytesAppend(a[8..], b);
      FirstByte(a + b);
      assert (a + b)[..8] == a[..8];
      assert (a + b)[8..] == a[8..] + b;
    }
  }

  lemma FirstByte(bits: Bits)
    ensures |bits| < 8 ==> Bytes(bits) == []
    ensures |bits| >= 8 ==> Bytes(bits) == [Number(bits[..8])] + Bytes(bits[8..])
  {
    hide Number;
  }

  // Text

  predicate IsPadding(c: char) {
    c == '='
  }

  function StripPadding(secret: string): string {
    if secret != "" && IsPadding(secret[|secret| - 1]) then StripPadding(secret[..|secret| - 1]) else secret
  }

  /**
    How the platform upper-cases a character outside ASCII; there are some whose upper case is one
    or more ASCII letters.
   */
  type Casing = char -> string

  function Upper(c: char, casing: Casing): string {
    if 'a' <= c <= 'z' then [(c as int - 32) as char] else if c < 128 as char then [c] else casing(c)
  }

  function UpperCase(text: string, casing: Casing): string {
    if text == "" then "" else UpperCase(text[..|text| - 1], casing) + Upper(text[|text| - 1], casing)
  }

  /** What is left to decode. */
  function Cleaned(secret: string, casing: Casing): string {
    UpperCase(StripPadding(secret), casing)
  }

  function Letter(value: nat): (c: char)
    requires value < 32
    ensures ValueOf(c) == Some(value) && !IsPadding(c)
  {
    if value < 26 then 'A' + value as char else '2' + (value - 26) as char
  }

  /** The position of a character in the alphabet. */
  function ValueOf(c: char): (value: Option<nat>)
    ensures value.Some? ==> value.value < 32
  {
    if 'A' <= c <= 'Z' then Some(c as nat - 'A' as nat)
    else if '2' <= c <= '7' then Some(c as nat - '2' as nat + 26) else None
  }

  function Alphabet(): (alphabet: string)
    ensures |alphabet| == 32
  {
    "ABCDEFGHIJKLMNOP" + "QRSTUVWXYZ234567"
  }

  lemma AlphabetAt(value: nat)
    requires value < 32
    ensures Alphabet()[value] == Letter(value)
  {
    var a, b := "ABCDEFGHIJKLMNOP", "QRSTUVWXYZ234567";
    assert Alphabet() == a + b;
    hide Alphabet;
    if value < 16 {
      assert (a + b)[value] == a[value];
      FirstAt(value);
    } else {
      assert (a + b)[value] == b[value - 16];
      SecondAt(value - 16);
    }
  }

  lemma FirstAt(i: nat)
    requires i < 16
    ensures "ABCDEFGHIJKLMNOP"[i] == Letter(i)
  {
  }

  lemma SecondAt(i: nat)
    requires i < 16
    ensures "QRSTUVWXYZ234567"[i] == Letter(i + 16)
  {
  }

  /** The value of a character is its position in the alphabet, and no other character has one. */
  lemma ValueExactly(c: char, value: nat)
    ensures ValueOf(c) == Some(value) <==> value < 32 && c == Alphabet()[value]
    ensures ValueOf(c).None? <==> c !in Alphabet()
  {
    hide Alphabet, Letter;
    forall v: nat | v < 32 ensures ValueOf(Alphabet()[v]) == Some(v) {
      AlphabetAt(v);
    }
    if ValueOf(c).Some? {
      LetterIs(c);
      AlphabetAt(ValueOf(c).value);
    }
    hide ValueOf;
    if c in Alphabet() {
      var v :| 0 <= v < 32 && Alphabet()[v] == c;
    }
  }

  lemma LetterIs(c: char)
    requires ValueOf(c).Some?
    ensures Letter(ValueOf(c).value) == c
  {
  }

  /** The values of all characters, or the first character outside the alphabet. */
  function Values(text: string): (r: Result<seq<nat>, char>)
    ensures r.Ok? ==> |r.value| == |text| && forall i :: 0 <= i < |text| ==> r.value[i] < 32
  {
    if text == "" then Ok([])
    else match Values(text[..|text| - 1])
      case Err(c) => Err(c)
      case Ok(values) =>
        match ValueOf(text[|text| - 1])
        case None => Err(text[|text| - 1])
        case Some(value) => Ok(values + [value])
  }

  /** What decoding means: the characters' bits in a row, cut into bytes, an incomplete last byte left out. */
  function Decoded(secret: string, casing: Casing): Result<seq<nat>, char> {
    match Values(Cleaned(secret, casing))
    case Err(c) => Err(c)
    case Ok(values) => Ok(Bytes(Fives(values)))
  }

  lemma {:induction false} ErrorStays(text: string, i: nat)
    requires i < |text| && Values(text[..i]).Ok? && ValueOf(text[i]).None?
    ensures Values(text) == Err(text[i])
    decreases |text|
  {
    var n := |text| - 1;
    if i == n {
      assert text[..n] == text[..i];
    } else {
      assert text[..n][..i] == text[..i];
      ErrorStays(text[..n], i);
    }
  }

  /**
    A secret is refused exactly when its upper case has a character outside the alphabet, and for
    the first such character.
   */
  lemma RefusedExactly(secret: string, casing: Casing)
    ensures var text := Cleaned(secret, casing);
            && (Decoded(secret, casing).Ok? <==> forall i :: 0 <= i < |text| ==> ValueOf(text[i]).Some?)
            && (Decoded(secret, casing).Err? ==>
                  exists i :: 0 <= i < |text| && Decoded(secret, casing).error == text[i]
                              && ValueOf(text[i]).None? && forall j :: 0 <= j < i ==> ValueOf(text[j]).Some?)
  {
    FirstOutside(Cleaned(secret, casing));
  }

  lemma {:induction false} FirstOutside(text: string)
    ensures Values(text).Ok? <==> forall i :: 0 <= i < |text| ==> ValueOf(text[i]).Some?
    ensures Values(text).Err? ==>
      exists i :: 0 <= i < |text| && Values(text).error == text[i] && ValueOf(text[i]).None?
        && forall j :: 0 <= j < i ==> ValueOf(text[j]).Some?
  {
    if text != "" {
      var front := text[..|text| - 1];
      FirstOutside(front);
      if Values(front).Err? {
        var i :| 0 <= i < |front| && Values(front).error == front[i] && ValueOf(front[i]).None?
          && forall j :: 0 <= j < i ==> ValueOf(front[j]).Some?;
        assert text[i] == front[i] && Values(text).error == text[i];
        forall j | 0 <= j < i ensures ValueOf(text[j]).Some? {
          assert text[j] == front[j];
        }
      } else {
        forall j | 0 <= j < |front| ensures ValueOf(text[j]).Some? {
          assert text[j] == front[j];
        }
      }
    }
  }

  // The buffer

  /** Appending five bits below a buffer whose low `left` bits are live keeps exactly those live. */
  lemma PushFive(buffer: nat, value: nat, left: nat)
    requires buffer < WORD && value < 32 && left < 8
    ensures var next := SM.BitOr(value, SM.ShiftLeft(buffer, 5));
            next < WORD && next % SM.Pow2(left + 5) == 32 * (buffer % SM.Pow2(left)) + value
  {
    hide SM.BitOr, SM.Pow2;
    SmallPowers();
    var d := buffer % 0x800_0000;
    assert SM.ShiftLeft(buffer, 5) == d * 32;
    SM.OrAddsHighBits(value, d, 5);
    SM.Pow2Step(left);
    PowerAdds(left, 27 - left);
    LowBits(buffer, value, SM.Pow2(left), SM.Pow2(27 - left));
  }

  lemma LowBits(buffer: nat, value: nat, w: nat, c: nat)
    requires value < 32 && w > 0 && w * c == 0x800_0000
    ensures (value + 32 * (buffer % 0x800_0000)) % (32 * w) == 32 * (buffer % w) + value
  {
    var q, a, b := buffer / 0x800_0000, buffer / w, buffer % w;
    assert buffer == w * a + b;
    assert buffer % 0x800_0000 == buffer - 0x800_0000 * q;
    assert 0x800_0000 * q == w * (c * q);
    assert w * (a - c * q) == w * a - w * (c * q);
    assert (32 * w) * (a - c * q) == 32 * (w * (a - c * q));
    DivModUnique(value + 32 * (buffer % 0x800_0000), 32 * w, a - c * q, 32 * b + value);
  }

  /** A byte cut from the buffer is made of live bits only: neither junk above them nor the copied sign reaches it. */
  lemma CutByte(word: nat, n: nat)
    requires word < WORD && n <= 4
    ensures ShiftRight(word, n) % 256 == word % SM.Pow2(n + 8) / SM.Pow2(n)
    ensures word % SM.Pow2(n) == word % SM.Pow2(n + 8) % SM.Pow2(n)
  {
    hide SM.Pow2;
    SmallPowers();
    PowerAdds(8, n);
    PowerAdds(n, 24 - n);
    var m: nat, c: int := SM.Pow2(n), SM.Pow2(24 - n);
    Quotients(word, m, 0);
    Quotients(word, m, -c);
    DivMod(word, m);
    assert m * (word / m - 256 * c) == m * (word / m) - 256 * (m * c);
    DivModUnique(word - WORD, m, word / m - 256 * c, word % m);
  }

  lemma Quotients(word: nat, m: nat, extra: int)
    requires m > 0
    ensures (word / m + 256 * extra) % 256 == word % (256 * m) / m
    ensures word % m == word % (256 * m) % m
  {
    var s, q := word % (256 * m), word / (256 * m);
    var u, v := s / m, s % m;
    assert word == (256 * m) * q + s == m * (256 * q) + s;
    assert s == m * u + v;
    if u >= 256 {
      Ordered(m, 255, u);
    }
    assert m * (256 * q + u) == m * (256 * q) + m * u;
    DivModUnique(word, m, 256 * q + u, v);
    DivModUnique(word / m + 256 * extra, 256, q + extra, u);
  }

  // Decoding

  /** The low `left` bits of the buffer are the bits read and not yet cut off. */
  ghost predicate Live(buffer: nat, left: nat, rest: Bits) {
    buffer < WORD && IsBits(rest) && |rest| == left && buffer % SM.Pow2(left) == Number(rest)
  }

  /** The bytes cut so far are those of the bits behind. */
  ghost predicate Cut(done: Bits, bytes: seq<nat>) {
    |done| % 8 == 0 && bytes == Bytes(done)
  }

  /**
    The decoder's loop computes what decoding means, for every text and every casing of the
    characters outside ASCII.
   */
  method Decode(secret: string, casing: Casing) returns (r: Result<seq<nat>, char>)
    ensures r == Decoded(secret, casing)
  {
    DecodeStart();
    hide SM.BitOr, ShiftRight, SM.ShiftLeft, BitsOf, Fives, Bytes, ValueOf, Values, Cleaned, Live, Cut;
    var cleaned := Cleaned(secret, casing);
    var bytes: seq<nat> := [];
    var buffer: nat, bitsLeft: nat := 0, 0;
    ghost var values, done, rest: Bits := [], [], [];
    for i := 0 to |cleaned|
      invariant bitsLeft < 8 && Live(buffer, bitsLeft, rest) && Cut(done, bytes)
      invariant Values(cleaned[..i]) == Ok(values)
      invariant Fives(values) == done + rest
    {
      var value := ValueOf(cleaned[i]);
      if value.None? {
        ErrorStays(cleaned, i);
        return Err(cleaned[i]);
      }
      assert cleaned[..i + 1] == cleaned[..i] + [cleaned[i]];
      ReadsOne(cleaned[..i], cleaned[i], values, value.value);
      AppendFive(values, done, rest, buffer, value.value, bitsLeft);
      values := values + [value.value];
      rest := rest + BitsOf(value.value, 5);
      buffer := SM.BitOr(value.value, SM.ShiftLeft(buffer, 5));
      bitsLeft := bitsLeft + 5;
      if bitsLeft >= 8 {
        bitsLeft := bitsLeft - 8;
        TakeByte(done, rest, bytes, buffer, bitsLeft);
        bytes := bytes + [ShiftRight(buffer, bitsLeft) % 256];
        done, rest := done + rest[..8], rest[8..];
      }
    }
    assert cleaned[..|cleaned|] == cleaned;
    Finished(done, rest, bytes, buffer, bitsLeft);
    r := Ok(bytes);
  }

  lemma DecodeStart()
    ensures Live(0, 0, []) && Cut([], []) && Fives([]) == [] + [] && Values("") == Ok([])
  {
  }

  lemma Finished(done: Bits, rest: Bits, bytes: seq<nat>, buffer: nat, left: nat)
    requires Live(buffer, left, rest) && left < 8 && Cut(done, bytes)
    ensures Bytes(done + rest) == bytes
  {
    BytesAppend(done, rest);
    NoByte(rest);
    assert bytes + [] == bytes;
  }

  lemma NoByte(bits: Bits)
    requires |bits| < 8
    ensures Bytes(bits) == []
  {
  }

  /** A character's five bits join the live ones. */
  lemma AppendFive(values: seq<nat>, done: Bits, rest: Bits, buffer: nat, value: nat, left: nat)
    requires Fives(values) == done + rest && Live(buffer, left, rest) && value < 32 && left < 8
    ensures Fives(values + [value]) == done + (rest + BitsOf(value, 5))
    ensures Live(SM.BitOr(value, SM.ShiftLeft(buffer, 5)), left + 5, rest + BitsOf(value, 5))
  {
    hide SM.Pow2, Number, BitsOf, Fives, SM.BitOr, SM.ShiftLeft;
    PushFive(buffer, value, left);
    FivesAppend(values, value);
    SmallPowers();
    NumberOfBits(value, 5);
    NumberAppend(rest, BitsOf(value, 5));
    assert done + rest + BitsOf(value, 5) == done + (rest + BitsOf(value, 5));
  }

  lemma FivesAppend(values: seq<nat>, value: nat)
    ensures Fives(values + [value]) == Fives(values) + BitsOf(value, 5)
  {
    assert (values + [value])[..|values|] == values;
  }

  /** The first eight of the live bits are the byte cut from the buffer; the others stay live in it. */
  lemma TakeByte(done: Bits, rest: Bits, bytes: seq<nat>, buffer: nat, left: nat)
    requires Cut(done, bytes) && Live(buffer, left + 8, rest) && left <= 4
    ensures |rest| == left + 8 && done + rest == (done + rest[..8]) + rest[8..]
    ensures Cut(done + rest[..8], bytes + [ShiftRight(buffer, left) % 256])
    ensures Live(buffer, left, rest[8..])
  {
    hide SM.Pow2, ShiftRight, Number, Bytes;
    var first, others := rest[..8], rest[8..];
    CutByte(buffer, left);
    Front(first, others, left);
    assert first + others == rest;
    BytesAppend(done, first);
    OneByte(first);
  }

  /** The quotient and the remainder of a number by a power of two are its front and its last bits. */
  lemma Front(first: Bits, others: Bits, left: nat)
    requires IsBits(others) && |others| == left
    ensures Number(first + others) / SM.Pow2(left) == Number(first)
    ensures Number(first + others) % SM.Pow2(left) == Number(others)
  {
    hide SM.Pow2, Number;
    NumberAppend(first, others);
    BitsOfNumber(others);
    DivModUnique(Number(first + others), SM.Pow2(left), Number(first), Number(others));
  }

  lemma OneByte(bits: Bits)
    requires |bits| == 8
    ensures Bytes(bits) == [Number(bits)]
  {
    assert bits[..8] == bits && bits[8..] == [];
  }

  // Encoding

  /** Eight bits of each byte. */
  function Eights(bytes: seq<nat>): (bits: Bits)
    ensures |bits| == 8 * |bytes| && IsBits(bits)
  {
    if bytes == [] then [] else BitsOf(bytes[0], 8) + Eights(bytes[1..])
  }

  function Zeros(n: nat): (bits: Bits)
    ensures |bits| == n && IsBits(bits)
  {
    seq(n, _ => 0)
  }

  /** The last five bits are a number below 32, and it is theirs alone. */
  lemma LastFive(bits: Bits)
    requires IsBits(bits) && bits != [] && |bits| % 5 == 0
    ensures var n := |bits| - 5;
            && n >= 0 && n % 5 == 0 && IsBits(bits[..n])
            && Number(bits[n..]) < 32 && BitsOf(Number(bits[n..]), 5) == bits[n..]
  {
    hide SM.Pow2, Number, BitsOf;
    var last := bits[|bits| - 5..];
    assert |last| == 5;
    BitsOfNumber(last);
    SmallPowers();
  }

  /** Letters for each five bits. */
  function Letters(bits: Bits): string
    requires IsBits(bits) && |bits| % 5 == 0
    decreases |bits|
  {
    if bits == [] then ""
    else
      var n := |bits| - 5;
      hide SM.Pow2, BitsOf, Number, Letter;
      LastFive(bits);
      Letters(bits[..n]) + [Letter(Number(bits[n..]))]
  }

  function Fill(n: nat): (zeros: nat)
    ensures (n + zeros) % 5 == 0 && zeros < 5
  {
    (5 - n % 5) % 5
  }

  /** Section 6 of RFC 4648, without padding: the last group is filled with zero bits. */
  function Encode(bytes: seq<nat>): string {
    Letters(Eights(bytes) + Zeros(Fill(8 * |bytes|)))
  }

  lemma {:induction false} ReadsLetters(bits: Bits)
    requires IsBits(bits) && |bits| % 5 == 0
    ensures Values(Letters(bits)).Ok? && Fives(Values(Letters(bits)).value) == bits
    ensures Letters(bits) == "" || !IsPadding(Letters(bits)[|Letters(bits)| - 1])
    decreases |bits|
  {
    hide SM.Pow2, Number, BitsOf, Fives, ValueOf, Values, Letters;
    LastLetter(bits);
    if bits != [] {
      var n := |bits| - 5;
      ReadsLetters(bits[..n]);
      var value := Number(bits[n..]);
      var front, values := Letters(bits[..n]), Values(Letters(bits[..n])).value;
      ReadsOne(front, Letter(value), values, value);
      FivesAppend(values, value);
      assert bits == bits[..n] + bits[n..];
    } else {
      NoFives();
    }
  }

  lemma LastLetter(bits: Bits)
    requires IsBits(bits) && |bits| % 5 == 0
    ensures bits == [] ==> Letters(bits) == ""
    ensures bits != [] ==>
      && var n := |bits| - 5;
      && n % 5 == 0 && Number(bits[n..]) < 32 && BitsOf(Number(bits[n..]), 5) == bits[n..]
      && Letters(bits) == Letters(bits[..n]) + [Letter(Number(bits[n..]))]
  {
    hide SM.Pow2, Number, BitsOf, ValueOf, Letter;
    if bits != [] {
      LastFive(bits);
    }
  }

  lemma NoFives()
    ensures Fives([]) == [] && Values("") == Ok([])
  {
  }

  lemma ReadsOne(front: string, c: char, values: seq<nat>, value: nat)
    requires Values(front) == Ok(values) && ValueOf(c) == Some(value)
    ensures Values(front + [c]) == Ok(values + [value])
  {
    assert (front + [c])[..|front|] == front;
  }

  lemma {:induction false} BytesOfEights(bytes: seq<nat>, tail: Bits)
    requires |tail| < 8 && forall i :: 0 <= i < |bytes| ==> bytes[i] < 256
    ensures Bytes(Eights(bytes) + tail) == bytes
    decreases |bytes|
  {
    hide Bytes, BitsOf, Number, SM.Pow2;
    var bits := Eights(bytes) + tail;
    FirstByte(bits);
    if bytes != [] {
      BytesOfEights(bytes[1..], tail);
      assert bits[..8] == BitsOf(bytes[0], 8);
      assert bits[8..] == Eights(bytes[1..]) + tail;
      SmallPowers();
      NumberOfBits(bytes[0], 8);
    }
  }

  lemma {:induction false} StripsPadding(text: string, padding: string)
    requires text == "" || !IsPadding(text[|text| - 1])
    requires forall i :: 0 <= i < |padding| ==> IsPadding(padding[i])
    ensures StripPadding(text + padding) == text
    decreases |padding|
  {
    if padding == "" {
      assert text + padding == text;
    } else {
      var n := |padding| - 1;
      StripsPadding(text, padding[..n]);
      assert (text + padding)[..|text| + n] == text + padding[..n];
    }
  }

  lemma {:induction false} LettersStayUpper(text: string, casing: Casing)
    requires Values(text).Ok?
    ensures UpperCase(text, casing) == text
  {
    if text != "" {
      LettersStayUpper(text[..|text| - 1], casing);
    }
  }

  /** Padding is no letter's upper case. */
  lemma NoPaddingBehind(text: string, casing: Casing)
    requires Values(UpperCase(text, casing)).Ok?
    ensures text == "" || !IsPadding(text[|text| - 1])
  {
    hide Values, ValueOf;
    if text != "" {
      PaddingIsNoLetter(UpperCase(text[..|text| - 1], casing));
    }
  }

  lemma PaddingIsNoLetter(front: string)
    ensures Values(front + "=").Err?
  {
    assert (front + "=")[..|front|] == front;
  }

  /**
    Round trip: decoding any text that reads, in upper case, as the encoding of a byte string
    returns the byte string, with whatever padding behind it.
   */
  lemma DecodeEncode(bytes: seq<nat>, text: string, padding: string, casing: Casing)
    requires forall i :: 0 <= i < |bytes| ==> bytes[i] < 256
    requires UpperCase(text, casing) == Encode(bytes)
    requires forall i :: 0 <= i < |padding| ==> IsPadding(padding[i])
    ensures Decoded(text + padding, casing) == Ok(bytes)
  {
    var bits := Eights(bytes) + Zeros(Fill(8 * |bytes|));
    ReadsLetters(bits);
    NoPaddingBehind(text, casing);
    StripsPadding(text, padding);
    BytesOfEights(bytes, Zeros(Fill(8 * |bytes|)));
  }

  /** The encoding itself is such a text. */
  lemma EncodingIsUpper(bytes: seq<nat>, casing: Casing)
    requires forall i :: 0 <= i < |bytes| ==> bytes[i] < 256
    ensures UpperCase(Encode(bytes), casing) == Encode(bytes)
  {
    ReadsLetters(Eights(bytes) + Zeros(Fill(8 * |bytes|)));
    LettersStayUpper(Encode(bytes), casing);
  }

  /** Two bytes in full, as in section 10 of RFC 4648: "fo" is "MZXQ". */
  lemma ExampleDecoded(casing: Casing)
    ensures Decoded("MZXQ====", casing) == Ok([102, 111])
  {
    var text := "MZXQ";
    assert "MZXQ====" == text + "====";
    StripsPadding(text, "====");
    ExampleValues();
    LettersStayUpper(text, casing);
    hide Values, UpperCase, StripPadding;
    ExampleBits();
  }

  lemma ExampleValues()
    ensures Values("MZXQ") == Ok([12, 25, 23, 16])
  {
    assert "" + ['M'] == "M" && "M" + ['Z'] == "MZ" && "MZ" + ['X'] == "MZX" && "MZX" + ['Q'] == "MZXQ";
    assert [] + [12] == [12] && [12] + [25] == [12, 25] && [12, 25] + [23] == [12, 25, 23];
    assert [12, 25, 23] + [16] == [12, 25, 23, 16];
    NoFives();
    ReadsOne("", 'M', [], 12);
    ReadsOne("M", 'Z', [12], 25);
    ReadsOne("MZ", 'X', [12, 25], 23);
    ReadsOne("MZX", 'Q', [12, 25, 23], 16);
  }

  lemma ExampleBits()
    ensures Bytes(Fives([12, 25, 23, 16])) == [102, 111]
  {
    ExampleFives();
    ExampleNumbers();
    hide Fives, Bytes, Number;
    TwoBytes([0, 1, 1, 0, 0, 1, 1, 0], [0, 1, 1, 0, 1, 1, 1, 1], [0, 0, 0, 0]);
    assert [0, 1, 1, 0, 0, 1, 1, 0] + [0, 1, 1, 0, 1, 1, 1, 1] + [0, 0, 0, 0]
        == [0, 1, 1, 0, 0, 1, 1, 0, 0, 1, 1, 0, 1, 1, 1, 1, 0, 0, 0, 0];
  }

  lemma TwoBytes(first: Bits, second: Bits, rest: Bits)
    requires |first| == 8 && |second| == 8 && |rest| < 8
    ensures Bytes(first + second + rest) == [Number(first), Number(second)]
  {
    hide Bytes, Number;
    var bits := first + second + rest;
    assert bits[..8] == first && bits[8..] == second + rest;
    assert (second + rest)[..8] == second && (second + rest)[8..] == rest;
    FirstByte(bits);
    FirstByte(second + rest);
    FirstByte(rest);
    assert [Number(first)] + ([Number(second)] + []) == [Number(first), Number(second)];
  }

  lemma ExampleFives()
    ensures Fives([12, 25, 23, 16]) == [0, 1, 1, 0, 0, 1, 1, 0, 0, 1, 1, 0, 1, 1, 1, 1, 0, 0, 0, 0]
  {
    hide BitsOf, Fives;
    BitsOfFive(12, 0, 1, 1, 0, 0);
    BitsOfFive(25, 1, 1, 0, 0, 1);
    BitsOfFive(23, 1, 0, 1, 1, 1);
    BitsOfFive(16, 1, 0, 0, 0, 0);
    FourFives(12, 25, 23, 16);
  }

  lemma FourFives(a: nat, b: nat, c: nat, d: nat)
    ensures Fives([a, b, c, d]) == BitsOf(a, 5) + BitsOf(b, 5) + BitsOf(c, 5) + BitsOf(d, 5)
  {
    NoFives();
    hide BitsOf, Fives;
    assert [] + [a] == [a] && [a] + [b] == [a, b] && [a, b] + [c] == [a, b, c] && [a, b, c] + [d] == [a, b, c, d];
    FivesAppend([], a);
    FivesAppend([a], b);
    FivesAppend([a, b], c);
    FivesAppend([a, b, c], d);
    assert [] + BitsOf(a, 5) == BitsOf(a, 5);
  }

  lemma LastOfBits(n: nat, k: nat, bit: nat)
    requires bit < 2
    ensures BitsOf(2 * n + bit, k + 1) == BitsOf(n, k) + [bit]
  {
  }

  lemma BitsOfFive(value: nat, a: nat, b: nat, c: nat, d: nat, e: nat)
    requires a < 2 && b < 2 && c < 2 && d < 2 && e < 2 && value == 2 * (2 * (2 * (2 * a + b) + c) + d) + e
    ensures BitsOf(value, 5) == [a, b, c, d, e]
  {
    NoBits();
    hide BitsOf, IsBits;
    var p := 2 * a + b;
    var q := 2 * p + c;
    var r := 2 * q + d;
    LastOfBits(0, 0, a);
    LastOfBits(a, 1, b);
    LastOfBits(p, 2, c);
    LastOfBits(q, 3, d);
    LastOfBits(r, 4, e);
    assert BitsOf(a, 1) == [a];
    assert BitsOf(p, 2) == [a, b];
    assert BitsOf(q, 3) == [a, b, c];
    assert BitsOf(r, 4) == [a, b, c, d];
  }

  lemma ExampleNumbers()
    ensures Number([0, 1, 1, 0, 0, 1, 1, 0]) == 102 && Number([0, 1, 1, 0, 1, 1, 1, 1]) == 111
  {
    NumberOfEight([0, 1, 1, 0, 0, 1, 1, 0]);
    NumberOfEight([0, 1, 1, 0, 1, 1, 1, 1]);
  }

  lemma NumberOfEight(bits: Bits)
    requires |bits| == 8
    ensures Number(bits) ==
      128 * bits[0] + 64 * bits[1] + 32 * bits[2] + 16 * bits[3] + 8 * bits[4] + 4 * bits[5] + 2 * bits[6] + bits[7]
  {
    var f := bits[..7];
    assert f[..6] == bits[..6] && f[..6][..5] == bits[..5] && bits[..5][..4] == bits[..4];
    assert bits[..4][..3] == bits[..3] && bits[..3][..2] == bits[..2] && bits[..2][..1] == bits[..1]
           && bits[..1][..0] == [];
    hide Number;
    LastBit(bits);
    LastBit(bits[..7]);
    assert bits[..6][..5] == bits[..5] && bits[..7][..6] == bits[..6];
    LastBit(bits[..6]);
    LastBit(bits[..5]);
    LastBit(bits[..4]);
    LastBit(bits[..3]);
    LastBit(bits[..2]);
    LastBit(bits[..1]);
    assert Number([]) == 0 by {
      NoBits();
    }
  }

  lemma NoBits()
    ensures Number([]) == 0 && BitsOf(0, 0) == []
  {
  }
}
