/** Base-62 text: the fixed-width printing and parsing of internal/uuidgen, and math/big's. */
module Base62 {
  import opened Bits
  import opened Int64

  const DIGITS: string := "0123456789"
  const LOWER: string := "abcdefghijklmnopqrstuvwxyz"
  const UPPER: string := "ABCDEFGHIJKLMNOPQRSTUVWXYZ"
  const ALPHABET: string := DIGITS + LOWER + UPPER

  /** strings.IndexByte(Alphabet, ch) from position i on. */
  function IndexFrom(ch: char, i: nat): (d: int)
    requires i <= |ALPHABET|
    ensures d == -1 ==> ch !in ALPHABET[i..]
    ensures d != -1 ==> i <= d < |ALPHABET| && ALPHABET[d] == ch
    decreases |ALPHABET| - i
  {
    if i == |ALPHABET| then -1
    else if ALPHABET[i] == ch then i
    else IndexFrom(ch, i + 1)
  }

  function IndexByte(ch: char): int {
    IndexFrom(ch, 0)
  }

  predicate IsDigit(ch: char) {
    IndexByte(ch) >= 0
  }

  predicate AllDigits(s: string) {
    forall i :: 0 <= i < |s| ==> IsDigit(s[i])
  }

  /** math/big's digit order, three runs of code points: so all 62 are different. */
  lemma AlphabetCode(d: nat)
    requires d < 62
    ensures |ALPHABET| == 62
    ensures ALPHABET[d] as int == if d < 10 then '0' as int + d else if d < 36 then 'a' as int + d - 10 else 'A' as int + d - 36
  {
    if d < 10 {
    } else if d < 36 {
      LowerCode(d - 10);
    } else {
      UpperCode(d - 36);
    }
  }

  lemma LowerCode(i: nat)
    requires i < 26
    ensures LOWER[i] as int == 97 + i
  {
    if i < 13 {
    } else {
    }
  }

  lemma UpperCode(i: nat)
    requires i < 26
    ensures UPPER[i] as int == 65 + i
  {
    if i < 13 {
    } else {
    }
  }

  lemma DigitRoundTrip(d: nat)
    requires d < 62
    ensures |ALPHABET| == 62 && IndexByte(ALPHABET[d]) == d
  {
    AlphabetCode(d);
    var e := IndexByte(ALPHABET[d]);
    assert ALPHABET[d] in ALPHABET[0..];
    AlphabetCode(e);
  }

  // ----- fixed width -----

  /** '0' to '9', then 'a' to 'z', then 'A' to 'Z'. */
  function Digit(d: nat): (ch: char)
    requires d < 62
    ensures ch as int == if d < 10 then '0' as int + d else if d < 36 then 'a' as int + d - 10 else 'A' as int + d - 36
  {
    AlphabetCode(d);
    ALPHABET[d]
  }

  lemma CharRoundTrip(ch: char)
    requires IsDigit(ch)
    ensures 0 <= IndexByte(ch) < 62 && Digit(IndexByte(ch)) == ch
  {
    AlphabetCode(0);
  }

  /** The n low base-62 digits of y, most significant first. */
  function Fixed(y: nat, n: nat): (s: string)
    ensures |s| == n
  {
    if n == 0 then "" else Fixed(y / 62, n - 1) + [Digit(y % 62)]
  }

  /** Character i is the digit of weight 62^(n-1-i). */
  lemma {:induction false} FixedAt(y: nat, n: nat, i: nat)
    requires i < n
    ensures Fixed(y, n)[i] == Digit(y / Pow(62, n - 1 - i) % 62)
    decreases n
  {
    hide Digit, IndexFrom;
    if i < n - 1 {
      FixedAt(y / 62, n - 1, i);
      DivideTwice(y, 62, Pow(62, n - 2 - i));
    }
  }

  /** The number that a digit string denotes. */
  function Number(s: string): nat
    requires AllDigits(s)
  {
    if s == "" then 0
    else
      var last := |s| - 1;
      assert IsDigit(s[last]);
      62 * Number(s[..last]) + IndexByte(s[last])
  }

  lemma {:induction false} NumberOfFixed(y: nat, n: nat)
    requires y < Pow(62, n)
    ensures AllDigits(Fixed(y, n)) && Number(Fixed(y, n)) == y
  {
    if n > 0 {
      NumberOfFixed(y / 62, n - 1);
      DigitRoundTrip(y % 62);
      var s := Fixed(y, n);
      assert s[..n - 1] == Fixed(y / 62, n - 1);
      assert forall i :: 0 <= i < n - 1 ==> s[i] == Fixed(y / 62, n - 1)[i];
    }
  }

  lemma FixedStep(y: nat, d: nat, n: nat)
    requires d < 62
    ensures Fixed(62 * y + d, n + 1) == Fixed(y, n) + [Digit(d)]
    ensures y < Pow(62, n) ==> 62 * y + d < Pow(62, n + 1)
  {
    assert (62 * y + d) / 62 == y && (62 * y + d) % 62 == d;
  }

  lemma {:induction false} FixedOfNumber(s: string)
    requires AllDigits(s)
    ensures Number(s) < Pow(62, |s|) && Fixed(Number(s), |s|) == s
  {
    hide Fixed, IndexFrom, IndexByte, Digit, Pow;
    if s != "" {
      var last := |s| - 1;
      var init, d := s[..last], IndexByte(s[last]);
      assert IsDigit(s[last]);
      CharRoundTrip(s[last]);
      FixedOfNumber(init);
      FixedStep(Number(init), d, last);
      assert s == init + [s[last]];
    }
  }

  /** encodeFixed: the buffer is filled from its end. */
  method EncodeFixed(y: nat, length: nat) returns (s: string)
    ensures s == Fixed(y, length)
  {
    AlphabetCode(0);
    var b := new char[length];
    var rest := y;
    for i := length downto 0
      invariant Fixed(rest, i) + b[i..] == Fixed(y, length)
    {
      b[i] := ALPHABET[rest % 62];
      assert b[i..] == [b[i]] + b[i + 1..];
      assert Fixed(rest, i + 1) == Fixed(rest / 62, i) + [b[i]];
      rest := rest / 62;
    }
    s := b[..];
    assert b[0..] == b[..];
  }

  /** decodeFixed: a left-to-right accumulation in uint64. */
  method DecodeFixed(s: string) returns (y: nat)
    requires AllDigits(s)
    ensures y == Number(s) % TWO_64
  {
    hide Number, IndexByte;
    y := 0;
    NumberOfNothing();
    for i := 0 to |s|
      invariant y == Number(s[..i]) % TWO_64
    {
      assert IsDigit(s[i]);
      NumberStep(s, i);
      AccumulateMod(Number(s[..i]), IndexByte(s[i]));
      y := (y * 62 + IndexByte(s[i])) % TWO_64;
    }
    assert s[..|s|] == s;
  }

  lemma NumberOfNothing()
    ensures Number("") == 0
  {
  }

  lemma NumberStep(s: string, i: nat)
    requires AllDigits(s) && i < |s|
    ensures AllDigits(s[..i]) && AllDigits(s[..i + 1])
    ensures Number(s[..i + 1]) == 62 * Number(s[..i]) + IndexByte(s[i])
  {
    hide IndexByte;
    assert s[..i + 1][..i] == s[..i];
  }

  lemma AccumulateMod(a: nat, d: nat)
    ensures (a % TWO_64 * 62 + d) % TWO_64 == (62 * a + d) % TWO_64
  {
    var q, r := a / TWO_64, a % TWO_64;
    var b := r * 62 + d;
    assert 62 * a + d == TWO_64 * (62 * q) + b;
    assert b == TWO_64 * (b / TWO_64) + b % TWO_64;
    QuotientUnique(62 * a + d, TWO_64, 62 * q + b / TWO_64, b % TWO_64);
  }

  // ----- math/big -----

  /** big.Int.Text(62): no leading zero. */
  function Text(z: nat): (s: string)
    ensures s != ""
  {
    if z < 62 then [Digit(z)] else Text(z / 62) + [Digit(z % 62)]
  }

  function Zeros(n: nat): string {
    seq(n, _ => '0')
  }

  /** Text padded with zeros up to the given length. */
  function Padded(z: nat, length: nat): string {
    var s := Text(z);
    if |s| < length then Zeros(length - |s|) + s else s
  }

  lemma {:induction false} ZeroDigits(n: nat)
    ensures Fixed(0, n) == Zeros(n)
  {
    if n > 0 {
      ZeroDigits(n - 1);
      AlphabetCode(0);
    }
  }

  /** For a number that fits, the padded text is the fixed-width one: exactly `length` characters. */
  lemma {:induction false} PaddedIsFixed(z: nat, length: nat)
    requires length >= 1 && z < Pow(62, length)
    ensures |Text(z)| <= length && Padded(z, length) == Fixed(z, length)
  {
    hide Digit, IndexFrom;
    if z < 62 {
      ZeroDigits(length - 1);
    } else {
      assert length >= 2 && z / 62 < Pow(62, length - 1);
      PaddedIsFixed(z / 62, length - 1);
      PaddedStep(z, length);
      FixedStep(z / 62, z % 62, length - 1);
    }
  }

  lemma PaddedStep(z: nat, length: nat)
    requires z >= 62 && length >= 1 && |Text(z / 62)| <= length - 1
    ensures |Text(z)| <= length && Padded(z, length) == Padded(z / 62, length - 1) + [Digit(z % 62)]
  {
    hide Digit;
    var t, d := Text(z / 62), [Digit(z % 62)];
    assert Text(z) == t + d;
    assert Zeros(length - 1 - |t|) + t + d == Zeros(length - 1 - |t|) + (t + d);
  }
}
