/** Encode and Decode of internal/uuidgen: a bijection between counter values and fixed-length text. */
module UuidCodec {
  import opened Wrappers
  import opened Bits
  import opened Int64
  import opened Feistel
  import opened CycleWalk
  import opened Base62

  /** 62^8, the number of 8-character strings. */
  const DOMAIN8: nat := 218340105584896

  const TAG_PAD: nat := 0x50

  datatype CodecError = Negative | ExceedsUuid8 | UnsupportedLength | WrongLength | InvalidCharacter | OutOfRange | NotIssued

  predicate SupportedLength(length: nat) {
    length == 8 || length == 12 || length == 16 || length == 22
  }

  predicate LongLength(length: nat) {
    length == 12 || length == 16 || length == 22
  }

  /** floor(62^L / 2^64), the number of pads. */
  function Limit(length: nat): nat {
    Pow(62, length) / TWO_64
  }

  lemma {:induction false} PowMonotone(b: nat, d: nat, e: nat)
    requires b >= 1 && d <= e
    ensures Pow(b, d) <= Pow(b, e)
  {
    if d < e {
      PowMonotone(b, d, e - 1);
      MulAtLeast(b, Pow(b, e - 1));
    }
  }

  lemma Pow62_8()
    ensures Pow(62, 8) == DOMAIN8
  {
    assert Pow(62, 4) == 14776336;
    assert Pow(62, 6) == 56800235584;
  }

  /** There is at least one pad: the reduction of the cipher output modulo the limit is defined. */
  lemma LimitPositive(length: nat)
    requires LongLength(length)
    ensures Limit(length) >= 1 && Limit(length) * TWO_64 <= Pow(62, length)
  {
    Pow62_8();
    assert Pow(62, 10) == 839299365868340224;
    assert Pow(62, 12) == 3226266762397899821056;
    PowMonotone(62, 12, length);
    var p := Pow(62, length);
    DivAtLeastOne(p);
  }

  lemma DivAtLeastOne(p: nat)
    requires p >= TWO_64
    ensures p / TWO_64 >= 1 && p / TWO_64 * TWO_64 <= p
  {
  }

  // ----- what the two operations compute -----

  /** The keyed pad above the low 64 bits. */
  function Pad(c: Codec, x: nat, length: nat, tw: Tweak): (p: nat)
    requires LongLength(length)
    ensures p < Limit(length)
  {
    LimitPositive(length);
    c.Out(Block(TAG_PAD, length, tw, x)) % Limit(length)
  }

  ghost function Forward(c: Codec, tw: Tweak): nat -> nat {
    x => Perm(c, W48, tw, x)
  }

  ghost function Backward(c: Codec, tw: Tweak): nat -> nat {
    y => Unperm(c, W48, tw, y)
  }

  ghost const M48: nat := W48.half * W48.half

  lemma NetworkInverse(c: Codec, tw: Tweak)
    ensures Inverse(M48, Forward(c, tw), Backward(c, tw)) && Inverse(M48, Backward(c, tw), Forward(c, tw))
    ensures DOMAIN8 <= M48
  {
    WidthsValid();
    forall x: nat | x < M48
      ensures Forward(c, tw)(x) < M48 && Backward(c, tw)(Forward(c, tw)(x)) == x
      ensures Backward(c, tw)(x) < M48 && Forward(c, tw)(Backward(c, tw)(x)) == x
    {
      PermInverse(c, W48, tw, x);
    }
  }

  /** The scrambled position of v in [0, 62^8), by cycle walking. */
  ghost function Scramble8(c: Codec, tw: Tweak, v: nat): (y: nat)
    requires v < DOMAIN8
    ensures y < DOMAIN8
  {
    NetworkInverse(c, tw);
    WalkInverse(M48, Forward(c, tw), Backward(c, tw), DOMAIN8, v);
    Walk(Forward(c, tw), DOMAIN8, v)
  }

  ghost function Unscramble8(c: Codec, tw: Tweak, y: nat): (v: nat)
    requires y < DOMAIN8
    ensures v < DOMAIN8
  {
    NetworkInverse(c, tw);
    WalkInverse(M48, Backward(c, tw), Forward(c, tw), DOMAIN8, y);
    Walk(Backward(c, tw), DOMAIN8, y)
  }

  /** The number that stands for v in the long formats: pad above, permuted value below. */
  function Long(c: Codec, v: nat, length: nat, tw: Tweak): nat
    requires LongLength(length)
  {
    Pad(c, v, length, tw) * TWO_64 + Perm(c, W64, tw, v)
  }

  ghost function EncodeSpec(c: Codec, v: int, length: nat, tw: Tweak): Result<string, CodecError> {
    if v < 0 then Failure(Negative)
    else if length == 8 then
      if v >= DOMAIN8 then Failure(ExceedsUuid8) else Success(Fixed(Scramble8(c, tw, v), 8))
    else if LongLength(length) then Success(Padded(Long(c, v, length, tw), length))
    else Failure(UnsupportedLength)
  }

  ghost function DecodeSpec(c: Codec, s: string, length: nat, tw: Tweak): Result<int, CodecError> {
    if !SupportedLength(length) then Failure(UnsupportedLength)
    else if |s| != length then Failure(WrongLength)
    else if !AllDigits(s) then Failure(InvalidCharacter)
    else if length == 8 then
      var y := Number(s) % TWO_64;
      if y >= DOMAIN8 then Failure(OutOfRange) else Success(Unscramble8(c, tw, y))
    else
      var z := Number(s);
      var x := Unperm(c, W64, tw, z % TWO_64);
      if x > MAX || z / TWO_64 != Pad(c, x, length, tw) then Failure(NotIssued) else Success(x)
  }

  // ----- the methods -----

  /** The number of steps that the walk from x takes. */
  lemma Walk8Steps(c: Codec, tw: Tweak, x: nat) returns (steps: nat)
    requires x < DOMAIN8
    ensures Walks(Forward(c, tw), DOMAIN8, x, steps, Scramble8(c, tw, x))
  {
    NetworkInverse(c, tw);
    WalkInverse(M48, Forward(c, tw), Backward(c, tw), DOMAIN8, x);
    steps :| Walks(Forward(c, tw), DOMAIN8, x, steps, Walk(Forward(c, tw), DOMAIN8, x));
  }

  method Walk8(c: Codec, tw: Tweak, x: nat) returns (y: nat)
    requires x < DOMAIN8
    ensures y == Scramble8(c, tw, x)
  {
    hide Perm, Scramble8, Iter;
    ghost var p := Forward(c, tw);
    ghost var steps := Walk8Steps(c, tw, x);
    ghost var k: nat := 1;
    y := ComputePerm(c, W48, tw, x);
    IterStep(p, 0, x);
    while y >= DOMAIN8
      invariant 1 <= k <= steps && y == Iter(p, k, x)
      decreases steps - k
    {
      y := ComputePerm(c, W48, tw, y);
      IterStep(p, k, x);
      k := k + 1;
    }
  }

  /** The number of steps that the walk from y takes. */
  lemma Unwalk8Steps(c: Codec, tw: Tweak, y: nat) returns (steps: nat)
    requires y < DOMAIN8
    ensures Walks(Backward(c, tw), DOMAIN8, y, steps, Unscramble8(c, tw, y))
  {
    NetworkInverse(c, tw);
    WalkInverse(M48, Backward(c, tw), Forward(c, tw), DOMAIN8, y);
    steps :| Walks(Backward(c, tw), DOMAIN8, y, steps, Walk(Backward(c, tw), DOMAIN8, y));
  }

  method Unwalk8(c: Codec, tw: Tweak, y: nat) returns (x: nat)
    requires y < DOMAIN8
    ensures x == Unscramble8(c, tw, y)
  {
    hide Unperm, Unscramble8, Iter;
    ghost var p := Backward(c, tw);
    ghost var steps := Unwalk8Steps(c, tw, y);
    ghost var k: nat := 1;
    x := ComputeUnperm(c, W48, tw, y);
    IterStep(p, 0, y);
    while x >= DOMAIN8
      invariant 1 <= k <= steps && x == Iter(p, k, y)
      decreases steps - k
    {
      x := ComputeUnperm(c, W48, tw, x);
      IterStep(p, k, y);
      k := k + 1;
    }
  }

  method Encode(c: Codec, v: int, length: nat, tw: Tweak) returns (r: Result<string, CodecError>)
    ensures r == EncodeSpec(c, v, length, tw)
  {
    if v < 0 {
      return Failure(Negative);
    }
    if length == 8 {
      if v >= DOMAIN8 {
        return Failure(ExceedsUuid8);
      }
      var y := Walk8(c, tw, v);
      var s := EncodeFixed(y, 8);
      return Success(s);
    }
    if LongLength(length) {
      var y := ComputePerm(c, W64, tw, v);
      var z := Pad(c, v, length, tw) * TWO_64 + y;
      return Success(Padded(z, length));
    }
    return Failure(UnsupportedLength);
  }

  method Decode(c: Codec, s: string, length: nat, tw: Tweak) returns (r: Result<int, CodecError>)
    ensures r == DecodeSpec(c, s, length, tw)
  {
    if !SupportedLength(length) {
      return Failure(UnsupportedLength);
    }
    if |s| != length {
      return Failure(WrongLength);
    }
    for i := 0 to |s|
      invariant forall j :: 0 <= j < i ==> IsDigit(s[j])
    {
      if IndexByte(s[i]) < 0 {
        return Failure(InvalidCharacter);
      }
    }
    if length == 8 {
      var y := DecodeFixed(s);
      if y >= DOMAIN8 {
        return Failure(OutOfRange);
      }
      var x := Unwalk8(c, tw, y);
      return Success(x);
    }
    var z := Number(s);
    var x := ComputeUnperm(c, W64, tw, z % TWO_64);
    if x > MAX || z / TWO_64 != Pad(c, x, length, tw) {
      return Failure(NotIssued);
    }
    return Success(x);
  }

  // ----- length 8 -----

  lemma ScrambleInverse(c: Codec, tw: Tweak, v: nat)
    requires v < DOMAIN8
    ensures Unscramble8(c, tw, Scramble8(c, tw, v)) == v
    ensures Scramble8(c, tw, Unscramble8(c, tw, v)) == v
  {
    NetworkInverse(c, tw);
    WalkInverse(M48, Forward(c, tw), Backward(c, tw), DOMAIN8, v);
    WalkInverse(M48, Backward(c, tw), Forward(c, tw), DOMAIN8, v);
  }

  /** Every 8-character string over the alphabet is the code of a value: all 62^8 texts are reachable. */
  lemma EveryString8(c: Codec, tw: Tweak, s: string)
    requires |s| == 8 && AllDigits(s)
    ensures DecodeSpec(c, s, 8, tw).Success? && 0 <= DecodeSpec(c, s, 8, tw).value < DOMAIN8
    ensures EncodeSpec(c, DecodeSpec(c, s, 8, tw).value, 8, tw) == Success(s)
  {
    hide Scramble8, Unscramble8, Fixed, IndexFrom, IndexByte, Pow;
    FixedOfNumber(s);
    Pow62_8();
    ScrambleInverse(c, tw, Number(s));
  }

  lemma RoundTrip8(c: Codec, tw: Tweak, v: nat)
    requires v < DOMAIN8
    ensures DecodeSpec(c, Fixed(Scramble8(c, tw, v), 8), 8, tw) == Success(v)
  {
    hide Scramble8, Unscramble8, Fixed, IndexFrom, IndexByte, Pow;
    Pow62_8();
    NumberOfFixed(Scramble8(c, tw, v), 8);
    ScrambleInverse(c, tw, v);
  }

  // ----- lengths 12, 16, 22 -----

  /** pad*2^64 + y is below 62^L, so the text has exactly L characters; and it splits back. */
  lemma LongFits(c: Codec, v: nat, length: nat, tw: Tweak)
    requires LongLength(length) && v <= MAX
    ensures Long(c, v, length, tw) < Pow(62, length)
    ensures Long(c, v, length, tw) / TWO_64 == Pad(c, v, length, tw)
    ensures Long(c, v, length, tw) % TWO_64 == Perm(c, W64, tw, v)
    ensures Unperm(c, W64, tw, Perm(c, W64, tw, v)) == v
  {
    hide Perm, Unperm, Pad, Pow, Limit;
    WidthsValid();
    PermInverse(c, W64, tw, v);
    LimitPositive(length);
    var p, y := Pad(c, v, length, tw), Perm(c, W64, tw, v);
    assert W64.half * W64.half == TWO_64;
    MulMonotone(p + 1, Limit(length), TWO_64);
  }

  lemma RoundTripLong(c: Codec, v: nat, length: nat, tw: Tweak)
    requires LongLength(length) && v <= MAX
    ensures var s := Padded(Long(c, v, length, tw), length);
            |s| == length && DecodeSpec(c, s, length, tw) == Success(v)
  {
    hide Perm, Unperm, Pad, Pow, Long, Padded, Text, Fixed, IndexFrom, IndexByte;
    LongFits(c, v, length, tw);
    PaddedIsFixed(Long(c, v, length, tw), length);
    NumberOfFixed(Long(c, v, length, tw), length);
  }

  lemma AcceptedLong(c: Codec, s: string, length: nat, tw: Tweak)
    requires LongLength(length) && DecodeSpec(c, s, length, tw).Success?
    ensures var v := DecodeSpec(c, s, length, tw).value;
            0 <= v <= MAX && EncodeSpec(c, v, length, tw) == Success(s)
  {
    hide Perm, Unperm, Pad, Pow, Text, Fixed, IndexFrom, IndexByte;
    var z := Number(s);
    var y := z % TWO_64;
    hide Number, Padded;
    FixedOfNumber(s);
    WidthsValid();
    assert y < TWO_64 == W64.half * W64.half;
    PermInverse(c, W64, tw, y);
    var v := Unperm(c, W64, tw, y);
    assert z == z / TWO_64 * TWO_64 + y;
    PaddedIsFixed(z, length);
  }

  // ----- main results -----

  /** Encode succeeds exactly on the values that fit, and the text has exactly `length` characters. */
  lemma EncodeDomain(c: Codec, v: int, length: nat, tw: Tweak)
    requires v <= MAX
    ensures EncodeSpec(c, v, length, tw).Success? <==>
            v >= 0 && (length == 8 || length == 12 || length == 16 || length == 22) && (length == 8 ==> v < Pow(62, 8))
    ensures EncodeSpec(c, v, length, tw).Success? ==> |EncodeSpec(c, v, length, tw).value| == length
  {
    Pow62_8();
    hide Pow;
    if v >= 0 && LongLength(length) {
      RoundTripLong(c, v, length, tw);
    }
  }

  /** Decode accepts exactly what Encode produces, and gives back exactly the value it came from. */
  lemma DecodeInvertsEncode(c: Codec, s: string, v: int, length: nat, tw: Tweak)
    requires v <= MAX
    ensures DecodeSpec(c, s, length, tw) == Success(v) <==> EncodeSpec(c, v, length, tw) == Success(s)
  {
    if EncodeSpec(c, v, length, tw) == Success(s) {
      if length == 8 {
        RoundTrip8(c, tw, v);
      } else {
        RoundTripLong(c, v, length, tw);
      }
    }
    if DecodeSpec(c, s, length, tw) == Success(v) {
      if length == 8 {
        EveryString8(c, tw, s);
      } else {
        AcceptedLong(c, s, length, tw);
      }
    }
  }

  /** Two different counter values never give the same text under one key and tweak. */
  lemma EncodeInjective(c: Codec, v: int, w: int, length: nat, tw: Tweak)
    requires v <= MAX && w <= MAX && EncodeSpec(c, v, length, tw).Success?
    requires EncodeSpec(c, v, length, tw) == EncodeSpec(c, w, length, tw)
    ensures v == w
  {
    var s := EncodeSpec(c, v, length, tw).value;
    DecodeInvertsEncode(c, s, v, length, tw);
    DecodeInvertsEncode(c, s, w, length, tw);
  }

  // ----- what the texts are, in terms of the cipher -----

  /** A cycle walk through the 48-bit network: every point but the first and the last is past 62^8. */
  ghost predicate WalkPath(c: Codec, tw: Tweak, path: seq<nat>) {
    && |path| >= 2 && path[|path| - 1] < Pow(62, 8)
    && (forall i :: 0 <= i < |path| - 1 ==> Crosses(c, 0x48, 0x100_0000, tw, path[i], path[i + 1]))
    && (forall i :: 0 < i < |path| - 1 ==> path[i] >= Pow(62, 8))
  }

  lemma {:induction false} PathIsIter(c: Codec, tw: Tweak, path: seq<nat>, i: nat)
    requires WalkPath(c, tw, path) && i < |path|
    ensures path[i] == Iter(Forward(c, tw), i, path[0])
  {
    hide Crosses, Perm, Pow;
    if i > 0 {
      PathIsIter(c, tw, path, i - 1);
      assert Crosses(c, 0x48, 0x100_0000, tw, path[i - 1], path[i - 1 + 1]);
      CrossesIff(c, W48, tw, path[i - 1], path[i]);
    }
  }

  /** Some cycle walk leads from v to y. */
  ghost predicate WalksTo(c: Codec, tw: Tweak, v: nat, y: nat) {
    exists path :: WalkPath(c, tw, path) && path[0] == v && path[|path| - 1] == y
  }

  /** Cycle walks end at the scrambled value, and every value has one. */
  lemma WalksToIff(c: Codec, tw: Tweak, v: nat, y: nat)
    requires v < DOMAIN8
    ensures WalksTo(c, tw, v, y) <==> y == Scramble8(c, tw, v)
  {
    hide Scramble8, Crosses, Pow;
    if WalksTo(c, tw, v, y) {
      var path :| WalkPath(c, tw, path) && path[0] == v && path[|path| - 1] == y;
      PathIsScramble(c, tw, path);
    }
    var path := ScramblePath(c, tw, v);
  }

  lemma PathIsScramble(c: Codec, tw: Tweak, path: seq<nat>)
    requires WalkPath(c, tw, path) && path[0] < DOMAIN8
    ensures path[|path| - 1] == Scramble8(c, tw, path[0])
  {
    hide Perm, Pow, Iter, Crosses;
    Pow62_8();
    var v, k, p := path[0], |path| - 1, Forward(c, tw);
    forall i | 0 <= i < |path|
      ensures path[i] == Iter(p, i, v)
    {
      PathIsIter(c, tw, path, i);
    }
    assert Walks(p, DOMAIN8, v, k, path[k]);
    var steps := Walk8Steps(c, tw, v);
    WalkUnique(p, DOMAIN8, v, k, path[k], steps, Scramble8(c, tw, v));
  }

  lemma ScramblePath(c: Codec, tw: Tweak, v: nat) returns (path: seq<nat>)
    requires v < DOMAIN8
    ensures WalkPath(c, tw, path) && path[0] == v && path[|path| - 1] == Scramble8(c, tw, v)
  {
    hide Perm, Pow, Scramble8, Iter, Crosses;
    Pow62_8();
    var p := Forward(c, tw);
    var steps := Walk8Steps(c, tw, v);
    path := seq(steps + 1, i requires 0 <= i => Iter(p, i, v));
    IterStep(p, 0, v);
    forall i | 0 <= i < steps
      ensures Crosses(c, 0x48, 0x100_0000, tw, path[i], path[i + 1])
    {
      IterStep(p, i, v);
      CrossesIff(c, W48, tw, path[i], path[i + 1]);
    }
  }

  /** The 8-character text of v is the number at the end of the cycle walk from v. */
  lemma TextIff8(c: Codec, v: nat, tw: Tweak, s: string)
    ensures EncodeSpec(c, v, 8, tw) == Success(s) <==>
            v < Pow(62, 8) && |s| == 8 && AllDigits(s) && WalksTo(c, tw, v, Number(s))
  {
    hide Scramble8, Fixed, IndexFrom, IndexByte, Pow, Number, WalksTo, DecodeSpec;
    Pow62_8();
    if v < DOMAIN8 {
      NumberOfFixed(Scramble8(c, tw, v), 8);
      if |s| == 8 && AllDigits(s) {
        FixedOfNumber(s);
        WalksToIff(c, tw, v, Number(s));
      } else {
        WalksToIff(c, tw, v, Scramble8(c, tw, v));
      }
    }
  }

  /**
   The longer text of v is the number whose low 64 bits the 64-bit network makes of v, and whose upper
   part is the cipher's whole output for (0x50, length, tweak, v) modulo floor(62^length / 2^64).
   */
  lemma TextIffLong(c: Codec, v: nat, length: nat, tw: Tweak, s: string)
    requires LongLength(length) && v <= MAX
    ensures Pow(62, length) / TWO_64 >= 1
    ensures EncodeSpec(c, v, length, tw) == Success(s) <==>
            && |s| == length && AllDigits(s)
            && Crosses(c, 0x64, 0x1_0000_0000, tw, v, Number(s) % TWO_64)
            && Number(s) / TWO_64 == c.encrypt(Block(0x50, length, tw, v)) % (TWO_64 * TWO_64) % (Pow(62, length) / TWO_64)
  {
    hide Perm, Unperm, Pow, Text, Fixed, IndexFrom, IndexByte, Number, Padded, Crosses;
    LimitPositive(length);
    var z := Long(c, v, length, tw);
    LongFits(c, v, length, tw);
    PaddedIsFixed(z, length);
    NumberOfFixed(z, length);
    CrossesIff(c, W64, tw, v, Perm(c, W64, tw, v));
    if |s| == length && AllDigits(s) {
      FixedOfNumber(s);
      CrossesIff(c, W64, tw, v, Number(s) % TWO_64);
    }
  }

  // ----- the tweak -----

  /** A cipher that flips the lowest bit for one tweak and changes nothing for the others. */
  function Flipping(tw: Tweak): Codec {
    Codec((b: Block) => if b.tweak == tw && b.index == 1 then TWO_64 else 0)
  }

  lemma FlippingKeys(w: Width, tw: Tweak, u: Tweak)
    requires w.half >= 2
    ensures forall i :: 0 <= i < 8 ==> Keyed(Flipping(tw), w, u, i) == if u == tw && i == 1 then 1 else 0
  {
  }

  lemma FlippingPerm(w: Width, tw: Tweak, u: Tweak, x: nat)
    requires w.half >= 2 && w.half % 2 == 0
    ensures Perm(Flipping(tw), w, u, x) == if u != tw then x else if x % 2 == 0 then x + 1 else x - 1
  {
    hide Xor, Perm, Keyed;
    FlippingKeys(w, tw, u);
    KeyedRounds(Flipping(tw), w, u, x);
    hide Flipping;
    var l, r := w.Hi(x), w.Lo(x);
    XorZero(l);
    XorZero(r);
    XorZero(Xor(r, 1));
    XorOne(r);
    SameParity(l, w.half, r);
    assert x == l * w.half + r;
    assert Perm(Flipping(tw), w, u, x) == l * w.half + if u == tw then Xor(r, 1) else r;
  }

  lemma SameParity(l: nat, half: nat, r: nat)
    requires half % 2 == 0
    ensures (l * half + r) % 2 == r % 2
  {
    assert half == 2 * (half / 2);
    Associate(2, half / 2, l);
    QuotientUnique(l * half + r, 2, half / 2 * l + r / 2, r % 2);
  }

  /** Every entity has its own permutation: for two tweaks, some cipher gives different texts for one value. */
  lemma TweakMatters(v: nat, length: nat, tw: Tweak, u: Tweak) returns (c: Codec)
    requires tw != u && SupportedLength(length) && v <= MAX && (length == 8 ==> v < Pow(62, 8))
    ensures EncodeSpec(c, v, length, tw).Success? && EncodeSpec(c, v, length, u).Success?
    ensures EncodeSpec(c, v, length, tw) != EncodeSpec(c, v, length, u)
  {
    hide Perm, Unperm, Pow, Text, Fixed, IndexFrom, IndexByte, Number, Padded, Scramble8, Unscramble8, Flipping, Iter;
    c := Flipping(tw);
    Pow62_8();
    var x := if v % 2 == 0 then v + 1 else v - 1;
    if length == 8 {
      FlippingPerm(W48, tw, tw, v);
      FlippingPerm(W48, tw, u, v);
      FirstStep(c, tw, v);
      FirstStep(c, u, v);
      NumberOfFixed(x, 8);
      NumberOfFixed(v, 8);
    } else {
      FlippingPerm(W64, tw, tw, v);
      FlippingPerm(W64, tw, u, v);
      RoundTripLong(c, v, length, tw);
      RoundTripLong(c, v, length, u);
      LongFits(c, v, length, tw);
      LongFits(c, v, length, u);
      PaddedIsFixed(Long(c, v, length, tw), length);
      PaddedIsFixed(Long(c, v, length, u), length);
      NumberOfFixed(Long(c, v, length, tw), length);
      NumberOfFixed(Long(c, v, length, u), length);
    }
  }

  /** A walk that is back in the domain after one step. */
  lemma FirstStep(c: Codec, tw: Tweak, v: nat)
    requires v < DOMAIN8 && Perm(c, W48, tw, v) < DOMAIN8
    ensures Scramble8(c, tw, v) == Perm(c, W48, tw, v)
  {
    hide Perm, Iter;
    var p := Forward(c, tw);
    IterStep(p, 0, v);
    var steps := Walk8Steps(c, tw, v);
    assert Walks(p, DOMAIN8, v, 1, Perm(c, W48, tw, v));
    WalkUnique(p, DOMAIN8, v, 1, Perm(c, W48, tw, v), steps, Scramble8(c, tw, v));
  }
}
