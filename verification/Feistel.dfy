/** The keyed Feistel permutations of internal/uuidgen, for any deterministic block cipher. */
module Feistel {
  import opened Bits
  import opened Int64

  type Byte = b: nat | b < 256

  /** Selects one entity's permutation: six bytes derived from its name. */
  type Tweak = t: seq<Byte> | |t| == 6 witness [0, 0, 0, 0, 0, 0]

  /** The 16-byte cipher input: tag, round or length, tweak, and a 64-bit word. */
  datatype Block = Block(tag: nat, index: nat, tweak: Tweak, word: nat)

  /** `encrypt` stands for AES under the key: an arbitrary function, of which 128 bits are kept. */
  datatype Codec = Codec(encrypt: Block -> nat) {
    function Out(b: Block): nat {
      encrypt(b) % (TWO_64 * TWO_64)
    }

    /** Big-endian first half of the output. */
    function Round(tag: nat, i: nat, tw: Tweak, half: nat): nat {
      Out(Block(tag, i, tw, half)) / TWO_64
    }
  }

  const ROUNDS: nat := 8

  /** One of the two networks: the tag of its round function and the number of bits in a half. */
  datatype Width = Width(tag: nat, bits: nat, half: nat) {
    ghost predicate Valid() {
      half == Pow(2, bits)
    }

    /** x >> bits */
    function Hi(x: nat): nat
      requires half > 0
    {
      x / half
    }

    /** x & mask */
    function Lo(x: nat): nat
      requires half > 0
    {
      x % half
    }

    /** l << bits | r */
    function Join(l: nat, r: nat): nat {
      l * half + r
    }
  }

  const W48: Width := Width(0x48, 24, 0x100_0000)
  const W64: Width := Width(0x64, 32, 0x1_0000_0000)

  lemma WidthsValid()
    ensures W48.Valid() && W64.Valid()
  {
    assert Pow(2, 8) == 0x100;
    assert Pow(2, 16) == 0x1_0000;
    assert Pow(2, 24) == 0x100_0000;
    assert Pow(2, 32) == 0x1_0000_0000;
  }

  /** The masked round value that is xored into the other half. */
  function Mix(c: Codec, w: Width, tw: Tweak, i: nat, half: nat): nat
    requires w.half > 0
  {
    c.Round(w.tag, i, tw, half) % w.half
  }

  /** Rounds i, i+1, ... forward. */
  function Rounds(c: Codec, w: Width, tw: Tweak, i: nat, l: nat, r: nat): (nat, nat)
    requires w.half > 0 && i <= ROUNDS
    decreases ROUNDS - i
  {
    if i == ROUNDS then (l, r)
    else Rounds(c, w, tw, i + 1, r, Xor(l, Mix(c, w, tw, i, r)))
  }

  /** Rounds i-1, i-2, ... backward. */
  function Unrounds(c: Codec, w: Width, tw: Tweak, i: nat, l: nat, r: nat): (nat, nat)
    requires w.half > 0
  {
    if i == 0 then (l, r)
    else Unrounds(c, w, tw, i - 1, Xor(r, Mix(c, w, tw, i - 1, l)), l)
  }

  function Perm(c: Codec, w: Width, tw: Tweak, x: nat): nat
    requires w.half > 0
  {
    var (l, r) := Rounds(c, w, tw, 0, w.Hi(x), w.Lo(x));
    w.Join(l, r)
  }

  function Unperm(c: Codec, w: Width, tw: Tweak, y: nat): nat
    requires w.half > 0
  {
    var (l, r) := Unrounds(c, w, tw, ROUNDS, w.Hi(y), w.Lo(y));
    w.Join(l, r)
  }

  // ----- the loops of perm48/perm64 and unperm48/unperm64 -----

  method ComputePerm(c: Codec, w: Width, tw: Tweak, x: nat) returns (y: nat)
    requires w.half > 0
    ensures y == Perm(c, w, tw, x)
  {
    var l, r := w.Hi(x), w.Lo(x);
    for i := 0 to ROUNDS
      invariant Rounds(c, w, tw, i, l, r) == Rounds(c, w, tw, 0, w.Hi(x), w.Lo(x))
    {
      l, r := r, Xor(l, c.Round(w.tag, i, tw, r) % w.half);
    }
    y := w.Join(l, r);
  }

  method ComputeUnperm(c: Codec, w: Width, tw: Tweak, y: nat) returns (x: nat)
    requires w.half > 0
    ensures x == Unperm(c, w, tw, y)
  {
    var l, r := w.Hi(y), w.Lo(y);
    for i := ROUNDS downto 0
      invariant Unrounds(c, w, tw, i, l, r) == Unrounds(c, w, tw, ROUNDS, w.Hi(y), w.Lo(y))
    {
      l, r := Xor(r, c.Round(w.tag, i, tw, l) % w.half), l;
    }
    x := w.Join(l, r);
  }

  // ----- the two directions are inverse -----

  lemma {:induction false} RoundsStayBelow(c: Codec, w: Width, tw: Tweak, i: nat, l: nat, r: nat)
    requires w.Valid() && i <= ROUNDS && l < w.half && r < w.half
    ensures var (l', r') := Rounds(c, w, tw, i, l, r); l' < w.half && r' < w.half
    decreases ROUNDS - i
  {
    if i < ROUNDS {
      XorBelow(l, Mix(c, w, tw, i, r), w.bits);
      RoundsStayBelow(c, w, tw, i + 1, r, Xor(l, Mix(c, w, tw, i, r)));
    }
  }

  lemma {:induction false} UnroundsStayBelow(c: Codec, w: Width, tw: Tweak, i: nat, l: nat, r: nat)
    requires w.Valid() && l < w.half && r < w.half
    ensures var (l', r') := Unrounds(c, w, tw, i, l, r); l' < w.half && r' < w.half
  {
    if i > 0 {
      XorBelow(r, Mix(c, w, tw, i - 1, l), w.bits);
      UnroundsStayBelow(c, w, tw, i - 1, Xor(r, Mix(c, w, tw, i - 1, l)), l);
    }
  }

  lemma {:induction false} UnroundsAfterRounds(c: Codec, w: Width, tw: Tweak, i: nat, l: nat, r: nat)
    requires w.half > 0 && i <= ROUNDS
    ensures var (l', r') := Rounds(c, w, tw, i, l, r);
            Unrounds(c, w, tw, ROUNDS, l', r') == Unrounds(c, w, tw, i, l, r)
    decreases ROUNDS - i
  {
    hide Mix, Xor;
    if i < ROUNDS {
      var m := Mix(c, w, tw, i, r);
      UnroundsAfterRounds(c, w, tw, i + 1, r, Xor(l, m));
      XorCancels(l, m);
    }
  }

  lemma {:induction false} RoundsAfterUnrounds(c: Codec, w: Width, tw: Tweak, i: nat, l: nat, r: nat)
    requires w.half > 0 && i <= ROUNDS
    ensures var (l', r') := Unrounds(c, w, tw, i, l, r);
            Rounds(c, w, tw, 0, l', r') == Rounds(c, w, tw, i, l, r)
    decreases i
  {
    hide Mix, Xor;
    if i > 0 {
      var m := Mix(c, w, tw, i - 1, l);
      RoundsAfterUnrounds(c, w, tw, i - 1, Xor(r, m), l);
      XorCancels(r, m);
    }
  }

  lemma SplitJoin(w: Width, l: nat, r: nat)
    requires l < w.half && r < w.half
    ensures w.Hi(w.Join(l, r)) == l && w.Lo(w.Join(l, r)) == r && w.Join(l, r) < w.half * w.half
  {
    assert l * w.half == w.half * l;
    QuotientUnique(w.Join(l, r), w.half, l, r);
    JoinBelow(w.half, l, r);
  }

  lemma JoinBelow(h: nat, l: nat, r: nat)
    requires l < h && r < h
    ensures l * h + r < h * h
  {
    MulMonotone(l + 1, h, h);
    assert (l + 1) * h == l * h + h;
  }

  lemma JoinSplit(w: Width, x: nat)
    requires w.half > 0 && x < w.half * w.half
    ensures w.Hi(x) < w.half && w.Lo(x) < w.half && w.Join(w.Hi(x), w.Lo(x)) == x
  {
    var q := x / w.half;
    assert x == q * w.half + x % w.half;
    assert (q - (w.half - 1)) * w.half == q * w.half - (w.half - 1) * w.half < w.half;
    BelowOneMultiple(q - (w.half - 1), w.half);
  }

  /** Perm and Unperm are inverse bijections of [0, half^2), whatever the cipher. */
  lemma PermInverse(c: Codec, w: Width, tw: Tweak, x: nat)
    requires w.Valid() && w.half > 0 && x < w.half * w.half
    ensures Perm(c, w, tw, x) < w.half * w.half && Unperm(c, w, tw, Perm(c, w, tw, x)) == x
    ensures Unperm(c, w, tw, x) < w.half * w.half && Perm(c, w, tw, Unperm(c, w, tw, x)) == x
  {
    hide Rounds, Unrounds, Pow;
    JoinSplit(w, x);
    PermThenUnperm(c, w, tw, x);
    UnpermThenPerm(c, w, tw, x);
  }

  lemma PermThenUnperm(c: Codec, w: Width, tw: Tweak, x: nat)
    requires w.Valid() && w.half > 0 && w.Hi(x) < w.half && w.Lo(x) < w.half && w.Join(w.Hi(x), w.Lo(x)) == x
    ensures Perm(c, w, tw, x) < w.half * w.half && Unperm(c, w, tw, Perm(c, w, tw, x)) == x
  {
    hide w.Hi, w.Lo, w.Join;
    var l, r := w.Hi(x), w.Lo(x);
    RoundsStayBelow(c, w, tw, 0, l, r);
    var (lf, rf) := Rounds(c, w, tw, 0, l, r);
    SplitJoin(w, lf, rf);
    UnroundsAfterRounds(c, w, tw, 0, l, r);
  }

  lemma UnpermThenPerm(c: Codec, w: Width, tw: Tweak, x: nat)
    requires w.Valid() && w.half > 0 && w.Hi(x) < w.half && w.Lo(x) < w.half && w.Join(w.Hi(x), w.Lo(x)) == x
    ensures Unperm(c, w, tw, x) < w.half * w.half && Perm(c, w, tw, Unperm(c, w, tw, x)) == x
  {
    hide w.Hi, w.Lo, w.Join;
    var l, r := w.Hi(x), w.Lo(x);
    UnroundsStayBelow(c, w, tw, ROUNDS, l, r);
    var (lb, rb) := Unrounds(c, w, tw, ROUNDS, l, r);
    SplitJoin(w, lb, rb);
    RoundsAfterUnrounds(c, w, tw, ROUNDS, l, r);
  }

  // ----- what the network does with the bytes of the cipher -----

  /**
   The ten halves of one way through the network: each from the third on is
   the one before the last, xored with the low bits of the first eight bytes of the cipher's output
   for (tag, round, tweak, last half).
   */
  ghost predicate Trace(c: Codec, tag: nat, bound: nat, tw: Tweak, h: seq<nat>)
    requires bound > 0
  {
    && |h| == 10
    && forall k :: 0 <= k < 8 ==>
                     h[k + 2] == Xor(h[k], c.encrypt(Block(tag, k, tw, h[k + 1])) % (TWO_64 * TWO_64) / TWO_64 % bound)
  }

  /** The network leads from x to y. */
  ghost predicate Crosses(c: Codec, tag: nat, bound: nat, tw: Tweak, x: nat, y: nat)
    requires bound > 0
  {
    exists h :: Trace(c, tag, bound, tw, h) && h[0] == x / bound && h[1] == x % bound && y == h[8] * bound + h[9]
  }

  lemma {:induction false} RoundsOfTrace(c: Codec, w: Width, tw: Tweak, h: seq<nat>, i: nat)
    requires w.half > 0 && Trace(c, w.tag, w.half, tw, h) && i <= ROUNDS
    ensures Rounds(c, w, tw, i, h[i], h[i + 1]) == (h[8], h[9])
    decreases ROUNDS - i
  {
    hide Xor;
    if i < ROUNDS {
      RoundsOfTrace(c, w, tw, h, i + 1);
      assert h[i + 2] == Xor(h[i], Mix(c, w, tw, i, h[i + 1]));
    }
  }

  lemma TraceOf(c: Codec, w: Width, tw: Tweak, l: nat, r: nat) returns (h: seq<nat>)
    requires w.half > 0
    ensures Trace(c, w.tag, w.half, tw, h) && h[0] == l && h[1] == r
  {
    hide Xor;
    h := [l, r];
    for i := 0 to ROUNDS
      invariant |h| == i + 2 && h[0] == l && h[1] == r
      invariant forall k :: 0 <= k < i ==>
                  h[k + 2] == Xor(h[k], c.encrypt(Block(w.tag, k, tw, h[k + 1])) % (TWO_64 * TWO_64) / TWO_64 % w.half)
    {
      h := h + [Xor(h[i], c.encrypt(Block(w.tag, i, tw, h[i + 1])) % (TWO_64 * TWO_64) / TWO_64 % w.half)];
    }
  }

  /** Perm goes that way, for every cipher. */
  lemma CrossesIff(c: Codec, w: Width, tw: Tweak, x: nat, y: nat)
    requires w.half > 0
    ensures Crosses(c, w.tag, w.half, tw, x, y) <==> y == Perm(c, w, tw, x)
  {
    hide Xor, Rounds;
    if Crosses(c, w.tag, w.half, tw, x, y) {
      var h :| Trace(c, w.tag, w.half, tw, h) && h[0] == x / w.half && h[1] == x % w.half && y == h[8] * w.half + h[9];
      RoundsOfTrace(c, w, tw, h, 0);
    }
    var h := TraceOf(c, w, tw, w.Hi(x), w.Lo(x));
    RoundsOfTrace(c, w, tw, h, 0);
  }

  /** The round values of a cipher that does not look at the half. */
  ghost function Keyed(c: Codec, w: Width, tw: Tweak, i: nat): nat
    requires w.half > 0
  {
    c.encrypt(Block(w.tag, i, tw, 0)) % (TWO_64 * TWO_64) / TWO_64 % w.half
  }

  /** For such a cipher the left half comes out xored with the even rounds' values, the right one with the odd rounds'. */
  lemma KeyedRounds(c: Codec, w: Width, tw: Tweak, x: nat)
    requires w.half > 0
    requires forall i: nat, word: nat :: i < 8 ==> c.encrypt(Block(w.tag, i, tw, word)) == c.encrypt(Block(w.tag, i, tw, 0))
    ensures var k := seq(8, i requires 0 <= i < 8 => Keyed(c, w, tw, i));
            Perm(c, w, tw, x) ==
              Xor(Xor(Xor(Xor(x / w.half, k[0]), k[2]), k[4]), k[6]) * w.half +
              Xor(Xor(Xor(Xor(x % w.half, k[1]), k[3]), k[5]), k[7])
  {
    hide Xor, Rounds;
    var h := TraceOf(c, w, tw, w.Hi(x), w.Lo(x));
    RoundsOfTrace(c, w, tw, h, 0);
    forall i | 0 <= i < 8
      ensures h[i + 2] == Xor(h[i], Keyed(c, w, tw, i))
    {
      assert c.encrypt(Block(w.tag, i, tw, h[i + 1])) == c.encrypt(Block(w.tag, i, tw, 0));
    }
  }
}
