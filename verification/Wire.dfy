/** From iterations to IDs as clients see them, and from the values clients send back to iterations. */
module Wire {
  import opened Wrappers
  import opened Bits
  import opened Int64
  import opened DataTypes
  import opened ShardMath
  import opened Feistel
  import opened UuidCodec

  /** A counter ID: a number for int and long, text for the uuid types. */
  datatype ID = Numeric(value: int) | Text(text: string)

  /** The ID that mint makes of one iteration, or the codec's refusal. */
  ghost function WireOf(l: Layout, c: Codec, tw: Tweak, dt: DataType, iter: int): Result<ID, CodecError> {
    if !dt.IsUuid() then Success(Numeric(l.Value(iter)))
    else
      match EncodeSpec(c, l.Value(iter), dt.UuidLength(), tw)
      case Success(s) => Success(Text(s))
      case Failure(e) => Failure(e)
  }

  lemma MaxIterFits(l: Layout, dt: DataType)
    requires l.Valid()
    ensures -1 <= l.MaxIter(dt.MaxValue()) <= MAX
  {
  }

  /** The ID stands for the number v: it is v itself, or the text that decodes to v. */
  ghost predicate Denotes(c: Codec, tw: Tweak, dt: DataType, id: ID, v: int) {
    match id
    case Numeric(n) => dt.IsNumeric() && n == v
    case Text(s) => dt.IsUuid() && |s| == dt.UuidLength() && DecodeSpec(c, s, dt.UuidLength(), tw) == Success(v)
  }

  /** What the bounds of the types are: int32, int64, and what the texts of each length can carry. */
  lemma BoundsOfTypes(c: Codec, tw: Tweak, dt: DataType, v: int)
    requires v <= MAX
    ensures dt.Int? ==> dt.MaxValue() == Pow(2, 31) - 1
    ensures dt.Long? ==> dt.MaxValue() == MAX == Pow(2, 63) - 1
    ensures dt.Uuid8? || dt.Uuid12? || dt.Uuid16? || dt.Uuid22? ==>
              && (EncodeSpec(c, v, dt.UuidLength(), tw).Success? <==> 0 <= v <= dt.MaxValue())
              && dt.UuidLength() == if dt.Uuid8? then 8 else if dt.Uuid12? then 12 else if dt.Uuid16? then 16 else 22
  {
    hide EncodeSpec;
    Pow62_8();
    IntegerSizes();
    hide Pow;
    EncodeDomain(c, v, dt.UuidLength(), tw);
  }

  /**
   Every iteration i within the bound that the allocator checks has an ID, and it stands for
   shard_id + i * total_shards, which fits the type.
   */
  lemma WithinMaxIter(l: Layout, c: Codec, tw: Tweak, dt: DataType, iter: nat)
    requires l.Valid() && dt.IsCounter() && iter <= l.MaxIter(dt.MaxValue())
    ensures 1 <= l.shardID + iter * l.totalShards == l.Value(iter) <= dt.MaxValue()
    ensures WireOf(l, c, tw, dt, iter).Success?
    ensures dt.Int? || dt.Long? ==> WireOf(l, c, tw, dt, iter) == Success(Numeric(l.shardID + iter * l.totalShards))
    ensures dt.Uuid8? || dt.Uuid12? || dt.Uuid16? || dt.Uuid22? ==>
              && WireOf(l, c, tw, dt, iter).value.Text?
              && |WireOf(l, c, tw, dt, iter).value.text| == dt.UuidLength()
              && DecodeSpec(c, WireOf(l, c, tw, dt, iter).value.text, dt.UuidLength(), tw)
                 == Success(l.shardID + iter * l.totalShards)
    ensures Denotes(c, tw, dt, WireOf(l, c, tw, dt, iter).value, l.shardID + iter * l.totalShards)
  {
    hide EncodeSpec, DecodeSpec;
    FitsIffWithinMaxIter(l, dt.MaxValue(), iter);
    ValueIsExact(l, iter);
    var v := l.Value(iter);
    assert iter * l.totalShards >= 0;
    if dt.IsUuid() {
      BoundsOfTypes(c, tw, dt, v);
      EncodeDomain(c, v, dt.UuidLength(), tw);
      DecodeInvertsEncode(c, EncodeSpec(c, v, dt.UuidLength(), tw).value, v, dt.UuidLength(), tw);
    }
  }

  /** Equal IDs come from the same shard and the same iteration. */
  lemma WireInjective(l: Layout, m: Layout, c: Codec, tw: Tweak, dt: DataType, i: nat, j: nat)
    requires l.Valid() && m.Valid() && l.totalShards == m.totalShards
    requires l.Exact(i) < TWO_64 && m.Exact(j) < TWO_64
    requires WireOf(l, c, tw, dt, i).Success? && WireOf(l, c, tw, dt, i) == WireOf(m, c, tw, dt, j)
    ensures l.shardID == m.shardID && i == j
  {
    hide EncodeSpec;
    ValuesDisjoint(l, m, i, j);
    if dt.IsUuid() {
      EncodeInjective(c, l.Value(i), m.Value(j), dt.UuidLength(), tw);
    }
  }

  /** s is the least value of the shard at or above v. */
  ghost predicate IsLeastFrom(l: Layout, v: int, s: int) {
    s >= v && l.Owns(s) && forall w :: l.Owns(w) && w >= v ==> w >= s
  }

  /**
   parseCounterValue and snapValue: the value snapped to this shard. A value is refused exactly when
   it is not positive or no value of the shard lies between it and the largest of the type.
   */
  function ParseCounterValue(l: Layout, dt: DataType, v: int): (r: Option<int>)
    requires l.Valid() && v <= MAX
    ensures r.None? <==> v < 1 || !exists w :: v <= w <= dt.MaxValue() && l.Owns(w)
    ensures r.Some? ==> && IsLeastFrom(l, v, r.value) && r.value <= dt.MaxValue()
                        && 0 <= l.Iter(r.value) <= l.MaxIter(dt.MaxValue())
                        && l.Value(l.Iter(r.value)) == r.value == l.shardID + l.Iter(r.value) * l.totalShards
  {
    var max := dt.MaxValue();
    if v < 1 || v > max then None
    else
      var snapped := l.SnapForward(v);
      SnapRejectsExactly(l, v, max);
      if snapped < v || snapped > max then None
      else
        SnapAccepted(l, v, max);
        FitsIffWithinMaxIter(l, max, l.Iter(snapped));
        ValueIsExact(l, l.Iter(snapped));
        Some(snapped)
  }
}
