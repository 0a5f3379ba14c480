/** The promise of the whole system: one entity, many shards, their whole histories, no ID twice. */
module Cluster {
  import opened Wrappers
  import opened Int64
  import opened DataTypes
  import opened ShardMath
  import opened Reservation
  import opened Feistel
  import opened UuidCodec
  import opened Wire
  import opened Protocol
  import opened ProtocolInvariant
  import opened ProtocolTheorems
  import opened ProtocolBounds
  import opened ProtocolResets
  import opened ProtocolWitness
  import Examples = ProtocolCounterexamples
  import S = Snowflake

  /** One shard's history of the entity: a run of its allocator since registration, and the state it ends in. */
  datatype Shard = Shard(layout: Layout, segmentSize: int, threshold: int, start: int, run: seq<Action>, state: State) {
    function Config(dt: DataType): Config
      requires layout.Valid()
    {
      Protocol.Config(segmentSize, threshold, layout.MaxIter(dt.MaxValue()))
    }

    ghost predicate Valid(dt: DataType) {
      layout.Valid() && Reachable(Config(dt), start, run, state)
    }
  }

  /** Distinct shard ids, one total_shards. The key and the tweak are shared by being parameters. */
  ghost predicate Compatible(shards: seq<Shard>) {
    && (forall p, q :: 0 <= p < |shards| && 0 <= q < |shards| ==>
                         shards[p].layout.totalShards == shards[q].layout.totalShards)
    && (forall p, q :: 0 <= p < q < |shards| ==> shards[p].layout.shardID != shards[q].layout.shardID)
  }

  ghost predicate IsCluster(shards: seq<Shard>, dt: DataType) {
    Compatible(shards) && forall p :: 0 <= p < |shards| ==> shards[p].Valid(dt)
  }

  /** One ID handed out: by which shard, in which of its ranges, for which iteration. */
  datatype Mint = Mint(shard: nat, range: nat, iter: int)

  ghost predicate Happened(shards: seq<Shard>, m: Mint) {
    && m.shard < |shards|
    && m.range < |shards[m.shard].state.hist|
    && shards[m.shard].state.hist[m.range].Has(m.iter)
  }

  /** The value wraps at most once, and the codec, if there is one, carries it. */
  ghost predicate Representable(shards: seq<Shard>, c: Codec, tw: Tweak, dt: DataType, m: Mint)
    requires m.shard < |shards|
  {
    shards[m.shard].layout.Exact(m.iter) < TWO_64 && WireOf(shards[m.shard].layout, c, tw, dt, m.iter).Success?
  }

  ghost function IDOf(shards: seq<Shard>, c: Codec, tw: Tweak, dt: DataType, m: Mint): Result<ID, CodecError>
    requires m.shard < |shards|
  {
    WireOf(shards[m.shard].layout, c, tw, dt, m.iter)
  }

  lemma MintedIsNatural(shards: seq<Shard>, dt: DataType, m: Mint)
    requires IsCluster(shards, dt) && Happened(shards, m)
    ensures m.iter >= 0
  {
    hide Clean, Exec, Wrap;
    var sh := shards[m.shard];
    ReachableInv(sh.Config(dt), sh.start, sh.run, sh.state);
  }

  /**
   Cluster-wide uniqueness: two different mints, on whatever shards and at whatever points of their
   histories of calls, refills, resets, failed writes, crashes and restarts, give different IDs.
   */
  lemma NoIDTwice(shards: seq<Shard>, c: Codec, tw: Tweak, dt: DataType, m: Mint, n: Mint)
    requires IsCluster(shards, dt) && Happened(shards, m) && Happened(shards, n) && m != n
    requires Representable(shards, c, tw, dt, m) && Representable(shards, c, tw, dt, n)
    ensures IDOf(shards, c, tw, dt, m) != IDOf(shards, c, tw, dt, n)
  {
    hide Clean, Exec, WireOf, Reachable;
    MintedIsNatural(shards, dt, m);
    MintedIsNatural(shards, dt, n);
    var a, b := shards[m.shard], shards[n.shard];
    if IDOf(shards, c, tw, dt, m) == IDOf(shards, c, tw, dt, n) {
      WireInjective(a.layout, b.layout, c, tw, dt, m.iter, n.iter);
      assert m.shard == n.shard;
      NoIterationTwice(a.Config(dt), a.start, a.run, a.state);
    }
  }

  /** The hypotheses of NoIDTwice can be met: two shards that have each handed out IDs of the same iterations. */
  lemma TwoShards(c: Codec, tw: Tweak) returns (shards: seq<Shard>, m: Mint, n: Mint)
    ensures IsCluster(shards, Int) && Happened(shards, m) && Happened(shards, n)
    ensures m.shard != n.shard && m.iter == n.iter
    ensures Representable(shards, c, tw, Int, m) && Representable(shards, c, tw, Int, n)
  {
    var a := OneShard(Layout(1, 2));
    var b := OneShard(Layout(2, 2));
    shards, m, n := [a, b], Mint(0, 0, 3), Mint(1, 0, 3);
  }

  lemma OneShard(l: Layout) returns (sh: Shard)
    requires l.Valid() && l.totalShards == 2
    ensures sh.layout == l && sh.Valid(Int) && sh.state.hist == [Range(0, 5)]
  {
    hide Exec, Clean, Wrap, Grow;
    var cfg := Protocol.Config(10, 5, l.MaxIter(Int.MaxValue()));
    Examples.FirstCall(cfg, 5, CLEAN);
    var run := RunOf(cfg, Fresh(0), CLEAN, Examples.After(5));
    sh := Shard(l, 10, 5, 0, run, Examples.After(5));
  }

  // ----- without hypotheses on the numbers -----

  const MOST_WAITING: nat := 0x1_0000_0000

  /** Which configurations are roomy, for any segment size up to 2^60: all but one shard with a 63-bit type. */
  lemma RoomyIff(l: Layout, dt: DataType, segmentSize: int, threshold: int, p: nat)
    requires l.Valid() && dt.IsCounter() && 1 <= threshold <= segmentSize <= 0x1000_0000_0000_0000 && p <= MOST_WAITING
    ensures Roomy(Protocol.Config(segmentSize, threshold, l.MaxIter(dt.MaxValue())), p)
            <==> l.totalShards >= 2 || dt.Int? || dt.Uuid8?
  {
    MaxIterHalves(l, dt.MaxValue());
    hide Layout.MaxIter;
  }

  lemma MaxIterHalves(l: Layout, max: int)
    requires l.Valid() && 1024 <= max <= MAX
    ensures l.totalShards == 1 ==> l.MaxIter(max) == max - 1
    ensures -1 <= l.MaxIter(max) && (l.totalShards >= 2 ==> 2 * l.MaxIter(max) <= max)
  {
    Halves(max - l.shardID, l.totalShards);
  }

  lemma Halves(room: nat, n: int)
    requires n >= 1
    ensures 0 <= room / n && (n == 1 ==> room / n == room) && (n >= 2 ==> 2 * (room / n) <= room)
  {
    if n == 1 {
      QuotientUnique(room, n, room, 0);
    } else {
      DivIsGreatest(room, n, room / n);
      MulMonotone(2, n, room / n);
    }
  }

  /** A shard registered within its type, in a roomy configuration, with at most p calls waiting at a time. */
  ghost predicate Tame(sh: Shard, dt: DataType, p: nat) {
    && sh.layout.Valid() && sh.Config(dt).Valid() && Roomy(sh.Config(dt), p)
    && 0 <= sh.start <= sh.Config(dt).maxIter
    && OrderlyRun(sh.Config(dt), Fresh(sh.start), sh.run, p)
    && Exec(sh.Config(dt), Fresh(sh.start), sh.run) == Some(sh.state)
  }

  /** A tame history meets the hypotheses by itself. */
  lemma TameIsValid(sh: Shard, dt: DataType, p: nat)
    requires Tame(sh, dt, p)
    ensures sh.Valid(dt)
  {
    hide Clean, Exec, OrderlyRun, Wrap, Apply, Enabled;
    NothingWraps(sh.Config(dt), sh.start, sh.run, p);
  }

  /** In it every iteration handed out fits the type, but for one batch for each call that waited. */
  lemma TameFits(sh: Shard, dt: DataType, p: nat, i: nat, x: int)
    requires Tame(sh, dt, p) && i < |sh.state.hist| && sh.state.hist[i].Has(x)
    ensures 0 <= x <= sh.layout.MaxIter(dt.MaxValue()) + p * MAX_BATCH
  {
    hide Clean, Exec, OrderlyRun, Wrap, Apply, Enabled;
    var cfg := sh.Config(dt);
    TameIsValid(sh, dt, p);
    ReachableInv(cfg, sh.start, sh.run, sh.state);
    FreshBounded(cfg, sh.start, p);
    IssuedFits(cfg, Fresh(sh.start), sh.run, p);
  }

  /** Such values wrap at most once. */
  lemma TameValue(l: Layout, dt: DataType, p: nat, x: nat)
    requires l.Valid() && p <= MOST_WAITING && 0 <= x <= l.MaxIter(dt.MaxValue()) + p * MAX_BATCH
    ensures l.Exact(x) < TWO_64
  {
    var extra := p * MAX_BATCH;
    MulMonotone(l.totalShards, 1024, extra);
    if x > extra {
      FitsIffWithinMaxIter(l, dt.MaxValue(), x - extra);
      assert x * l.totalShards == (x - extra) * l.totalShards + extra * l.totalShards;
    } else {
      MulMonotone(x, extra, l.totalShards);
    }
  }

  /** If no call waited, the iteration has an ID, and it stands for shard_id + i * total_shards, which fits the type. */
  lemma TameGives(sh: Shard, c: Codec, tw: Tweak, dt: DataType, i: nat, x: int)
    requires dt.IsCounter() && Tame(sh, dt, 0) && i < |sh.state.hist| && sh.state.hist[i].Has(x)
    ensures Gives(sh, c, tw, dt, x)
  {
    hide Tame, WireOf, DecodeSpec, Layout.Value, Layout.Exact, Layout.MaxIter;
    TameFits(sh, dt, 0, i, x);
    assert sh.layout.Valid() by { TameIsValid(sh, dt, 0); }
    WithinMaxIter(sh.layout, c, tw, dt, x);
  }

  /** What a mint of iteration x answers: the number itself, or the text that decodes to it. */
  ghost predicate Gives(sh: Shard, c: Codec, tw: Tweak, dt: DataType, x: int) {
    var id, v := WireOf(sh.layout, c, tw, dt, x), sh.layout.shardID + x * sh.layout.totalShards;
    && id.Success? && 1 <= v <= dt.MaxValue()
    && (dt.IsNumeric() ==> id.value == Numeric(v))
    && (dt.IsUuid() ==> id.value.Text? && DecodeSpec(c, id.value.text, dt.UuidLength(), tw) == Success(v))
  }

  /**
   In roomy configurations nothing needs to be assumed of the numbers or of the values: over histories
   in which at most p calls wait at a time, no two mints that give an ID give the same one; and if none
   waits, every mint gives an ID, of a value that fits the type.
   */
  lemma NoIDTwiceTame(shards: seq<Shard>, c: Codec, tw: Tweak, dt: DataType, p: nat, m: Mint, n: Mint)
    requires dt.IsCounter() && p <= MOST_WAITING
    requires Compatible(shards) && forall k :: 0 <= k < |shards| ==> Tame(shards[k], dt, p)
    requires Happened(shards, m) && Happened(shards, n)
    ensures m != n && IDOf(shards, c, tw, dt, m).Success? ==> IDOf(shards, c, tw, dt, m) != IDOf(shards, c, tw, dt, n)
    ensures p == 0 ==> Gives(shards[m.shard], c, tw, dt, m.iter)
  {
    hide Tame, Gives, WireOf, DecodeSpec, Layout.Value, Layout.Exact, Layout.MaxIter;
    forall k | 0 <= k < |shards|
      ensures shards[k].Valid(dt)
    {
      TameIsValid(shards[k], dt, p);
    }
    TameFits(shards[m.shard], dt, p, m.range, m.iter);
    TameFits(shards[n.shard], dt, p, n.range, n.iter);
    TameValue(shards[m.shard].layout, dt, p, m.iter);
    TameValue(shards[n.shard].layout, dt, p, n.iter);
    if p == 0 {
      TameGives(shards[m.shard], c, tw, dt, m.range, m.iter);
    }
    if m != n && IDOf(shards, c, tw, dt, m) == IDOf(shards, c, tw, dt, n) && IDOf(shards, c, tw, dt, m).Success? {
      NoIDTwice(shards, c, tw, dt, m, n);
    }
  }

  // ----- snowflake IDs -----

  /** One shard's Snowflake history: its 0-based shard field, and a run from its first start that is steady. */
  datatype Forging = Forging(shard: int, run: seq<S.Action>, world: S.World) {
    ghost predicate Valid() {
      0 <= shard <= S.MAX_SHARD && S.Steady(S.NEW_SHARD, run) && S.Run(S.NEW_SHARD, run) == Some(world)
    }
  }

  /** Snowflake IDs are unique over all entities and all shards that share an epoch, each over all its starts. */
  lemma NoSnowflakeTwice(forges: seq<Forging>, epochMs: int, p: nat, i: nat, q: nat, j: nat)
    requires forall k :: 0 <= k < |forges| ==> forges[k].Valid()
    requires forall k, l :: 0 <= k < l < |forges| ==> forges[k].shard != forges[l].shard
    requires p < |forges| && q < |forges| && i < |forges[p].world.issued| && j < |forges[q].world.issued|
    requires forges[p].world.issued[i].Fits(epochMs) && forges[q].world.issued[j].Fits(epochMs)
    ensures S.Pack(epochMs, forges[p].shard, forges[p].world.issued[i]) == S.Pack(epochMs, forges[q].shard, forges[q].world.issued[j])
            <==> p == q && i == j
  {
    hide S.Pack, S.Run, S.Steady;
    var a, b := forges[p], forges[q];
    S.PackOrder(epochMs, a.shard, a.world.issued[i], b.shard, b.world.issued[j]);
    S.NeverRepeats(a.run, a.world, epochMs, a.shard);
  }

  // ----- resets in values -----

  /** Values of later iterations are not smaller. */
  lemma ValueMonotone(l: Layout, i: nat, j: nat)
    requires l.Valid() && i <= j && l.Exact(j) <= MAX
    ensures l.Value(i) == l.Exact(i) <= l.Exact(j) == l.Value(j)
  {
    MulMonotone(i, j, l.totalShards);
    ValueIsExact(l, i);
    ValueIsExact(l, j);
  }

  /**
   Once a reset of a number entity to value v is written, every ID minted later is v or more, through
   crashes, restarts and offline resets, until a reset is forced.
   */
  lemma NoValueBelowReset(l: Layout, c: Codec, tw: Tweak, dt: DataType, v: int, cfg: Config, s: State, t: nat, run: seq<Action>, i: nat, x: int)
    requires l.Valid() && dt.IsNumeric() && v <= MAX && ParseCounterValue(l, dt, v).Some?
    requires cfg.Valid() && Inv(cfg, s) && Enabled(cfg, s, ResetWrite(t, Done))
    requires s.threads[t].target == l.Iter(ParseCounterValue(l, dt, v).value)
    requires var s1 := Apply(cfg, s, ResetWrite(t, Done));
             && Clean(cfg, s1, run) && UnforcedRun(cfg, s1, run)
             && Exec(cfg, s1, run).Some? && |s1.hist| <= i < |Exec(cfg, s1, run).value.hist|
             && Exec(cfg, s1, run).value.hist[i].Has(x)
    requires l.Exact(x) <= MAX
    ensures exists u :: WireOf(l, c, tw, dt, x) == Success(Numeric(u)) && u >= ParseCounterValue(l, dt, v).value >= v
  {
    hide Clean, Exec, UnforcedRun, Apply, ParseCounterValue, Wrap, Inv;
    hide Layout.Value, Layout.Exact, Layout.Iter, Layout.MaxIter, Layout.Owns;
    NothingBelowReset(cfg, s, t, run);
    var s2 := Exec(cfg, Apply(cfg, s, ResetWrite(t, Done)), run).value;
    assert s.threads[t].target <= s2.hist[i].first <= x;
    ValueMonotone(l, s.threads[t].target, x);
    assert WireOf(l, c, tw, dt, x) == Success(Numeric(l.Value(x)));
  }

  /** Likewise after registration with start value v. */
  lemma NoValueBelowStart(l: Layout, c: Codec, tw: Tweak, dt: DataType, v: int, cfg: Config, run: seq<Action>, s: State, i: nat, x: int)
    requires l.Valid() && dt.IsNumeric() && v <= MAX && ParseCounterValue(l, dt, v).Some?
    requires var start := l.Iter(ParseCounterValue(l, dt, v).value);
             Reachable(cfg, start, run, s) && UnforcedRun(cfg, Fresh(start), run)
    requires i < |s.hist| && s.hist[i].Has(x) && l.Exact(x) <= MAX
    ensures exists u :: WireOf(l, c, tw, dt, x) == Success(Numeric(u)) && u >= ParseCounterValue(l, dt, v).value >= v
  {
    hide Clean, Exec, UnforcedRun, ParseCounterValue, Wrap;
    hide Layout.Value, Layout.Exact, Layout.Iter, Layout.MaxIter, Layout.Owns;
    var start := l.Iter(ParseCounterValue(l, dt, v).value);
    NothingBelowStart(cfg, start, run, s);
    ValueMonotone(l, start, x);
    assert WireOf(l, c, tw, dt, x) == Success(Numeric(l.Value(x)));
  }

  /** The first ID minted after an accepted reset to v is the least value of the shard from v on. */
  lemma FirstValueAfterReset(l: Layout, c: Codec, tw: Tweak, dt: DataType, v: int, cfg: Config, s: State, t: nat, run: seq<Action>, u: nat, r: nat)
    requires l.Valid() && dt.IsNumeric() && v <= MAX && ParseCounterValue(l, dt, v).Some?
    requires cfg.Valid() && Inv(cfg, s) && Enabled(cfg, s, ResetApply(t))
    requires s.threads[t].target == l.Iter(ParseCounterValue(l, dt, v).value)
    requires var s1 := Apply(cfg, s, ResetApply(t));
             && Clean(cfg, s1, run) && Quiet(run) && Exec(cfg, s1, run).Some?
             && Enabled(cfg, Exec(cfg, s1, run).value, Take(u, r))
    ensures var m := Exec(cfg, Apply(cfg, s, ResetApply(t)), run).value;
            && |Apply(cfg, m, Take(u, r)).hist| == |m.hist| + 1
            && var id := WireOf(l, c, tw, dt, Apply(cfg, m, Take(u, r)).hist[|m.hist|].first);
               id.Success? && id.value.Numeric? && IsLeastFrom(l, v, id.value.value)
  {
    hide Clean, Exec, Apply, ParseCounterValue, Wrap, Enabled, Inv, IsLeastFrom, WireOf, DecodeSpec;
    NextAfterReset(cfg, s, t, run, u, r);
    WithinMaxIter(l, c, tw, dt, l.Iter(ParseCounterValue(l, dt, v).value));
  }

  /** The first ID minted after registration with start value v likewise, if no crash comes first. */
  lemma FirstValueAfterStart(l: Layout, c: Codec, tw: Tweak, dt: DataType, v: int, cfg: Config, run: seq<Action>, m: State, u: nat, r: nat)
    requires l.Valid() && dt.IsNumeric() && v <= MAX && ParseCounterValue(l, dt, v).Some?
    requires Reachable(cfg, l.Iter(ParseCounterValue(l, dt, v).value), run, m) && Quiet(run) && Enabled(cfg, m, Take(u, r))
    ensures && |Apply(cfg, m, Take(u, r)).hist| == |m.hist| + 1
            && var id := WireOf(l, c, tw, dt, Apply(cfg, m, Take(u, r)).hist[|m.hist|].first);
               id.Success? && id.value.Numeric? && IsLeastFrom(l, v, id.value.value)
  {
    hide Clean, Exec, Apply, ParseCounterValue, Wrap, IsLeastFrom, WireOf, DecodeSpec;
    FirstAfterInit(cfg, l.Iter(ParseCounterValue(l, dt, v).value), run, m, u, r);
    WithinMaxIter(l, c, tw, dt, l.Iter(ParseCounterValue(l, dt, v).value));
  }
}
