/** The commands of cmd/bucket-next-cli that change the store while the service is down. */
module Cli {
  import opened Wrappers
  import opened Int64
  import opened DataTypes
  import opened ShardMath
  import opened StateFile
  import opened StateStore
  import opened Wire
  import opened Protocol

  datatype CliError = Usage | UnknownEntity | NotNumeric | BadValue | NameTaken | Refused | StateNotWritten

  /** What is left of the arguments without the flag, in order. */
  function Without(args: seq<string>, flag: string): (rest: seq<string>)
    ensures |rest| <= |args|
  {
    if args == [] then []
    else
      var k := |args| - 1;
      if args[k] == flag then Without(args[..k], flag) else Without(args[..k], flag) + [args[k]]
  }

  /** Every other argument is still there as often as before. */
  lemma {:induction false} WithoutKeepsOthers(args: seq<string>, flag: string)
    ensures multiset(Without(args, flag)) == multiset(args)[flag := 0]
  {
    if args != [] {
      var k := |args| - 1;
      assert args == args[..k] + [args[k]];
      WithoutKeepsOthers(args[..k], flag);
    }
  }

  /** One argument stays unless it is the flag, and the order stays. */
  lemma {:induction false} WithoutInOrder(a: seq<string>, arg: string, b: seq<string>, flag: string)
    ensures Without(a + [arg] + b, flag) == Without(a, flag) + (if arg == flag then [] else [arg]) + Without(b, flag)
    decreases |b|
  {
    if b == [] {
      assert (a + [arg] + b)[..|a|] == a && a + [arg] + b == a + [arg];
    } else {
      var k := |b| - 1;
      WithoutInOrder(a, arg, b[..k], flag);
      assert (a + [arg] + b)[..|a| + 1 + k] == a + [arg] + b[..k];
    }
  }

  /** hasFlag: the slice is compacted in its own backing array; the result is its new length. */
  method HasFlag(args: array<string>, flag: string) returns (found: bool, len: nat)
    modifies args
    ensures found <==> flag in old(args[..])
    ensures len <= args.Length && args[..len] == Without(old(args[..]), flag)
  {
    found, len := false, 0;
    ghost var was := args[..];
    for i := 0 to args.Length
      invariant len <= i
      invariant found <==> flag in was[..i]
      invariant args[..len] == Without(was[..i], flag)
      invariant forall j :: i <= j < args.Length ==> args[j] == was[j]
    {
      assert was[..i + 1][..i] == was[..i] && args[i] == was[i];
      if args[i] == flag {
        found := true;
      } else {
        args[len] := args[i];
        len := len + 1;
      }
    }
    assert was[..args.Length] == was;
  }

  /** cmdInit: registration with a start value snapped to this shard; an existing entity is not touched. */
  method CmdInit(l: Layout, store: Store, name: string, dt: DataType, start: Option<int>) returns (r: Result<Option<int>, CliError>)
    requires l.Valid() && store.Valid() && (start.Some? ==> start.value <= MAX)
    modifies store`records, store.disk
    ensures store.Valid()
    ensures r == Failure(NotNumeric) <==> start.Some? && !dt.IsNumeric()
    ensures r == Failure(BadValue) <==> start.Some? && dt.IsNumeric() && ParseCounterValue(l, dt, start.value).None?
    ensures r == Failure(NameTaken) <==>
            && name in old(store.records)
            && (start.None? || (dt.IsNumeric() && ParseCounterValue(l, dt, start.value).Some?))
    ensures r == Failure(StateNotWritten) ==> !old(store.disk.NextFate()).Done?
    ensures r.Failure? ==> r.error in {NotNumeric, BadValue, NameTaken, StateNotWritten} && store.Memory() == old(store.Memory())
    ensures r.Success? ==>
              && old(store.disk.NextFate()).Done?
              && name !in old(store.records) && name in store.records && store.InSync()
              && store.records == old(store.records)[name := Record(name, dt, store.records[name].iteration, store.id.shardID)]
              && (start.None? ==> store.records[name].iteration == 0)
              && (start.Some? ==> IsLeastFrom(l, start.value, l.Value(store.records[name].iteration)))
              && r.value == if dt.IsNumeric() then Some(l.Value(store.records[name].iteration)) else None
  {
    hide ParseCounterValue, IsLeastFrom, Layout.Value, Layout.Iter, Layout.Exact, Layout.MaxIter, Reopen;
    var iter := 0;
    if start.Some? {
      if !dt.IsNumeric() {
        return Failure(NotNumeric);
      }
      var snapped := ParseCounterValue(l, dt, start.value);
      if snapped.None? {
        return Failure(BadValue);
      }
      iter := l.Iter(snapped.value);
    }
    var reg := store.Register(name, dt, iter);
    if reg.Failure? {
      return Failure(StateNotWritten);
    }
    if !reg.value.1 {
      return Failure(NameTaken);
    }
    return Success(if dt.IsNumeric() then Some(l.Value(iter)) else None);
  }

  /**
   cmdReset: the mark becomes the iteration of the least value of this shard from `value` on. It is
   refused exactly when that lies below the mark, and not forced, since anything below the mark may
   have been issued; so every change that it makes to the file is an offline reset of the protocol.
   */
  method CmdReset(l: Layout, store: Store, name: string, value: int, force: bool) returns (r: Result<int, CliError>, ghost target: int)
    requires l.Valid() && store.Valid() && value <= MAX
    modifies store`records, store.disk
    ensures store.Valid()
    ensures r == Failure(UnknownEntity) <==> name !in old(store.records)
    ensures r == Failure(NotNumeric) <==> name in old(store.records) && !old(store.records)[name].dataType.IsNumeric()
    ensures r == Failure(BadValue) <==>
            && name in old(store.records) && old(store.records)[name].dataType.IsNumeric()
            && ParseCounterValue(l, old(store.records)[name].dataType, value).None?
    ensures r == Failure(Refused) <==>
            && name in old(store.records) && old(store.records)[name].dataType.IsNumeric()
            && var snapped := ParseCounterValue(l, old(store.records)[name].dataType, value);
            snapped.Some? && l.Iter(snapped.value) < old(store.records)[name].iteration && !force
    ensures r == Failure(StateNotWritten) ==> !old(store.disk.NextFate()).Done?
    ensures r.Failure? ==> r.error in {UnknownEntity, NotNumeric, BadValue, Refused, StateNotWritten} && store.Memory() == old(store.Memory())
    ensures r.Failure? && r.error != StateNotWritten ==> store.disk.file == old(store.disk.file)
    ensures r.Success? ==>
              && store.InSync() && store.records.Keys == old(store.records.Keys)
              && IsLeastFrom(l, value, r.value) && r.value == l.Value(store.records[name].iteration)
    ensures old(store.InSync()) && (r.Success? || r == Failure(StateNotWritten)) ==>
              && store.Tracks(name) && 0 <= target <= MAX && Accepts(old(store.records)[name].iteration, target, force)
              && forall s: State :: s.mark.disk == old(store.records)[name].iteration ==>
                                      WriteOffline(s, target, old(store.disk.NextFate())).mark.disk == store.MarkOf(name).disk
  {
    hide ParseCounterValue, IsLeastFrom, Layout.Value, Layout.Iter, Layout.Exact, Layout.MaxIter, Reopen;
    target := 0;
    var rec := store.Get(name);
    if rec.None? {
      return Failure(UnknownEntity), target;
    }
    if !rec.value.dataType.IsNumeric() {
      return Failure(NotNumeric), target;
    }
    var snapped := ParseCounterValue(l, rec.value.dataType, value);
    if snapped.None? {
      return Failure(BadValue), target;
    }
    var newIter := l.Iter(snapped.value);
    if newIter < rec.value.iteration && !force {
      return Failure(Refused), target;
    }
    target := newIter;
    MaxIterFits(l, rec.value.dataType);
    var w := store.SetMark(name, newIter);
    if w.Failure? {
      return Failure(StateNotWritten), target;
    }
    return Success(snapped.value), target;
  }

  /** cmdDelete: only with --force, for a deleted entity starts over. */
  method CmdDelete(store: Store, name: string, force: bool) returns (r: Result<(), CliError>)
    requires store.Valid()
    modifies store`records, store.disk
    ensures store.Valid()
    ensures r == Failure(UnknownEntity) <==> name !in old(store.records)
    ensures r == Failure(Refused) <==> name in old(store.records) && !force
    ensures r.Failure? ==> store.Memory() == old(store.Memory())
    ensures r == Failure(StateNotWritten) <==> name in old(store.records) && force && !old(store.disk.NextFate()).Done?
    ensures r.Failure? ==> r.error in {UnknownEntity, Refused, StateNotWritten}
    ensures r.Success? ==> store.records == old(store.records) - {name} && store.InSync()
  {
    var rec := store.Get(name);
    if rec.None? {
      return Failure(UnknownEntity);
    }
    if !force {
      return Failure(Refused);
    }
    var d := store.Delete(name);
    if d.Failure? {
      return Failure(StateNotWritten);
    }
    return Success(());
  }
}
