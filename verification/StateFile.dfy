/**
 The contents of internal/state's file as values: listing the records, reading them back, checking
 the identity, and what each mutation makes of the store's memory.
 */
module StateFile {
  import opened Wrappers
  import opened DataTypes
  import opened NameOrder
  import opened Reservation

  datatype Record = Record(name: string, dataType: DataType, iteration: int, shardID: int)

  datatype Identity = Identity(shardID: int, totalShards: int, keyFingerprint: string, epochMs: int)

  /** What a file can hold: nothing readable, a bare list of records, or version 2. */
  datatype File =
    | Missing
    | Empty
    | Garbled
    | V1(records: seq<Record>)
    | V2(version: int, id: Identity, sfMark: int, records: seq<Record>)

  const FORMAT_VERSION: int := 2

  /** What the store keeps in memory: the records by name and the Snowflake mark. */
  datatype Memory = Memory(records: map<string, Record>, sfMark: int)

  datatype Problem = ShardIDDiffers | TotalShardsDiffers | KeyDiffers | EpochDiffers | ForeignRecord(name: string)

  datatype OpenError = NotFound | EmptyFile | ParseError | WrongVersion | WrongIdentity(problems: seq<Problem>) | WriteFailed

  // ----- identity -----

  function Problems(got: Identity, want: Identity): seq<Problem> {
    (if got.shardID != want.shardID then [ShardIDDiffers] else []) +
    (if got.totalShards != want.totalShards then [TotalShardsDiffers] else []) +
    (if got.keyFingerprint != want.keyFingerprint then [KeyDiffers] else []) +
    (if got.epochMs != want.epochMs then [EpochDiffers] else [])
  }

  /** A file is accepted exactly when all four parts of its identity match. */
  lemma NoProblemsIffSame(got: Identity, want: Identity)
    ensures Problems(got, want) == [] <==> got == want
  {
    if Problems(got, want) == [] {
      assert |Problems(got, want)| == 0;
    }
  }

  /** The refusal names every part that differs, and nothing else. */
  lemma ProblemsAreDifferences(got: Identity, want: Identity)
    ensures ShardIDDiffers in Problems(got, want) <==> got.shardID != want.shardID
    ensures TotalShardsDiffers in Problems(got, want) <==> got.totalShards != want.totalShards
    ensures KeyDiffers in Problems(got, want) <==> got.keyFingerprint != want.keyFingerprint
    ensures EpochDiffers in Problems(got, want) <==> got.epochMs != want.epochMs
    ensures forall p :: p in Problems(got, want) ==> !p.ForeignRecord?
  {
    var a := if got.shardID != want.shardID then [ShardIDDiffers] else [];
    var b := if got.totalShards != want.totalShards then [TotalShardsDiffers] else [];
    var c := if got.keyFingerprint != want.keyFingerprint then [KeyDiffers] else [];
    var d := if got.epochMs != want.epochMs then [EpochDiffers] else [];
    assert Problems(got, want) == a + b + c + d;
  }

  // ----- listing and reading back -----

  /** Reading a list into a map: a later record replaces an earlier one of the same name. */
  function Rebuild(list: seq<Record>): map<string, Record> {
    if list == [] then map[]
    else
      var last := list[|list| - 1];
      Rebuild(list[..|list| - 1])[last.name := last]
  }

  lemma RebuildStep(list: seq<Record>, i: nat)
    requires i < |list|
    ensures Rebuild(list[..i + 1]) == Rebuild(list[..i])[list[i].name := list[i]]
  {
    assert list[..i + 1][..i] == list[..i];
  }

  /** Nothing later in the list has the same name as record i. */
  ghost predicate LastOfName(list: seq<Record>, i: nat)
    requires i < |list|
  {
    forall j :: i < j < |list| ==> list[j].name != list[i].name
  }

  /** The map holds the last record of each name in the list, and no other name. */
  ghost predicate KeepsLast(list: seq<Record>, m: map<string, Record>) {
    && (forall k :: k in m ==> exists i :: 0 <= i < |list| && list[i].name == k)
    && (forall i :: 0 <= i < |list| ==> list[i].name in m)
    && (forall i :: 0 <= i < |list| && LastOfName(list, i) ==> m[list[i].name] == list[i])
  }

  lemma {:induction false} RebuildLast(list: seq<Record>, i: nat)
    requires i < |list|
    ensures list[i].name in Rebuild(list)
    ensures LastOfName(list, i) ==> Rebuild(list)[list[i].name] == list[i]
    decreases |list|
  {
    var n := |list| - 1;
    if i < n {
      RebuildLast(list[..n], i);
    }
  }

  lemma {:induction false} RebuildNames(list: seq<Record>, k: string) returns (i: nat)
    requires k in Rebuild(list)
    ensures i < |list| && list[i].name == k
  {
    var n := |list| - 1;
    if list[n].name == k {
      i := n;
    } else {
      i := RebuildNames(list[..n], k);
    }
  }

  lemma RebuildKeepsLast(list: seq<Record>)
    ensures KeepsLast(list, Rebuild(list))
  {
    hide Rebuild, LastOfName;
    forall k | k in Rebuild(list)
      ensures exists i :: 0 <= i < |list| && list[i].name == k
    {
      var i := RebuildNames(list, k);
    }
    forall i | 0 <= i < |list|
      ensures list[i].name in Rebuild(list)
      ensures LastOfName(list, i) ==> Rebuild(list)[list[i].name] == list[i]
    {
      RebuildLast(list, i);
    }
  }

  ghost predicate WellKeyed(m: map<string, Record>) {
    forall k :: k in m ==> m[k].name == k
  }

  ghost predicate Ascending(list: seq<Record>) {
    forall i, j :: 0 <= i < j < |list| ==> Less(list[i].name, list[j].name)
  }

  ghost predicate Lists(m: map<string, Record>, list: seq<Record>) {
    && (forall i :: 0 <= i < |list| ==> list[i].name in m && m[list[i].name] == list[i])
    && (forall k :: k in m ==> m[k] in list && m[k].name == k)
  }

  /** The list holds exactly the records of the map, in ascending order of name. */
  ghost predicate IsListing(m: map<string, Record>, list: seq<Record>) {
    Ascending(list) && Lists(m, list)
  }

  lemma EmptyListing()
    ensures IsListing(map[], [])
  {
  }

  lemma WithoutLast(m: map<string, Record>, list: seq<Record>)
    requires IsListing(m, list) && list != []
    ensures IsListing(m - {list[|list| - 1].name}, list[..|list| - 1])
  {
    var k := |list| - 1;
    var init, last := list[..k], list[k];
    forall i | 0 <= i < k
      ensures init[i].name != last.name
    {
      Irreflexive(last.name);
    }
    forall x | x in m && x != last.name
      ensures m[x] in init
    {
      var i :| 0 <= i < |list| && list[i] == m[x];
      assert init[i] == m[x];
    }
  }

  /** Listing and reading back is the identity on the store's memory. */
  lemma {:induction false} RebuildListing(m: map<string, Record>, list: seq<Record>)
    requires IsListing(m, list)
    ensures Rebuild(list) == m
  {
    EmptyIff(m, list);
    if list != [] {
      var last := list[|list| - 1];
      WithoutLast(m, list);
      RebuildListing(m - {last.name}, list[..|list| - 1]);
      assert (m - {last.name})[last.name := last] == m;
    }
  }

  lemma LastIsGreatest(m: map<string, Record>, list: seq<Record>, k: string)
    requires IsListing(m, list) && k in m
    ensures list != []
    ensures k == list[|list| - 1].name || Less(k, list[|list| - 1].name)
  {
    var i :| 0 <= i < |list| && list[i] == m[k];
  }

  /** The memory determines the list, so the file does not depend on Go's map order. */
  lemma {:induction false} ListingUnique(m: map<string, Record>, a: seq<Record>, b: seq<Record>)
    requires IsListing(m, a) && IsListing(m, b)
    ensures a == b
    decreases |a|
  {
    hide IsListing;
    EmptyIff(m, a);
    EmptyIff(m, b);
    if a != [] {
      var i, j := |a| - 1, |b| - 1;
      LastsAgree(m, a, b);
      WithoutLast(m, a);
      WithoutLast(m, b);
      ListingUnique(m - {a[i].name}, a[..i], b[..j]);
      assert a == a[..i] + [a[i]] && b == b[..j] + [b[j]];
    }
  }

  lemma EmptyIff(m: map<string, Record>, list: seq<Record>)
    requires IsListing(m, list)
    ensures list == [] <==> m == map[]
  {
    if k :| k in m {
      assert m[k] in list;
    }
    if list != [] {
      assert list[0].name in m;
    }
  }

  lemma LastsAgree(m: map<string, Record>, a: seq<Record>, b: seq<Record>)
    requires IsListing(m, a) && IsListing(m, b) && a != [] && b != []
    ensures a[|a| - 1] == b[|b| - 1]
  {
    hide Less;
    var x, y := a[|a| - 1], b[|b| - 1];
    LastIsGreatest(m, a, y.name);
    LastIsGreatest(m, b, x.name);
    NotBoth(x.name, y.name);
  }

  lemma NotBoth(a: string, b: string)
    ensures !(Less(a, b) && Less(b, a))
  {
    if Less(a, b) && Less(b, a) {
      Transitive(a, b, a);
      Irreflexive(a);
    }
  }

  /** Insertion of a record with a new name into an ascending list. */
  function Insert(list: seq<Record>, r: Record): (out: seq<Record>)
    ensures multiset(out) == multiset(list) + multiset{r}
  {
    if list == [] then [r]
    else
      var k := |list| - 1;
      assert list == list[..k] + [list[k]];
      if Less(r.name, list[k].name) then Insert(list[..k], r) + [list[k]] else list + [r]
  }

  lemma {:induction false} InsertAscending(list: seq<Record>, r: Record)
    requires Ascending(list) && forall i :: 0 <= i < |list| ==> list[i].name != r.name
    ensures Ascending(Insert(list, r))
  {
    if list != [] {
      var k := |list| - 1;
      var init, last := list[..k], list[k];
      if Less(r.name, last.name) {
        InsertAscending(init, r);
        var out := Insert(init, r);
        forall i | 0 <= i < |out|
          ensures Less(out[i].name, last.name)
        {
          assert out[i] in multiset(out);
          assert out[i] in init || out[i] == r;
        }
      } else {
        Total(r.name, last.name);
        forall i | 0 <= i < |list|
          ensures Less(list[i].name, r.name)
        {
          if i < k {
            Transitive(list[i].name, last.name, r.name);
          }
        }
      }
    }
  }

  lemma InsertLists(m: map<string, Record>, list: seq<Record>, r: Record)
    requires IsListing(m, list) && r.name !in m
    ensures IsListing(m[r.name := r], Insert(list, r))
  {
    InsertAscending(list, r);
    hide Insert, Ascending;
    var out, after := Insert(list, r), m[r.name := r];
    forall i | 0 <= i < |out|
      ensures out[i].name in after && after[out[i].name] == out[i]
    {
      assert out[i] in out;
      InsertMembers(list, r, out[i]);
    }
    forall k | k in after
      ensures after[k] in out && after[k].name == k
    {
      InsertMembers(list, r, after[k]);
    }
  }

  lemma InsertMembers(list: seq<Record>, r: Record, x: Record)
    ensures x in Insert(list, r) <==> x in list || x == r
  {
    assert x in Insert(list, r) <==> x in multiset(Insert(list, r));
    assert x in list <==> x in multiset(list);
  }

  // ----- opening -----

  /** A version-1 record that names another shard. */
  predicate Foreign(r: Record, id: Identity) {
    r.shardID != 0 && r.shardID != id.shardID
  }

  function Adopt(list: seq<Record>, id: Identity): (out: seq<Record>)
    ensures |out| == |list| && forall i :: 0 <= i < |list| ==> out[i] == list[i].(shardID := id.shardID)
  {
    seq(|list|, i requires 0 <= i < |list| => list[i].(shardID := id.shardID))
  }

  /** What opening this file under this identity leaves in memory, or why it is refused. */
  ghost function Reopen(f: File, id: Identity): Result<Memory, OpenError> {
    match f
    case Missing => Failure(NotFound)
    case Empty => Failure(EmptyFile)
    case Garbled => Failure(ParseError)
    case V1(list) =>
      if i :| 0 <= i < |list| && Foreign(list[i], id) && forall j :: 0 <= j < i ==> !Foreign(list[j], id)
      then Failure(WrongIdentity([ForeignRecord(list[i].name)]))
      else Success(Memory(Rebuild(Adopt(list, id)), 0))
    case V2(version, got, sfMark, list) =>
      if version != FORMAT_VERSION then Failure(WrongVersion)
      else if Problems(got, id) != [] then Failure(WrongIdentity(Problems(got, id)))
      else Success(Memory(Rebuild(list), sfMark))
  }

  /** The memory holds the last record of each name in a version-1 list, as this shard's own. */
  ghost predicate AdoptsLast(list: seq<Record>, id: Identity, m: map<string, Record>) {
    && (forall k :: k in m ==> exists i :: 0 <= i < |list| && list[i].name == k)
    && (forall i :: 0 <= i < |list| ==> list[i].name in m)
    && (forall i :: 0 <= i < |list| && LastOfName(list, i) ==>
                      m[list[i].name] == Record(list[i].name, list[i].dataType, list[i].iteration, id.shardID))
  }

  lemma AdoptedKeepsLast(list: seq<Record>, id: Identity)
    ensures AdoptsLast(list, id, Rebuild(Adopt(list, id)))
  {
    hide Rebuild;
    var out := Adopt(list, id);
    RebuildKeepsLast(out);
    forall i | 0 <= i < |list|
      ensures out[i].name == list[i].name && (LastOfName(list, i) ==> LastOfName(out, i))
    {
    }
  }

  /** Record i is the first in the list that names another shard, where 0 names none. */
  ghost predicate FirstForeign(list: seq<Record>, id: Identity, i: nat) {
    && i < |list| && list[i].shardID != 0 && list[i].shardID != id.shardID
    && forall j :: 0 <= j < i ==> list[j].shardID == 0 || list[j].shardID == id.shardID
  }

  /** What opening gives, format by format. */
  lemma ReopenMeans(f: File, id: Identity)
    ensures f.Missing? ==> Reopen(f, id) == Failure(NotFound)
    ensures f.Empty? ==> Reopen(f, id) == Failure(EmptyFile)
    ensures f.Garbled? ==> Reopen(f, id) == Failure(ParseError)
    ensures f.V1? ==> forall i: nat :: FirstForeign(f.records, id, i) ==>
                                         Reopen(f, id) == Failure(WrongIdentity([ForeignRecord(f.records[i].name)]))
    ensures f.V1? && (forall i :: 0 <= i < |f.records| ==> f.records[i].shardID == 0 || f.records[i].shardID == id.shardID) ==>
              Reopen(f, id).Success? && Reopen(f, id).value.sfMark == 0 && AdoptsLast(f.records, id, Reopen(f, id).value.records)
    ensures f.V2? && f.version != 2 ==> Reopen(f, id) == Failure(WrongVersion)
    ensures f.V2? && f.version == 2 && f.id != id ==> Reopen(f, id) == Failure(WrongIdentity(Problems(f.id, id)))
    ensures f.V2? && f.version == 2 && f.id == id ==>
              Reopen(f, id).Success? && Reopen(f, id).value.sfMark == f.sfMark && KeepsLast(f.records, Reopen(f, id).value.records)
  {
    hide Rebuild, AdoptsLast, KeepsLast, Problems;
    match f
    case V1(list) => AdoptedKeepsLast(list, id);
    case V2(_, got, _, list) =>
      RebuildKeepsLast(list);
      NoProblemsIffSame(got, id);
    case _ =>
  }

  // ----- mutations -----

  datatype Op =
    | Register(name: string, dataType: DataType, start: int)
    | RaiseMark(name: string, iter: int)
    | SetMark(name: string, iter: int)
    | Delete(name: string)
    | Clear
    | RaiseSnowflakeMark(ms: int)

  /** The memory after a successful mutation, or None where the entity is not found. */
  function Target(m: Memory, op: Op, id: Identity): Option<Memory> {
    match op
    case Register(name, dt, start) =>
      Some(if name in m.records then m
           else m.(records := m.records[name := Record(name, dt, start, id.shardID)]))
    case RaiseMark(name, iter) =>
      if name !in m.records then None
      else if iter <= m.records[name].iteration then Some(m)
      else Some(m.(records := m.records[name := m.records[name].(iteration := iter)]))
    case SetMark(name, iter) =>
      if name !in m.records then None
      else Some(m.(records := m.records[name := m.records[name].(iteration := iter)]))
    case Delete(name) =>
      if name !in m.records then None else Some(m.(records := m.records - {name}))
    case Clear => Some(m.(records := map[]))
    case RaiseSnowflakeMark(ms) => Some(if ms <= m.sfMark then m else m.(sfMark := ms))
  }

  /** How one mutation ended: completed, in memory and file alike, or with the memory as it was. */
  ghost predicate Committed(id: Identity, before: Memory, target: Memory, ok: bool, after: Memory, f0: File, f1: File) {
    && (ok ==> after == target && ((target == before && f1 == f0) || Reopen(f1, id) == Success(target)))
    && (!ok ==> after == before && (f1 == f0 || Reopen(f1, id) == Success(target)))
  }

  // ----- histories of a state file -----

  /** What a running store has in memory, and what opening its file would give. */
  datatype Sides = Sides(mem: Memory, disk: Memory)

  /** A mutation whose write, if it makes one, ends in this way; or a restart. */
  datatype Event = Mutation(op: Op, o: Outcome) | Restart

  /** Register, RaiseMark and RaiseSnowflakeMark write only what is new. */
  predicate Writes(m: Memory, op: Op, target: Memory) {
    target != m || op.SetMark? || op.Delete? || op.Clear?
  }

  function Happen(s: Sides, e: Event, id: Identity): Sides {
    match e
    case Restart => Sides(s.disk, s.disk)
    case Mutation(op, o) =>
      match Target(s.mem, op, id)
      case None => s
      case Some(t) =>
        if !Writes(s.mem, op, t) then s
        else
          match o
          case Done => Sides(t, t)
          case FailedBefore => s
          case FailedAfter => s.(disk := t)
  }

  ghost function Replay(s: Sides, events: seq<Event>, id: Identity): Sides {
    if events == [] then s else Happen(Replay(s, events[..|events| - 1], id), events[|events| - 1], id)
  }

  /** A mutation of the store object is such an event. */
  lemma CommittedHappens(id: Identity, before: Memory, op: Op, ok: bool, after: Memory, f0: File, f1: File)
    requires Target(before, op, id).Some? && Reopen(f0, id).Success?
    requires Committed(id, before, Target(before, op, id).value, ok, after, f0, f1)
    requires !Writes(before, op, Target(before, op, id).value) ==> ok && f1 == f0
    requires ok && Writes(before, op, Target(before, op, id).value) ==> Reopen(f1, id) == Success(after)
    ensures Reopen(f1, id).Success?
    ensures exists o :: Sides(after, Reopen(f1, id).value) == Happen(Sides(before, Reopen(f0, id).value), Mutation(op, o), id)
  {
    hide Reopen;
    var o := if ok then Outcome.Done else if f1 == f0 then FailedBefore else FailedAfter;
    assert Sides(after, Reopen(f1, id).value) == Happen(Sides(before, Reopen(f0, id).value), Mutation(op, o), id);
  }

  /** Everything but SetMark, Delete and Clear only adds records and raises marks. */
  predicate Monotone(op: Op) {
    !op.SetMark? && !op.Delete? && !op.Clear?
  }

  ghost predicate Grows(m: Memory, n: Memory) {
    && m.sfMark <= n.sfMark
    && forall k :: k in m.records ==>
                     k in n.records && n.records[k].dataType == m.records[k].dataType
                     && n.records[k].iteration >= m.records[k].iteration
  }

  /**
   Marks fall only through SetMark, Delete or Clear: without them, over a whole history with failed
   writes and restarts, the memory only grows and the file is never behind it. (The file itself may fall
   back to the memory, after a write that failed late.)
   */
  lemma {:induction false} MarksOnlyRise(s: Sides, events: seq<Event>, id: Identity)
    requires Grows(s.mem, s.disk) && forall i :: 0 <= i < |events| && events[i].Mutation? ==> Monotone(events[i].op)
    ensures Grows(s.mem, Replay(s, events, id).mem)
    ensures Grows(Replay(s, events, id).mem, Replay(s, events, id).disk)
  {
    if events != [] {
      MarksOnlyRise(s, events[..|events| - 1], id);
    }
  }

  ghost predicate Removes(e: Event, k: string) {
    e.Mutation? && (e.op.Clear? || (e.op.Delete? && e.op.name == k))
  }

  ghost predicate Typed(m: Memory, k: string, dt: DataType) {
    k in m.records && m.records[k].dataType == dt
  }

  /** An entity that is not removed keeps its type, in memory and in the file, whatever else happens. */
  lemma {:induction false} TypeNeverChanges(s: Sides, events: seq<Event>, id: Identity, k: string, dt: DataType)
    requires Typed(s.mem, k, dt) && Typed(s.disk, k, dt)
    requires forall i :: 0 <= i < |events| ==> !Removes(events[i], k)
    ensures Typed(Replay(s, events, id).mem, k, dt) && Typed(Replay(s, events, id).disk, k, dt)
  {
    if events != [] {
      TypeNeverChanges(s, events[..|events| - 1], id, k, dt);
    }
  }
}
