/** internal/state: the store object, which changes its map in place and rewrites the file each time. */
module StateStore {
  import opened Wrappers
  import opened DataTypes
  import opened Reservation
  import opened StateFile

  datatype StoreError = EntityNotFound | FlushFailed | AlreadyExists

  /** The file system: one file, replaced atomically, and how each coming write will end. */
  class Disk {
    var file: File
    var writes: nat
    const fate: nat -> Outcome

    constructor (file: File, fate: nat -> Outcome)
      ensures this.file == file && this.fate == fate && writes == 0
    {
      this.file := file;
      this.fate := fate;
      this.writes := 0;
    }

    function NextFate(): Outcome
      reads this
    {
      fate(writes)
    }

    /** Some write since the w-th has failed. */
    ghost predicate FailedSince(w: nat)
      reads this
    {
      exists j: nat :: w <= j < writes && !fate(j).Done?
    }

    /** Temp file, fsync, rename, fsync of the directory; an error may come before or after the rename. */
    method Replace(f: File) returns (ok: bool)
      modifies this
      ensures ok == old(NextFate()).Done? && writes == old(writes) + 1
      ensures file == if old(NextFate()).FailedBefore? then old(file) else f
    {
      var outcome := fate(writes);
      writes := writes + 1;
      ok := outcome.Done?;
      if !outcome.FailedBefore? {
        file := f;
      }
    }
  }

  class Store {
    const disk: Disk
    const id: Identity
    var migrated: bool
    var sfMark: int
    var records: map<string, Record>

    ghost predicate Valid()
      reads this
    {
      WellKeyed(records)
    }

    function Memory(): Memory
      reads this
    {
      StateFile.Memory(records, sfMark)
    }

    /** Opening the file now would rebuild exactly what is in memory. */
    ghost predicate InSync()
      reads this, disk
    {
      Reopen(disk.file, id) == Success(Memory())
    }

    /** The entity is both in memory and in the file. */
    ghost predicate Tracks(name: string)
      reads this, disk
    {
      name in records && Reopen(disk.file, id).Success? && name in Reopen(disk.file, id).value.records
    }

    /** The file's Snowflake mark is not behind the memory's. */
    ghost predicate SfAhead()
      reads this, disk
    {
      Reopen(disk.file, id).Success? ==> sfMark <= Reopen(disk.file, id).value.sfMark
    }

    /** The entity's mark as the protocol sees it: in memory and in the file. */
    ghost function MarkOf(name: string): Mark
      requires Tracks(name)
      reads this, disk
    {
      Mark(records[name].iteration, Reopen(disk.file, id).value.records[name].iteration)
    }

    /** The Snowflake mark in memory and in the file. */
    ghost function SfMarkOf(): Mark
      requires Reopen(disk.file, id).Success?
      reads this, disk
    {
      Mark(sfMark, Reopen(disk.file, id).value.sfMark)
    }

    constructor Empty(disk: Disk, id: Identity)
      ensures Valid() && this.disk == disk && this.id == id && Memory() == StateFile.Memory(map[], 0) && !migrated
    {
      this.disk := disk;
      this.id := id;
      this.migrated := false;
      this.sfMark := 0;
      this.records := map[];
    }

    /** Create: a new, empty state file; refused if there is one. */
    static method Create(disk: Disk, id: Identity) returns (r: Result<Store, StoreError>)
      modifies disk
      ensures r.Success? <==> old(disk.file).Missing? && old(disk.NextFate()).Done?
      ensures r.Success? ==> && fresh(r.value) && r.value.Valid() && r.value.InSync() && r.value.disk == disk && r.value.id == id
                             && r.value.Memory() == StateFile.Memory(map[], 0)
      ensures !old(disk.file).Missing? ==> r == Failure(AlreadyExists) && disk.file == old(disk.file)
    {
      if !disk.file.Missing? {
        return Failure(AlreadyExists);
      }
      var s := new Store.Empty(disk, id);
      var ok := s.Flush();
      if !ok {
        return Failure(FlushFailed);
      }
      return Success(s);
    }

    /** sortedLocked: the records in ascending order of name. */
    method Sorted() returns (out: seq<Record>)
      requires Valid()
      ensures IsListing(records, out)
    {
      hide IsListing, Insert;
      EmptyListing();
      out := [];
      var pending := records.Keys;
      ghost var done: map<string, Record> := map[];
      while pending != {}
        invariant pending <= records.Keys
        invariant done == records - pending
        invariant IsListing(done, out)
        decreases pending
      {
        var k :| k in pending;
        InsertLists(done, out, records[k]);
        out := Insert(out, records[k]);
        done := done[k := records[k]];
        pending := pending - {k};
        assert done == records - pending;
      }
      assert done == records;
    }

    /** flush: the whole file, durably. Reading back what was written gives the memory. */
    method Flush() returns (ok: bool)
      requires Valid()
      modifies disk
      ensures ok == old(disk.NextFate()).Done? && disk.writes == old(disk.writes) + 1
      ensures old(disk.NextFate()).FailedBefore? ==> disk.file == old(disk.file)
      ensures !old(disk.NextFate()).FailedBefore? ==>
                && InSync()
                && disk.file.V2? && disk.file.version == 2 && disk.file.id == id && disk.file.sfMark == sfMark
                && IsListing(records, disk.file.records)
    {
      var list := Sorted();
      RebuildListing(records, list);
      NoProblemsIffSame(id, id);
      ok := disk.Replace(V2(FORMAT_VERSION, id, sfMark, list));
    }

    /** Open: version 2 as it is, version 1 adopted and rewritten, everything else refused. */
    static method Open(disk: Disk, id: Identity) returns (r: Result<Store, OpenError>)
      modifies disk
      ensures r.Success? ==> && fresh(r.value) && r.value.Valid() && r.value.InSync() && r.value.disk == disk && r.value.id == id
                             && Reopen(old(disk.file), id) == Success(r.value.Memory())
                             && r.value.migrated == old(disk.file).V1?
      ensures r == Failure(NotFound) <==> old(disk.file).Missing?
      ensures !old(disk.file).V1? ==> unchanged(disk)
                                      && (r.Failure? ==> Reopen(old(disk.file), id) == Failure(r.error))
      ensures old(disk.file).V1? && r.Failure? ==>
                || Reopen(old(disk.file), id) == Failure(r.error)
                || (r.error == WriteFailed && Reopen(old(disk.file), id).Success? && !old(disk.NextFate()).Done?)
      ensures old(disk.file).V1? ==>
                && (r.Failure? && r.error.WrongIdentity? <==>
                    exists i :: && 0 <= i < |old(disk.file).records|
                                && old(disk.file).records[i].shardID != 0 && old(disk.file).records[i].shardID != id.shardID)
                && (r.Failure? && r.error.WrongIdentity? ==>
                    exists i: nat :: && FirstForeign(old(disk.file).records, id, i)
                                     && r.error == WrongIdentity([ForeignRecord(old(disk.file).records[i].name)]))
                && (r.Success? ==> r.value.sfMark == 0 && AdoptsLast(old(disk.file).records, id, r.value.records))
      ensures old(disk.file).V2? ==>
                && (r.Success? <==> old(disk.file).version == 2 && old(disk.file).id == id)
                && (r.Success? ==> r.value.sfMark == old(disk.file).sfMark && KeepsLast(old(disk.file).records, r.value.records))
                && (r == Failure(WrongVersion) <==> old(disk.file).version != 2)
    {
      hide Reopen, Problems, AdoptsLast, KeepsLast;
      ReopenMeans(disk.file, id);
      if disk.file.Missing? {
        return Failure(NotFound);
      }
      if disk.file.Empty? {
        return Failure(EmptyFile);
      }
      if disk.file.Garbled? {
        return Failure(ParseError);
      }
      if disk.file.V1? {
        r := Migrate(disk, id, disk.file.records);
      } else {
        r := ReadV2(disk, id, disk.file);
      }
    }

    static method Migrate(disk: Disk, id: Identity, list: seq<Record>) returns (r: Result<Store, OpenError>)
      requires disk.file == V1(list)
      modifies disk
      ensures r.Success? ==> && fresh(r.value) && r.value.Valid() && r.value.InSync() && r.value.disk == disk && r.value.id == id
                             && Reopen(V1(list), id) == Success(r.value.Memory()) && r.value.migrated
      ensures r.Failure? ==>
                || Reopen(V1(list), id) == Failure(r.error)
                || (r.error == WriteFailed && Reopen(V1(list), id).Success? && !old(disk.NextFate()).Done?)
      ensures r.Failure? && r.error.WrongIdentity? <==>
              exists i :: 0 <= i < |list| && list[i].shardID != 0 && list[i].shardID != id.shardID
      ensures r.Failure? && r.error.WrongIdentity? ==>
                exists i: nat :: FirstForeign(list, id, i) && r.error == WrongIdentity([ForeignRecord(list[i].name)])
      ensures r.Success? ==> r.value.sfMark == 0 && AdoptsLast(list, id, r.value.records)
    {
      hide AdoptsLast;
      AdoptedKeepsLast(list, id);
      var s := new Store.Empty(disk, id);
      var adopted := Adopt(list, id);
      for i := 0 to |list|
        invariant s.Valid() && s.disk == disk && s.id == id && s.sfMark == 0 && fresh(s)
        invariant unchanged(disk)
        invariant forall j :: 0 <= j < i ==> !Foreign(list[j], id)
        invariant s.records == Rebuild(adopted[..i])
      {
        var rec := list[i];
        if Foreign(rec, id) {
          assert FirstForeign(list, id, i);
          return Failure(WrongIdentity([ForeignRecord(rec.name)]));
        }
        s.records := s.records[rec.name := rec.(shardID := id.shardID)];
        RebuildStep(adopted, i);
      }
      assert adopted[..|list|] == adopted;
      s.migrated := true;
      var ok := s.Flush();
      if !ok {
        return Failure(WriteFailed);
      }
      return Success(s);
    }

    static method ReadV2(disk: Disk, id: Identity, f: File) returns (r: Result<Store, OpenError>)
      requires f.V2? && disk.file == f
      ensures r.Success? <==> Reopen(f, id).Success?
      ensures r.Success? <==> f.version == 2 && f.id == id
      ensures r == Failure(WrongVersion) <==> f.version != 2
      ensures r.Success? ==> r.value.sfMark == f.sfMark && KeepsLast(f.records, r.value.records)
      ensures r.Success? ==> && fresh(r.value) && r.value.Valid() && r.value.disk == disk && r.value.id == id
                             && Reopen(f, id) == Success(r.value.Memory()) && !r.value.migrated
      ensures r.Failure? ==> Reopen(f, id) == Failure(r.error)
    {
      hide KeepsLast;
      RebuildKeepsLast(f.records);
      NoProblemsIffSame(f.id, id);
      if f.version != FORMAT_VERSION {
        return Failure(WrongVersion);
      }
      var problems := Problems(f.id, id);
      if problems != [] {
        return Failure(WrongIdentity(problems));
      }
      var s := new Store.Empty(disk, id);
      s.sfMark := f.sfMark;
      for i := 0 to |f.records|
        invariant s.Valid() && s.disk == disk && s.id == id && s.sfMark == f.sfMark && !s.migrated && fresh(s)
        invariant s.records == Rebuild(f.records[..i])
      {
        s.records := s.records[f.records[i].name := f.records[i]];
        RebuildStep(f.records, i);
      }
      assert f.records[..|f.records|] == f.records;
      return Success(s);
    }

    method Get(name: string) returns (r: Option<Record>)
      ensures r == if name in records then Some(records[name]) else None
    {
      if name !in records {
        return None;
      }
      return Some(records[name]);
    }

    /** Check-and-create: an existing record is returned untouched. */
    method Register(name: string, dt: DataType, start: int) returns (r: Result<(Record, bool), StoreError>)
      requires Valid()
      modifies this`records, disk
      ensures Valid()
      ensures Committed(id, old(Memory()), Target(old(Memory()), StateFile.Register(name, dt, start), id).value,
                        r.Success?, Memory(), old(disk.file), disk.file)
      ensures r.Success? <==> name in old(records) || old(disk.NextFate()).Done?
      ensures r.Success? ==>
                && records == (if name in old(records) then old(records) else old(records)[name := Record(name, dt, start, id.shardID)])
                && r.value == (records[name], name !in old(records))
      ensures r.Success? && r.value.1 ==> InSync()
      ensures old(SfAhead()) ==> SfAhead()
      ensures name in old(records) ==> disk.writes == old(disk.writes)
      ensures name !in old(records) ==> disk.writes == old(disk.writes) + 1
    {
      if name in records {
        return Success((records[name], false));
      }
      var before := records;
      records := records[name := Record(name, dt, start, id.shardID)];
      var ok := Flush();
      if !ok {
        records := records - {name};
        assert records == before;
        return Failure(FlushFailed);
      }
      return Success((records[name], true));
    }

    /** The protocol's Raise, on one record of the store. */
    method RaiseMark(name: string, iter: int) returns (r: Result<(), StoreError>)
      requires Valid()
      modifies this`records, disk
      ensures Valid()
      ensures name !in old(records) ==> r == Failure(EntityNotFound) && Memory() == old(Memory()) && disk.file == old(disk.file)
      ensures r.Success? ==>
                records == if iter <= old(records)[name].iteration then old(records)
                           else old(records)[name := old(records)[name].(iteration := iter)]
      ensures name in old(records) ==>
                Committed(id, old(Memory()), Target(old(Memory()), StateFile.RaiseMark(name, iter), id).value,
                          r.Success?, Memory(), old(disk.file), disk.file)
      ensures old(Tracks(name)) ==>
                && Tracks(name)
                && (r.Success?, MarkOf(name)) == Raise(old(MarkOf(name)), iter, old(disk.NextFate()))
      ensures old(SfAhead()) ==> SfAhead()
      ensures name in old(records) ==>
                disk.writes == old(disk.writes) + if iter > old(records)[name].iteration then 1 else 0
      ensures forall k :: k != name && old(Tracks(k)) ==>
                && Tracks(k) && MarkOf(k).mem == old(MarkOf(k)).mem
                && MarkOf(k).disk in {old(MarkOf(k)).disk, old(MarkOf(k)).mem}
    {
      if name !in records {
        return Failure(EntityNotFound);
      }
      if iter <= records[name].iteration {
        return Success(());
      }
      r := ChangeMark(name, iter);
    }

    method SetMark(name: string, iter: int) returns (r: Result<(), StoreError>)
      requires Valid()
      modifies this`records, disk
      ensures Valid()
      ensures name !in old(records) ==> r == Failure(EntityNotFound) && Memory() == old(Memory()) && disk.file == old(disk.file)
      ensures r.Success? ==> records == old(records)[name := old(records)[name].(iteration := iter)]
      ensures name in old(records) ==>
                Committed(id, old(Memory()), Target(old(Memory()), StateFile.SetMark(name, iter), id).value,
                          r.Success?, Memory(), old(disk.file), disk.file)
      ensures old(SfAhead()) ==> SfAhead()
      ensures name in old(records) ==> (r.Success? <==> old(disk.NextFate()).Done?) && disk.writes == old(disk.writes) + 1
      ensures r.Success? ==> InSync()
      ensures old(Tracks(name)) ==>
                && Tracks(name)
                && (r.Success?, MarkOf(name)) == Write(old(MarkOf(name)), iter, old(disk.NextFate()))
      ensures forall k :: k != name && old(Tracks(k)) ==>
                && Tracks(k) && MarkOf(k).mem == old(MarkOf(k)).mem
                && MarkOf(k).disk in {old(MarkOf(k)).disk, old(MarkOf(k)).mem}
    {
      if name !in records {
        return Failure(EntityNotFound);
      }
      r := ChangeMark(name, iter);
    }

    /** What RaiseMark and SetMark share: change the record, flush, put the old mark back on an error. */
    method ChangeMark(name: string, iter: int) returns (r: Result<(), StoreError>)
      requires Valid() && name in records
      modifies this`records, disk
      ensures Valid()
      ensures r.Success? ==> records == old(records)[name := old(records)[name].(iteration := iter)]
      ensures Committed(id, old(Memory()), Target(old(Memory()), StateFile.SetMark(name, iter), id).value,
                        r.Success?, Memory(), old(disk.file), disk.file)
      ensures old(SfAhead()) ==> SfAhead()
      ensures (r.Success? <==> old(disk.NextFate()).Done?) && disk.writes == old(disk.writes) + 1
      ensures r.Success? ==> InSync()
      ensures old(Tracks(name)) ==>
                && Tracks(name)
                && (r.Success?, MarkOf(name)) == Write(old(MarkOf(name)), iter, old(disk.NextFate()))
      ensures forall k :: k != name && old(Tracks(k)) ==>
                && Tracks(k) && MarkOf(k).mem == old(MarkOf(k)).mem
                && MarkOf(k).disk in {old(MarkOf(k)).disk, old(MarkOf(k)).mem}
    {
      ghost var before := records;
      var was := records[name].iteration;
      records := records[name := records[name].(iteration := iter)];
      var ok := Flush();
      if !ok {
        records := records[name := records[name].(iteration := was)];
        assert records == before;
        return Failure(FlushFailed);
      }
      return Success(());
    }

    method Delete(name: string) returns (r: Result<(), StoreError>)
      requires Valid()
      modifies this`records, disk
      ensures Valid()
      ensures name !in old(records) ==> r == Failure(EntityNotFound) && Memory() == old(Memory()) && disk.file == old(disk.file)
      ensures r.Success? ==> records == old(records) - {name} && InSync()
      ensures name in old(records) ==> (r.Success? <==> old(disk.NextFate()).Done?)
      ensures name in old(records) ==>
                Committed(id, old(Memory()), Target(old(Memory()), StateFile.Delete(name), id).value,
                          r.Success?, Memory(), old(disk.file), disk.file)
    {
      if name !in records {
        return Failure(EntityNotFound);
      }
      ghost var before := records;
      var r0 := records[name];
      records := records - {name};
      var ok := Flush();
      if !ok {
        records := records[name := r0];
        assert records == before;
        return Failure(FlushFailed);
      }
      return Success(());
    }

    method Clear() returns (r: Result<(), StoreError>)
      requires Valid()
      modifies this`records, disk
      ensures Valid()
      ensures Committed(id, old(Memory()), Target(old(Memory()), StateFile.Clear, id).value,
                        r.Success?, Memory(), old(disk.file), disk.file)
      ensures r.Success? <==> old(disk.NextFate()).Done?
      ensures r.Success? ==> records == map[] && InSync()
    {
      var before := records;
      records := map[];
      var ok := Flush();
      if !ok {
        records := before;
        return Failure(FlushFailed);
      }
      return Success(());
    }

    method RaiseSnowflakeMark(ms: int) returns (ok: bool)
      requires Valid()
      modifies this`sfMark, disk
      ensures Valid()
      ensures Committed(id, old(Memory()), Target(old(Memory()), StateFile.RaiseSnowflakeMark(ms), id).value,
                        ok, Memory(), old(disk.file), disk.file)
      ensures old(Reopen(disk.file, id)).Success? ==>
                && Reopen(disk.file, id).Success?
                && (ok, SfMarkOf()) == Raise(old(SfMarkOf()), ms, old(disk.NextFate()))
      ensures old(SfAhead()) ==> SfAhead()
      ensures ok <==> ms <= old(sfMark) || old(disk.NextFate()).Done?
      ensures sfMark == if ok && ms > old(sfMark) then ms else old(sfMark)
      ensures disk.writes == old(disk.writes) + if ms > old(sfMark) then 1 else 0
    {
      if ms <= sfMark {
        return true;
      }
      var before := sfMark;
      sfMark := ms;
      ok := Flush();
      if !ok {
        sfMark := before;
      }
    }
  }
}
