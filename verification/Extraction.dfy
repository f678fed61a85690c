/**
 Extraction to a directory (crates/umbrik-core/src/payload.rs) over a file system that can refuse
 operations, follow symbolic links and run out of space, with rollback after a failure.
 */
module Extraction {
  import opened Basics
  import opened LimitsModel
  import opened EntryNames
  import opened Archive

  // ----- the file system -----

  datatype Node = File(data: Bytes) | Dir | Symlink(target: string)

  /** The children of the destination directory, and whatever symbolic links lead out to. */
  datatype Disk = Disk(nodes: map<string, Node>, outside: map<string, Node>)

  /**
   What the operating system refuses: the destination itself, opening or creating a file, making a
   directory, unlinking a file, and writing past a number of bytes.
   */
  datatype Faults = Faults(
    noDestination: bool,
    unopenable: set<string>,
    unmakeable: set<string>,
    undeletable: set<string>,
    quota: map<string, nat>)

  predicate Faultless(f: Faults) {
    !f.noDestination && f.unopenable == {} && f.unmakeable == {} && f.undeletable == {} && f.quota == map[]
  }

  /** Open an existing path for writing and truncate it; the system follows symbolic links. */
  function OpenTruncate(d: Disk, name: string): Option<Disk>
    requires name in d.nodes
  {
    match d.nodes[name]
    case File(_) => Some(d.(nodes := d.nodes[name := File([])]))
    case Dir => None
    case Symlink(target) =>
      if target in d.outside && d.outside[target].File? then Some(d.(outside := d.outside[target := File([])]))
      else None
  }

  /** Append to an open path; the system follows symbolic links. */
  function Append(d: Disk, name: string, data: Bytes): Disk
    requires name in d.nodes
  {
    match d.nodes[name]
    case File(before) => d.(nodes := d.nodes[name := File(before + data)])
    case Dir => d
    case Symlink(target) =>
      if target in d.outside && d.outside[target].File?
      then d.(outside := d.outside[target := File(d.outside[target].data + data)])
      else d
  }

  /** `create_dir_all` on a child of the destination. */
  function MakeDir(d: Disk, name: string, faults: Faults): Option<Disk> {
    if name !in d.nodes then
      if name in faults.unmakeable then None else Some(d.(nodes := d.nodes[name := Dir]))
    else match d.nodes[name]
      case Dir => Some(d)
      case Symlink(target) => if target in d.outside && d.outside[target].Dir? then Some(d) else None
      case File(_) => None
  }

  function Unlink(d: Disk, name: string, faults: Faults): Disk {
    if name in d.nodes && !d.nodes[name].Dir? && name !in faults.undeletable
    then d.(nodes := d.nodes - {name})
    else d
  }

  /** `create_output`: never through a symbolic link, over an existing path only when allowed. */
  function CreateOutput(d: Disk, name: string, limits: Limits, faults: Faults): Result<(Disk, bool)> {
    if name in d.nodes then
      if d.nodes[name].Symlink? then Err(UnsafeArchiveEntry(ThroughSymlink))
      else if !limits.allowOverwrite then Err(Io)
      else if name in faults.unopenable || OpenTruncate(d, name).None? then Err(Io)
      else Ok((OpenTruncate(d, name).value, false))
    else if name in faults.unopenable then Err(Io)
    else Ok((d.(nodes := d.nodes[name := File([])]), true))
  }

  /** The bytes of an entry that reach the file, and the error that ends the copy, if any. */
  function Copied(e: Entry, name: string, faults: Faults): (Bytes, Option<Error>) {
    if name in faults.quota && faults.quota[name] < |e.data| then (e.data[..faults.quota[name]], Some(Io))
    else if e.fault.Some? then (e.data, Some(Classify(e.fault.value)))
    else (e.data, None)
  }

  // ----- the run, as a state machine over the stream -----

  datatype State = State(
    disk: Disk,
    out: seq<ArchiveEntry>,
    seen: set<string>,
    created: seq<string>,
    failure: Option<Error>)

  function WriteFile(st: State, e: Entry, name: string, limits: Limits, faults: Faults): State {
    if e.size.None? then st.(failure := Some(Io))
    else match CreateOutput(st.disk, name, limits, faults)
      case Err(error) => st.(failure := Some(error))
      case Ok((disk, isNew)) =>
        var created := if isNew then st.created + [name] else st.created;
        var (data, error) := Copied(e, name, faults);
        var disk' := Append(disk, name, data);
        if error.Some? then State(disk', st.out, st.seen, created, error)
        else State(disk', st.out + [ArchiveEntry(name, e.size.value)], st.seen, created, None)
  }

  function DirStep(st: State, item: Item, limits: Limits, faults: Faults): State {
    if st.failure.Some? then st
    else match item
      case Failed(fault) => st.(failure := Some(Classify(fault)))
      case Next(e) =>
        match Admit(|st.out|, st.seen, e, limits)
        case Err(error) => st.(failure := Some(error))
        case Ok(name) =>
          var st' := st.(seen := st.seen + {name});
          if e.kind.Directory? then
            match MakeDir(st.disk, name, faults)
            case None => st'.(failure := Some(Io))
            case Some(disk) => st'.(disk := disk)
          else WriteFile(st', e, name, limits, faults)
  }

  function DirRun(d: Disk, items: seq<Item>, limits: Limits, faults: Faults): State {
    if items == [] then State(d, [], {}, [], None)
    else DirStep(DirRun(d, items[..|items| - 1], limits, faults), items[|items| - 1], limits, faults)
  }

  /** Remove created files, most recent first; refusals are ignored. */
  function Rollback(d: Disk, created: seq<string>, faults: Faults): Disk
    decreases |created|
  {
    if created == [] then d
    else Rollback(Unlink(d, created[|created| - 1], faults), created[..|created| - 1], faults)
  }

  datatype Outcome = Outcome(disk: Disk, result: Result<seq<ArchiveEntry>>)

  function UnpackOutcome(d: Disk, s: Stream, limits: Limits, faults: Faults): Outcome {
    if faults.noDestination then Outcome(d, Err(Io))
    else match s
      case Unstartable(fault) => Outcome(d, Err(Classify(fault)))
      case Items(items) =>
        var st := DirRun(d, items, limits, faults);
        if st.failure.Some? then Outcome(Rollback(st.disk, st.created, faults), Err(st.failure.value))
        else Outcome(st.disk, Ok(st.out))
  }

  // ----- the code -----

  /** The disk, and what the system refuses for now; no operation changes the latter. */
  class FileSystem {
    var disk: Disk
    var faults: Faults

    constructor (disk: Disk, faults: Faults)
      ensures this.disk == disk && this.faults == faults
    {
      this.disk := disk;
      this.faults := faults;
    }

    /** `create_output`; the flag says whether the file is new. */
    method OpenOutput(name: string, limits: Limits) returns (r: Result<bool>)
      modifies this`disk
      ensures
        var spec := CreateOutput(old(disk), name, limits, faults);
        if spec.Ok? then r == Ok(spec.value.1) && disk == spec.value.0
        else r == Err(spec.error) && disk == old(disk)
    {
      if name in disk.nodes && disk.nodes[name].Symlink? {
        return Err(UnsafeArchiveEntry(ThroughSymlink));
      }
      if name in disk.nodes && !limits.allowOverwrite {
        return Err(Io);
      }
      if name in faults.unopenable {
        return Err(Io);
      }
      if name in disk.nodes {
        var file := OpenTruncate(disk, name);
        if file.None? {
          return Err(Io);
        }
        disk := file.value;
        return Ok(false);
      }
      disk := disk.(nodes := disk.nodes[name := File([])]);
      return Ok(true);
    }

    /** `std::io::copy` from an entry into the file just opened. */
    method CopyInto(name: string, e: Entry) returns (error: Option<Error>)
      requires name in disk.nodes
      modifies this`disk
      ensures disk == Append(old(disk), name, Copied(e, name, faults).0)
      ensures error == Copied(e, name, faults).1
    {
      var (data, failed) := Copied(e, name, faults);
      disk := Append(disk, name, data);
      return failed;
    }

    /** The body of the loop for an admitted entry that carries contents. */
    method WriteEntry(e: Entry, name: string, limits: Limits, created: seq<string>, ghost st: State)
      returns (error: Option<Error>, created': seq<string>)
      requires st.disk == disk && st.created == created && st.failure.None?
      modifies this`disk
      ensures
        var st' := WriteFile(st, e, name, limits, faults);
        disk == st'.disk && created' == st'.created && error == st'.failure
    {
      created' := created;
      if e.size.None? {
        return Some(Io), created';
      }
      var isNew := OpenOutput(name, limits);
      if isNew.Err? {
        return Some(isNew.error), created';
      }
      if isNew.value {
        created' := created' + [name];
      }
      error := CopyInto(name, e);
    }

    /** `unpack_inner`: the paths it created are reported even when it fails. */
    method UnpackInner(s: Stream, limits: Limits) returns (r: Result<seq<ArchiveEntry>>, created: seq<string>)
      modifies this`disk
      ensures s.Unstartable? ==> r == Err(Classify(s.fault)) && created == [] && disk == old(disk)
      ensures s.Items? ==>
        var st := DirRun(old(disk), s.items, limits, faults);
        && disk == st.disk && created == st.created
        && r == (if st.failure.Some? then Err(st.failure.value) else Ok(st.out))
    {
      hide CanonicalName;
      created := [];
      if s.Unstartable? {
        return Err(Classify(s.fault)), created;
      }
      ghost var start := disk;
      var out: seq<ArchiveEntry>, seen: set<string> := [], {};
      for i := 0 to |s.items|
        invariant DirRun(start, s.items[..i], limits, faults) == State(disk, out, seen, created, None)
      {
        assert s.items[..i + 1][..i] == s.items[..i];
        ghost var st := DirRun(start, s.items[..i + 1], limits, faults);
        if st.failure.Some? {
          DirFailureSticks(start, s.items, limits, faults, i + 1);
        }
        if s.items[i].Failed? {
          return Err(Classify(s.items[i].fault)), created;
        }
        var e := s.items[i].entry;
        if |out| >= limits.maxEntries {
          return Err(LimitExceeded(TooManyEntries)), created;
        }
        if CheckKind(e.kind, limits).Some? {
          return Err(CheckKind(e.kind, limits).value), created;
        }
        var name := SafeRelativePath(e.path, limits);
        if name.Err? {
          return Err(name.error), created;
        }
        if name.value in seen {
          return Err(UnsafeArchiveEntry(DuplicateName)), created;
        }
        seen := seen + {name.value};
        if e.kind.Directory? {
          var made := MakeDir(disk, name.value, faults);
          if made.None? {
            return Err(Io), created;
          }
          disk := made.value;
          continue;
        }
        ghost var admitted := State(disk, out, seen, created, None);
        assert st == WriteFile(admitted, e, name.value, limits, faults);
        var error;
        error, created := WriteEntry(e, name.value, limits, created, admitted);
        if error.Some? {
          return Err(error.value), created;
        }
        out := out + [ArchiveEntry(name.value, e.size.value)];
      }
      assert s.items[..|s.items|] == s.items;
      return Ok(out), created;
    }

    /** `unpack_to_dir`. */
    method UnpackToDir(s: Stream, limits: Limits) returns (r: Result<seq<ArchiveEntry>>)
      modifies this`disk
      ensures Outcome(disk, r) == UnpackOutcome(old(disk), s, limits, faults)
    {
      if faults.noDestination {
        return Err(Io);
      }
      var created;
      r, created := UnpackInner(s, limits);
      if r.Err? {
        ghost var failed := disk;
        assert created[..|created|] == created;
        var k := |created|;
        while k > 0
          invariant 0 <= k <= |created|
          invariant Rollback(disk, created[..k], faults) == Rollback(failed, created, faults)
        {
          k := k - 1;
          assert created[..k + 1][..k] == created[..k];
          disk := Unlink(disk, created[k], faults);
        }
      }
    }
  }

  lemma {:induction false} DirFailureSticks(d: Disk, items: seq<Item>, limits: Limits, faults: Faults, n: nat)
    requires n <= |items| && DirRun(d, items[..n], limits, faults).failure.Some?
    ensures DirRun(d, items, limits, faults) == DirRun(d, items[..n], limits, faults)
  {
    if n < |items| {
      assert items[..|items| - 1][..n] == items[..n];
      DirFailureSticks(d, items[..|items| - 1], limits, faults, n);
    } else {
      assert items[..n] == items;
    }
  }

  // ----- containment: what no run ever does -----

  /** What may become of a node that was there before: a file may be rewritten if allowed, nothing else changes. */
  predicate Kept(before: Node, after: Node, limits: Limits) {
    if before.File? && limits.allowOverwrite then after.File? else after == before
  }

  /**
   Nothing outside moved, everything from before is still there, nothing changed that the archive does not name,
   and what is new is accounted for.
   */
  ghost predicate Contained(d: Disk, st: State, limits: Limits) {
    && st.disk.outside == d.outside
    && (forall p :: p in d.nodes ==> p in st.disk.nodes && Kept(d.nodes[p], st.disk.nodes[p], limits))
    && (forall p :: p in d.nodes && p !in st.seen ==> st.disk.nodes[p] == d.nodes[p])
    && (forall p :: p in st.created ==>
          p !in d.nodes && p in st.seen && p in st.disk.nodes && st.disk.nodes[p].File?)
    && (forall p :: p in st.disk.nodes && p !in d.nodes && p !in st.created ==>
          p in st.seen && st.disk.nodes[p].Dir?)
  }

  lemma WriteFileContained(d: Disk, st: State, e: Entry, name: string, limits: Limits, faults: Faults)
    requires Contained(d, st, limits) && name in st.seen && name !in st.created
    ensures Contained(d, WriteFile(st, e, name, limits, faults), limits)
  {
    var spec := CreateOutput(st.disk, name, limits, faults);
    if e.size.Some? && spec.Ok? {
      var (disk, isNew) := spec.value;
      var st' := WriteFile(st, e, name, limits, faults);
      var data := Copied(e, name, faults).0;
      assert disk.nodes[name] == File([]) && disk.outside == st.disk.outside;
      assert st'.disk.nodes == st.disk.nodes[name := File([] + data)];
      if isNew {
        assert forall p :: p in st'.created <==> p in st.created || p == name;
      } else {
        assert name in d.nodes;
      }
    }
  }

  lemma {:induction false} DirStepContained(d: Disk, st: State, item: Item, limits: Limits, faults: Faults)
    requires Contained(d, st, limits)
    ensures Contained(d, DirStep(st, item, limits, faults), limits)
  {
    if st.failure.None? && item.Next? {
      var admitted := Admit(|st.out|, st.seen, item.entry, limits);
      if admitted.Ok? {
        var st' := st.(seen := st.seen + {admitted.value});
        if !item.entry.kind.Directory? {
          WriteFileContained(d, st', item.entry, admitted.value, limits, faults);
        }
      }
    }
  }

  /** Every state a run can reach is contained, whatever the archive, the limits and the faults. */
  lemma {:induction false} EveryRunContained(d: Disk, items: seq<Item>, limits: Limits, faults: Faults)
    ensures Contained(d, DirRun(d, items, limits, faults), limits)
  {
    if items != [] {
      EveryRunContained(d, items[..|items| - 1], limits, faults);
      DirStepContained(d, DirRun(d, items[..|items| - 1], limits, faults), items[|items| - 1], limits, faults);
    }
  }

  /** Rolling back removes exactly the listed files that the system agrees to unlink. */
  lemma {:induction false} RollbackRemoves(d: Disk, created: seq<string>, faults: Faults)
    requires forall p :: p in created && p in d.nodes ==> d.nodes[p].File?
    ensures Rollback(d, created, faults).outside == d.outside
    ensures forall p :: p in Rollback(d, created, faults).nodes <==>
      p in d.nodes && (p in created ==> p in faults.undeletable)
    ensures forall p :: p in Rollback(d, created, faults).nodes ==>
      Rollback(d, created, faults).nodes[p] == d.nodes[p]
    decreases |created|
  {
    if created != [] {
      var last, before := created[|created| - 1], created[..|created| - 1];
      RollbackRemoves(Unlink(d, last, faults), before, faults);
      assert forall p :: p in created <==> p in before || p == last;
    }
  }

  /** Under any limits, on success and on failure, no symbolic link is replaced or written through. */
  lemma SymlinksNeverFollowed(d: Disk, s: Stream, limits: Limits, faults: Faults)
    ensures
      var after := UnpackOutcome(d, s, limits, faults).disk;
      && after.outside == d.outside
      && forall p :: p in d.nodes && d.nodes[p].Symlink? ==> p in after.nodes && after.nodes[p] == d.nodes[p]
  {
    if s.Items? && !faults.noDestination {
      EveryRunContained(d, s.items, limits, faults);
      var st := DirRun(d, s.items, limits, faults);
      RollbackRemoves(st.disk, st.created, faults);
    }
  }

  /** With overwriting off, all earlier contents are byte-identical, on success and on failure. */
  lemma EarlierContentsUntouched(d: Disk, s: Stream, limits: Limits, faults: Faults)
    requires !limits.allowOverwrite
    ensures
      var after := UnpackOutcome(d, s, limits, faults).disk;
      forall p :: p in d.nodes ==> p in after.nodes && after.nodes[p] == d.nodes[p]
  {
    if s.Items? && !faults.noDestination {
      EveryRunContained(d, s.items, limits, faults);
      var st := DirRun(d, s.items, limits, faults);
      RollbackRemoves(st.disk, st.created, faults);
    }
  }

  // ----- exactness: what a successful run does -----

  predicate IsOutput(p: string, out: seq<ArchiveEntry>) {
    exists k :: 0 <= k < |out| && out[k].name == p
  }

  /** The stream has a directory entry with this canonical name. */
  predicate NamesDirectory(p: string, items: seq<Item>, limits: Limits) {
    exists k :: 0 <= k < |items| && items[k].Next? && items[k].entry.kind.Directory?
      && CanonicalName(items[k].entry.path, limits) == Ok(p)
  }

  /** The node is a directory, directly or through a link. */
  predicate LeadsToDir(d: Disk, p: string) {
    p in d.nodes && (d.nodes[p].Dir?
      || (d.nodes[p].Symlink? && d.nodes[p].target in d.outside && d.outside[d.nodes[p].target].Dir?))
  }

  /** The returned entries are the file entries of the stream, in order, under distinct safe names, on disk. */
  ghost predicate ExactOutput(disk: Disk, out: seq<ArchiveEntry>, items: seq<Item>, limits: Limits) {
    && |out| == |FileEntries(items)| <= limits.maxEntries
    && (forall k :: 0 <= k < |out| ==>
          && SafeName(out[k].name)
          && CanonicalName(FileEntries(items)[k].path, limits) == Ok(out[k].name)
          && FileEntries(items)[k].size == Some(out[k].size)
          && out[k].name in disk.nodes
          && disk.nodes[out[k].name] == File(FileEntries(items)[k].data))
    && (forall j, k :: 0 <= j < k < |out| ==> out[j].name != out[k].name)
  }

  /** Apart from those files, the disk only gained the directories the stream names. */
  ghost predicate NothingElse(d: Disk, disk: Disk, out: seq<ArchiveEntry>, items: seq<Item>, limits: Limits) {
    && (forall p :: p in d.nodes && !IsOutput(p, out) ==> p in disk.nodes && disk.nodes[p] == d.nodes[p])
    && (forall p :: p in disk.nodes && p !in d.nodes && !IsOutput(p, out) ==>
          disk.nodes[p] == Dir && NamesDirectory(p, items, limits))
    && (forall p :: NamesDirectory(p, items, limits) ==> LeadsToDir(disk, p))
  }

  /** All canonical names met so far are in `seen`. */
  predicate Remembered(st: State, items: seq<Item>, limits: Limits) {
    && (forall k :: 0 <= k < |st.out| ==> st.out[k].name in st.seen)
    && (forall k :: 0 <= k < |items| ==> NameIn(items[k], st.seen, limits))
  }

  predicate NameIn(item: Item, seen: set<string>, limits: Limits) {
    && item.Next?
    && CanonicalName(item.entry.path, limits).Ok?
    && CanonicalName(item.entry.path, limits).value in seen
  }

  /** The effect of one successful step, seen from outside. */
  lemma SuccessfulStep(st: State, item: Item, limits: Limits, faults: Faults)
    requires DirStep(st, item, limits, faults).failure.None?
    ensures st.failure.None? && item.Next? && CanonicalName(item.entry.path, limits).Ok?
    ensures
      var st', e, name := DirStep(st, item, limits, faults), item.entry, CanonicalName(item.entry.path, limits).value;
      && SafeName(name) && name !in st.seen && st'.seen == st.seen + {name}
      && |st.out| < limits.maxEntries && !e.kind.OtherKind?
      && st'.disk.outside == st.disk.outside
      && if e.kind.Directory?
         then st'.out == st.out && LeadsToDir(st'.disk, name)
              && st'.disk.nodes == (if name in st.disk.nodes then st.disk.nodes else st.disk.nodes[name := Dir])
         else e.size.Some? && st'.out == st.out + [ArchiveEntry(name, e.size.value)]
              && st'.disk.nodes == st.disk.nodes[name := File(e.data)]
  {
    var name := CanonicalName(item.entry.path, limits).value;
    CanonicalNameIff(item.entry.path, limits, name);
    if !item.entry.kind.Directory? {
      var (disk, isNew) := CreateOutput(st.disk, name, limits, faults).value;
      assert disk.nodes[name] == File([]);
      assert [] + item.entry.data == item.entry.data;
    }
  }

  lemma {:induction false} SuccessRemembers(d: Disk, items: seq<Item>, limits: Limits, faults: Faults)
    requires DirRun(d, items, limits, faults).failure.None?
    ensures Remembered(DirRun(d, items, limits, faults), items, limits)
  {
    hide CanonicalName, DirStep;
    if items != [] {
      var before, last := items[..|items| - 1], items[|items| - 1];
      SuccessfulStep(DirRun(d, before, limits, faults), last, limits, faults);
      SuccessRemembers(d, before, limits, faults);
      forall k | 0 <= k < |items| ensures NameIn(items[k], DirRun(d, items, limits, faults).seen, limits) {
        if k < |before| {
          assert items[k] == before[k] && NameIn(before[k], DirRun(d, before, limits, faults).seen, limits);
        }
      }
    }
  }

  lemma ExactAfterDir(st: State, disk: Disk, before: seq<Item>, items: seq<Item>, name: string, limits: Limits)
    requires ExactOutput(st.disk, st.out, before, limits)
    requires FileEntries(items) == FileEntries(before)
    requires disk.nodes == if name in st.disk.nodes then st.disk.nodes else st.disk.nodes[name := Dir]
    ensures ExactOutput(disk, st.out, items, limits)
  {
    hide CanonicalName;
  }

  lemma ExactAfterFile(st: State, disk: Disk, before: seq<Item>, last: Item, items: seq<Item>, entry: ArchiveEntry,
                       limits: Limits)
    requires ExactOutput(st.disk, st.out, before, limits) && |st.out| < limits.maxEntries
    requires forall k :: 0 <= k < |st.out| ==> st.out[k].name in st.seen
    requires last.Next? && FileEntries(items) == FileEntries(before) + [last.entry]
    requires SafeName(entry.name) && entry.name !in st.seen
    requires CanonicalName(last.entry.path, limits) == Ok(entry.name) && last.entry.size == Some(entry.size)
    requires disk.nodes == st.disk.nodes[entry.name := File(last.entry.data)]
    ensures ExactOutput(disk, st.out + [entry], items, limits)
  {
    hide CanonicalName;
  }

  lemma {:induction false} SuccessIsExact(d: Disk, items: seq<Item>, limits: Limits, faults: Faults)
    requires DirRun(d, items, limits, faults).failure.None?
    ensures ExactOutput(DirRun(d, items, limits, faults).disk, DirRun(d, items, limits, faults).out, items, limits)
  {
    hide CanonicalName, DirStep;
    if items != [] {
      var before, last := items[..|items| - 1], items[|items| - 1];
      var st := DirRun(d, before, limits, faults);
      SuccessfulStep(st, last, limits, faults);
      SuccessIsExact(d, before, limits, faults);
      SuccessRemembers(d, before, limits, faults);
      var st' := DirRun(d, items, limits, faults);
      var name := CanonicalName(last.entry.path, limits).value;
      if last.entry.kind.Directory? {
        ExactAfterDir(st, st'.disk, before, items, name, limits);
      } else {
        ExactAfterFile(st, st'.disk, before, last, items, ArchiveEntry(name, last.entry.size.value), limits);
      }
    }
  }

  lemma NamesDirectorySnoc(p: string, before: seq<Item>, last: Item, limits: Limits)
    ensures NamesDirectory(p, before + [last], limits) <==>
      || NamesDirectory(p, before, limits)
      || (last.Next? && last.entry.kind.Directory? && CanonicalName(last.entry.path, limits) == Ok(p))
  {
    var items := before + [last];
    if NamesDirectory(p, before, limits) {
      var k :| 0 <= k < |before| && before[k].Next? && before[k].entry.kind.Directory?
        && CanonicalName(before[k].entry.path, limits) == Ok(p);
      assert items[k] == before[k];
    }
    if last.Next? && last.entry.kind.Directory? && CanonicalName(last.entry.path, limits) == Ok(p) {
      assert items[|before|] == last;
    }
  }

  lemma IsOutputSnoc(p: string, out: seq<ArchiveEntry>, e: ArchiveEntry)
    ensures IsOutput(p, out + [e]) <==> IsOutput(p, out) || e.name == p
  {
    if IsOutput(p, out) {
      var k :| 0 <= k < |out| && out[k].name == p;
      assert (out + [e])[k].name == p;
    }
    assert (out + [e])[|out|] == e;
  }

  /** A named directory was met, so its name is remembered. */
  lemma DirectoriesRemembered(st: State, items: seq<Item>, limits: Limits, p: string)
    requires Remembered(st, items, limits) && NamesDirectory(p, items, limits)
    ensures p in st.seen
  {
  }

  /** Making one more directory adds only that directory. */
  lemma NothingElseAfterDir(d: Disk, st: State, disk: Disk, before: seq<Item>, last: Item, name: string, limits: Limits)
    requires NothingElse(d, st.disk, st.out, before, limits)
    requires last.Next? && last.entry.kind.Directory? && CanonicalName(last.entry.path, limits) == Ok(name)
    requires disk.outside == st.disk.outside && LeadsToDir(disk, name)
    requires disk.nodes == if name in st.disk.nodes then st.disk.nodes else st.disk.nodes[name := Dir]
    ensures NothingElse(d, disk, st.out, before + [last], limits)
  {
    hide CanonicalName;
    forall p ensures NamesDirectory(p, before + [last], limits) <==> (NamesDirectory(p, before, limits) || p == name) {
      NamesDirectorySnoc(p, before, last, limits);
    }
  }

  /** Writing one more file under a fresh name changes only that name. */
  lemma NothingElseAfterFile(d: Disk, st: State, disk: Disk, before: seq<Item>, last: Item, entry: ArchiveEntry,
                             limits: Limits)
    requires NothingElse(d, st.disk, st.out, before, limits)
    requires Remembered(st, before, limits) && entry.name !in st.seen
    requires last.Next? && !last.entry.kind.Directory?
    requires disk.outside == st.disk.outside
    requires disk.nodes == st.disk.nodes[entry.name := File(last.entry.data)]
    ensures NothingElse(d, disk, st.out + [entry], before + [last], limits)
  {
    hide CanonicalName;
    forall p ensures NamesDirectory(p, before + [last], limits) <==> NamesDirectory(p, before, limits) {
      NamesDirectorySnoc(p, before, last, limits);
    }
    forall p | NamesDirectory(p, before, limits) ensures p != entry.name {
      DirectoriesRemembered(st, before, limits, p);
    }
    forall p ensures IsOutput(p, st.out + [entry]) <==> (IsOutput(p, st.out) || p == entry.name) {
      IsOutputSnoc(p, st.out, entry);
    }
  }

  lemma {:induction false} SuccessAddsNothingElse(d: Disk, items: seq<Item>, limits: Limits, faults: Faults)
    requires DirRun(d, items, limits, faults).failure.None?
    ensures DirRun(d, items, limits, faults).disk.outside == d.outside
    ensures NothingElse(d, DirRun(d, items, limits, faults).disk, DirRun(d, items, limits, faults).out, items, limits)
  {
    hide CanonicalName, DirStep;
    if items != [] {
      var before, last := items[..|items| - 1], items[|items| - 1];
      var st, st' := DirRun(d, before, limits, faults), DirRun(d, items, limits, faults);
      SuccessfulStep(st, last, limits, faults);
      SuccessAddsNothingElse(d, before, limits, faults);
      assert items == before + [last];
      var name := CanonicalName(last.entry.path, limits).value;
      if last.entry.kind.Directory? {
        NothingElseAfterDir(d, st, st'.disk, before, last, name, limits);
      } else {
        SuccessRemembers(d, before, limits, faults);
        NothingElseAfterFile(d, st, st'.disk, before, last, ArchiveEntry(name, last.entry.size.value), limits);
      }
    }
  }

  /**
   A successful extraction is exact: the disk is the old one plus precisely the returned files, each a distinct
   unhidden name directly under the destination holding its entry's bytes, plus the named directories.
   */
  lemma UnpackIsExact(d: Disk, s: Stream, limits: Limits, faults: Faults)
    requires UnpackOutcome(d, s, limits, faults).result.Ok?
    ensures s.Items?
    ensures
      var o := UnpackOutcome(d, s, limits, faults);
      && ExactOutput(o.disk, o.result.value, s.items, limits)
      && o.disk.outside == d.outside
      && NothingElse(d, o.disk, o.result.value, s.items, limits)
  {
    SuccessIsExact(d, s.items, limits, faults);
    SuccessAddsNothingElse(d, s.items, limits, faults);
  }

  /** Bytes in the files that were returned. */
  function WrittenData(disk: Disk, out: seq<ArchiveEntry>): nat {
    if out == [] then 0
    else
      var name := out[|out| - 1].name;
      WrittenData(disk, out[..|out| - 1])
      + (if name in disk.nodes && disk.nodes[name].File? then |disk.nodes[name].data| else 0)
  }

  lemma {:induction false} WrittenDataUnchanged(disk: Disk, disk': Disk, out: seq<ArchiveEntry>)
    requires forall k :: 0 <= k < |out| ==>
      out[k].name in disk.nodes && out[k].name in disk'.nodes && disk'.nodes[out[k].name] == disk.nodes[out[k].name]
    ensures WrittenData(disk', out) == WrittenData(disk, out)
  {
    if out != [] {
      WrittenDataUnchanged(disk, disk', out[..|out| - 1]);
    }
  }

  /** What a successful extraction has written was delivered by the stream. */
  lemma {:induction false} ExtractionWithinStream(d: Disk, items: seq<Item>, limits: Limits, faults: Faults)
    requires DirRun(d, items, limits, faults).failure.None?
    ensures WrittenData(DirRun(d, items, limits, faults).disk, DirRun(d, items, limits, faults).out)
         <= StreamData(items)
  {
    hide CanonicalName, DirStep, ExactOutput;
    if items != [] {
      var before, last := items[..|items| - 1], items[|items| - 1];
      var st, st' := DirRun(d, before, limits, faults), DirRun(d, items, limits, faults);
      SuccessfulStep(st, last, limits, faults);
      ExtractionWithinStream(d, before, limits, faults);
      SuccessRemembers(d, before, limits, faults);
      OutputsExist(d, before, limits, faults);
      WrittenDataUnchanged(st.disk, st'.disk, st.out);
    }
  }

  lemma OutputsExist(d: Disk, items: seq<Item>, limits: Limits, faults: Faults)
    requires DirRun(d, items, limits, faults).failure.None?
    ensures var st := DirRun(d, items, limits, faults);
      forall k :: 0 <= k < |st.out| ==> st.out[k].name in st.disk.nodes
  {
    SuccessIsExact(d, items, limits, faults);
  }

  // ----- agreement with the in-memory reader -----

  /** None of the names in the stream is taken in the destination. */
  predicate FreeOf(d: Disk, items: seq<Item>, limits: Limits) {
    forall k :: 0 <= k < |items| && items[k].Next? && CanonicalName(items[k].entry.path, limits).Ok? ==>
      CanonicalName(items[k].entry.path, limits).value !in d.nodes
  }

  predicate InStepWithMemory(d: Disk, st: State, mem: Reading<PayloadFile>) {
    && st.failure == mem.failure
    && (st.failure.None? ==>
          st.seen == mem.seen && SameNames(st.out, mem.out) && st.disk.nodes.Keys <= d.nodes.Keys + st.seen)
  }

  lemma StepWithMemory(d: Disk, st: State, mem: Reading<PayloadFile>, item: Item, limits: Limits, faults: Faults)
    requires InStepWithMemory(d, st, mem) && Faultless(faults)
    requires SizesReadable([item]) && FreeOf(d, [item], limits)
    ensures InStepWithMemory(d, DirStep(st, item, limits, faults), MemStep(mem, item, limits))
  {
    if st.failure.None? && item.Next? {
      assert [item][0].entry.size.Some?;
      var name := Admit(|st.out|, st.seen, item.entry, limits);
      if name.Ok? {
        assert CanonicalName([item][0].entry.path, limits) == name;
        assert name.value !in st.disk.nodes;
      }
    }
  }

  lemma {:induction false} RunWithMemory(d: Disk, items: seq<Item>, limits: Limits, faults: Faults)
    requires Faultless(faults) && SizesReadable(items) && FreeOf(d, items, limits)
    ensures InStepWithMemory(d, DirRun(d, items, limits, faults), MemRun(items, limits))
  {
    if items != [] {
      var before, last := items[..|items| - 1], items[|items| - 1];
      RunWithMemory(d, before, limits, faults);
      StepWithMemory(d, DirRun(d, before, limits, faults), MemRun(before, limits), last, limits, faults);
    }
  }

  /**
   Into a directory free of the archive's names, on a system that refuses nothing, extraction and unpacking to
   memory give the same verdict, the same error, the same names in order, and the same data.
   */
  lemma DirAgreesWithMemory(d: Disk, items: seq<Item>, limits: Limits, faults: Faults)
    requires Faultless(faults) && SizesReadable(items) && FreeOf(d, items, limits)
    ensures
      var dir, mem := UnpackOutcome(d, Items(items), limits, faults), MemoryResult(Items(items), limits);
      && (mem.Err? ==> dir.result == Err(mem.error))
      && (mem.Ok? ==>
            && dir.result.Ok? && SameNames(dir.result.value, mem.value)
            && forall k :: 0 <= k < |mem.value| ==>
                 mem.value[k].name in dir.disk.nodes && dir.disk.nodes[mem.value[k].name] == File(mem.value[k].data))
  {
    RunWithMemory(d, items, limits, faults);
    if MemRun(items, limits).failure.None? {
      MemoryIsExact(items, limits);
      SuccessIsExact(d, items, limits, faults);
    }
  }

  // ----- what a failed run leaves behind -----

  /** Entries handled before the one that failed. */
  function Completed(d: Disk, items: seq<Item>, limits: Limits, faults: Faults): (n: nat)
    ensures n <= |items|
  {
    if items == [] || DirRun(d, items, limits, faults).failure.None? then |items|
    else Completed(d, items[..|items| - 1], limits, faults)
  }

  predicate IsDir(d: Disk, p: string) {
    p in d.nodes && d.nodes[p].Dir?
  }

  lemma FailedStepMakesNoDirectory(st: State, item: Item, limits: Limits, faults: Faults)
    requires DirStep(st, item, limits, faults).failure.Some?
    ensures forall p :: IsDir(DirStep(st, item, limits, faults).disk, p) <==> IsDir(st.disk, p)
  {
    hide CanonicalName;
  }

  lemma {:induction false} DirectoriesOfCompleted(d: Disk, items: seq<Item>, limits: Limits, faults: Faults)
    ensures
      var n := Completed(d, items, limits, faults);
      && DirRun(d, items[..n], limits, faults).failure.None?
      && forall p :: IsDir(DirRun(d, items, limits, faults).disk, p)
           <==> IsDir(DirRun(d, items[..n], limits, faults).disk, p)
  {
    hide DirStep;
    var n := Completed(d, items, limits, faults);
    if n == |items| {
      assert items[..n] == items;
    }
    if items != [] && DirRun(d, items, limits, faults).failure.Some? {
      var before := items[..|items| - 1];
      DirectoriesOfCompleted(d, before, limits, faults);
      FailedStepMakesNoDirectory(DirRun(d, before, limits, faults), items[|items| - 1], limits, faults);
      assert before[..n] == items[..n];
    }
  }

  /** The new directories of a successful run are those its entries name. */
  lemma NewDirectoriesAreNamed(d: Disk, items: seq<Item>, limits: Limits, faults: Faults, p: string)
    requires DirRun(d, items, limits, faults).failure.None? && p !in d.nodes
    ensures IsDir(DirRun(d, items, limits, faults).disk, p) <==> NamesDirectory(p, items, limits)
  {
    hide DirRun, CanonicalName;
    SuccessIsExact(d, items, limits, faults);
    SuccessAddsNothingElse(d, items, limits, faults);
  }

  /** A path that was not there before and survives a failed run. */
  ghost predicate LeftBehind(p: string, d: Disk, items: seq<Item>, limits: Limits, faults: Faults) {
    || NamesDirectory(p, items[..Completed(d, items, limits, faults)], limits)
    || (p in DirRun(d, items, limits, faults).created && p in faults.undeletable)
  }

  /**
   A failed extraction leaves every earlier path in place, unchanged except that a file may have been rewritten
   when overwriting is allowed. A path is new afterwards if and only if it is a directory named by an entry handled
   before the failure, or a file this run created and the system refuses to unlink.
   */
  lemma FailedUnpackRestores(d: Disk, s: Stream, limits: Limits, faults: Faults)
    requires UnpackOutcome(d, s, limits, faults).result.Err?
    ensures
      var after := UnpackOutcome(d, s, limits, faults).disk;
      && (forall p :: p in d.nodes ==> p in after.nodes && Kept(d.nodes[p], after.nodes[p], limits))
      && (forall p :: p !in d.nodes ==>
            (p in after.nodes <==> !faults.noDestination && s.Items? && LeftBehind(p, d, s.items, limits, faults)))
      && (forall p :: p !in d.nodes && p in after.nodes ==>
            if p in faults.undeletable then !after.nodes[p].Symlink? else after.nodes[p].Dir?)
  {
    hide DirRun, NamesDirectory, Completed;
    if s.Items? && !faults.noDestination {
      EveryRunContained(d, s.items, limits, faults);
      var st, n := DirRun(d, s.items, limits, faults), Completed(d, s.items, limits, faults);
      RollbackRemoves(st.disk, st.created, faults);
      DirectoriesOfCompleted(d, s.items, limits, faults);
      forall p | p !in d.nodes ensures IsDir(st.disk, p) <==> NamesDirectory(p, s.items[..n], limits) {
        NewDirectoriesAreNamed(d, s.items[..n], limits, faults, p);
      }
    }
  }

  /** A file this run created holds what an entry of that name delivers, as far as there was room. */
  ghost predicate HoldsPart(disk: Disk, p: string, item: Item, limits: Limits, faults: Faults) {
    && item.Next? && CanonicalName(item.entry.path, limits) == Ok(p)
    && p in disk.nodes && disk.nodes[p].File? && disk.nodes[p].data <= item.entry.data
    && |disk.nodes[p].data| ==
         if p in faults.quota then Min(faults.quota[p], |item.entry.data|) else |item.entry.data|
  }

  lemma StepHoldsPart(d: Disk, st: State, item: Item, limits: Limits, faults: Faults, p: string)
    requires Contained(d, st, limits) && p in DirStep(st, item, limits, faults).created
    ensures p !in st.created ==> HoldsPart(DirStep(st, item, limits, faults).disk, p, item, limits, faults)
    ensures p in st.created ==>
      p in DirStep(st, item, limits, faults).disk.nodes
      && DirStep(st, item, limits, faults).disk.nodes[p] == st.disk.nodes[p]
  {
    hide CanonicalName;
    if st.failure.None? && item.Next? && Admit(|st.out|, st.seen, item.entry, limits).Ok? {
      var name := Admit(|st.out|, st.seen, item.entry, limits).value;
      assert name !in st.created;
      if p == name {
        assert [] + Copied(item.entry, name, faults).0 == Copied(item.entry, name, faults).0 <= item.entry.data;
      }
    }
  }

  lemma {:induction false} CreatedHoldParts(d: Disk, items: seq<Item>, limits: Limits, faults: Faults, p: string)
    requires p in DirRun(d, items, limits, faults).created
    ensures
      var disk := DirRun(d, items, limits, faults).disk;
      exists k :: 0 <= k < |items| && HoldsPart(disk, p, items[k], limits, faults)
  {
    hide DirStep, CanonicalName;
    if items != [] {
      var before, n := items[..|items| - 1], |items| - 1;
      var st := DirRun(d, before, limits, faults);
      EveryRunContained(d, before, limits, faults);
      StepHoldsPart(d, st, items[n], limits, faults, p);
      if p in st.created {
        CreatedHoldParts(d, before, limits, faults, p);
        var k :| 0 <= k < |before| && HoldsPart(st.disk, p, before[k], limits, faults);
        assert HoldsPart(DirRun(d, items, limits, faults).disk, p, items[k], limits, faults);
      } else {
        assert HoldsPart(DirRun(d, items, limits, faults).disk, p, items[n], limits, faults);
      }
    }
  }

  /** A file left behind by a failure holds what an entry of that name delivered, cut off where room ended. */
  lemma LeftFilesHoldParts(d: Disk, items: seq<Item>, limits: Limits, faults: Faults, p: string)
    requires UnpackOutcome(d, Items(items), limits, faults).result.Err?
    requires
      var after := UnpackOutcome(d, Items(items), limits, faults).disk;
      p in after.nodes && p !in d.nodes && after.nodes[p].File?
    ensures
      var after := UnpackOutcome(d, Items(items), limits, faults).disk;
      exists k :: 0 <= k < |items| && HoldsPart(after, p, items[k], limits, faults)
  {
    hide DirRun, CanonicalName;
    var st := DirRun(d, items, limits, faults);
    EveryRunContained(d, items, limits, faults);
    RollbackRemoves(st.disk, st.created, faults);
    CreatedHoldParts(d, items, limits, faults, p);
    var k :| 0 <= k < |items| && HoldsPart(st.disk, p, items[k], limits, faults);
    assert HoldsPart(UnpackOutcome(d, Items(items), limits, faults).disk, p, items[k], limits, faults);
  }

  /** The smallest archives that leave something: one entry, then a fault. */
  function OneThenFault(kind: EntryKind, data: Bytes): seq<Item> {
    [Next(Entry("a", kind, Some(|data|), data, None)), Failed(Unreadable)]
  }

  lemma OneThenFaultRuns(d: Disk, kind: EntryKind, data: Bytes, limits: Limits, faults: Faults)
    ensures
      var items := OneThenFault(kind, data);
      var st := DirStep(State(d, [], {}, [], None), items[0], limits, faults);
      DirRun(d, items, limits, faults) == if st.failure.None? then st.(failure := Some(Io)) else st
  {
    hide CanonicalName;
    var items := OneThenFault(kind, data);
    assert items[..1][..0] == [] && items[..1][0] == items[0];
    assert DirRun(d, items[..1], limits, faults) == DirStep(State(d, [], {}, [], None), items[0], limits, faults);
  }

  lemma DirectoryLeft(outside: map<string, Node>, data: Bytes, limits: Limits)
    requires limits.maxEntries > 0
    ensures UnpackOutcome(Disk(map[], outside), Items(OneThenFault(Directory, data)), limits,
                          Faults(false, {}, {}, {}, map[]))
         == Outcome(Disk(map["a" := Dir], outside), Err(Io))
  {
    hide DirRun, CanonicalName;
    var empty, willing := Disk(map[], outside), Faults(false, {}, {}, {}, map[]);
    SafeNameIsCanonical("a", limits);
    OneThenFaultRuns(empty, Directory, data, limits, willing);
    var st := DirRun(empty, OneThenFault(Directory, data), limits, willing);
    assert st == State(Disk(map["a" := Dir], outside), [], {"a"}, [], Some(Io));
  }

  lemma FileLeft(outside: map<string, Node>, data: Bytes, limits: Limits)
    requires limits.maxEntries > 0
    ensures UnpackOutcome(Disk(map[], outside), Items(OneThenFault(Regular, data)), limits,
                          Faults(false, {}, {}, {"a"}, map[]))
         == Outcome(Disk(map["a" := File(data)], outside), Err(Io))
  {
    hide DirRun, CanonicalName;
    var empty, stuck := Disk(map[], outside), Faults(false, {}, {}, {"a"}, map[]);
    SafeNameIsCanonical("a", limits);
    OneThenFaultRuns(empty, Regular, data, limits, stuck);
    var st := DirRun(empty, OneThenFault(Regular, data), limits, stuck);
    assert [] + data == data;
    assert st.disk == Disk(map["a" := File(data)], outside) && st.created == ["a"] && st.failure == Some(Io);
    StuckStays(st.disk, "a", stuck);
  }

  lemma StuckStays(d: Disk, name: string, faults: Faults)
    requires name in faults.undeletable
    ensures Rollback(d, [name], faults) == d
  {
    assert [name][..0] == [];
    assert Rollback(Unlink(d, name, faults), [], faults) == d;
  }

  /** A directory stays after a failure, and so does a file that cannot be unlinked, contents included. */
  lemma LeftoversExist(outside: map<string, Node>, data: Bytes, limits: Limits)
    requires limits.maxEntries > 0
    ensures UnpackOutcome(Disk(map[], outside), Items(OneThenFault(Directory, data)), limits,
                          Faults(false, {}, {}, {}, map[]))
         == Outcome(Disk(map["a" := Dir], outside), Err(Io))
    ensures UnpackOutcome(Disk(map[], outside), Items(OneThenFault(Regular, data)), limits,
                          Faults(false, {}, {}, {"a"}, map[]))
         == Outcome(Disk(map["a" := File(data)], outside), Err(Io))
  {
    hide UnpackOutcome;
    DirectoryLeft(outside, data, limits);
    FileLeft(outside, data, limits);
  }

  ghost predicate Intact(d: Disk, after: Disk) {
    forall p :: p in d.nodes ==> p in after.nodes && after.nodes[p] == d.nodes[p]
  }

  lemma {:induction false} NoEntryNoChange(d: Disk, items: seq<Item>, limits: Limits, faults: Faults)
    requires limits.maxEntries == 0
    ensures DirRun(d, items, limits, faults).disk == d && DirRun(d, items, limits, faults).created == []
  {
    if items != [] {
      NoEntryNoChange(d, items[..|items| - 1], limits, faults);
    }
  }

  /** A file that was there loses its contents when an archive that then fails may overwrite it. */
  lemma OverwrittenIsLost(before: Bytes, data: Bytes, limits: Limits)
    requires limits.maxEntries > 0 && limits.allowOverwrite
    ensures UnpackOutcome(Disk(map["a" := File(before)], map[]), Items(OneThenFault(Regular, data)), limits,
                          Faults(false, {}, {}, {}, map[]))
         == Outcome(Disk(map["a" := File(data)], map[]), Err(Io))
  {
    hide DirRun, CanonicalName;
    var d, willing := Disk(map["a" := File(before)], map[]), Faults(false, {}, {}, {}, map[]);
    SafeNameIsCanonical("a", limits);
    OneThenFaultRuns(d, Regular, data, limits, willing);
    var st := DirRun(d, OneThenFault(Regular, data), limits, willing);
    assert [] + data == data;
    assert st.disk.nodes == map["a" := File(data)];
    assert st.created == [];
  }

  /** Failed runs leave all earlier contents alone exactly when overwriting is off, or no entry is accepted at all. */
  lemma FailureKeepsContentsIff(limits: Limits)
    ensures (forall d, s, faults :: UnpackOutcome(d, s, limits, faults).result.Err? ==>
        Intact(d, UnpackOutcome(d, s, limits, faults).disk))
      <==> !limits.allowOverwrite || limits.maxEntries == 0
  {
    hide DirRun, Intact;
    if limits.allowOverwrite && limits.maxEntries > 0 {
      OverwrittenIsLost([0], [1], limits);
      NotIntact([0], [1]);
    } else {
      forall d, s, faults | UnpackOutcome(d, s, limits, faults).result.Err?
        ensures Intact(d, UnpackOutcome(d, s, limits, faults).disk)
      {
        ContentsKept(d, s, limits, faults);
      }
    }
  }

  lemma NotIntact(before: Bytes, after: Bytes)
    requires before != after
    ensures !Intact(Disk(map["a" := File(before)], map[]), Disk(map["a" := File(after)], map[]))
  {
    assert map["a" := File(before)]["a"] != map["a" := File(after)]["a"];
  }

  lemma ContentsKept(d: Disk, s: Stream, limits: Limits, faults: Faults)
    requires !limits.allowOverwrite || limits.maxEntries == 0
    requires UnpackOutcome(d, s, limits, faults).result.Err?
    ensures Intact(d, UnpackOutcome(d, s, limits, faults).disk)
  {
    hide DirRun;
    if !limits.allowOverwrite {
      EarlierContentsUntouched(d, s, limits, faults);
    } else if s.Items? {
      NoEntryNoChange(d, s.items, limits, faults);
    }
  }

  lemma {:induction false} SeenAreFree(d: Disk, items: seq<Item>, limits: Limits, faults: Faults)
    requires FreeOf(d, items, limits)
    ensures forall p :: p in DirRun(d, items, limits, faults).seen ==> p !in d.nodes
  {
    hide CanonicalName;
    if items != [] {
      SeenAreFree(d, items[..|items| - 1], limits, faults);
    }
  }

  /**
   All or nothing: into a directory free of the archive's names, on a system that can unlink what it created, an
   archive without directories is either extracted or leaves the disk exactly as it was, under any limits.
   */
  lemma AllOrNothing(d: Disk, items: seq<Item>, limits: Limits, faults: Faults)
    requires NoDirectories(items) && FreeOf(d, items, limits) && faults.undeletable == {}
    requires UnpackOutcome(d, Items(items), limits, faults).result.Err?
    ensures UnpackOutcome(d, Items(items), limits, faults).disk == d
  {
    hide DirRun, CanonicalName, Completed;
    var after := UnpackOutcome(d, Items(items), limits, faults).disk;
    FailedUnpackRestores(d, Items(items), limits, faults);
    SymlinksNeverFollowed(d, Items(items), limits, faults);
    if !faults.noDestination {
      var st := DirRun(d, items, limits, faults);
      SeenAreFree(d, items, limits, faults);
      EveryRunContained(d, items, limits, faults);
      RollbackRemoves(st.disk, st.created, faults);
      assert forall p :: p in d.nodes ==> after.nodes[p] == d.nodes[p];
    }
    assert after.nodes == d.nodes;
  }

  lemma DirectoriesExtracted(n: nat, limits: Limits)
    requires limits.maxEntries > 0
    ensures DirRun(Disk(map[], map[]), DirectoryItems(n), limits, Faults(false, {}, {}, {}, map[])).failure.None?
  {
    hide DirRun, CanonicalName;
    DirectoriesAreNotCounted(n, limits);
    RunWithMemory(Disk(map[], map[]), DirectoryItems(n), limits, Faults(false, {}, {}, {}, map[]));
  }

  /** Extraction too bounds the number of tar entries by `max_entries` only when that is zero. */
  lemma ExtractedEntriesBoundedIff(limits: Limits)
    ensures (forall d, items, faults :: DirRun(d, items, limits, faults).failure.None? ==>
        |items| <= limits.maxEntries) <==> limits.maxEntries == 0
  {
    hide DirStep, CanonicalName;
    if limits.maxEntries > 0 {
      DirectoriesExtracted(limits.maxEntries + 1, limits);
      assert |DirectoryItems(limits.maxEntries + 1)| > limits.maxEntries;
    } else {
      forall d, items, faults | DirRun(d, items, limits, faults).failure.None? ensures |items| <= limits.maxEntries {
        if items != [] {
          SuccessfulStep(DirRun(d, items[..|items| - 1], limits, faults), items[|items| - 1], limits, faults);
        }
      }
    }
  }

  // ----- verdicts, from the stream and the destination as it was -----

  /** Whether a directory can be had under a name: it is there, a link leads to one, or it can be made. */
  predicate DirectoryPossible(d: Disk, name: string, faults: Faults) {
    if name in d.nodes then
      match d.nodes[name]
      case Dir => true
      case Symlink(target) => target in d.outside && d.outside[target].Dir?
      case File(_) => false
    else name !in faults.unmakeable
  }

  /** What stands against writing an admitted entry: its size, the destination, the system, its contents. */
  function FileComplaint(d: Disk, name: string, e: Entry, limits: Limits, faults: Faults): Option<Error> {
    if e.size.None? then Some(Io)
    else if name in d.nodes && d.nodes[name].Symlink? then Some(UnsafeArchiveEntry(ThroughSymlink))
    else if name in d.nodes && !limits.allowOverwrite then Some(Io)
    else if name in d.nodes && d.nodes[name].Dir? then Some(Io)
    else if name in faults.unopenable then Some(Io)
    else if name in faults.quota && faults.quota[name] < |e.data| then Some(Io)
    else Reported(e.fault)
  }

  /** What extraction complains about at position `n`, told from the stream and the disk before the run. */
  function DirComplaint(d: Disk, items: seq<Item>, n: nat, limits: Limits, faults: Faults): Option<Error>
    requires n < |items|
  {
    match items[n]
    case Failed(fault) => Reported(Some(fault))
    case Next(e) =>
      match (Objection(items, n, |FileEntries(items[..n])|, limits), CanonicalName(e.path, limits))
      case (None, Ok(name)) =>
        if e.kind != Directory then FileComplaint(d, name, e, limits, faults)
        else if DirectoryPossible(d, name, faults) then None else Some(Io)
      case (objection, _) => objection
  }

  function DirComplaints(d: Disk, items: seq<Item>, limits: Limits, faults: Faults): (cs: seq<Option<Error>>)
    ensures |cs| == |items|
  {
    seq(|items|, n requires 0 <= n < |items| => DirComplaint(d, items, n, limits, faults))
  }

  lemma {:induction false} ExtractionMeets(d: Disk, items: seq<Item>, limits: Limits, faults: Faults, n: nat)
    requires n <= |items| && DirRun(d, items[..n], limits, faults).failure.None?
    ensures Met(DirRun(d, items[..n], limits, faults).seen, items, n, limits)
    ensures |DirRun(d, items[..n], limits, faults).out| == |FileEntries(items[..n])|
  {
    hide CanonicalName, DirStep;
    if n > 0 {
      assert items[..n][..n - 1] == items[..n - 1];
      SuccessfulStep(DirRun(d, items[..n - 1], limits, faults), items[n - 1], limits, faults);
      ExtractionMeets(d, items, limits, faults, n - 1);
      MetSnoc(DirRun(d, items[..n - 1], limits, faults).seen, items, n - 1, limits);
    }
  }

  /** A name not yet seen is on disk as it was before the run. */
  predicate AsBefore(d: Disk, disk: Disk, name: string) {
    && disk.outside == d.outside
    && (name in disk.nodes <==> name in d.nodes)
    && (name in d.nodes ==> disk.nodes[name] == d.nodes[name])
  }

  lemma WriteFileExplained(d: Disk, st: State, e: Entry, name: string, limits: Limits, faults: Faults)
    requires st.failure.None? && AsBefore(d, st.disk, name)
    ensures WriteFile(st, e, name, limits, faults).failure == FileComplaint(d, name, e, limits, faults)
  {
  }

  lemma MakeDirExplained(d: Disk, disk: Disk, name: string, faults: Faults)
    requires AsBefore(d, disk, name)
    ensures MakeDir(disk, name, faults).Some? <==> DirectoryPossible(d, name, faults)
  {
  }

  lemma UnseenAsBefore(d: Disk, items: seq<Item>, limits: Limits, faults: Faults, name: string)
    requires name !in DirRun(d, items, limits, faults).seen
    ensures AsBefore(d, DirRun(d, items, limits, faults).disk, name)
  {
    hide DirRun;
    EveryRunContained(d, items, limits, faults);
  }

  lemma DirStepExplained(d: Disk, items: seq<Item>, limits: Limits, faults: Faults, n: nat)
    requires n < |items| && DirRun(d, items[..n], limits, faults).failure.None?
    ensures DirRun(d, items[..n + 1], limits, faults).failure == DirComplaint(d, items, n, limits, faults)
  {
    hide CanonicalName, Objection, WriteFile, MakeDir, FileComplaint, DirectoryPossible, AsBefore, Met;
    var st := DirRun(d, items[..n], limits, faults);
    assert items[..n + 1][..n] == items[..n];
    ExtractionMeets(d, items, limits, faults, n);
    if items[n].Next? {
      var e := items[n].entry;
      AdmitIsObjection(items, n, |st.out|, st.seen, limits);
      if Objection(items, n, |st.out|, limits).None? {
        var name := CanonicalName(e.path, limits).value;
        UnseenAsBefore(d, items[..n], limits, faults, name);
        WriteFileExplained(d, st.(seen := st.seen + {name}), e, name, limits, faults);
        MakeDirExplained(d, st.disk, name, faults);
      }
    }
  }

  lemma {:induction false} DirPrefixExplained(d: Disk, items: seq<Item>, limits: Limits, faults: Faults, n: nat)
    requires n <= |items|
    ensures DirRun(d, items[..n], limits, faults).failure == FirstOf(DirComplaints(d, items, limits, faults)[..n])
  {
    hide DirStep, DirComplaint;
    if n > 0 {
      DirPrefixExplained(d, items, limits, faults, n - 1);
      FirstOfSnoc(DirComplaints(d, items, limits, faults), n - 1);
      if DirRun(d, items[..n - 1], limits, faults).failure.None? {
        DirStepExplained(d, items, limits, faults, n - 1);
      } else {
        assert items[..n][..n - 1] == items[..n - 1];
        DirFailureSticks(d, items[..n], limits, faults, n - 1);
      }
    }
  }

  /**
   Extraction succeeds exactly when nothing in the stream, the destination or the system stands against any entry;
   otherwise the first complaint, told from the disk as it was before the run, is the error.
   */
  lemma ExtractionExplained(d: Disk, s: Stream, limits: Limits, faults: Faults)
    ensures
      var r := UnpackOutcome(d, s, limits, faults).result;
      if faults.noDestination then r == Err(Io)
      else match s {
        case Unstartable(fault) => r.Err? && Some(r.error) == Reported(Some(fault))
        case Items(items) =>
          match FirstOf(DirComplaints(d, items, limits, faults)) {
            case Some(error) => r == Err(error)
            case None => r.Ok?
          }
      }
  {
    hide DirRun, DirComplaints, FirstOf;
    if s.Items? {
      DirPrefixExplained(d, s.items, limits, faults, |s.items|);
      assert s.items[..|s.items|] == s.items;
      assert DirComplaints(d, s.items, limits, faults)[..|s.items|] == DirComplaints(d, s.items, limits, faults);
    }
  }

  /** No link is ever extracted unless links are allowed, and nothing but files, directories and links ever is. */
  lemma ExtractsOnlySafeKinds(d: Disk, items: seq<Item>, limits: Limits, faults: Faults)
    requires UnpackOutcome(d, Items(items), limits, faults).result.Ok?
    ensures SafeKinds(items, limits)
  {
    hide DirRun, FirstOf, CanonicalName, FileComplaint, DirectoryPossible;
    ExtractionExplained(d, Items(items), limits, faults);
    forall n | 0 <= n < |items|
      ensures items[n].Next? && !items[n].entry.kind.OtherKind?
      ensures items[n].entry.kind.SymbolicLink? || items[n].entry.kind.HardLink? ==> limits.allowSymlinks
    {
      assert DirComplaints(d, items, limits, faults)[n] == DirComplaint(d, items, n, limits, faults);
    }
  }
}
