/**
 Archive reading (crates/umbrik-core/src/payload.rs): the checks every reader makes, and the two
 readers that leave the disk alone. An archive is the stream of results the tar reader yields.
 */
module Archive {
  import opened Basics
  import opened LimitsModel
  import opened EntryNames

  datatype PayloadFile = PayloadFile(name: string, data: Bytes)
  datatype ArchiveEntry = ArchiveEntry(name: string, size: nat)

  datatype EntryKind = Regular | Directory | SymbolicLink | HardLink | OtherKind

  /** Why reading the inflating stream stopped: the byte ceiling, or anything else. */
  datatype Fault = PastCeiling | Unreadable

  /**
   One tar entry: its stored path, its kind, the size its header claims (none if that field is
   unreadable), the bytes its contents deliver and the fault that cuts them short, if any.
   */
  datatype Entry = Entry(path: string, kind: EntryKind, size: Option<nat>, data: Bytes, fault: Option<Fault>)

  /** What the tar reader answers when asked for the next entry. */
  datatype Item = Next(entry: Entry) | Failed(fault: Fault)

  /** A stream that cannot be started, or the answers it gives before its end. */
  datatype Stream = Unstartable(fault: Fault) | Items(items: seq<Item>)

  function Classify(fault: Fault): Error {
    match fault
    case PastCeiling => LimitExceeded(Inflation)
    case Unreadable => Io
  }

  /** `check_entry_type`. */
  function CheckKind(kind: EntryKind, limits: Limits): Option<Error> {
    match kind
    case SymbolicLink => if limits.allowSymlinks then None else Some(UnsafeArchiveEntry(LinkEntry))
    case HardLink => if limits.allowSymlinks then None else Some(UnsafeArchiveEntry(LinkEntry))
    case Regular => None
    case Directory => None
    case OtherKind => Some(UnsafeArchiveEntry(UnsupportedType))
  }

  /** The checks on an entry, in order: count, kind, name, uniqueness. Yields the canonical name. */
  function Admit(count: nat, seen: set<string>, entry: Entry, limits: Limits): Result<string> {
    if count >= limits.maxEntries then Err(LimitExceeded(TooManyEntries))
    else if CheckKind(entry.kind, limits).Some? then Err(CheckKind(entry.kind, limits).value)
    else
      var name :- CanonicalName(entry.path, limits);
      if name in seen then Err(UnsafeArchiveEntry(DuplicateName)) else Ok(name)
  }

  /** What a reader has gathered after part of a stream. */
  datatype Reading<T> = Reading(out: seq<T>, seen: set<string>, failure: Option<Error>)

  function Finish<T>(st: Reading<T>): Result<seq<T>> {
    if st.failure.Some? then Err(st.failure.value) else Ok(st.out)
  }

  // ----- unpacking to memory -----

  function MemStep(st: Reading<PayloadFile>, item: Item, limits: Limits): Reading<PayloadFile> {
    if st.failure.Some? then st
    else match item
      case Failed(fault) => st.(failure := Some(Classify(fault)))
      case Next(e) =>
        match Admit(|st.out|, st.seen, e, limits)
        case Err(error) => st.(failure := Some(error))
        case Ok(name) =>
          var seen := st.seen + {name};
          if e.kind.Directory? then st.(seen := seen)
          else if e.fault.Some? then Reading(st.out, seen, Some(Classify(e.fault.value)))
          else Reading(st.out + [PayloadFile(name, e.data)], seen, None)
  }

  function MemRun(items: seq<Item>, limits: Limits): Reading<PayloadFile> {
    if items == [] then Reading([], {}, None)
    else MemStep(MemRun(items[..|items| - 1], limits), items[|items| - 1], limits)
  }

  function MemoryResult(s: Stream, limits: Limits): Result<seq<PayloadFile>> {
    match s
    case Unstartable(fault) => Err(Classify(fault))
    case Items(items) => Finish(MemRun(items, limits))
  }

  /** `unpack_to_memory`. */
  method UnpackToMemory(s: Stream, limits: Limits) returns (r: Result<seq<PayloadFile>>)
    ensures r == MemoryResult(s, limits)
  {
    hide CanonicalName;
    if s.Unstartable? {
      return Err(Classify(s.fault));
    }
    var out: seq<PayloadFile>, seen: set<string> := [], {};
    for i := 0 to |s.items|
      invariant MemRun(s.items[..i], limits) == Reading(out, seen, None)
    {
      assert s.items[..i + 1][..i] == s.items[..i];
      if MemRun(s.items[..i + 1], limits).failure.Some? {
        MemFailureSticks(s.items, limits, i + 1);
      }
      if s.items[i].Failed? {
        return Err(Classify(s.items[i].fault));
      }
      var e := s.items[i].entry;
      if |out| >= limits.maxEntries {
        return Err(LimitExceeded(TooManyEntries));
      }
      if CheckKind(e.kind, limits).Some? {
        return Err(CheckKind(e.kind, limits).value);
      }
      var name := SafeRelativePath(e.path, limits);
      if name.Err? {
        return Err(name.error);
      }
      if name.value in seen {
        return Err(UnsafeArchiveEntry(DuplicateName));
      }
      seen := seen + {name.value};
      if e.kind.Directory? {
        continue;
      }
      if e.fault.Some? {
        return Err(Classify(e.fault.value));
      }
      out := out + [PayloadFile(name.value, e.data)];
    }
    assert s.items[..|s.items|] == s.items;
    return Ok(out);
  }

  lemma {:induction false} MemFailureSticks(items: seq<Item>, limits: Limits, n: nat)
    requires n <= |items| && MemRun(items[..n], limits).failure.Some?
    ensures MemRun(items, limits) == MemRun(items[..n], limits)
  {
    if n < |items| {
      assert items[..|items| - 1][..n] == items[..n];
      MemFailureSticks(items[..|items| - 1], limits, n);
    } else {
      assert items[..n] == items;
    }
  }

  // ----- listing -----

  function ListStep(st: Reading<ArchiveEntry>, item: Item, limits: Limits): Reading<ArchiveEntry> {
    if st.failure.Some? then st
    else match item
      case Failed(fault) => st.(failure := Some(Classify(fault)))
      case Next(e) =>
        match Admit(|st.out|, st.seen, e, limits)
        case Err(error) => st.(failure := Some(error))
        case Ok(name) =>
          var seen := st.seen + {name};
          if e.size.None? then Reading(st.out, seen, Some(Io))
          else Reading(st.out + [ArchiveEntry(name, e.size.value)], seen, None)
  }

  function ListRun(items: seq<Item>, limits: Limits): Reading<ArchiveEntry> {
    if items == [] then Reading([], {}, None)
    else ListStep(ListRun(items[..|items| - 1], limits), items[|items| - 1], limits)
  }

  function ListResult(s: Stream, limits: Limits): Result<seq<ArchiveEntry>> {
    match s
    case Unstartable(fault) => Err(Classify(fault))
    case Items(items) => Finish(ListRun(items, limits))
  }

  /** `list`: directories are listed too, and contents are never read. */
  method ListEntries(s: Stream, limits: Limits) returns (r: Result<seq<ArchiveEntry>>)
    ensures r == ListResult(s, limits)
  {
    hide CanonicalName;
    if s.Unstartable? {
      return Err(Classify(s.fault));
    }
    var out: seq<ArchiveEntry>, seen: set<string> := [], {};
    for i := 0 to |s.items|
      invariant ListRun(s.items[..i], limits) == Reading(out, seen, None)
    {
      assert s.items[..i + 1][..i] == s.items[..i];
      if ListRun(s.items[..i + 1], limits).failure.Some? {
        ListFailureSticks(s.items, limits, i + 1);
      }
      if s.items[i].Failed? {
        return Err(Classify(s.items[i].fault));
      }
      var e := s.items[i].entry;
      if |out| >= limits.maxEntries {
        return Err(LimitExceeded(TooManyEntries));
      }
      if CheckKind(e.kind, limits).Some? {
        return Err(CheckKind(e.kind, limits).value);
      }
      var name := SafeRelativePath(e.path, limits);
      if name.Err? {
        return Err(name.error);
      }
      if name.value in seen {
        return Err(UnsafeArchiveEntry(DuplicateName));
      }
      seen := seen + {name.value};
      if e.size.None? {
        return Err(Io);
      }
      out := out + [ArchiveEntry(name.value, e.size.value)];
    }
    assert s.items[..|s.items|] == s.items;
    return Ok(out);
  }

  lemma {:induction false} ListFailureSticks(items: seq<Item>, limits: Limits, n: nat)
    requires n <= |items| && ListRun(items[..n], limits).failure.Some?
    ensures ListRun(items, limits) == ListRun(items[..n], limits)
  {
    if n < |items| {
      assert items[..|items| - 1][..n] == items[..n];
      ListFailureSticks(items[..|items| - 1], limits, n);
    } else {
      assert items[..n] == items;
    }
  }

  // ----- laws of the tar reader -----

  /** An entry is yielded only after the size field that locates its end was read. */
  predicate SizesReadable(items: seq<Item>) {
    forall k :: 0 <= k < |items| && items[k].Next? ==> items[k].entry.size.Some?
  }

  /** Contents that cannot be read cannot be skipped either: the next answer is the same fault. */
  predicate FaultsPropagate(items: seq<Item>) {
    forall k :: 0 <= k < |items| && items[k].Next? && items[k].entry.fault.Some? ==>
      k + 1 < |items| && items[k + 1] == Failed(items[k].entry.fault.value)
  }

  // ----- contents of a successful reading -----

  /** The entries of a stream that carry contents, in order. */
  function FileEntries(items: seq<Item>): seq<Entry> {
    if items == [] then []
    else
      var before := FileEntries(items[..|items| - 1]);
      var last := items[|items| - 1];
      if last.Next? && !last.entry.kind.Directory? then before + [last.entry] else before
  }

  /** Files in archive order, under pairwise distinct safe names, with the data of their entries. */
  ghost predicate ExactFiles(files: seq<PayloadFile>, items: seq<Item>, limits: Limits) {
    && |files| == |FileEntries(items)| <= limits.maxEntries
    && (forall k :: 0 <= k < |files| ==>
          && SafeName(files[k].name)
          && CanonicalName(FileEntries(items)[k].path, limits) == Ok(files[k].name)
          && files[k].data == FileEntries(items)[k].data)
    && (forall j, k :: 0 <= j < k < |files| ==> files[j].name != files[k].name)
  }

  /** The effect of one successful step of unpacking to memory. */
  lemma MemStepEffect(st: Reading<PayloadFile>, item: Item, limits: Limits)
    requires MemStep(st, item, limits).failure.None?
    ensures st.failure.None? && item.Next? && CanonicalName(item.entry.path, limits).Ok?
    ensures
      var st', name := MemStep(st, item, limits), CanonicalName(item.entry.path, limits).value;
      && SafeName(name) && name !in st.seen && st'.seen == st.seen + {name}
      && |st.out| < limits.maxEntries
      && st'.out == if item.entry.kind.Directory? then st.out else st.out + [PayloadFile(name, item.entry.data)]
  {
    CanonicalNameIff(item.entry.path, limits, CanonicalName(item.entry.path, limits).value);
  }

  lemma ExactFilesSnoc(files: seq<PayloadFile>, file: PayloadFile, before: seq<Item>, items: seq<Item>, e: Entry,
                       limits: Limits)
    requires ExactFiles(files, before, limits) && |files| < limits.maxEntries
    requires FileEntries(items) == FileEntries(before) + [e]
    requires SafeName(file.name) && CanonicalName(e.path, limits) == Ok(file.name) && file.data == e.data
    requires forall k :: 0 <= k < |files| ==> files[k].name != file.name
    ensures ExactFiles(files + [file], items, limits)
  {
    hide CanonicalName;
  }

  /** A successful unpacking to memory returns exactly the file entries of the archive. */
  lemma {:induction false} MemoryIsExact(items: seq<Item>, limits: Limits)
    requires MemRun(items, limits).failure.None?
    ensures ExactFiles(MemRun(items, limits).out, items, limits)
    ensures var st := MemRun(items, limits); forall k :: 0 <= k < |st.out| ==> st.out[k].name in st.seen
  {
    hide CanonicalName, MemStep;
    if items != [] {
      var before, last := items[..|items| - 1], items[|items| - 1];
      var st := MemRun(before, limits);
      MemStepEffect(st, last, limits);
      MemoryIsExact(before, limits);
      if !last.entry.kind.Directory? {
        var file := PayloadFile(CanonicalName(last.entry.path, limits).value, last.entry.data);
        ExactFilesSnoc(st.out, file, before, items, last.entry, limits);
      }
    }
  }

  // ----- how much a reading returns -----

  /** Contents a reader may keep; a sparse file, whose holes no read delivers, is of no accepted kind. */
  function ItemData(item: Item): nat {
    if item.Next? && !item.entry.kind.OtherKind? then |item.entry.data| else 0
  }

  function StreamData(items: seq<Item>): nat {
    if items == [] then 0 else StreamData(items[..|items| - 1]) + ItemData(items[|items| - 1])
  }

  function FilesData(files: seq<PayloadFile>): nat {
    if files == [] then 0 else FilesData(files[..|files| - 1]) + |files[|files| - 1].data|
  }

  lemma MemStepKeepsDelivered(st: Reading<PayloadFile>, item: Item, limits: Limits)
    ensures
      var out := MemStep(st, item, limits).out;
      out == st.out || (out != [] && out[..|out| - 1] == st.out && |out[|out| - 1].data| == ItemData(item))
  {
    hide CanonicalName;
  }

  /** What unpacking holds in memory, after any part of a stream, was delivered by that part. */
  lemma {:induction false} MemoryWithinStream(items: seq<Item>, limits: Limits)
    ensures FilesData(MemRun(items, limits).out) <= StreamData(items)
  {
    hide MemStep;
    if items != [] {
      MemoryWithinStream(items[..|items| - 1], limits);
      MemStepKeepsDelivered(MemRun(items[..|items| - 1], limits), items[|items| - 1], limits);
    }
  }

  // ----- the two readers agree -----

  predicate SameNames(entries: seq<ArchiveEntry>, files: seq<PayloadFile>) {
    |entries| == |files| && forall k :: 0 <= k < |files| ==> entries[k].name == files[k].name
  }

  predicate NoDirectories(items: seq<Item>) {
    forall k :: 0 <= k < |items| && items[k].Next? ==> !items[k].entry.kind.Directory?
  }

  /** The reading stopped inside the contents of the entry just listed. */
  predicate Pending(item: Item, error: Error) {
    item.Next? && item.entry.fault.Some? && error == Classify(item.entry.fault.value)
  }

  /** Where the two readers stand after the same prefix of a directory-free stream. */
  predicate InStep(list: Reading<ArchiveEntry>, mem: Reading<PayloadFile>, last: Option<Item>) {
    || (list.failure.Some? && list.failure == mem.failure)
    || (list.failure.None? && mem.failure.None? && list.seen == mem.seen && SameNames(list.out, mem.out))
    || (list.failure.None? && mem.failure.Some? && last.Some? && Pending(last.value, mem.failure.value))
  }

  lemma StepsInStep(list: Reading<ArchiveEntry>, mem: Reading<PayloadFile>, last: Option<Item>, item: Item,
                    limits: Limits)
    requires InStep(list, mem, last)
    requires item.Next? ==> item.entry.size.Some? && !item.entry.kind.Directory?
    requires last.Some? && last.value.Next? && last.value.entry.fault.Some? ==>
      item == Failed(last.value.entry.fault.value)
    ensures InStep(ListStep(list, item, limits), MemStep(mem, item, limits), Some(item))
  {
    hide CanonicalName;
  }

  lemma {:induction false} ReadersInStep(items: seq<Item>, limits: Limits, n: nat)
    requires n <= |items| && SizesReadable(items) && FaultsPropagate(items) && NoDirectories(items)
    ensures InStep(ListRun(items[..n], limits), MemRun(items[..n], limits), if n == 0 then None else Some(items[n - 1]))
  {
    hide ListStep, MemStep;
    if n > 0 {
      ReadersInStep(items, limits, n - 1);
      assert items[..n][..n - 1] == items[..n - 1];
      StepsInStep(ListRun(items[..n - 1], limits), MemRun(items[..n - 1], limits),
                  if n == 1 then None else Some(items[n - 2]), items[n - 1], limits);
    }
  }

  /**
   Without directory entries listing and unpacking to memory give the same verdict, the same
   error, and the same names in the same order.
   */
  lemma ListAgreesWithMemory(items: seq<Item>, limits: Limits)
    requires SizesReadable(items) && FaultsPropagate(items) && NoDirectories(items)
    ensures
      var list, mem := ListResult(Items(items), limits), MemoryResult(Items(items), limits);
      && (list.Err? ==> mem == Err(list.error))
      && (list.Ok? ==> mem.Ok? && SameNames(list.value, mem.value))
  {
    ReadersInStep(items, limits, |items|);
    assert items[..|items|] == items;
  }

  lemma ListStepCounts(st: Reading<ArchiveEntry>, item: Item, limits: Limits)
    requires st.failure.None? && ListStep(st, item, limits).failure.None?
    ensures item.Next?
    ensures |ListStep(st, item, limits).out| == |st.out| + 1 <= limits.maxEntries
  {
  }

  lemma {:induction false} ListCountsEverything(items: seq<Item>, limits: Limits)
    requires ListRun(items, limits).failure.None?
    ensures |ListRun(items, limits).out| == |items|
    ensures items != [] ==> |items| <= limits.maxEntries
  {
    if items != [] {
      var before := items[..|items| - 1];
      ListCountsEverything(before, limits);
      ListStepCounts(ListRun(before, limits), items[|items| - 1], limits);
    }
  }

  /** A successful listing names every entry of the archive, in order, with the size its header claims. */
  lemma {:induction false} ListIsExact(items: seq<Item>, limits: Limits)
    requires ListRun(items, limits).failure.None?
    ensures
      var out := ListRun(items, limits).out;
      && |out| == |items|
      && forall k :: 0 <= k < |items| ==>
           && items[k].Next?
           && CanonicalName(items[k].entry.path, limits) == Ok(out[k].name)
           && items[k].entry.size == Some(out[k].size)
  {
    hide CanonicalName;
    if items != [] {
      ListIsExact(items[..|items| - 1], limits);
    }
  }

  /** With no fault in sight the two readers see the same names, and memory keeps no more than the list. */
  lemma {:induction false} ListImpliesMemory(items: seq<Item>, limits: Limits)
    requires ListRun(items, limits).failure.None?
    requires forall k :: 0 <= k < |items| && items[k].Next? ==> items[k].entry.fault.None?
    ensures MemRun(items, limits).failure.None?
    ensures MemRun(items, limits).seen == ListRun(items, limits).seen
    ensures |MemRun(items, limits).out| <= |ListRun(items, limits).out|
  {
    if items != [] {
      ListImpliesMemory(items[..|items| - 1], limits);
    }
  }

  lemma {:induction false} MemoryImpliesList(items: seq<Item>, limits: Limits)
    requires MemRun(items, limits).failure.None?
    requires SizesReadable(items) && |items| <= limits.maxEntries
    ensures ListRun(items, limits).failure.None?
    ensures |ListRun(items, limits).out| == |items|
    ensures MemRun(items, limits).seen == ListRun(items, limits).seen
  {
    if items != [] {
      MemoryImpliesList(items[..|items| - 1], limits);
    }
  }

  /**
   With directories the listing is stricter by exactly the entry count: it succeeds if and only if
   unpacking to memory does and all entries, directories included, fit the limit.
   */
  lemma ListOkIff(items: seq<Item>, limits: Limits)
    requires SizesReadable(items) && FaultsPropagate(items)
    ensures ListResult(Items(items), limits).Ok? <==>
      MemoryResult(Items(items), limits).Ok? && |items| <= limits.maxEntries
  {
    if ListRun(items, limits).failure.None? {
      ListCountsEverything(items, limits);
      ListIsExact(items, limits);
      forall k | 0 <= k < |items| ensures items[k].Next? && items[k].entry.fault.None? {
        assert k + 1 < |items| ==> items[k + 1].Next?;
      }
      ListImpliesMemory(items, limits);
    }
    if MemRun(items, limits).failure.None? && |items| <= limits.maxEntries {
      MemoryImpliesList(items, limits);
    }
  }

  // ----- what the entry limit does not bound -----

  function DirectoryItem(name: string): Item {
    Next(Entry(name, Directory, Some(0), [], None))
  }

  /** `n` directory entries named `a`, `aa`, `aaa` and so on. */
  function DirectoryItems(n: nat): (items: seq<Item>)
    ensures |items| == n && SizesReadable(items) && FaultsPropagate(items)
  {
    seq(n, i requires 0 <= i < n => DirectoryItem(seq(i + 1, _ => 'a')))
  }

  lemma DirectoryIsFree(st: Reading<PayloadFile>, name: string, limits: Limits)
    requires st.failure.None? && |st.out| < limits.maxEntries && SafeName(name) && name !in st.seen
    ensures MemStep(st, DirectoryItem(name), limits) == st.(seen := st.seen + {name})
  {
    hide CanonicalName;
    SafeNameIsCanonical(name, limits);
  }

  /** Any number of directory entries is accepted as soon as one file would be. */
  lemma {:induction false} DirectoriesAreNotCounted(n: nat, limits: Limits)
    requires limits.maxEntries > 0
    ensures
      var st := MemRun(DirectoryItems(n), limits);
      st.failure.None? && st.out == [] && forall name :: name in st.seen ==> |name| <= n
  {
    hide MemStep;
    if n > 0 {
      DirectoriesAreNotCounted(n - 1, limits);
      assert DirectoryItems(n)[..n - 1] == DirectoryItems(n - 1);
      DirectoryIsFree(MemRun(DirectoryItems(n - 1), limits), seq(n, _ => 'a'), limits);
    }
  }

  /**
   Unpacking bounds the number of tar entries by `max_entries` only when that is zero: any other limit lets an
   archive of more entries through, because directories are not counted.
   */
  lemma EntriesBoundedIff(limits: Limits)
    ensures (forall items :: MemRun(items, limits).failure.None? ==> |items| <= limits.maxEntries)
      <==> limits.maxEntries == 0
  {
    hide MemStep;
    if limits.maxEntries > 0 {
      DirectoriesAreNotCounted(limits.maxEntries + 1, limits);
      assert |DirectoryItems(limits.maxEntries + 1)| > limits.maxEntries;
    } else {
      forall items | MemRun(items, limits).failure.None? ensures |items| <= limits.maxEntries {
        if items != [] {
          MemStepEffect(MemRun(items[..|items| - 1], limits), items[|items| - 1], limits);
        }
      }
    }
  }

  // ----- verdicts, from the stream alone -----

  /** What a fault of the inflating stream is reported as. */
  function Reported(fault: Option<Fault>): Option<Error> {
    match fault
    case Some(PastCeiling) => Some(LimitExceeded(Inflation))
    case Some(Unreadable) => Some(Io)
    case None => None
  }

  /** An earlier entry has the same canonical name. */
  predicate Repeated(items: seq<Item>, n: nat, limits: Limits)
    requires n < |items| && items[n].Next?
  {
    exists k :: 0 <= k < n && items[k].Next?
      && CanonicalName(items[k].entry.path, limits) == CanonicalName(items[n].entry.path, limits)
  }

  /** What every reader objects to in an entry, having kept `count` before it. */
  function Objection(items: seq<Item>, n: nat, count: nat, limits: Limits): Option<Error>
    requires n < |items| && items[n].Next?
  {
    var e := items[n].entry;
    if count >= limits.maxEntries then Some(LimitExceeded(TooManyEntries))
    else if (e.kind == SymbolicLink || e.kind == HardLink) && !limits.allowSymlinks
    then Some(UnsafeArchiveEntry(LinkEntry))
    else if e.kind == OtherKind then Some(UnsafeArchiveEntry(UnsupportedType))
    else
      match CanonicalName(e.path, limits)
      case Err(error) => Some(error)
      case Ok(_) => if Repeated(items, n, limits) then Some(UnsafeArchiveEntry(DuplicateName)) else None
  }

  /** The names met so far, as the stream has them. */
  ghost predicate Met(seen: set<string>, items: seq<Item>, n: nat, limits: Limits)
    requires n <= |items|
  {
    forall name :: name in seen <==>
      exists k :: 0 <= k < n && items[k].Next? && CanonicalName(items[k].entry.path, limits) == Ok(name)
  }

  lemma MetSnoc(seen: set<string>, items: seq<Item>, n: nat, limits: Limits)
    requires n < |items| && items[n].Next? && CanonicalName(items[n].entry.path, limits).Ok?
    requires Met(seen, items, n, limits)
    ensures Met(seen + {CanonicalName(items[n].entry.path, limits).value}, items, n + 1, limits)
  {
    hide CanonicalName;
    var name := CanonicalName(items[n].entry.path, limits).value;
    forall x | x in seen + {name}
      ensures exists k :: 0 <= k < n + 1 && items[k].Next? && CanonicalName(items[k].entry.path, limits) == Ok(x)
    {
      if x in seen {
        var k :| 0 <= k < n && items[k].Next? && CanonicalName(items[k].entry.path, limits) == Ok(x);
        assert 0 <= k < n + 1;
      } else {
        assert items[n].Next? && CanonicalName(items[n].entry.path, limits) == Ok(x);
      }
    }
  }

  /** The shared checks, made against what was kept and seen, are the objections told from the stream. */
  lemma AdmitIsObjection(items: seq<Item>, n: nat, count: nat, seen: set<string>, limits: Limits)
    requires n < |items| && items[n].Next? && Met(seen, items, n, limits)
    ensures
      var e := items[n].entry;
      Admit(count, seen, e, limits) ==
        match Objection(items, n, count, limits) {
          case Some(error) => Err(error)
          case None => CanonicalName(e.path, limits)
        }
    ensures Objection(items, n, count, limits).None? ==> CanonicalName(items[n].entry.path, limits).Ok?
  {
    hide CanonicalName;
  }

  function OrElse(a: Option<Error>, b: Option<Error>): Option<Error> {
    if a.Some? then a else b
  }

  /** Unpacking to memory counts files only, and reads the contents of what is not a directory. */
  function MemoryComplaint(items: seq<Item>, n: nat, limits: Limits): Option<Error>
    requires n < |items|
  {
    match items[n]
    case Failed(fault) => Reported(Some(fault))
    case Next(e) =>
      OrElse(Objection(items, n, |FileEntries(items[..n])|, limits),
             if e.kind == Directory then None else Reported(e.fault))
  }

  /** Listing counts everything and looks at sizes, never at contents. */
  function ListComplaint(items: seq<Item>, n: nat, limits: Limits): Option<Error>
    requires n < |items|
  {
    match items[n]
    case Failed(fault) => Reported(Some(fault))
    case Next(e) => OrElse(Objection(items, n, n, limits), if e.size.None? then Some(Io) else None)
  }

  function MemoryComplaints(items: seq<Item>, limits: Limits): (cs: seq<Option<Error>>)
    ensures |cs| == |items|
  {
    seq(|items|, n requires 0 <= n < |items| => MemoryComplaint(items, n, limits))
  }

  function ListComplaints(items: seq<Item>, limits: Limits): (cs: seq<Option<Error>>)
    ensures |cs| == |items|
  {
    seq(|items|, n requires 0 <= n < |items| => ListComplaint(items, n, limits))
  }

  lemma {:induction false} MemoryMeets(items: seq<Item>, limits: Limits, n: nat)
    requires n <= |items| && MemRun(items[..n], limits).failure.None?
    ensures Met(MemRun(items[..n], limits).seen, items, n, limits)
    ensures |MemRun(items[..n], limits).out| == |FileEntries(items[..n])|
  {
    hide CanonicalName, MemStep;
    if n > 0 {
      assert items[..n][..n - 1] == items[..n - 1];
      MemStepEffect(MemRun(items[..n - 1], limits), items[n - 1], limits);
      MemoryMeets(items, limits, n - 1);
      MetSnoc(MemRun(items[..n - 1], limits).seen, items, n - 1, limits);
    }
  }

  lemma MemoryStepExplained(items: seq<Item>, limits: Limits, n: nat)
    requires n < |items| && MemRun(items[..n], limits).failure.None?
    ensures MemRun(items[..n + 1], limits).failure == MemoryComplaint(items, n, limits)
  {
    hide CanonicalName, Objection, Admit;
    var st := MemRun(items[..n], limits);
    assert items[..n + 1][..n] == items[..n];
    MemoryMeets(items, limits, n);
    if items[n].Next? {
      AdmitIsObjection(items, n, |st.out|, st.seen, limits);
    }
  }

  lemma {:induction false} MemoryPrefixExplained(items: seq<Item>, limits: Limits, n: nat)
    requires n <= |items|
    ensures MemRun(items[..n], limits).failure == FirstOf(MemoryComplaints(items, limits)[..n])
  {
    hide MemStep, MemoryComplaint;
    if n > 0 {
      MemoryPrefixExplained(items, limits, n - 1);
      FirstOfSnoc(MemoryComplaints(items, limits), n - 1);
      if MemRun(items[..n - 1], limits).failure.None? {
        MemoryStepExplained(items, limits, n - 1);
      } else {
        assert items[..n][..n - 1] == items[..n - 1];
        MemFailureSticks(items[..n], limits, n - 1);
      }
    }
  }

  /**
   Unpacking to memory succeeds exactly when there is nothing to complain about in the stream; otherwise the first
   complaint is the error, whatever comes later.
   */
  lemma MemoryExplained(s: Stream, limits: Limits)
    ensures
      var r := MemoryResult(s, limits);
      match s {
        case Unstartable(fault) => r.Err? && Some(r.error) == Reported(Some(fault))
        case Items(items) =>
          match FirstOf(MemoryComplaints(items, limits)) {
            case Some(error) => r == Err(error)
            case None => r.Ok?
          }
      }
  {
    hide MemRun, MemoryComplaints, FirstOf;
    if s.Items? {
      MemoryPrefixExplained(s.items, limits, |s.items|);
      assert s.items[..|s.items|] == s.items;
      assert MemoryComplaints(s.items, limits)[..|s.items|] == MemoryComplaints(s.items, limits);
    }
  }

  lemma ListStepEffect(st: Reading<ArchiveEntry>, item: Item, limits: Limits)
    requires ListStep(st, item, limits).failure.None?
    ensures st.failure.None? && item.Next? && CanonicalName(item.entry.path, limits).Ok?
    ensures
      var st', name := ListStep(st, item, limits), CanonicalName(item.entry.path, limits).value;
      st'.seen == st.seen + {name} && |st'.out| == |st.out| + 1
  {
    hide CanonicalName;
  }

  lemma {:induction false} ListMeets(items: seq<Item>, limits: Limits, n: nat)
    requires n <= |items| && ListRun(items[..n], limits).failure.None?
    ensures Met(ListRun(items[..n], limits).seen, items, n, limits) && |ListRun(items[..n], limits).out| == n
  {
    hide CanonicalName, ListStep;
    if n > 0 {
      assert items[..n][..n - 1] == items[..n - 1];
      ListStepEffect(ListRun(items[..n - 1], limits), items[n - 1], limits);
      ListMeets(items, limits, n - 1);
      MetSnoc(ListRun(items[..n - 1], limits).seen, items, n - 1, limits);
    }
  }

  lemma ListStepExplained(items: seq<Item>, limits: Limits, n: nat)
    requires n < |items| && ListRun(items[..n], limits).failure.None?
    ensures ListRun(items[..n + 1], limits).failure == ListComplaint(items, n, limits)
  {
    hide CanonicalName, Objection, Admit;
    var st := ListRun(items[..n], limits);
    assert items[..n + 1][..n] == items[..n];
    ListMeets(items, limits, n);
    if items[n].Next? {
      AdmitIsObjection(items, n, |st.out|, st.seen, limits);
    }
  }

  lemma {:induction false} ListPrefixExplained(items: seq<Item>, limits: Limits, n: nat)
    requires n <= |items|
    ensures ListRun(items[..n], limits).failure == FirstOf(ListComplaints(items, limits)[..n])
  {
    hide ListStep, ListComplaint;
    if n > 0 {
      ListPrefixExplained(items, limits, n - 1);
      FirstOfSnoc(ListComplaints(items, limits), n - 1);
      if ListRun(items[..n - 1], limits).failure.None? {
        ListStepExplained(items, limits, n - 1);
      } else {
        assert items[..n][..n - 1] == items[..n - 1];
        ListFailureSticks(items[..n], limits, n - 1);
      }
    }
  }

  /** The same for listing, with its own count and its own look at sizes. */
  lemma ListExplained(s: Stream, limits: Limits)
    ensures
      var r := ListResult(s, limits);
      match s {
        case Unstartable(fault) => r.Err? && Some(r.error) == Reported(Some(fault))
        case Items(items) =>
          match FirstOf(ListComplaints(items, limits)) {
            case Some(error) => r == Err(error)
            case None => r.Ok?
          }
      }
  {
    hide ListRun, ListComplaints, FirstOf;
    if s.Items? {
      ListPrefixExplained(s.items, limits, |s.items|);
      assert s.items[..|s.items|] == s.items;
      assert ListComplaints(s.items, limits)[..|s.items|] == ListComplaints(s.items, limits);
    }
  }

  /** Only regular files and directories, and links where those are allowed. */
  predicate SafeKinds(items: seq<Item>, limits: Limits) {
    forall n :: 0 <= n < |items| ==>
      && items[n].Next?
      && match items[n].entry.kind {
           case Regular => true
           case Directory => true
           case SymbolicLink => limits.allowSymlinks
           case HardLink => limits.allowSymlinks
           case OtherKind => false
         }
  }

  /** No link gets past either reader unless links are allowed; nothing but files, directories and links ever does. */
  lemma OnlySafeKinds(items: seq<Item>, limits: Limits)
    requires MemoryResult(Items(items), limits).Ok? || ListResult(Items(items), limits).Ok?
    ensures SafeKinds(items, limits)
  {
    hide MemRun, ListRun, FirstOf, CanonicalName;
    MemoryExplained(Items(items), limits);
    ListExplained(Items(items), limits);
    forall n | 0 <= n < |items|
      ensures items[n].Next? && !items[n].entry.kind.OtherKind?
      ensures items[n].entry.kind.SymbolicLink? || items[n].entry.kind.HardLink? ==> limits.allowSymlinks
    {
      assert MemoryComplaints(items, limits)[n] == MemoryComplaint(items, n, limits);
      assert ListComplaints(items, limits)[n] == ListComplaint(items, n, limits);
    }
  }
}
