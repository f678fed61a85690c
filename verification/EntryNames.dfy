/** Canonical archive entry names: `safe_relative_path` of crates/umbrik-core/src/payload.rs on Unix paths. */
module EntryNames {
  import opened Basics
  import opened LimitsModel
  import opened Splitting

  datatype Component = RootDir | CurDir | ParentDir | Normal(part: string)

  predicate IsAbsolute(name: string) {
    name != "" && name[0] == '/'
  }

  /** The components of path segments; a leading `.` of a relative path is the only one kept. */
  function SegmentComponents(segments: seq<string>, leading: bool): seq<Component> {
    if segments == [] then []
    else
      var rest := SegmentComponents(segments[1..], false);
      if segments[0] == "" then rest
      else if segments[0] == "." then (if leading then [CurDir] else []) + rest
      else if segments[0] == ".." then [ParentDir] + rest
      else [Normal(segments[0])] + rest
  }

  /** `Path::components` on Unix. */
  function Components(name: string): seq<Component> {
    if IsAbsolute(name) then [RootDir] + SegmentComponents(Split(name, '/'), false)
    else SegmentComponents(Split(name, '/'), true)
  }

  function NormalParts(components: seq<Component>): seq<string> {
    if components == [] then []
    else
      var before := NormalParts(components[..|components| - 1]);
      var last := components[|components| - 1];
      if last.Normal? then before + [last.part] else before
  }

  /** The verdict on an entry name. */
  function CanonicalName(name: string, limits: Limits): Result<string> {
    if name == "" then Err(UnsafeArchiveEntry(EmptyName))
    else if IsAbsolute(name) && !limits.allowAbsolutePaths then Err(UnsafeArchiveEntry(AbsolutePath))
    else if ParentDir in Components(name) then Err(UnsafeArchiveEntry(ParentComponent))
    else
      var parts := NormalParts(Components(name));
      if parts == [] then Err(UnsafeArchiveEntry(NoComponents))
      else if |parts| != 1 then Err(UnsafeArchiveEntry(DirectoryComponent))
      else if parts[0] != "" && parts[0][0] == '.' then Err(UnsafeArchiveEntry(DotPrefixed))
      else Ok(parts[0])
  }

  /** The component loop: ordinary parts are pushed, going up is refused. */
  method PushParts(components: seq<Component>, allowAbsolute: bool) returns (r: Result<seq<string>>)
    requires RootDir in components ==> allowAbsolute
    ensures r ==
      if ParentDir in components then Err(UnsafeArchiveEntry(ParentComponent)) else Ok(NormalParts(components))
  {
    var safe: seq<string> := [];
    for i := 0 to |components|
      invariant safe == NormalParts(components[..i])
      invariant ParentDir !in components[..i]
    {
      assert components[..i + 1][..i] == components[..i];
      match components[i]
      case Normal(part) => safe := safe + [part];
      case CurDir =>
      case ParentDir =>
        return Err(UnsafeArchiveEntry(ParentComponent));
      case RootDir =>
        if !allowAbsolute {
          return Err(UnsafeArchiveEntry(RootComponent));
        }
    }
    assert components[..|components|] == components;
    return Ok(safe);
  }

  /** `safe_relative_path`. */
  method SafeRelativePath(name: string, limits: Limits) returns (r: Result<string>)
    ensures r == CanonicalName(name, limits)
  {
    if name == "" {
      return Err(UnsafeArchiveEntry(EmptyName));
    }
    if IsAbsolute(name) && !limits.allowAbsolutePaths {
      return Err(UnsafeArchiveEntry(AbsolutePath));
    }
    RootOnlyIfAbsolute(name);
    var safe :- PushParts(Components(name), limits.allowAbsolutePaths);
    if safe == [] {
      return Err(UnsafeArchiveEntry(NoComponents));
    }
    if |safe| != 1 {
      return Err(UnsafeArchiveEntry(DirectoryComponent));
    }
    if safe[0] != "" && safe[0][0] == '.' {
      return Err(UnsafeArchiveEntry(DotPrefixed));
    }
    return Ok(safe[0]);
  }

  lemma {:induction false} NoRootInSegments(segments: seq<string>, leading: bool)
    ensures RootDir !in SegmentComponents(segments, leading)
  {
    if segments != [] {
      NoRootInSegments(segments[1..], false);
    }
  }

  lemma RootOnlyIfAbsolute(name: string)
    ensures RootDir in Components(name) <==> IsAbsolute(name)
  {
    NoRootInSegments(Split(name, '/'), true);
    NoRootInSegments(Split(name, '/'), false);
  }

  // ----- what acceptance means -----

  /** Segments that are not empty and not a lone dot. */
  function Meaningful(segments: seq<string>): seq<string> {
    if segments == [] then []
    else if segments[0] == "" || segments[0] == "." then Meaningful(segments[1..])
    else [segments[0]] + Meaningful(segments[1..])
  }

  lemma {:induction false} NormalPartsConcat(a: seq<Component>, b: seq<Component>)
    ensures NormalParts(a + b) == NormalParts(a) + NormalParts(b)
  {
    if b == [] {
      assert a + b == a;
    } else {
      NormalPartsConcat(a, b[..|b| - 1]);
      assert (a + b)[..|a + b| - 1] == a + b[..|b| - 1];
    }
  }

  lemma NormalPartsCons(c: Component, rest: seq<Component>)
    ensures NormalParts([c] + rest) == (if c.Normal? then [c.part] else []) + NormalParts(rest)
  {
    NormalPartsConcat([c], rest);
    assert [c][..0] == [];
    assert NormalParts([c]) == (if c.Normal? then [c.part] else []);
  }

  lemma {:induction false} SegmentsAndComponents(segments: seq<string>, leading: bool)
    ensures ParentDir in SegmentComponents(segments, leading) <==> ".." in segments
    ensures ".." !in segments ==> NormalParts(SegmentComponents(segments, leading)) == Meaningful(segments)
  {
    if segments != [] {
      SegmentsAndComponents(segments[1..], false);
      var rest := SegmentComponents(segments[1..], false);
      assert segments == [segments[0]] + segments[1..];
      assert [] + rest == rest;
      NormalPartsCons(CurDir, rest);
      NormalPartsCons(Normal(segments[0]), rest);
    }
  }

  /** A single ordinary component that is not hidden. */
  predicate SafeName(name: string) {
    name != "" && name[0] != '.' && '/' !in name
  }

  /**
   A name is accepted as `n` exactly when, read segment by segment, it is not absolute (unless
   allowed), never goes up, and names the one ordinary unhidden component `n`.
   */
  lemma CanonicalNameIff(name: string, limits: Limits, n: string)
    ensures CanonicalName(name, limits) == Ok(n) <==>
      && (IsAbsolute(name) ==> limits.allowAbsolutePaths)
      && ".." !in Split(name, '/')
      && Meaningful(Split(name, '/')) == [n]
      && n != "" && n[0] != '.'
    ensures CanonicalName(name, limits) == Ok(n) ==> SafeName(n)
  {
    var segments := Split(name, '/');
    SegmentsAndComponents(segments, true);
    SegmentsAndComponents(segments, false);
    NormalPartsCons(RootDir, SegmentComponents(segments, false));
    PartsAvoidSeparator(name, '/');
    MeaningfulAreSegments(segments);
    if name == "" {
      assert segments == [""];
      assert segments[1..] == [];
      assert Meaningful(segments) == [];
    }
    if Meaningful(segments) == [n] {
      assert n in Meaningful(segments);
    }
  }

  lemma {:induction false} MeaningfulAreSegments(segments: seq<string>)
    ensures forall p :: p in Meaningful(segments) ==> p in segments && p != ""
  {
    if segments != [] {
      MeaningfulAreSegments(segments[1..]);
    }
  }

  /**
   Which refusal a name gets, segment by segment, in the order the checks are made. Together with acceptance this is
   the whole verdict; the refusal of a root component is never reached.
   */
  lemma CanonicalNameRefusals(name: string, limits: Limits)
    ensures
      var segments := Split(name, '/');
      var named := Meaningful(segments);
      CanonicalName(name, limits) ==
        if name == "" then Err(UnsafeArchiveEntry(EmptyName))
        else if name[0] == '/' && !limits.allowAbsolutePaths then Err(UnsafeArchiveEntry(AbsolutePath))
        else if ".." in segments then Err(UnsafeArchiveEntry(ParentComponent))
        else if named == [] then Err(UnsafeArchiveEntry(NoComponents))
        else if |named| > 1 then Err(UnsafeArchiveEntry(DirectoryComponent))
        else if "." <= named[0] then Err(UnsafeArchiveEntry(DotPrefixed))
        else Ok(named[0])
  {
    var segments := Split(name, '/');
    SegmentsAndComponents(segments, true);
    SegmentsAndComponents(segments, false);
    NormalPartsCons(RootDir, SegmentComponents(segments, false));
    assert [] + Meaningful(segments) == Meaningful(segments);
    var named := Meaningful(segments);
    assert named != [] ==> ("." <= named[0] <==> named[0] != "" && named[0][0] == '.');
  }

  /** Accepted names are exactly the fixed points: canonicalising twice changes nothing. */
  lemma SafeNameIsCanonical(n: string, limits: Limits)
    ensures SafeName(n) <==> CanonicalName(n, limits) == Ok(n)
  {
    CanonicalNameIff(n, limits, n);
    if SafeName(n) {
      SplitWhole(n, '/');
      assert [n][1..] == [];
      assert Meaningful([n]) == [n] + Meaningful([n][1..]) by { assert n != "" && n != "."; }
    }
  }

  /** What is accepted under some limits keeps its name under any that allow as much. */
  lemma CanonicalNameMonotone(name: string, limits: Limits, limits': Limits, n: string)
    requires CanonicalName(name, limits) == Ok(n)
    requires limits.allowAbsolutePaths ==> limits'.allowAbsolutePaths
    ensures CanonicalName(name, limits') == Ok(n)
  {
  }
}
