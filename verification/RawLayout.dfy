/** `validate_raw_layout` and `materialize_raw_layout`. */
module RawLayout {
  import opened Prelude
  import opened Text
  import opened RawEncodings
  import opened Ranges
  import opened Layouts

  datatype Defect =
    | SelectorPlaced | SelectorWithoutConstant | UnknownConstant
    | InputPlaced
    | WritableWithConstant | MissingOffset | MissingEncoding
    | ZeroPlacements | StrideTooSmall | StrideOverflow | OffsetOverflow

  datatype LayoutError =
    | NotRawLayout
    | EmptyPath
    | DuplicatePath(path: string)
    | BadProperty(path: string, defect: Defect)
    | Overlap(path: string, other: string)
    | UnknownName(name: string)
    | NotWritable(name: string)
    | Unencodable(name: string, cause: EncodeError)
    | PastTheEnd(name: string)

  /** What a reported defect says about the property it names. */
  ghost predicate Violates(p: Property, constants: set<string>, d: Defect) {
    var selector, input := p.kind.ConstantRef?, p.kind.Input?;
    match d
    case SelectorPlaced => selector && (p.offset.Some? || p.encoding.Some?)
    case SelectorWithoutConstant => selector && p.offset.None? && p.encoding.None? && p.constant.None?
    case UnknownConstant =>
      selector && p.offset.None? && p.encoding.None? && p.constant.Some? && p.constant.value !in constants
    case InputPlaced => input && (p.offset.Some? || p.encoding.Some?)
    case WritableWithConstant => !selector && !input && p.constant.Some?
    case MissingOffset => !selector && !input && p.constant.None? && p.offset.None?
    case MissingEncoding => !selector && !input && p.constant.None? && p.offset.Some? && p.encoding.None?
    case ZeroPlacements => p.Placed() && p.constant.None? && p.Count() == 0
    case StrideTooSmall =>
      p.Placed() && p.constant.None? && p.Count() > 1 && p.encoding.value.Stride() < p.encoding.value.Width()
    case StrideOverflow => p.Placed() && exists i: nat {:trigger p.End(i)} ::
      i < p.Count() && i * p.encoding.value.Stride() > USIZE_MAX
    case OffsetOverflow => p.Placed() && exists i: nat :: i < p.Count() && p.End(i) > USIZE_MAX
  }

  /** The paths before the `n`-th property. */
  ghost function PathsBefore(properties: seq<Property>, n: nat): set<string>
    requires n <= |properties|
  {
    set p | 0 <= p < n :: properties[p].path
  }

  /** Every property before the `n`-th is sound on its own. */
  ghost predicate SoundBefore(t: Template, n: nat) {
    && n <= |t.properties|
    && DistinctPaths(t.properties[..n])
    && forall p :: 0 <= p < n ==> WellFormed(t.properties[p], t.constants)
  }

  /** The fact about the template that a validation error reports; it is about the first property that has one, and
      about two of them only when none has. */
  ghost predicate Justified(t: Template, e: LayoutError) {
    match e
    case NotRawLayout => !t.rawLayout
    case Overlap(path, other) =>
      t.rawLayout && SoundBefore(t, |t.properties|) && Clash(Occupied(t.properties), path, other)
    case _ => t.rawLayout && exists n: nat {:trigger SoundBefore(t, n)} ::
      && n < |t.properties| && SoundBefore(t, n)
      && RefusedFor(t.properties[n], t.constants, PathsBefore(t.properties, n), e)
  }

  /** The checks on one property before its placements are computed. */
  method CheckDeclaration(p: Property, constants: set<string>) returns (defect: Option<Defect>)
    ensures defect.Some? ==> Violates(p, constants, defect.value)
    ensures defect.None? && Trim(p.path) != []
      && (p.Placed() ==> forall i: nat :: i < p.Count() ==> p.End(i) <= USIZE_MAX)
      ==> WellFormed(p, constants)
    ensures defect.None? ==> (p.Placed() <==> !p.kind.ConstantRef? && !p.kind.Input?)
  {
    if p.kind.ConstantRef? {
      if p.offset.Some? || p.encoding.Some? { return Some(SelectorPlaced); }
      if p.constant.None? { return Some(SelectorWithoutConstant); }
      return if p.constant.value in constants then None else Some(UnknownConstant);
    }
    if p.kind.Input? {
      return if p.offset.Some? || p.encoding.Some? then Some(InputPlaced) else None;
    }
    if p.constant.Some? { return Some(WritableWithConstant); }
    if p.offset.None? { return Some(MissingOffset); }
    if p.encoding.None? { return Some(MissingEncoding); }
    var count, stride := p.encoding.value.Count(), p.encoding.value.Stride();
    if count == 0 { return Some(ZeroPlacements); }
    if count > 1 && stride < p.encoding.value.Width() { return Some(StrideTooSmall); }
    return None;
  }

  /** Pushes every placement of `p`, refusing the first whose arithmetic leaves the machine range. */
  method Place(p: Property, occupied: seq<Range>, constants: set<string>) returns (r: Result<seq<Range>, Defect>)
    requires p.Placed()
    ensures r.Ok? <==> forall i: nat :: i < p.Count() ==> p.End(i) <= USIZE_MAX
    ensures r.Ok? ==> r.value == occupied + RangesOf(p, p.Count())
    ensures r.Err? ==> Violates(p, constants, r.error)
  {
    var pushed := occupied;
    var stride := p.encoding.value.Stride();
    for index := 0 to p.Count()
      invariant pushed == occupied + RangesOf(p, index)
      invariant forall i: nat :: i < index ==> p.End(i) <= USIZE_MAX
    {
      if index * stride > USIZE_MAX {
        assert p.End(index) > USIZE_MAX;
        return Err(StrideOverflow);
      }
      var start := p.offset.value + index * stride;
      var end := start + p.encoding.value.Width();
      if start > USIZE_MAX || end > USIZE_MAX {
        assert p.End(index) > USIZE_MAX;
        return Err(OffsetOverflow);
      }
      assert RangesOf(p, index + 1) == RangesOf(p, index) + [Range(start, end, p.path)];
      pushed := pushed + [Range(start, end, p.path)];
    }
    return Ok(pushed);
  }

  ghost predicate RefusedFor(p: Property, constants: set<string>, paths: set<string>, e: LayoutError) {
    match e
    case EmptyPath => Trim(p.path) == []
    case DuplicatePath(path) => path == p.path && path in paths && Trim(p.path) != []
    case BadProperty(path, defect) =>
      path == p.path && path !in paths && Trim(p.path) != [] && Violates(p, constants, defect)
    case _ => false
  }

  /** The checks of one turn of the validator's loop: its path is new, its declaration sound, its ranges in bounds. */
  method CheckProperty(p: Property, constants: set<string>, paths: set<string>, occupied: seq<Range>)
    returns (r: Result<seq<Range>, LayoutError>)
    ensures r.Ok? ==> p.path !in paths && WellFormed(p, constants) && r.value == occupied + AllRangesOf(p)
    ensures r.Err? ==> RefusedFor(p, constants, paths, r.error)
  {
    if Trim(p.path) == [] { return Err(EmptyPath); }
    if p.path in paths { return Err(DuplicatePath(p.path)); }
    var defect := CheckDeclaration(p, constants);
    if defect.Some? { return Err(BadProperty(p.path, defect.value)); }
    if !p.Placed() { return Ok(occupied); }
    var placed := Place(p, occupied, constants);
    return match placed case Ok(ranges) => Ok(ranges) case Err(d) => Err(BadProperty(p.path, d));
  }

  lemma ViolationIsFatal(p: Property, constants: set<string>, d: Defect)
    requires Violates(p, constants, d)
    ensures !WellFormed(p, constants)
  {
    if d == StrideOverflow {
      var i: nat :| i < p.Count() && i * p.encoding.value.Stride() > USIZE_MAX;
      assert p.End(i) > USIZE_MAX;
    }
  }

  /** What the validator knows after `n` properties. */
  ghost predicate CheckedPrefix(t: Template, n: nat, paths: set<string>) {
    t.rawLayout && SoundBefore(t, n) && paths == PathsBefore(t.properties, n)
  }

  lemma PrefixStep(t: Template, n: nat, paths: set<string>)
    requires CheckedPrefix(t, n, paths) && n < |t.properties|
    requires t.properties[n].path !in paths && WellFormed(t.properties[n], t.constants)
    ensures CheckedPrefix(t, n + 1, paths + {t.properties[n].path})
  {
    assert t.properties[..n + 1] == t.properties[..n] + [t.properties[n]];
  }

  lemma RefusalJustified(t: Template, n: nat, paths: set<string>, e: LayoutError)
    requires CheckedPrefix(t, n, paths) && n < |t.properties|
    requires RefusedFor(t.properties[n], t.constants, paths, e)
    ensures !ValidLayout(t) && Justified(t, e)
  {
    assert SoundBefore(t, n);
    if e.BadProperty? {
      ViolationIsFatal(t.properties[n], t.constants, e.defect);
    } else if e.DuplicatePath? {
      var p :| 0 <= p < n && t.properties[p].path == e.path;
    }
  }

  lemma OccupiedStep(properties: seq<Property>, n: nat)
    requires n < |properties|
    ensures Occupied(properties[..n + 1]) == Occupied(properties[..n]) + AllRangesOf(properties[n])
  {
    assert properties[..n + 1][..n] == properties[..n];
  }

  /** The validator's loop over the properties. */
  method CheckProperties(t: Template) returns (r: Result<seq<Range>, LayoutError>)
    requires t.rawLayout
    ensures r.Ok? ==> SoundBefore(t, |t.properties|) && r.value == Occupied(t.properties)
    ensures r.Err? ==> !ValidLayout(t) && Justified(t, r.error)
  {
    var paths: set<string> := {};
    var occupied: seq<Range> := [];
    for n := 0 to |t.properties|
      invariant CheckedPrefix(t, n, paths)
      invariant occupied == Occupied(t.properties[..n])
    {
      var checked := CheckProperty(t.properties[n], t.constants, paths, occupied);
      if checked.Err? {
        RefusalJustified(t, n, paths, checked.error);
        return Err(checked.error);
      }
      PrefixStep(t, n, paths);
      paths := paths + {t.properties[n].path};
      OccupiedStep(t.properties, n);
      occupied := checked.value;
    }
    assert t.properties[..|t.properties|] == t.properties;
    return Ok(occupied);
  }

  lemma SoundIsValid(t: Template)
    requires t.rawLayout && SoundBefore(t, |t.properties|)
    ensures ValidLayout(t) <==> PlacementsApart(t.properties)
  {
    assert t.properties[..|t.properties|] == t.properties;
  }

  /** Accepts exactly the valid layouts, and an error always reports a fact about the template. */
  method ValidateRawLayout(t: Template) returns (r: Result<(), LayoutError>)
    ensures r.Ok? <==> ValidLayout(t)
    ensures r.Err? ==> Justified(t, r.error)
  {
    if !t.rawLayout { return Err(NotRawLayout); }
    var checked := CheckProperties(t);
    if checked.Err? { return Err(checked.error); }
    SoundIsValid(t);
    r := CheckNeighbours(t, checked.value);
  }

  lemma NeighboursTell(t: Template, occupied: seq<Range>, sorted: seq<Range>)
    requires occupied == Occupied(t.properties) && multiset(sorted) == multiset(occupied) && SortedByStart(sorted)
    ensures NeighboursApart(sorted) <==> PlacementsApart(t.properties)
    ensures NonEmpty(sorted)
  {
    OccupiedNonEmpty(t.properties);
    OccupiedExact(t.properties);
    NeighbourCheckExact(occupied, sorted);
    NonEmptyPermutation(occupied, sorted);
  }

  /** The neighbour scan over the sorted ranges. */
  method CheckNeighbours(t: Template, occupied: seq<Range>) returns (r: Result<(), LayoutError>)
    requires occupied == Occupied(t.properties)
    ensures r.Ok? <==> PlacementsApart(t.properties)
    ensures r.Err? ==> r.error.Overlap? && Clash(Occupied(t.properties), r.error.path, r.error.other)
  {
    var sorted := SortUnstableByStart(occupied);
    NeighboursTell(t, occupied, sorted);
    var found := FirstMeeting(sorted);
    if found.None? { return Ok(()); }
    var i := found.value;
    PermutationClash(occupied, sorted, i, i + 1);
    return Err(Overlap(sorted[i].path, sorted[i + 1].path));
  }
}
