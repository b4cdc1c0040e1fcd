/** Raw byte layouts: templates, their byte placements, and what a valid layout is. */
module Layouts {
  import opened Prelude
  import opened Text
  import opened RawEncodings
  import opened Ranges

  datatype PropertyKind = Field | ConstantRef | DynamicRef(source: string) | Input(valueType: string)

  datatype Property = Property(
    path: string,
    kind: PropertyKind,
    constant: Option<string>,
    offset: Option<usize>,
    encoding: Option<RawEncoding>
  ) {
    /** Whether the property says where its bytes go. */
    predicate Placed() {
      offset.Some? && encoding.Some?
    }

    function Count(): nat {
      if Placed() then encoding.value.Count() else 0
    }

    function Start(i: nat): nat
      requires Placed()
    {
      offset.value + i * encoding.value.Stride()
    }

    function End(i: nat): nat
      requires Placed()
    {
      Start(i) + encoding.value.Width()
    }

    function RangeAt(i: nat): Range
      requires Placed()
    {
      Range(Start(i), End(i), path)
    }

    /** Byte `x` belongs to one of the property's placements. */
    ghost predicate Covers(x: int) {
      Placed() && exists i: nat :: i < Count() && Start(i) <= x < End(i)
    }
  }

  datatype Template = Template(rawLayout: bool, properties: seq<Property>, constants: set<string>)

  /** The demands on one property: selectors and inputs write nothing, everything else is placed in bounds. */
  ghost predicate WellFormed(p: Property, constants: set<string>) {
    && Trim(p.path) != []
    && match p.kind
       case ConstantRef => p.offset.None? && p.encoding.None? && p.constant.Some? && p.constant.value in constants
       case Input(_) => p.offset.None? && p.encoding.None?
       case _ =>
         && p.constant.None? && p.Placed() && p.Count() > 0
         && (p.Count() > 1 ==> p.encoding.value.Width() <= p.encoding.value.Stride())
         && forall i: nat :: i < p.Count() ==> p.End(i) <= USIZE_MAX
  }

  ghost predicate DistinctPaths(properties: seq<Property>) {
    forall p, q :: 0 <= p < q < |properties| ==> properties[p].path != properties[q].path
  }

  /** No byte belongs to two placements, be they of two properties or two steps of one. */
  ghost predicate PlacementsApart(properties: seq<Property>) {
    forall p, q, i: nat, j: nat ::
      0 <= p <= q < |properties| && i < properties[p].Count() && j < properties[q].Count() && (p < q || i < j) ==>
        Apart(properties[p].RangeAt(i), properties[q].RangeAt(j))
  }

  ghost predicate ValidLayout(t: Template) {
    && t.rawLayout
    && (forall p :: 0 <= p < |t.properties| ==> WellFormed(t.properties[p], t.constants))
    && DistinctPaths(t.properties)
    && PlacementsApart(t.properties)
  }

  // ----- the list of occupied ranges the validator builds

  function RangesOf(p: Property, n: nat): seq<Range>
    requires p.Placed()
  {
    seq(n, i requires 0 <= i < n => p.RangeAt(i))
  }

  function AllRangesOf(p: Property): seq<Range> {
    if p.Placed() then RangesOf(p, p.Count()) else []
  }

  function Occupied(properties: seq<Property>): seq<Range> {
    if properties == [] then [] else
      Occupied(properties[..|properties| - 1]) + AllRangesOf(properties[|properties| - 1])
  }

  ghost predicate IsPlacement(properties: seq<Property>, r: Range, p: nat, i: nat) {
    p < |properties| && i < properties[p].Count() && r == properties[p].RangeAt(i)
  }

  lemma {:induction false} OccupiedMembers(properties: seq<Property>, r: Range)
    ensures r in Occupied(properties) <==> exists p: nat, i: nat :: IsPlacement(properties, r, p, i)
  {
    if properties != [] {
      var n := |properties| - 1;
      var init, last := properties[..n], properties[n];
      OccupiedMembers(init, r);
      if r in Occupied(init) {
        var p: nat, i: nat :| IsPlacement(init, r, p, i);
        assert IsPlacement(properties, r, p, i);
      } else if r in AllRangesOf(last) {
        var i: nat :| i < |AllRangesOf(last)| && AllRangesOf(last)[i] == r;
        assert IsPlacement(properties, r, n, i);
      } else {
        forall p: nat, i: nat ensures !IsPlacement(properties, r, p, i) {
          if p < n {
            assert !IsPlacement(init, r, p, i);
          } else if p == n && i < last.Count() {
            assert AllRangesOf(last)[i] == last.RangeAt(i);
          }
        }
      }
    }
  }

  lemma OccupiedNonEmpty(properties: seq<Property>)
    ensures NonEmpty(Occupied(properties))
  {
    forall k | 0 <= k < |Occupied(properties)| ensures Occupied(properties)[k].start < Occupied(properties)[k].end {
      OccupiedMembers(properties, Occupied(properties)[k]);
    }
  }

  ghost predicate StepsApart(p: Property) {
    forall i: nat, j: nat :: i < j < p.Count() ==> Apart(p.RangeAt(i), p.RangeAt(j))
  }

  ghost predicate CrossApart(properties: seq<Property>, last: Property) {
    forall p: nat, i: nat, j: nat :: p < |properties| && i < properties[p].Count() && j < last.Count() ==>
      Apart(properties[p].RangeAt(i), last.RangeAt(j))
  }

  lemma PlacementsStep(init: seq<Property>, last: Property)
    ensures PlacementsApart(init + [last]) <==> PlacementsApart(init) && StepsApart(last) && CrossApart(init, last)
  {
    var all := init + [last];
    if PlacementsApart(all) {
      forall i: nat, j: nat | i < j < last.Count() ensures Apart(last.RangeAt(i), last.RangeAt(j)) {
        assert Apart(all[|init|].RangeAt(i), all[|init|].RangeAt(j));
      }
      forall p: nat, i: nat, j: nat | p < |init| && i < init[p].Count() && j < last.Count()
        ensures Apart(init[p].RangeAt(i), last.RangeAt(j))
      {
        assert Apart(all[p].RangeAt(i), all[|init|].RangeAt(j));
      }
      forall p, q, i: nat, j: nat |
        0 <= p <= q < |init| && i < init[p].Count() && j < init[q].Count() && (p < q || i < j)
        ensures Apart(init[p].RangeAt(i), init[q].RangeAt(j))
      {
        assert Apart(all[p].RangeAt(i), all[q].RangeAt(j));
      }
    }
  }

  /** The flat list is pairwise apart exactly when the placements are. */
  lemma {:induction false} OccupiedExact(properties: seq<Property>)
    ensures PairwiseApart(Occupied(properties)) <==> PlacementsApart(properties)
  {
    if properties != [] {
      var n := |properties| - 1;
      var init, last := properties[..n], properties[n];
      var own := AllRangesOf(last);
      assert properties == init + [last];
      OccupiedExact(init);
      PlacementsStep(init, last);
      AppendApart(Occupied(init), own);
      OwnApart(last, own);
      CrossMembers(init, last, own);
    }
  }

  lemma OwnApart(p: Property, own: seq<Range>)
    requires own == AllRangesOf(p)
    ensures PairwiseApart(own) <==> StepsApart(p)
  {
    if PairwiseApart(own) {
      forall i: nat, j: nat | i < j < p.Count() ensures Apart(p.RangeAt(i), p.RangeAt(j)) {
        assert Apart(own[i], own[j]);
      }
    }
  }

  lemma CrossMembers(init: seq<Property>, last: Property, own: seq<Range>)
    requires own == AllRangesOf(last)
    ensures (forall a, b :: a in Occupied(init) && b in own ==> Apart(a, b)) <==> CrossApart(init, last)
  {
    if CrossApart(init, last) {
      forall a, b | a in Occupied(init) && b in own ensures Apart(a, b) {
        OccupiedMembers(init, a);
        var p: nat, i: nat :| IsPlacement(init, a, p, i);
        var j: nat :| j < |own| && own[j] == b;
        assert Apart(init[p].RangeAt(i), last.RangeAt(j));
      }
    } else {
      var p: nat, i: nat, j: nat :| p < |init| && i < init[p].Count() && j < last.Count() &&
        !Apart(init[p].RangeAt(i), last.RangeAt(j));
      assert IsPlacement(init, init[p].RangeAt(i), p, i);
      OccupiedMembers(init, init[p].RangeAt(i));
      assert own[j] in own;
    }
  }
}
