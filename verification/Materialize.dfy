/** `materialize_raw_layout`: writing a map of values into a copy of account data. */
module Materialize {
  import opened Prelude
  import opened Json
  import opened RawEncodings
  import opened Ranges
  import opened Layouts
  import opened RawLayout

  /** The inputs of one call that all its writes share. */
  datatype Context = Context(template: Template, slot: u64, reader: PubkeyReader)

  type Values = map<string, Json>

  function FindProperty(properties: seq<Property>, name: string): (r: Option<Property>)
    ensures r.Some? ==> r.value in properties && r.value.path == name
    ensures r.None? ==> forall p :: p in properties ==> p.path != name
  {
    if properties == [] then None
    else if properties[0].path == name then Some(properties[0])
    else FindProperty(properties[1..], name)
  }

  ghost predicate Known(c: Context, name: string) {
    var p := FindProperty(c.template.properties, name);
    p.Some? && p.value.Placed()
  }

  ghost function Named(c: Context, name: string): (p: Property)
    requires Known(c, name)
    ensures p in c.template.properties && p.path == name && p.Placed()
  {
    FindProperty(c.template.properties, name).value
  }

  ghost function Wanted(c: Context, name: string, value: Json): Option<Meaning>
    requires Known(c, name)
  {
    Intended(Named(c, name).encoding.value, value, c.slot, c.reader)
  }

  ghost predicate Fits(p: Property, length: nat)
    requires p.Placed()
  {
    forall i: nat :: i < p.Count() ==> p.End(i) <= length
  }

  /** One entry can be written into an account of this length. */
  ghost predicate Writable(c: Context, name: string, value: Json, length: nat) {
    Known(c, name) && Wanted(c, name, value).Some? && Fits(Named(c, name), length)
  }

  ghost predicate Accepts(c: Context, values: Values, length: nat) {
    ValidLayout(c.template) && forall name :: name in values ==> Writable(c, name, values[name], length)
  }

  /** Every placement of the named field reads back as the value asked for. */
  ghost predicate Holds(c: Context, out: seq<u8>, name: string, value: Json) {
    && Writable(c, name, value, |out|)
    && var p, meaning := Named(c, name), Wanted(c, name, value).value;
       forall i: nat :: i < p.Count() ==>
         p.End(i) <= |out| && Read(p.encoding.value, out[p.Start(i)..p.End(i)]) == meaning
  }

  ghost predicate Covered(c: Context, names: set<string>, x: int) {
    exists name :: name in names && Known(c, name) && Named(c, name).Covers(x)
  }

  /** `out` is `data` with exactly the named fields set. */
  ghost predicate Written(c: Context, data: seq<u8>, values: Values, out: seq<u8>) {
    && |out| == |data|
    && (forall name :: name in values ==> Holds(c, out, name, values[name]))
    && (forall x :: 0 <= x < |data| && !Covered(c, values.Keys, x) ==> out[x] == data[x])
  }

  /** The fact about one entry that a refusal reports. */
  ghost predicate EntryRefused(c: Context, name: string, value: Json, length: nat, e: LayoutError) {
    match e
    case UnknownName(n) => n == name && FindProperty(c.template.properties, name).None?
    case NotWritable(n) => n == name && FindProperty(c.template.properties, name).Some? && !Known(c, name)
    case Unencodable(n, cause) => n == name && Known(c, name) && Wanted(c, name, value).None? &&
      Encode(Named(c, name).encoding.value, value, c.slot, c.reader) == Err(cause)
    case PastTheEnd(n) => n == name && Known(c, name) && !Fits(Named(c, name), length)
    case _ => false
  }

  ghost predicate Refused(c: Context, values: Values, length: nat, e: LayoutError) {
    || Justified(c.template, e)
    || exists name :: name in values && EntryRefused(c, name, values[name], length, e)
  }

  /** The meaning of a result, with no mention of the order in which the map was walked. */
  ghost predicate IsMaterialization(c: Context, data: seq<u8>, values: Values, r: Result<seq<u8>, LayoutError>) {
    match r
    case Ok(out) => Accepts(c, values, |data|) && Written(c, data, values, out)
    case Err(e) => !Accepts(c, values, |data|) && Refused(c, values, |data|, e)
  }

  /** Any walk over a hash map: each key once. */
  ghost predicate Walks(order: seq<string>, values: Values) {
    Distinct(order) && forall name :: name in order <==> name in values
  }

  ghost function Names(order: seq<string>): set<string> {
    set name | name in order
  }

  lemma WalkStep(order: seq<string>, values: Values, n: nat)
    requires Walks(order, values) && n < |order|
    ensures order[n] in values && order[n] !in Names(order[..n])
    ensures Names(order[..n + 1]) == Names(order[..n]) + {order[n]}
  {
    assert order[..n + 1] == order[..n] + [order[n]];
  }

  lemma WalkComplete(order: seq<string>, values: Values)
    requires Walks(order, values)
    ensures Names(order[..|order|]) == values.Keys
  {
    assert order[..|order|] == order;
  }

  // ----- the writer

  lemma StepsDisjoint(c: Context, p: Property, i: nat, j: nat)
    requires ValidLayout(c.template) && p in c.template.properties && i < p.Count() && j < p.Count() && i != j
    ensures Apart(p.RangeAt(i), p.RangeAt(j))
  {
    var k :| 0 <= k < |c.template.properties| && c.template.properties[k] == p;
    assert Apart(c.template.properties[k].RangeAt(Min(i, j)), c.template.properties[k].RangeAt(Max(i, j)));
  }

  /** Copies `bytes` to every placement of `p`; `fits` is false when one of them leaves the account. */
  method WritePlacements(ghost c: Context, out: array<u8>, p: Property, bytes: seq<u8>) returns (fits: bool)
    requires ValidLayout(c.template) && p in c.template.properties && p.Placed()
    requires |bytes| == p.encoding.value.Width()
    modifies out
    ensures fits <==> Fits(p, out.Length)
    ensures fits ==> forall i: nat :: i < p.Count() ==> p.End(i) <= out.Length && out[p.Start(i)..p.End(i)] == bytes
    ensures forall x :: 0 <= x < out.Length && !p.Covers(x) ==> out[x] == old(out[x])
  {
    for i := 0 to p.Count()
      invariant forall k: nat :: k < i ==> p.End(k) <= out.Length && out[p.Start(k)..p.End(k)] == bytes
      invariant forall x :: 0 <= x < out.Length && !p.Covers(x) ==> out[x] == old(out[x])
    {
      assert WellFormed(p, c.template.constants);
      assert p.End(i) <= USIZE_MAX;  // the validator ran, so the overflow arms of this loop are dead
      var at := p.offset.value + i * p.encoding.value.Stride();
      var end := at + |bytes|;
      if end > out.Length {
        assert !Fits(p, out.Length) by { assert p.End(i) > out.Length; }
        return false;
      }
      ghost var before := out[..];
      forall j | 0 <= j < |bytes| {
        out[at + j] := bytes[j];
      }
      assert out[p.Start(i)..p.End(i)] == bytes;
      forall k: nat | k < i ensures out[p.Start(k)..p.End(k)] == bytes {
        StepsDisjoint(c, p, k, i);
        assert out[p.Start(k)..p.End(k)] == before[p.Start(k)..p.End(k)];
      }
    }
    return true;
  }

  ghost predicate Done(c: Context, data: seq<u8>, values: Values, names: set<string>, out: seq<u8>) {
    && |out| == |data|
    && (forall name :: name in names ==> name in values && Holds(c, out, name, values[name]))
    && (forall x :: 0 <= x < |data| && !Covered(c, names, x) ==> out[x] == data[x])
  }

  lemma StepsOfTwo(properties: seq<Property>, k: nat, l: nat, i: nat, j: nat)
    requires PlacementsApart(properties) && k < |properties| && l < |properties| && k != l
    requires i < properties[k].Count() && j < properties[l].Count()
    ensures Apart(properties[k].RangeAt(i), properties[l].RangeAt(j))
  {
    if k < l {
      assert Apart(properties[k].RangeAt(i), properties[l].RangeAt(j));
    } else {
      assert Apart(properties[l].RangeAt(j), properties[k].RangeAt(i));
    }
  }

  /** A byte of one field is not a byte of another. */
  lemma FieldsApart(c: Context, a: string, b: string, i: nat, x: int)
    requires ValidLayout(c.template) && Known(c, a) && Known(c, b) && a != b
    requires i < Named(c, a).Count() && Named(c, a).Start(i) <= x < Named(c, a).End(i)
    ensures !Named(c, b).Covers(x)
  {
    var ps := c.template.properties;
    var p, q := Named(c, a), Named(c, b);
    var k: nat :| k < |ps| && ps[k] == p;
    var l: nat :| l < |ps| && ps[l] == q;
    forall j: nat | j < ps[l].Count() ensures !(ps[l].Start(j) <= x < ps[l].End(j)) {
      StepsOfTwo(ps, k, l, i, j);
    }
  }

  /** Writing one field leaves every other field as it was. */
  lemma HoldsFrame(c: Context, before: seq<u8>, after: seq<u8>, name: string, value: Json, other: string)
    requires ValidLayout(c.template) && Holds(c, before, name, value) && Known(c, other) && name != other
    requires |after| == |before|
    requires forall x :: 0 <= x < |after| && !Named(c, other).Covers(x) ==> after[x] == before[x]
    ensures Holds(c, after, name, value)
  {
    var p := Named(c, name);
    forall i: nat | i < p.Count()
      ensures p.End(i) <= |after| && after[p.Start(i)..p.End(i)] == before[p.Start(i)..p.End(i)]
    {
      assert p.End(i) <= |before|;
      forall x | p.Start(i) <= x < p.End(i) ensures after[x] == before[x] {
        FieldsApart(c, name, other, i, x);
      }
    }
  }

  lemma {:induction false} DoneStep(
    c: Context, data: seq<u8>, values: Values, names: set<string>, before: seq<u8>, name: string, after: seq<u8>)
    requires ValidLayout(c.template) && Done(c, data, values, names, before)
    requires name in values && name !in names && Holds(c, after, name, values[name])
    requires |after| == |before|
    requires forall x :: 0 <= x < |after| && !Named(c, name).Covers(x) ==> after[x] == before[x]
    ensures Done(c, data, values, names + {name}, after)
  {
    forall n | n in names + {name} ensures n in values && Holds(c, after, n, values[n]) {
      if n != name {
        HoldsFrame(c, before, after, n, values[n], name);
      }
    }
    forall x | 0 <= x < |data| && !Covered(c, names + {name}, x) ensures after[x] == data[x] {
      assert !Named(c, name).Covers(x);
      assert !Covered(c, names, x);
    }
  }

  /** One turn of the loop over the map. */
  method WriteEntry(c: Context, out: array<u8>, name: string, value: Json) returns (refusal: Option<LayoutError>)
    requires ValidLayout(c.template)
    modifies out
    ensures refusal.None? ==> Holds(c, out[..], name, value)
    ensures refusal.None? ==> forall x :: 0 <= x < out.Length && !Named(c, name).Covers(x) ==> out[x] == old(out[x])
    ensures refusal.Some? ==>
      !Writable(c, name, value, out.Length) && EntryRefused(c, name, value, out.Length, refusal.value)
  {
    var found := FindProperty(c.template.properties, name);
    if found.None? { return Some(UnknownName(name)); }
    var property := found.value;
    if !property.Placed() { return Some(NotWritable(name)); }
    var bytes := Encode(property.encoding.value, value, c.slot, c.reader);
    EncodeExact(property.encoding.value, value, c.slot, c.reader);
    if bytes.Err? { return Some(Unencodable(name, bytes.error)); }
    var fits := WritePlacements(c, out, property, bytes.value);
    if !fits { return Some(PastTheEnd(name)); }
    assert forall i: nat :: i < property.Count() ==>
      out[..][property.Start(i)..property.End(i)] == out[property.Start(i)..property.End(i)];
    return None;
  }

  /** Whatever the order of the walk, the result is the materialization. */
  method MaterializeRawLayout(c: Context, data: seq<u8>, values: Values, order: seq<string>)
    returns (r: Result<seq<u8>, LayoutError>)
    requires Walks(order, values)
    ensures IsMaterialization(c, data, values, r)
  {
    var valid := ValidateRawLayout(c.template);
    if valid.Err? { return Err(valid.error); }
    var out := new u8[|data|](i requires 0 <= i < |data| => data[i]);
    assert out[..] == data;
    for n := 0 to |order|
      invariant Done(c, data, values, Names(order[..n]), out[..])
    {
      WalkStep(order, values, n);
      ghost var before := out[..];
      var refusal := WriteEntry(c, out, order[n], values[order[n]]);
      if refusal.Some? { return Err(refusal.value); }
      DoneStep(c, data, values, Names(order[..n]), before, order[n], out[..]);
    }
    WalkComplete(order, values);
    return Ok(out[..]);
  }

  // ----- what the meaning implies

  lemma PlacementAgrees(c: Context, a: seq<u8>, b: seq<u8>, name: string, value: Json, i: nat, x: nat)
    requires |a| == |b| && Holds(c, a, name, value) && Holds(c, b, name, value)
    requires i < Named(c, name).Count() && Named(c, name).Start(i) <= x < Named(c, name).End(i)
    ensures x < |a| && a[x] == b[x]
  {
    var p := Named(c, name);
    assert p.End(i) <= |a|;
    var s, t := a[p.Start(i)..p.End(i)], b[p.Start(i)..p.End(i)];
    ReadInjective(p.encoding.value, s, t);
    assert a[x] == s[x - p.Start(i)] && b[x] == t[x - p.Start(i)];
  }

  lemma WrittenAgree(c: Context, data: seq<u8>, values: Values, a: seq<u8>, b: seq<u8>, x: nat)
    requires Written(c, data, values, a) && Written(c, data, values, b) && x < |data|
    ensures a[x] == b[x]
  {
    if Covered(c, values.Keys, x) {
      var name :| name in values.Keys && Known(c, name) && Named(c, name).Covers(x);
      var p := Named(c, name);
      var i: nat :| i < p.Count() && p.Start(i) <= x < p.End(i);
      PlacementAgrees(c, a, b, name, values[name], i, x);
    }
  }

  /** Two walks over one map both succeed with the same bytes, or both fail. */
  lemma OrderIndependent(
    c: Context, data: seq<u8>, values: Values, r: Result<seq<u8>, LayoutError>, s: Result<seq<u8>, LayoutError>)
    requires IsMaterialization(c, data, values, r) && IsMaterialization(c, data, values, s)
    ensures r.Ok? <==> s.Ok?
    ensures r.Ok? ==> r == s
  {
    if r.Ok? {
      forall x: nat | x < |data| ensures r.value[x] == s.value[x] {
        WrittenAgree(c, data, values, r.value, s.value, x);
      }
      assert r.value == s.value;
    }
  }

  /**
   * Materializing two maps with no common key, one after the other, is materializing their union: the whole succeeds
   * exactly when both steps do, with the bytes of the second.
   */
  lemma DisjointCompose(
    c: Context, data: seq<u8>, v: Values, w: Values, first: Result<seq<u8>, LayoutError>,
    second: Result<seq<u8>, LayoutError>, whole: Result<seq<u8>, LayoutError>)
    requires v.Keys !! w.Keys
    requires IsMaterialization(c, data, v, first) && IsMaterialization(c, data, v + w, whole)
    requires first.Ok? ==> IsMaterialization(c, first.value, w, second)
    ensures whole.Ok? <==> first.Ok? && second.Ok?
    ensures whole.Ok? ==> whole == second
  {
    var u := v + w;
    assert forall n :: n in w ==> n in u && u[n] == w[n];
    assert forall n :: n in v ==> n in u && u[n] == v[n];
    if first.Ok? && second.Ok? {
      var mid, out := first.value, second.value;
      forall n | n in u ensures Holds(c, out, n, u[n]) {
        if n !in w {
          KeptByOthers(c, mid, w, out, n, v[n]);
        }
      }
      forall x | 0 <= x < |data| && !Covered(c, u.Keys, x) ensures out[x] == data[x] {
        assert !Covered(c, v.Keys, x) && !Covered(c, w.Keys, x);
      }
      assert IsMaterialization(c, data, u, Ok(out));
      OrderIndependent(c, data, u, Ok(out), whole);
    }
  }

  lemma KeptByOthers(c: Context, before: seq<u8>, values: Values, after: seq<u8>, name: string, value: Json)
    requires ValidLayout(c.template) && Written(c, before, values, after)
    requires Holds(c, before, name, value) && name !in values
    ensures Holds(c, after, name, value)
  {
    var p := Named(c, name);
    forall i: nat | i < p.Count()
      ensures p.End(i) <= |after| && after[p.Start(i)..p.End(i)] == before[p.Start(i)..p.End(i)]
    {
      assert p.End(i) <= |before|;
      forall x | p.Start(i) <= x < p.End(i) ensures after[x] == before[x] {
        forall n | n in values && Known(c, n) ensures !Named(c, n).Covers(x) {
          FieldsApart(c, name, n, i, x);
        }
      }
    }
  }

  /** Materializing the same values again changes nothing. */
  lemma Idempotent(c: Context, data: seq<u8>, values: Values, out: seq<u8>, again: Result<seq<u8>, LayoutError>)
    requires IsMaterialization(c, data, values, Ok(out)) && IsMaterialization(c, out, values, again)
    ensures again == Ok(out)
  {
    assert IsMaterialization(c, out, values, Ok(out));
    OrderIndependent(c, out, values, again, Ok(out));
  }

  /** Selectors, inputs and unknown names are refused: success means each name is the path of a placed field. */
  lemma OnlyFieldsWritten(c: Context, data: seq<u8>, values: Values, out: seq<u8>, name: string)
    requires IsMaterialization(c, data, values, Ok(out)) && name in values
    ensures exists p :: p in c.template.properties && p.path == name && !p.kind.ConstantRef? && !p.kind.Input?
    ensures forall p :: p in c.template.properties && p.path == name ==> p == Named(c, name)
  {
    var p := Named(c, name);
    var k :| 0 <= k < |c.template.properties| && c.template.properties[k] == p;
    assert WellFormed(c.template.properties[k], c.template.constants);
  }
}
