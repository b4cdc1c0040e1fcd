/** The scenario store behind the studio's HTTP routes: post, patch and delete as steps on a list. */
module ScenarioStore {
  import opened Prelude
  import opened Json

  /** Override instances are decoded by derived code; the store keeps each in the form that code writes it back. */
  type Codec = Json -> Option<Json>

  /** Writing a decoded override and decoding it again gives it back. */
  ghost predicate Lawful(codec: Codec) {
    forall j: Json :: codec(j).Some? ==> codec(codec(j).value) == codec(j)
  }

  datatype Scenario = Scenario(id: string, name: string, description: string, overrides: seq<Json>, tags: seq<string>)
  {
    ghost predicate Normal(codec: Codec) {
      forall i :: 0 <= i < |overrides| ==> codec(overrides[i]) == Some(overrides[i])
    }

    function Fields(): map<string, Json> {
      map[
        "id" := JString(id),
        "name" := JString(name),
        "description" := JString(description),
        "overrides" := JArray(overrides),
        "tags" := JArray(seq(|tags|, i requires 0 <= i < |tags| => JString(tags[i])))
      ]
    }
  }

  const FIELDS := {"id", "name", "description", "overrides", "tags"}

  // ----- decoding

  function DecodeAll(items: seq<Json>, codec: Codec): Option<seq<Json>> {
    if forall i :: 0 <= i < |items| ==> codec(items[i]).Some?
    then Some(seq(|items|, i requires 0 <= i < |items| && codec(items[i]).Some? => codec(items[i]).value))
    else None
  }

  predicate AllStrings(items: seq<Json>) {
    forall i :: 0 <= i < |items| ==> items[i].JString?
  }

  /** Derived decoding: every field is required and typed, and unknown ones are skipped. */
  function Decode(o: map<string, Json>, codec: Codec): Option<Scenario> {
    if !(FIELDS <= o.Keys) then None
    else if !o["id"].JString? || !o["name"].JString? || !o["description"].JString? then None
    else if !o["tags"].JArray? || !AllStrings(o["tags"].items) || !o["overrides"].JArray? then None
    else
      var tags := o["tags"].items;
      match DecodeAll(o["overrides"].items, codec)
      case None => None
      case Some(overrides) =>
        Some(Scenario(o["id"].s, o["name"].s, o["description"].s, overrides,
                      seq(|tags|, i requires 0 <= i < |tags| && tags[i].JString? => tags[i].s)))
  }

  /** A posted body: an object, or an array that lists the five fields in order, both of which derived code reads. */
  function DecodeBody(body: Json, codec: Codec): Option<Scenario> {
    match body
    case JObject(fields) => Decode(fields, codec)
    case JArray(items) =>
      if |items| != 5 then None else
        Decode(map["id" := items[0], "name" := items[1], "description" := items[2], "overrides" := items[3],
                   "tags" := items[4]], codec)
    case _ => None
  }

  /** `validate_json_fields`: nothing that was supplied may be missing from what was understood. */
  predicate NothingLost(supplied: Json, normalized: Json)
    decreases supplied
  {
    match (supplied, normalized)
    case (JObject(s), JObject(n)) => forall k :: k in s ==> k in n && NothingLost(s[k], n[k])
    case (JArray(s), JArray(n)) => forall i :: 0 <= i < |s| && i < |n| ==> NothingLost(s[i], n[i])
    case _ => true
  }

  // ----- what "lost" means, by path

  datatype Hop = Member(key: string) | Item(index: nat)

  /** The value reached through object members and array items. */
  ghost function At(j: Json, path: seq<Hop>): Option<Json>
    decreases |path|
  {
    if path == [] then Some(j) else
      match (path[0], j)
      case (Member(k), JObject(fields)) => if k in fields then At(fields[k], path[1..]) else None
      case (Item(i), JArray(items)) => if i < |items| then At(items[i], path[1..]) else None
      case _ => None
  }

  /** At the end of the path both are objects, and the supplied one has a field that the other has not. */
  ghost predicate LostAt(supplied: Json, normalized: Json, path: seq<Hop>, key: string) {
    var s, n := At(supplied, path), At(normalized, path);
    && s.Some? && s.value.JObject? && key in s.value.fields
    && n.Some? && n.value.JObject? && key !in n.value.fields
  }

  lemma {:induction false} NothingLostAt(supplied: Json, normalized: Json, path: seq<Hop>, key: string)
    requires NothingLost(supplied, normalized)
    ensures !LostAt(supplied, normalized, path, key)
    decreases |path|
  {
    if path != [] {
      match (path[0], supplied, normalized)
      case (Member(k), JObject(s), JObject(n)) =>
        if k in s {
          NothingLostAt(s[k], n[k], path[1..], key);
        }
      case (Item(i), JArray(s), JArray(n)) =>
        if i < |s| && i < |n| {
          NothingLostAt(s[i], n[i], path[1..], key);
        }
      case _ =>
    }
  }

  lemma {:induction false} SomethingLost(supplied: Json, normalized: Json) returns (path: seq<Hop>, key: string)
    requires !NothingLost(supplied, normalized)
    ensures LostAt(supplied, normalized, path, key)
    decreases supplied
  {
    path, key := [], "";
    match (supplied, normalized)
    case (JObject(s), JObject(n)) =>
      key :| key in s && (key !in n || !NothingLost(s[key], n[key]));
      if key in n {
        var k := key;
        var rest, inner := SomethingLost(s[k], n[k]);
        path, key := [Member(k)] + rest, inner;
      }
    case (JArray(s), JArray(n)) =>
      var i: nat :| i < |s| && i < |n| && !NothingLost(s[i], n[i]);
      var rest, inner := SomethingLost(s[i], n[i]);
      path, key := [Item(i)] + rest, inner;
    case _ =>
  }

  /** The check fails exactly when some path leads to a field that was supplied and is missing from what was
      understood, at any depth. */
  lemma LossExactly(supplied: Json, normalized: Json)
    ensures NothingLost(supplied, normalized) <==> forall path, key :: !LostAt(supplied, normalized, path, key)
  {
    if NothingLost(supplied, normalized) {
      forall path, key ensures !LostAt(supplied, normalized, path, key) {
        NothingLostAt(supplied, normalized, path, key);
      }
    } else {
      var path, key := SomethingLost(supplied, normalized);
    }
  }

  // ----- what a posted body describes

  ghost predicate AreStrings(j: Json, strings: seq<string>) {
    j.JArray? && |j.items| == |strings| && forall i :: 0 <= i < |strings| ==> j.items[i] == JString(strings[i])
  }

  ghost predicate AreDecoded(j: Json, overrides: seq<Json>, codec: Codec) {
    && j.JArray? && |j.items| == |overrides|
    && forall i :: 0 <= i < |overrides| ==> codec(j.items[i]) == Some(overrides[i])
  }

  /** The body is the scenario's own five fields, by name or in order; unknown names may come along. */
  ghost predicate Describes(body: Json, s: Scenario, codec: Codec) {
    match body
    case JObject(o) =>
      && "id" in o && o["id"] == JString(s.id) && "name" in o && o["name"] == JString(s.name)
      && "description" in o && o["description"] == JString(s.description)
      && "overrides" in o && AreDecoded(o["overrides"], s.overrides, codec)
      && "tags" in o && AreStrings(o["tags"], s.tags)
    case JArray(items) =>
      && |items| == 5 && items[0] == JString(s.id) && items[1] == JString(s.name) && items[2] == JString(s.description)
      && AreDecoded(items[3], s.overrides, codec) && AreStrings(items[4], s.tags)
    case _ => false
  }

  lemma DecodeExactly(o: map<string, Json>, s: Scenario, codec: Codec)
    ensures Decode(o, codec) == Some(s) <==> Describes(JObject(o), s, codec)
  {
    if Describes(JObject(o), s, codec) {
      assert DecodeAll(o["overrides"].items, codec).value == s.overrides;
      assert AllStrings(o["tags"].items);
      assert Decode(o, codec).value.tags == s.tags;
    }
  }

  /** A posted body is read as a scenario exactly when it describes it. */
  lemma BodyExactly(body: Json, s: Scenario, codec: Codec)
    ensures DecodeBody(body, codec) == Some(s) <==> Describes(body, s, codec)
  {
    match body
    case JObject(o) => DecodeExactly(o, s, codec);
    case JArray(items) =>
      if |items| == 5 {
        DecodeExactly(map["id" := items[0], "name" := items[1], "description" := items[2], "overrides" := items[3],
                          "tags" := items[4]], s, codec);
      }
    case _ =>
  }

  datatype PatchError = NotAnObject | UnknownField(key: string) | Invalid

  function DecodeStrictly(o: map<string, Json>, codec: Codec): Result<Scenario, PatchError> {
    match Decode(o, codec)
    case None => Err(Invalid)
    case Some(s) => if NothingLost(JObject(o), JObject(s.Fields())) then Ok(s) else Err(Invalid)
  }

  function MergePatch(existing: Scenario, patch: Json, id: string, codec: Codec): Result<Scenario, PatchError> {
    if !patch.JObject? then Err(NotAnObject)
    else if !(patch.fields.Keys <= FIELDS) then
      Err(Invalid)
    else
      DecodeStrictly((existing.Fields() + patch.fields)["id" := JString(id)], codec)
  }

  function FullPatch(patch: Json, id: string, codec: Codec): Result<Scenario, PatchError> {
    if !patch.JObject? then Err(NotAnObject) else DecodeStrictly(patch.fields["id" := JString(id)], codec)
  }

  ghost predicate SameOutcome(r: Result<Scenario, PatchError>, s: Result<Scenario, PatchError>) {
    (r.Ok? <==> s.Ok?) && (r.Ok? ==> r == s)
  }

  /** Inserts the patch's fields one by one, refusing the first the object does not know. */
  method InsertFields(obj: map<string, Json>, fields: map<string, Json>, order: seq<string>)
    returns (r: Result<map<string, Json>, PatchError>)
    requires "id" in obj && forall k :: k in order <==> k in fields
    ensures r.Ok? <==> fields.Keys <= obj.Keys
    ensures r.Ok? ==> r.value == obj + fields
    ensures r.Err? ==> r.error.UnknownField? && r.error.key in fields && r.error.key !in obj
  {
    var merged := obj;
    for n := 0 to |order|
      invariant merged.Keys == obj.Keys
      invariant forall k :: k in order[..n] ==> k in obj && merged[k] == fields[k]
      invariant forall k :: k in obj && k !in order[..n] ==> merged[k] == obj[k]
    {
      var key := order[n];
      assert order[..n + 1] == order[..n] + [key];
      if key != "id" && key !in merged { return Err(UnknownField(key)); }
      merged := merged[key := fields[key]];
    }
    assert order[..|order|] == order;
    assert merged == obj + fields;
    return Ok(merged);
  }

  /** `merge_scenario_patch`, in whatever order the patch lists its fields. */
  method MergeScenarioPatch(existing: Scenario, patch: Json, id: string, codec: Codec, order: seq<string>)
    returns (r: Result<Scenario, PatchError>)
    requires patch.JObject? ==> forall k :: k in order <==> k in patch.fields
    ensures SameOutcome(r, MergePatch(existing, patch, id, codec))
    ensures r == Err(NotAnObject) <==> !patch.JObject?
    ensures r.Err? && r.error.UnknownField? ==> patch.JObject? && r.error.key in patch.fields.Keys - FIELDS
    ensures patch.JObject? && patch.fields.Keys - FIELDS != {} ==> r.Err? && r.error.UnknownField?
  {
    if !patch.JObject? { return Err(NotAnObject); }
    FieldNames(existing);
    var merged := InsertFields(existing.Fields(), patch.fields, order);
    if merged.Err? { return Err(merged.error); }
    return DecodeStrictly(merged.value["id" := JString(id)], codec);
  }

  lemma FieldNames(s: Scenario)
    ensures s.Fields().Keys == FIELDS
  {
  }

  // ----- what strict decoding accepts

  lemma {:induction false} NothingLostRefl(j: Json)
    ensures NothingLost(j, j)
  {
    match j
    case JObject(fields) =>
      forall k | k in fields ensures NothingLost(fields[k], fields[k]) {
        NothingLostRefl(fields[k]);
      }
    case JArray(items) =>
      forall i | 0 <= i < |items| ensures NothingLost(items[i], items[i]) {
        NothingLostRefl(items[i]);
      }
    case _ =>
  }

  ghost predicate TagsOk(j: Json) {
    j.JArray? && AllStrings(j.items)
  }

  ghost predicate OverridesOk(j: Json, codec: Codec) {
    && j.JArray?
    && forall i :: 0 <= i < |j.items| ==> codec(j.items[i]).Some? && NothingLost(j.items[i], codec(j.items[i]).value)
  }

  /** Each field that is present, the id aside, is complete and understood without loss. */
  ghost predicate SoundFields(o: map<string, Json>, codec: Codec) {
    && ("name" in o ==> o["name"].JString?)
    && ("description" in o ==> o["description"].JString?)
    && ("overrides" in o ==> OverridesOk(o["overrides"], codec))
    && ("tags" in o ==> TagsOk(o["tags"]))
  }

  lemma OverridesLossless(j: Json, codec: Codec)
    requires j.JArray? && DecodeAll(j.items, codec).Some?
    ensures NothingLost(j, JArray(DecodeAll(j.items, codec).value)) <==> OverridesOk(j, codec)
  {
    var d := DecodeAll(j.items, codec).value;
    assert forall i :: 0 <= i < |d| ==> d[i] == codec(j.items[i]).value;
  }

  lemma TagsLossless(j: Json, tags: seq<string>)
    requires TagsOk(j) && |tags| == |j.items| && forall i :: 0 <= i < |tags| ==> tags[i] == j.items[i].s
    ensures JArray(seq(|tags|, i requires 0 <= i < |tags| => JString(tags[i]))) == j
  {
    assert seq(|tags|, i requires 0 <= i < |tags| => JString(tags[i])) == j.items;
  }

  lemma LosslessByField(o: map<string, Json>, n: map<string, Json>)
    requires FIELDS <= o.Keys && n.Keys == FIELDS
    ensures NothingLost(JObject(o), JObject(n)) <==>
      && o.Keys == FIELDS
      && NothingLost(o["id"], n["id"]) && NothingLost(o["name"], n["name"])
      && NothingLost(o["description"], n["description"])
      && NothingLost(o["overrides"], n["overrides"]) && NothingLost(o["tags"], n["tags"])
  {
  }

  /** The scenario a partial patch means: the named fields decoded, the others kept, the id the path's. */
  ghost function Patched(e: Scenario, p: map<string, Json>, id: string, codec: Codec): Scenario
    requires SoundFields(p, codec)
  {
    Scenario(
      id,
      if "name" in p then p["name"].s else e.name,
      if "description" in p then p["description"].s else e.description,
      if "overrides" in p then DecodeAll(p["overrides"].items, codec).value else e.overrides,
      if "tags" in p then Strings(p["tags"].items) else e.tags)
  }

  ghost function Strings(items: seq<Json>): seq<string>
    requires AllStrings(items)
  {
    seq(|items|, i requires 0 <= i < |items| => items[i].s)
  }

  /**
   * Strict decoding accepts exactly the objects that have the five fields, no other, and each of them sound. The
   * scenario it gives takes every field from the object, and nothing from any scenario `e`.
   */
  lemma StrictExact(o: map<string, Json>, codec: Codec, e: Scenario)
    ensures DecodeStrictly(o, codec).Ok? <==> o.Keys == FIELDS && o["id"].JString? && SoundFields(o, codec)
    ensures DecodeStrictly(o, codec).Ok? ==> DecodeStrictly(o, codec).value == Patched(e, o, o["id"].s, codec)
  {
    var d := Decode(o, codec);
    if d.Some? {
      FieldNames(d.value);
      LosslessByField(o, d.value.Fields());
      OverridesLossless(o["overrides"], codec);
      TagsLossless(o["tags"], d.value.tags);
      NothingLostRefl(o["tags"]);
    }
  }

  ghost predicate ValidPatch(patch: Json, codec: Codec) {
    patch.JObject? && patch.fields.Keys <= FIELDS && SoundFields(patch.fields, codec)
  }

  lemma OwnFieldsSound(e: Scenario, codec: Codec)
    requires e.Normal(codec)
    ensures SoundFields(e.Fields(), codec)
    ensures DecodeAll(e.overrides, codec) == Some(e.overrides)
    ensures Strings(e.Fields()["tags"].items) == e.tags
  {
    forall i | 0 <= i < |e.overrides| ensures NothingLost(e.overrides[i], e.overrides[i]) {
      NothingLostRefl(e.overrides[i]);
    }
    assert DecodeAll(e.overrides, codec).value == e.overrides;
  }

  /** A patch of a stored scenario is accepted exactly when it is valid, and changes the named fields and no others. */
  lemma MergePatchExact(e: Scenario, patch: Json, id: string, codec: Codec)
    requires e.Normal(codec)
    ensures MergePatch(e, patch, id, codec).Ok? <==> ValidPatch(patch, codec)
    ensures ValidPatch(patch, codec) ==> MergePatch(e, patch, id, codec) == Ok(Patched(e, patch.fields, id, codec))
  {
    if patch.JObject? && patch.fields.Keys <= FIELDS {
      var p := patch.fields;
      var o := (e.Fields() + p)["id" := JString(id)];
      FieldNames(e);
      OwnFieldsSound(e, codec);
      StrictExact(o, codec, e);
      assert o["name"] == if "name" in p then p["name"] else e.Fields()["name"];
      assert o["description"] == if "description" in p then p["description"] else e.Fields()["description"];
      assert o["overrides"] == if "overrides" in p then p["overrides"] else e.Fields()["overrides"];
      assert o["tags"] == if "tags" in p then p["tags"] else e.Fields()["tags"];
      if SoundFields(p, codec) {
        assert Decode(o, codec).value.tags == Strings(o["tags"].items);
      }
    }
  }

  /**
   * A patch for an unknown id creates a scenario exactly when it is a complete and sound document, and then the one
   * it describes: patching any scenario `e` with it would give the same.
   */
  lemma FullPatchExact(patch: Json, id: string, codec: Codec, e: Scenario)
    ensures FullPatch(patch, id, codec).Ok? <==>
      patch.JObject? && patch.fields.Keys + {"id"} == FIELDS && SoundFields(patch.fields, codec)
    ensures FullPatch(patch, id, codec).Ok? ==> FullPatch(patch, id, codec).value == Patched(e, patch.fields, id, codec)
  {
    if patch.JObject? {
      var p := patch.fields;
      var o := p["id" := JString(id)];
      StrictExact(o, codec, e);
      assert o.Keys == p.Keys + {"id"};
      assert forall k :: k != "id" ==> (k in o <==> k in p) && (k in o ==> o[k] == p[k]);
    }
  }

  lemma DecodedNormal(o: map<string, Json>, codec: Codec)
    requires Lawful(codec) && Decode(o, codec).Some?
    ensures Decode(o, codec).value.Normal(codec)
  {
  }

  lemma BodyNormal(body: Json, codec: Codec)
    requires Lawful(codec) && DecodeBody(body, codec).Some?
    ensures DecodeBody(body, codec).value.Normal(codec)
  {
  }

  lemma PatchedNormal(e: Scenario, patch: Json, id: string, codec: Codec)
    requires Lawful(codec) && e.Normal(codec) && ValidPatch(patch, codec)
    ensures Patched(e, patch.fields, id, codec).Normal(codec)
  {
  }

  /** Valid partial patches on disjoint fields commute. */
  lemma PatchesCommute(e: Scenario, p: Json, q: Json, codec: Codec)
    requires Lawful(codec) && e.Normal(codec) && ValidPatch(p, codec) && ValidPatch(q, codec)
    requires p.fields.Keys !! q.fields.Keys
    ensures var first, second := MergePatch(e, p, e.id, codec), MergePatch(e, q, e.id, codec);
            && first.Ok? && second.Ok? && MergePatch(first.value, q, e.id, codec).Ok?
            && MergePatch(first.value, q, e.id, codec) == MergePatch(second.value, p, e.id, codec)
  {
    MergePatchExact(e, p, e.id, codec);
    MergePatchExact(e, q, e.id, codec);
    PatchedNormal(e, p, e.id, codec);
    PatchedNormal(e, q, e.id, codec);
    MergePatchExact(Patched(e, p.fields, e.id, codec), q, e.id, codec);
    MergePatchExact(Patched(e, q.fields, e.id, codec), p, e.id, codec);
  }

  /** Sending a patch twice is sending it once. */
  lemma PatchIdempotent(e: Scenario, p: Json, codec: Codec)
    requires Lawful(codec) && e.Normal(codec) && MergePatch(e, p, e.id, codec).Ok?
    ensures MergePatch(MergePatch(e, p, e.id, codec).value, p, e.id, codec) == MergePatch(e, p, e.id, codec)
  {
    MergePatchExact(e, p, e.id, codec);
    PatchedNormal(e, p, e.id, codec);
    MergePatchExact(Patched(e, p.fields, e.id, codec), p, e.id, codec);
  }

  // ----- the store

  datatype Request = Post(body: Json) | Patch(id: string, body: Json) | Delete(id: string)

  datatype Status = Accepted | Conflict | BadRequest | NotFound

  ghost predicate UniqueIds(store: seq<Scenario>) {
    forall i, j :: 0 <= i < j < |store| ==> store[i].id != store[j].id
  }

  function IndexOf(store: seq<Scenario>, id: string): (i: nat)
    ensures i <= |store|
    ensures i < |store| ==> store[i].id == id
    ensures forall j :: 0 <= j < i ==> store[j].id != id
  {
    FirstIndex(store, (s: Scenario) => s.id == id)
  }

  function Without(store: seq<Scenario>, id: string): seq<Scenario> {
    if store == [] then [] else
      (if store[0].id == id then [] else [store[0]]) + Without(store[1..], id)
  }

  /** One request: its answer and the store afterwards. */
  function Handle(store: seq<Scenario>, r: Request, codec: Codec): (Status, seq<Scenario>) {
    match r
    case Post(body) =>
      (match DecodeBody(body, codec)
       case None => (BadRequest, store)
       case Some(s) =>
         var i := IndexOf(store, s.id);
         if i == |store| then (Accepted, store + [s])
         else (if store[i].Fields() == s.Fields() then Accepted else Conflict, store))
    case Patch(id, body) =>
      var i := IndexOf(store, id);
      var updated := if i < |store| then MergePatch(store[i], body, id, codec) else FullPatch(body, id, codec);
      if updated.Err? then (BadRequest, store)
      else (Accepted, if i < |store| then store[i := updated.value] else store + [updated.value])
    case Delete(id) =>
      var rest := Without(store, id);
      (if |rest| == |store| then NotFound else Accepted, rest)
  }

  class LoadedScenarios {
    var scenarios: seq<Scenario>

    constructor ()
      ensures scenarios == []
    {
      scenarios := [];
    }

    method PostScenario(body: Json, codec: Codec) returns (status: Status)
      modifies this
      ensures (status, scenarios) == Handle(old(scenarios), Post(body), codec)
    {
      var decoded := DecodeBody(body, codec);
      if decoded.None? { return BadRequest; }
      var s := decoded.value;
      var i := IndexOf(scenarios, s.id);
      if i < |scenarios| {
        return if scenarios[i].Fields() == s.Fields() then Accepted else Conflict;
      }
      scenarios := scenarios + [s];
      return Accepted;
    }

    method PatchScenario(id: string, body: Json, codec: Codec, order: seq<string>) returns (status: Status)
      requires body.JObject? ==> forall k :: k in order <==> k in body.fields
      modifies this
      ensures (status, scenarios) == Handle(old(scenarios), Patch(id, body), codec)
    {
      var i := IndexOf(scenarios, id);
      var updated: Result<Scenario, PatchError>;
      if i < |scenarios| {
        updated := MergeScenarioPatch(scenarios[i], body, id, codec, order);
      } else {
        updated := FullPatch(body, id, codec);
      }
      if updated.Err? { return BadRequest; }
      scenarios := if i < |scenarios| then scenarios[i := updated.value] else scenarios + [updated.value];
      return Accepted;
    }

    method DeleteScenario(id: string, codec: Codec) returns (status: Status)
      modifies this
      ensures (status, scenarios) == Handle(old(scenarios), Delete(id), codec)
    {
      var before := |scenarios|;
      scenarios := Without(scenarios, id);
      return if |scenarios| == before then NotFound else Accepted;
    }
  }

  lemma {:induction false} WithoutMembers(store: seq<Scenario>, id: string)
    ensures forall s :: s in Without(store, id) <==> s in store && s.id != id
  {
    if store != [] {
      WithoutMembers(store[1..], id);
      assert store == [store[0]] + store[1..];
    }
  }

  lemma {:induction false} WithoutLength(store: seq<Scenario>, id: string)
    ensures |Without(store, id)| <= |store|
    ensures |Without(store, id)| == |store| ==> Without(store, id) == store
  {
    if store != [] {
      WithoutLength(store[1..], id);
      assert store == [store[0]] + store[1..];
    }
  }

  lemma {:induction false} WithoutAbsent(store: seq<Scenario>, id: string)
    requires forall s :: s in store ==> s.id != id
    ensures Without(store, id) == store
  {
    if store != [] {
      assert store[0] in store;
      WithoutAbsent(store[1..], id);
    }
  }

  lemma {:induction false} WithoutUnique(store: seq<Scenario>, id: string)
    requires UniqueIds(store)
    ensures UniqueIds(Without(store, id))
  {
    if store != [] {
      WithoutUnique(store[1..], id);
      WithoutMembers(store[1..], id);
      var rest := Without(store[1..], id);
      forall i | 0 <= i < |rest| ensures rest[i].id != store[0].id {
        assert rest[i] in store[1..];
      }
    }
  }

  lemma UpdatedId(e: Scenario, body: Json, id: string, codec: Codec)
    ensures MergePatch(e, body, id, codec).Ok? ==> MergePatch(e, body, id, codec).value.id == id
    ensures FullPatch(body, id, codec).Ok? ==> FullPatch(body, id, codec).value.id == id
  {
  }

  /** The id a request is about; a posted body that cannot be read has none. */
  function RequestId(r: Request, codec: Codec): Option<string> {
    match r
    case Post(body) => var s := DecodeBody(body, codec); if s.Some? then Some(s.value.id) else None
    case Patch(id, _) => Some(id)
    case Delete(id) => Some(id)
  }

  /** A refused request changes nothing. */
  lemma RefusalChangesNothing(store: seq<Scenario>, r: Request, codec: Codec)
    requires Handle(store, r, codec).0 != Accepted
    ensures Handle(store, r, codec).1 == store
  {
    if r.Delete? {
      WithoutLength(store, r.id);
    }
  }

  /** Every request keeps ids unique, and touches no scenario with another id. */
  lemma RequestKeepsIds(store: seq<Scenario>, r: Request, codec: Codec)
    requires UniqueIds(store)
    ensures UniqueIds(Handle(store, r, codec).1)
    ensures forall s: Scenario :: Some(s.id) != RequestId(r, codec) ==> (s in Handle(store, r, codec).1 <==> s in store)
  {
    match r
    case Post(body) =>
    case Patch(id, body) =>
      var i := IndexOf(store, id);
      if i < |store| {
        UpdatedId(store[i], body, id, codec);
        var updated := MergePatch(store[i], body, id, codec);
        if updated.Ok? {
          UpdateMembers(store, i, updated.value);
        }
      } else {
        UpdatedId(Scenario(id, "", "", [], []), body, id, codec);
      }
    case Delete(id) =>
      WithoutMembers(store, id);
      WithoutUnique(store, id);
  }

  lemma UpdateMembers(store: seq<Scenario>, i: nat, t: Scenario)
    requires i < |store| && store[i].id == t.id
    ensures forall s: Scenario :: s.id != t.id ==> (s in store[i := t] <==> s in store)
  {
    forall s | s in store && s.id != t.id ensures s in store[i := t] {
      var k :| 0 <= k < |store| && store[k] == s;
      assert store[i := t][k] == s;
    }
  }

  function Ids(store: seq<Scenario>): seq<string> {
    seq(|store|, i requires 0 <= i < |store| => store[i].id)
  }

  function DropId(ids: seq<string>, id: string): seq<string> {
    if ids == [] then [] else
      DropId(ids[..|ids| - 1], id) + (if ids[|ids| - 1] == id then [] else [ids[|ids| - 1]])
  }

  lemma {:induction false} WithoutIds(store: seq<Scenario>, id: string)
    requires store != []
    ensures Without(store, id) ==
      Without(store[..|store| - 1], id) + (if store[|store| - 1].id == id then [] else [store[|store| - 1]])
  {
    if |store| > 1 {
      WithoutIds(store[1..], id);
      assert store[1..][..|store| - 2] == store[..|store| - 1][1..];
    }
  }

  lemma {:induction false} WithoutDrops(store: seq<Scenario>, id: string)
    ensures Ids(Without(store, id)) == DropId(Ids(store), id)
  {
    if store != [] {
      var init := store[..|store| - 1];
      WithoutIds(store, id);
      WithoutDrops(init, id);
      assert Ids(store)[..|store| - 1] == Ids(init);
    }
  }

  /** The order of the store: what is new goes last, what is changed stays in place, what is deleted leaves a gap that
      closes. */
  lemma RequestOrder(store: seq<Scenario>, r: Request, codec: Codec)
    ensures var (status, after) := Handle(store, r, codec);
            var id := RequestId(r, codec);
            Ids(after) ==
              if status != Accepted then Ids(store)
              else if r.Delete? then DropId(Ids(store), id.value)
              else if id.value in Ids(store) then Ids(store)
              else Ids(store) + [id.value]
  {
    if Handle(store, r, codec).0 != Accepted {
      RefusalChangesNothing(store, r, codec);
      return;
    }
    match r
    case Post(body) =>
      var s := DecodeBody(body, codec);
      if s.Some? {
        IdsHave(store, s.value.id);
      }
    case Patch(id, body) =>
      IdsHave(store, id);
      var i := IndexOf(store, id);
      UpdatedId(if i < |store| then store[i] else Scenario(id, "", "", [], []), body, id, codec);
    case Delete(id) => WithoutDrops(store, id);
  }

  lemma IdsHave(store: seq<Scenario>, id: string)
    ensures id in Ids(store) <==> IndexOf(store, id) < |store|
  {
    var i := IndexOf(store, id);
    if i < |store| {
      assert Ids(store)[i] == id;
    }
  }

  function Find(store: seq<Scenario>, id: string): Option<Scenario> {
    var i := IndexOf(store, id);
    if i < |store| then Some(store[i]) else None
  }

  lemma FieldsInjective(s: Scenario, t: Scenario)
    requires s.Fields() == t.Fields()
    ensures s == t
  {
    var a, b := s.Fields(), t.Fields();
    assert a["id"] == b["id"] && a["name"] == b["name"] && a["description"] == b["description"];
    assert a["overrides"] == b["overrides"] && a["tags"] == b["tags"];
    assert |s.tags| == |t.tags|;
    forall i | 0 <= i < |s.tags| ensures s.tags[i] == t.tags[i] {
      assert a["tags"].items[i] == b["tags"].items[i];
    }
    assert s.tags == t.tags;
  }

  lemma FindIs(store: seq<Scenario>, i: nat)
    requires UniqueIds(store) && i < |store|
    ensures Find(store, store[i].id) == Some(store[i])
  {
  }

  lemma FindNone(store: seq<Scenario>, id: string)
    ensures Find(store, id).None? <==> forall s :: s in store ==> s.id != id
  {
    var i := IndexOf(store, id);
    if i < |store| {
      assert store[i] in store;
    }
  }

  /** What each request answers, and what is then stored under the id it is about. */
  lemma RequestMeaning(store: seq<Scenario>, r: Request, codec: Codec)
    requires UniqueIds(store)
    ensures var (status, after) := Handle(store, r, codec);
            match RequestId(r, codec)
            case None => status == BadRequest && after == store
            case Some(id) => Answered(Find(store, id), r, id, codec, status, Find(after, id))
  {
    RequestKeepsIds(store, r, codec);
    var after := Handle(store, r, codec).1;
    match r
    case Post(body) =>
      var s := DecodeBody(body, codec);
      if s.Some? {
        var i := IndexOf(store, s.value.id);
        if i < |store| {
          if store[i].Fields() == s.value.Fields() {
            FieldsInjective(store[i], s.value);
          }
        } else {
          FindIs(after, |store|);
        }
      }
    case Patch(id, body) =>
      var i := IndexOf(store, id);
      UpdatedId(if i < |store| then store[i] else Scenario(id, "", "", [], []), body, id, codec);
      if Handle(store, r, codec).0 == Accepted {
        FindIs(after, i);
      }
    case Delete(id) =>
      WithoutMembers(store, id);
      WithoutLength(store, id);
      FindNone(after, id);
      FindNone(store, id);
      if Find(store, id).None? {
        WithoutAbsent(store, id);
      }
  }

  /** The answer to a request about `id`, and what is stored there before and after. */
  ghost predicate Answered(before: Option<Scenario>, r: Request, id: string, codec: Codec, status: Status,
                           after: Option<Scenario>)
  {
    match r
    case Post(body) =>
      var s := DecodeBody(body, codec);
      && status == (if before.None? || before == s then Accepted else Conflict)
      && after == (if before.None? then s else before)
    case Patch(_, body) =>
      var updated := if before.Some? then MergePatch(before.value, body, id, codec) else FullPatch(body, id, codec);
      && status == (if updated.Ok? then Accepted else BadRequest)
      && after == (if updated.Ok? then Some(updated.value) else before)
    case Delete(_) => status == (if before.Some? then Accepted else NotFound) && after == None
  }

  ghost predicate AllNormal(store: seq<Scenario>, codec: Codec) {
    forall s :: s in store ==> s.Normal(codec)
  }

  lemma RequestKeepsNormal(store: seq<Scenario>, r: Request, codec: Codec)
    requires Lawful(codec) && AllNormal(store, codec)
    ensures AllNormal(Handle(store, r, codec).1, codec)
  {
    match r
    case Post(body) =>
      if DecodeBody(body, codec).Some? {
        BodyNormal(body, codec);
      }
    case Patch(id, body) =>
      var i := IndexOf(store, id);
      if i < |store| {
        assert store[i] in store;
        MergePatchExact(store[i], body, id, codec);
      } else if FullPatch(body, id, codec).Ok? {
        DecodedNormal(body.fields["id" := JString(id)], codec);
      }
    case Delete(id) => WithoutMembers(store, id);
  }

  /** Posting a stored scenario as the store shows it is accepted and changes nothing. */
  lemma RepostAccepted(store: seq<Scenario>, s: Scenario, codec: Codec)
    requires UniqueIds(store) && s in store && s.Normal(codec)
    ensures DecodeBody(JObject(s.Fields()), codec) == Some(s)
    ensures Handle(store, Post(JObject(s.Fields())), codec) == (Accepted, store)
  {
    OwnFieldsSound(s, codec);
    FieldNames(s);
    assert DecodeBody(JObject(s.Fields()), codec).value.tags == s.tags;
    var i :| 0 <= i < |store| && store[i] == s;
    FindIs(store, i);
  }

  function Run(requests: seq<Request>, codec: Codec): seq<Scenario> {
    if requests == [] then [] else
      Handle(Run(requests[..|requests| - 1], codec), requests[|requests| - 1], codec).1
  }

  /** Over every run ids stay unique, and what is stored is what decoding would write back. */
  lemma {:induction false} StoreInvariant(requests: seq<Request>, codec: Codec)
    requires Lawful(codec)
    ensures UniqueIds(Run(requests, codec)) && AllNormal(Run(requests, codec), codec)
  {
    if requests != [] {
      StoreInvariant(requests[..|requests| - 1], codec);
      RequestKeepsNormal(Run(requests[..|requests| - 1], codec), requests[|requests| - 1], codec);
      RequestKeepsIds(Run(requests[..|requests| - 1], codec), requests[|requests| - 1], codec);
    }
  }
}
