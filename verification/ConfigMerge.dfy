/** Merging `Test.toml` files: keyed lists where a later file overwrites in place and appends what is new. */
module ConfigMerge {
  import opened Prelude

  /** A list entry: the field it is keyed by, and the rest of it. */
  datatype Entry = Entry(key: string, rest: string)

  type Entries = seq<Entry>

  /** Entries that are nothing but their key. */
  ghost predicate KeyOnly(list: Entries) {
    forall i :: 0 <= i < |list| ==> list[i].rest == ""
  }

  /** Clone entries hold an address and no more. */
  type CloneEntries = list: Entries | KeyOnly(list) witness []

  function IndexOf(list: Entries, key: string): (i: nat)
    ensures i <= |list|
    ensures i < |list| ==> list[i].key == key
    ensures forall j :: 0 <= j < i ==> list[j].key != key
  {
    FirstIndex(list, (e: Entry) => e.key == key)
  }

  predicate HasKey(list: Entries, key: string) {
    exists i :: 0 <= i < |list| && list[i].key == key
  }

  ghost predicate Unique(list: Entries) {
    forall i, j :: 0 <= i < j < |list| ==> list[i].key != list[j].key
  }

  function Put(list: Entries, e: Entry): (r: Entries)
    ensures KeyOnly(list) && e.rest == "" ==> KeyOnly(r)
  {
    PutAt(list, IndexOf(list, e.key), e)
  }

  function MergeList(mine: Entries, other: Entries): (r: Entries)
    ensures KeyOnly(mine) && KeyOnly(other) ==> KeyOnly(r)
  {
    if other == [] then mine else Put(MergeList(mine, other[..|other| - 1]), other[|other| - 1])
  }

  datatype Validator = Validator(account: Option<Entries>, accountDir: Option<Entries>, clones: Option<CloneEntries>)

  datatype Test = Test(genesis: Option<Entries>, validator: Option<Validator>)

  datatype TomlFile = TomlFile(bases: Option<seq<string>>, test: Option<Test>, scripts: Option<map<string, string>>)

  const EMPTY := TomlFile(None, None, None)

  function MergeLists(mine: Option<Entries>, other: Option<Entries>): Option<Entries> {
    if mine.None? then other else if other.None? then mine else Some(MergeList(mine.value, other.value))
  }

  function MergeValidator(mine: Validator, other: Validator): Validator {
    Validator(
      MergeLists(mine.account, other.account),
      MergeLists(mine.accountDir, other.accountDir),
      MergeLists(mine.clones, other.clones))
  }

  function MergeTest(mine: Test, other: Test): Test {
    Test(
      MergeLists(mine.genesis, other.genesis),
      if mine.validator.None? then other.validator
      else if other.validator.None? then mine.validator
      else Some(MergeValidator(mine.validator.value, other.validator.value)))
  }

  function MergeFile(mine: TomlFile, other: TomlFile): TomlFile {
    TomlFile(
      mine.bases,
      if mine.test.None? then other.test
      else if other.test.None? then mine.test
      else Some(MergeTest(mine.test.value, other.test.value)),
      if mine.scripts.None? then other.scripts
      else if other.scripts.None? then mine.scripts
      else Some(mine.scripts.value + other.scripts.value))
  }

  // ----- the methods as written

  /** Each other entry overwrites the first entry with its key, or is pushed. */
  method MergeInto(mine: Option<Entries>, other: Option<Entries>) returns (merged: Option<Entries>)
    ensures merged == MergeLists(mine, other)
  {
    if mine.None? { return other; }
    if other.None? { return mine; }
    var entries := mine.value;
    for n := 0 to |other.value|
      invariant entries == MergeList(mine.value, other.value[..n])
    {
      assert other.value[..n + 1][..n] == other.value[..n];
      var i := IndexOf(entries, other.value[n].key);
      if i < |entries| {
        entries := entries[i := other.value[n]];
      } else {
        entries := entries + [other.value[n]];
      }
    }
    assert other.value[..|other.value|] == other.value;
    return Some(entries);
  }

  class ValidatorConfig {
    var account: Option<Entries>
    var accountDir: Option<Entries>
    var clones: Option<CloneEntries>

    function State(): Validator
      reads this
    {
      Validator(account, accountDir, clones)
    }

    constructor (v: Validator)
      ensures State() == v
    {
      account, accountDir, clones := v.account, v.accountDir, v.clones;
    }

    method Merge(other: Validator)
      modifies this
      ensures State() == MergeValidator(old(State()), other)
    {
      account := MergeInto(account, other.account);
      accountDir := MergeInto(accountDir, other.accountDir);
      clones := MergeInto(clones, other.clones);
    }
  }

  class TestTomlFile {
    var bases: Option<seq<string>>
    var test: Option<Test>
    var scripts: Option<map<string, string>>

    function State(): TomlFile
      reads this
    {
      TomlFile(bases, test, scripts)
    }

    constructor ()
      ensures State() == EMPTY
    {
      bases, test, scripts := None, None, None;
    }

    method Merge(other: TomlFile)
      modifies this
      ensures State() == MergeFile(old(State()), other)
    {
      if scripts.None? {
        scripts := other.scripts;
      } else if other.scripts.Some? {
        scripts := Some(scripts.value + other.scripts.value);
      }
      if test.None? {
        test := other.test;
      } else if other.test.Some? {
        var genesis := MergeInto(test.value.genesis, other.test.value.genesis);
        var validator := test.value.validator;
        if validator.None? {
          validator := other.test.value.validator;
        } else if other.test.value.validator.Some? {
          var config := new ValidatorConfig(validator.value);
          config.Merge(other.test.value.validator.value);
          validator := Some(config.State());
        }
        test := Some(Test(genesis, validator));
      }
    }
  }

  // ----- the list law

  lemma PutKeys(list: Entries, e: Entry, key: string)
    ensures HasKey(Put(list, e), key) <==> HasKey(list, key) || key == e.key
    ensures Unique(list) ==> Unique(Put(list, e))
  {
    var i := IndexOf(list, e.key);
    var after := Put(list, e);
    assert after[i] == e;
    assert forall j :: 0 <= j < |list| && j != i ==> after[j] == list[j];
  }

  lemma HasKeyAppend(init: Entries, last: Entry, key: string)
    ensures HasKey(init + [last], key) <==> HasKey(init, key) || last.key == key
  {
    assert (init + [last])[|init|] == last;
    assert forall i :: 0 <= i < |init| ==> (init + [last])[i] == init[i];
  }

  lemma {:induction false} MergeKeys(mine: Entries, other: Entries, key: string)
    ensures HasKey(MergeList(mine, other), key) <==> HasKey(mine, key) || HasKey(other, key)
    ensures Unique(mine) ==> Unique(MergeList(mine, other))
  {
    if other != [] {
      var init, last := other[..|other| - 1], other[|other| - 1];
      MergeKeys(mine, init, key);
      PutKeys(MergeList(mine, init), last, key);
      assert other == init + [last];
      HasKeyAppend(init, last, key);
    }
  }

  lemma PutTwice(list: Entries, a: Entry, b: Entry)
    requires a.key == b.key
    ensures Put(Put(list, a), b) == Put(list, b)
  {
    var i := IndexOf(list, a.key);
    var after := Put(list, a);
    assert after[i] == a;
    assert forall j :: 0 <= j < i ==> after[j] == list[j];
    assert IndexOf(after, b.key) == i;
  }

  lemma PutKeepsPlace(list: Entries, e: Entry, key: string)
    requires key != e.key && HasKey(list, key)
    ensures IndexOf(Put(list, e), key) == IndexOf(list, key) < |list|
    ensures Put(list, e)[IndexOf(list, key)] == list[IndexOf(list, key)]
  {
    var i := IndexOf(list, key);
    var after := Put(list, e);
    assert forall k :: 0 <= k < i ==> after[k].key != key;
    assert after[i] == list[i];
  }

  lemma PutKeepsAbsence(list: Entries, e: Entry, key: string)
    requires key != e.key && HasKey(list, e.key) && !HasKey(list, key)
    ensures |Put(list, e)| == |list| && IndexOf(Put(list, e), key) == |list|
  {
    var after := Put(list, e);
    assert forall k :: 0 <= k < |after| ==> after[k].key != key;
  }

  /** Overwriting a key that is present commutes with putting another key. */
  lemma PutsCommute(list: Entries, a: Entry, b: Entry)
    requires a.key != b.key && HasKey(list, a.key)
    ensures Put(Put(list, b), a) == Put(Put(list, a), b)
  {
    PutKeepsPlace(list, b, a.key);
    if HasKey(list, b.key) {
      PutKeepsPlace(list, a, b.key);
    } else {
      PutKeepsAbsence(list, a, b.key);
    }
  }

  lemma MergeStep(mine: Entries, init: Entries, last: Entry)
    ensures MergeList(mine, init + [last]) == Put(MergeList(mine, init), last)
  {
    assert (init + [last])[..|init|] == init;
  }

  lemma PutInFront(init: Entries, last: Entry, e: Entry)
    ensures HasKey(init, e.key) ==> Put(init + [last], e) == Put(init, e) + [last]
    ensures !HasKey(init, e.key) && last.key == e.key ==> Put(init + [last], e) == init + [e]
    ensures !HasKey(init, e.key) && last.key != e.key ==> Put(init + [last], e) == init + [last] + [e]
  {
    var list := init + [last];
    var i, j := IndexOf(init, e.key), IndexOf(list, e.key);
    assert forall k :: 0 <= k < |init| ==> list[k] == init[k];
    assert list[|init|] == last;
    assert i < |init| ==> i == j;
  }

  /** Putting into the right list first is putting into the merged one. */
  lemma {:induction false} MergePut(mine: Entries, list: Entries, e: Entry)
    requires Unique(list)
    ensures MergeList(mine, Put(list, e)) == Put(MergeList(mine, list), e)
  {
    if list == [] {
      MergeStep(mine, [], e);
    } else {
      var init, last := list[..|list| - 1], list[|list| - 1];
      assert list == init + [last];
      PutInFront(init, last, e);
      MergeStep(mine, init, last);
      if HasKey(init, e.key) {
        MergePut(mine, init, e);
        MergeStep(mine, Put(init, e), last);
        MergeKeys(mine, init, e.key);
        PutsCommute(MergeList(mine, init), e, last);
      } else if last.key == e.key {
        MergeStep(mine, init, e);
        PutTwice(MergeList(mine, init), last, e);
      } else {
        MergeStep(mine, list, e);
      }
    }
  }

  /** Merging is associative as soon as the middle list has no repeated key. */
  lemma {:induction false} MergeAssociative(a: Entries, b: Entries, c: Entries)
    requires Unique(b)
    ensures MergeList(MergeList(a, b), c) == MergeList(a, MergeList(b, c))
  {
    if c != [] {
      var init, last := c[..|c| - 1], c[|c| - 1];
      MergeAssociative(a, b, init);
      MergeKeys(b, init, last.key);
      MergePut(a, MergeList(b, init), last);
    }
  }

  function Lookup(list: Entries, key: string): Option<string> {
    var i := IndexOf(list, key);
    if i < |list| then Some(list[i].rest) else None
  }

  /** The value at the last entry for the key. */
  function LastOf(list: Entries, key: string): Option<string> {
    if list == [] then None
    else if list[|list| - 1].key == key then Some(list[|list| - 1].rest)
    else LastOf(list[..|list| - 1], key)
  }

  /** The keys of `other` that `mine` lacks, each at its first occurrence. */
  function NewKeys(mine: Entries, other: Entries): seq<string> {
    if other == [] then [] else
      var init := NewKeys(mine, other[..|other| - 1]);
      var key := other[|other| - 1].key;
      if HasKey(mine, key) || key in init then init else init + [key]
  }

  function Keys(list: Entries): seq<string> {
    seq(|list|, i requires 0 <= i < |list| => list[i].key)
  }

  lemma KeysHave(list: Entries, key: string)
    ensures HasKey(list, key) <==> IndexOf(list, key) < |list|
  {
  }

  lemma {:induction false} NewKeysMembers(mine: Entries, other: Entries, key: string)
    ensures key in NewKeys(mine, other) <==> HasKey(other, key) && !HasKey(mine, key)
  {
    if other != [] {
      var init, last := other[..|other| - 1], other[|other| - 1];
      assert other == init + [last];
      NewKeysMembers(mine, init, key);
      NewKeysMembers(mine, init, last.key);
      HasKeyAppend(init, last, key);
    }
  }

  /** The left order is kept and new keys follow in the right list's order, each once. */
  lemma {:induction false} MergeOrder(mine: Entries, other: Entries)
    ensures Keys(MergeList(mine, other)) == Keys(mine) + NewKeys(mine, other)
  {
    if other != [] {
      var init, last := other[..|other| - 1], other[|other| - 1];
      MergeOrder(mine, init);
      MergeKeys(mine, init, last.key);
      NewKeysMembers(mine, init, last.key);
      PutOrder(MergeList(mine, init), last);
    }
  }

  lemma PutOrder(list: Entries, e: Entry)
    ensures Keys(Put(list, e)) == Keys(list) + (if HasKey(list, e.key) then [] else [e.key])
  {
    KeysHave(list, e.key);
    var i := IndexOf(list, e.key);
    if i < |list| {
      assert Keys(list[i := e]) == Keys(list) + [];
    } else {
      assert Keys(list + [e]) == Keys(list) + [e.key];
    }
  }

  /** On every key the right list wins where it has the key, its last entry if it has several; elsewhere the left value
      stays. */
  lemma {:induction false} MergeLookup(mine: Entries, other: Entries, key: string)
    ensures Lookup(MergeList(mine, other), key) == if HasKey(other, key) then LastOf(other, key) else Lookup(mine, key)
  {
    if other != [] {
      var init, last := other[..|other| - 1], other[|other| - 1];
      assert other == init + [last];
      MergeLookup(mine, init, key);
      PutLookup(MergeList(mine, init), last, key);
      HasKeyAppend(init, last, key);
    }
  }

  /** Without repeats the last entry for a key is the first. */
  lemma {:induction false} LastIsFirst(list: Entries, key: string)
    requires Unique(list)
    ensures LastOf(list, key) == Lookup(list, key)
  {
    if list != [] {
      if list[|list| - 1].key == key {
        assert IndexOf(list, key) == |list| - 1;
      } else {
        LastIsFirst(list[..|list| - 1], key);
        PrefixLookup(list, key);
      }
    }
  }

  lemma PutLookup(list: Entries, e: Entry, key: string)
    ensures Lookup(Put(list, e), key) == if key == e.key then Some(e.rest) else Lookup(list, key)
  {
    var i, j := IndexOf(list, e.key), IndexOf(list, key);
    var after := Put(list, e);
    assert after[i] == e;
    assert forall k :: 0 <= k < |list| && k != i ==> after[k] == list[k];
    if key == e.key {
      assert IndexOf(after, key) == i;
    } else if j < |list| {
      assert IndexOf(after, key) == j;
    } else {
      assert IndexOf(after, key) == |after|;
    }
  }

  lemma PrefixLookup(list: Entries, key: string)
    requires list != [] && list[|list| - 1].key != key
    ensures var init := list[..|list| - 1];
            Lookup(list, key) == Lookup(init, key) && (HasKey(list, key) <==> HasKey(init, key))
  {
    var init := list[..|list| - 1];
    var i := IndexOf(init, key);
    assert forall j :: 0 <= j < |init| ==> init[j] == list[j];
    if i < |init| {
      assert IndexOf(list, key) == i;
    } else {
      assert IndexOf(list, key) == |list|;
    }
  }

  // ----- associativity holds exactly without repeats in the middle

  ghost predicate Repeats(list: Entries, key: string) {
    exists i, j :: 0 <= i < j < |list| && list[i].key == key == list[j].key
  }

  /** Overwriting a repeated key overwrites its first entry and keeps its last. */
  lemma {:induction false} LastKept(list: Entries, e: Entry)
    requires Repeats(list, e.key)
    ensures HasKey(Put(list, e), e.key) && LastOf(list, e.key).Some?
    ensures LastOf(Put(list, e), e.key) == LastOf(list, e.key)
  {
    var init, last := list[..|list| - 1], list[|list| - 1];
    var i, j :| 0 <= i < j < |list| && list[i].key == e.key == list[j].key;
    assert list == init + [last];
    assert init[i].key == e.key;
    PutKeys(list, e, e.key);
    PutInFront(init, last, e);
    assert (Put(init, e) + [last])[..|Put(init, e)|] == Put(init, e);
    if last.key != e.key {
      assert init[j].key == e.key;
      LastKept(init, e);
    }
  }

  /** A repeated key always breaks associativity: with an empty left list and a new value for the key. */
  lemma RepeatBreaks(b: Entries) returns (a: Entries, c: Entries)
    requires !Unique(b)
    ensures MergeList(MergeList(a, b), c) != MergeList(a, MergeList(b, c))
  {
    var i, j :| 0 <= i < j < |b| && b[i].key == b[j].key;
    var key := b[i].key;
    LastKept(b, b[i]);
    var e := Entry(key, LastOf(b, key).value + "x");
    a, c := [], [e];
    LastKept(b, e);
    assert c[..0] == [];
    assert MergeList(b, c) == Put(b, e);
    assert LastOf(c, key) == Some(e.rest) && HasKey(c, key);
    MergeLookup(MergeList(a, b), c, key);
    MergeLookup(a, Put(b, e), key);
  }

  /** The two groupings agree on all outer lists exactly when the middle list has no repeated key. */
  lemma AssociativeExactly(b: Entries)
    ensures Unique(b) <==> forall a, c :: MergeList(MergeList(a, b), c) == MergeList(a, MergeList(b, c))
  {
    if Unique(b) {
      forall a, c ensures MergeList(MergeList(a, b), c) == MergeList(a, MergeList(b, c)) {
        MergeAssociative(a, b, c);
      }
    } else {
      var a, c := RepeatBreaks(b);
    }
  }

  lemma MergeTwo(list: Entries, a: Entry, b: Entry)
    ensures MergeList(list, [a, b]) == Put(Put(list, a), b)
  {
    assert [a, b][..1] == [a];
    MergeOne(list, a);
  }

  lemma MergeOne(list: Entries, e: Entry)
    ensures MergeList(list, [e]) == Put(list, e)
  {
    assert [e][..0] == [];
  }

  /** The smallest example: two entries for one key, overwritten by a third. */
  lemma RepeatBreaksAssociativity(k: string, x: string, y: string, z: string)
    requires y != z
    ensures var b, c := [Entry(k, x), Entry(k, y)], [Entry(k, z)];
            MergeList(MergeList([], b), c) == [Entry(k, z)] && MergeList([], MergeList(b, c)) == [Entry(k, y)]
  {
    var e, f, g := Entry(k, x), Entry(k, y), Entry(k, z);
    MergeTwo([], e, f);
    MergeTwo([], g, f);
    MergeOne([e, f], g);
    MergeOne([f], g);
    PutPair(e, f, g);
  }

  lemma PutPair(e: Entry, f: Entry, g: Entry)
    requires e.key == f.key == g.key
    ensures Put([e, f], g) == [g, f] && Put([f], g) == [g]
    ensures Put(Put([], e), f) == [f] && Put(Put([], g), f) == [f]
  {
  }

  // ----- the file laws

  datatype Field = Genesis | Account | AccountDir | Clone

  /** One of the four keyed lists of a file. */
  function ListOf(f: TomlFile, field: Field): Option<Entries> {
    if f.test.None? then None
    else if field == Genesis then f.test.value.genesis
    else if f.test.value.validator.None? then None
    else
      var v := f.test.value.validator.value;
      match field
      case Account => v.account
      case AccountDir => v.accountDir
      case _ => v.clones
  }

  ghost predicate UniqueFile(f: TomlFile) {
    forall field: Field :: ListOf(f, field).Some? ==> Unique(ListOf(f, field).value)
  }

  /** Every list of a merged file is the merge of the two lists. */
  lemma MergeByField(f: TomlFile, g: TomlFile, field: Field)
    ensures ListOf(MergeFile(f, g), field) == MergeLists(ListOf(f, field), ListOf(g, field))
  {
  }

  lemma MergeListsUnique(a: Option<Entries>, b: Option<Entries>)
    requires (a.Some? ==> Unique(a.value)) && (b.Some? ==> Unique(b.value))
    ensures MergeLists(a, b).Some? ==> Unique(MergeLists(a, b).value)
  {
    if a.Some? && b.Some? {
      MergeKeys(a.value, b.value, "");
    }
  }

  /** Merging keeps keys unique. */
  lemma MergeKeepsUnique(f: TomlFile, g: TomlFile)
    requires UniqueFile(f) && UniqueFile(g)
    ensures UniqueFile(MergeFile(f, g))
  {
    forall field: Field | ListOf(MergeFile(f, g), field).Some? ensures Unique(ListOf(MergeFile(f, g), field).value) {
      MergeByField(f, g, field);
      MergeListsUnique(ListOf(f, field), ListOf(g, field));
    }
  }

  lemma KeyOnlyPut(list: Entries, e: Entry)
    requires KeyOnly(list) && e.rest == "" && HasKey(list, e.key)
    ensures Put(list, e) == list
  {
  }

  lemma {:induction false} KeyOnlyPutCommutes(mine: Entries, list: Entries, e: Entry)
    requires KeyOnly(mine) && KeyOnly(list) && e.rest == ""
    ensures MergeList(mine, Put(list, e)) == Put(MergeList(mine, list), e)
  {
    if HasKey(list, e.key) {
      MergeKeys(mine, list, e.key);
      KeyOnlyPut(list, e);
      KeyOnlyPut(MergeList(mine, list), e);
    } else {
      MergeStep(mine, list, e);
    }
  }

  /** Entries that are only their key merge associatively, repeats and all: overwriting one changes nothing. */
  lemma {:induction false} KeyOnlyAssociative(a: Entries, b: Entries, c: Entries)
    requires KeyOnly(a) && KeyOnly(b) && KeyOnly(c)
    ensures MergeList(MergeList(a, b), c) == MergeList(a, MergeList(b, c))
  {
    if c != [] {
      var init, last := c[..|c| - 1], c[|c| - 1];
      KeyOnlyAssociative(a, b, init);
      KeyOnlyPutCommutes(a, MergeList(b, init), last);
    }
  }

  ghost predicate NoContent(list: Option<Entries>) {
    list.Some? ==> KeyOnly(list.value)
  }

  lemma MergeListsAssociative(a: Option<Entries>, b: Option<Entries>, c: Option<Entries>)
    requires (b.Some? ==> Unique(b.value)) || (NoContent(a) && NoContent(b) && NoContent(c))
    ensures MergeLists(MergeLists(a, b), c) == MergeLists(a, MergeLists(b, c))
  {
    if a.Some? && b.Some? && c.Some? {
      if Unique(b.value) {
        MergeAssociative(a.value, b.value, c.value);
      } else {
        KeyOnlyAssociative(a.value, b.value, c.value);
      }
    }
  }

  lemma ScriptsAssociative(a: map<string, string>, b: map<string, string>, c: map<string, string>)
    ensures (a + b) + c == a + (b + c)
  {
  }

  /** Whether a list's entries carry more than their key; what a directory entry carries is up to a foreign type. */
  predicate Carries(field: Field, dirsCarry: bool) {
    field != Clone && (field == AccountDir ==> dirsCarry)
  }

  /** A file that can exist: no content where entries carry none. */
  ghost predicate WellShaped(f: TomlFile, dirsCarry: bool) {
    forall field: Field :: !Carries(field, dirsCarry) ==> NoContent(ListOf(f, field))
  }

  /** No list repeats a key, those that carry nothing but their keys aside. */
  ghost predicate NoContentRepeated(g: TomlFile, dirsCarry: bool) {
    forall field: Field :: Carries(field, dirsCarry) && ListOf(g, field).Some? ==> Unique(ListOf(g, field).value)
  }

  ghost predicate Associates(f: TomlFile, g: TomlFile, h: TomlFile) {
    MergeFile(MergeFile(f, g), h) == MergeFile(f, MergeFile(g, h))
  }

  /** File merging is associative when the middle file's lists repeat no key whose entries carry content. */
  lemma FileMergeAssociative(f: TomlFile, g: TomlFile, h: TomlFile, dirsCarry: bool)
    requires WellShaped(f, dirsCarry) && WellShaped(g, dirsCarry) && WellShaped(h, dirsCarry)
    requires NoContentRepeated(g, dirsCarry)
    ensures Associates(f, g, h)
  {
    if f.scripts.Some? && g.scripts.Some? && h.scripts.Some? {
      ScriptsAssociative(f.scripts.value, g.scripts.value, h.scripts.value);
    }
    forall field: Field
      ensures MergeLists(MergeLists(ListOf(f, field), ListOf(g, field)), ListOf(h, field)) ==
              MergeLists(ListOf(f, field), MergeLists(ListOf(g, field), ListOf(h, field)))
    {
      MergeListsAssociative(ListOf(f, field), ListOf(g, field), ListOf(h, field));
    }
    var left, right := MergeFile(MergeFile(f, g), h), MergeFile(f, MergeFile(g, h));
    forall field: Field ensures ListOf(left, field) == ListOf(right, field) {
      MergeByField(f, g, field);
      MergeByField(g, h, field);
      MergeByField(MergeFile(f, g), h, field);
      MergeByField(f, MergeFile(g, h), field);
    }
    SameLists(left, right);
  }

  function OneField(field: Field, list: Entries): (f: TomlFile)
    requires field != Clone
    ensures forall other: Field :: ListOf(f, other) == if other == field then Some(list) else None
  {
    var l := Some(list);
    TomlFile(None, Some(match field
      case Genesis => Test(l, None)
      case Account => Test(None, Some(Validator(l, None, None)))
      case _ => Test(None, Some(Validator(None, l, None)))), None)
  }

  /** A repeated key whose entries carry content breaks the law for two files around it. */
  lemma RepeatBreaksFile(g: TomlFile, field: Field, dirsCarry: bool) returns (f: TomlFile, h: TomlFile)
    requires Carries(field, dirsCarry) && ListOf(g, field).Some? && !Unique(ListOf(g, field).value)
    ensures WellShaped(f, dirsCarry) && WellShaped(h, dirsCarry) && !Associates(f, g, h)
  {
    var a, c := RepeatBreaks(ListOf(g, field).value);
    f, h := OneField(field, a), OneField(field, c);
    MergeByField(f, g, field);
    MergeByField(g, h, field);
    MergeByField(MergeFile(f, g), h, field);
    MergeByField(f, MergeFile(g, h), field);
  }

  /**
   * A file merges associatively with all files around it exactly when none of its lists repeats a key, lists whose
   * entries are nothing but their key aside: clones always, account directories if their foreign type says so.
   */
  lemma FileAssociativeExactly(g: TomlFile, dirsCarry: bool)
    requires WellShaped(g, dirsCarry)
    ensures NoContentRepeated(g, dirsCarry) <==>
      forall f, h :: WellShaped(f, dirsCarry) && WellShaped(h, dirsCarry) ==> Associates(f, g, h)
  {
    if NoContentRepeated(g, dirsCarry) {
      forall f, h | WellShaped(f, dirsCarry) && WellShaped(h, dirsCarry) ensures Associates(f, g, h) {
        FileMergeAssociative(f, g, h, dirsCarry);
      }
    } else {
      var field: Field :|
        Carries(field, dirsCarry) && ListOf(g, field).Some? && !Unique(ListOf(g, field).value);
      var f, h := RepeatBreaksFile(g, field, dirsCarry);
    }
  }

  /** Files with the same shape and the same lists are the same file. */
  lemma SameLists(f: TomlFile, g: TomlFile)
    requires f.bases == g.bases && f.scripts == g.scripts
    requires f.test.Some? <==> g.test.Some?
    requires f.test.Some? ==> (f.test.value.validator.Some? <==> g.test.value.validator.Some?)
    requires forall field: Field :: ListOf(f, field) == ListOf(g, field)
    ensures f == g
  {
    assert ListOf(f, Genesis) == ListOf(g, Genesis) && ListOf(f, Account) == ListOf(g, Account);
    assert ListOf(f, AccountDir) == ListOf(g, AccountDir) && ListOf(f, Clone) == ListOf(g, Clone);
  }

  /** The empty file is an identity, except that `extends` is always the left file's. */
  lemma EmptyIdentity(f: TomlFile)
    ensures MergeFile(f, EMPTY) == f
    ensures MergeFile(EMPTY, f) == f.(bases := None)
  {
  }

  // ----- the left-to-right fold over `extends`

  function Fold(files: seq<TomlFile>): TomlFile {
    if files == [] then EMPTY else MergeFile(Fold(files[..|files| - 1]), files[|files| - 1])
  }

  function Get(f: TomlFile, field: Field, key: string): Option<string> {
    var list := ListOf(f, field);
    if list.None? then None else Lookup(list.value, key)
  }

  function Script(f: TomlFile, name: string): Option<string> {
    if f.scripts.Some? && name in f.scripts.value then Some(f.scripts.value[name]) else None
  }

  /** What the last file that defines the key says. */
  function LastDefiner(files: seq<TomlFile>, field: Field, key: string): Option<string> {
    if files == [] then None
    else if Get(files[|files| - 1], field, key).Some? then Get(files[|files| - 1], field, key)
    else LastDefiner(files[..|files| - 1], field, key)
  }

  function LastScript(files: seq<TomlFile>, name: string): Option<string> {
    if files == [] then None
    else if Script(files[|files| - 1], name).Some? then Script(files[|files| - 1], name)
    else LastScript(files[..|files| - 1], name)
  }

  ghost predicate NoneHas(files: seq<TomlFile>, field: Field) {
    forall i :: 0 <= i < |files| ==> ListOf(files[i], field).None?
  }

  /** What the last file that defines the key says: the first file to bring the list is taken as it is, so its first
      entry for the key is read; a later file is merged entry by entry, so its last entry wins. */
  ghost function Resolved(files: seq<TomlFile>, field: Field, key: string): Option<string> {
    if files == [] then None else
      var init, list := files[..|files| - 1], ListOf(files[|files| - 1], field);
      if list.None? || !HasKey(list.value, key) then Resolved(init, field, key)
      else if NoneHas(init, field) then Lookup(list.value, key)
      else LastOf(list.value, key)
  }

  lemma {:induction false} FoldHasList(files: seq<TomlFile>, field: Field)
    ensures ListOf(Fold(files), field).None? <==> NoneHas(files, field)
  {
    if files != [] {
      var init, last := files[..|files| - 1], files[|files| - 1];
      FoldHasList(init, field);
      MergeByField(Fold(init), last, field);
      assert NoneHas(files, field) <==> NoneHas(init, field) && ListOf(last, field).None? by {
        assert forall i :: 0 <= i < |init| ==> files[i] == init[i];
      }
    }
  }

  /** The fold resolves every key of every list, and every script, to its last definer, repeats in a file included. */
  lemma {:induction false} FoldResolves(files: seq<TomlFile>, field: Field, key: string)
    ensures Get(Fold(files), field, key) == Resolved(files, field, key)
    ensures Script(Fold(files), key) == LastScript(files, key)
  {
    if files != [] {
      var init, last := files[..|files| - 1], files[|files| - 1];
      FoldResolves(init, field, key);
      FoldHasList(init, field);
      MergeByField(Fold(init), last, field);
      var mine, other := ListOf(Fold(init), field), ListOf(last, field);
      if other.Some? {
        KeysHave(other.value, key);
        if mine.Some? {
          MergeLookup(mine.value, other.value, key);
        }
      }
      if other.Some? && !HasKey(other.value, key) && mine.None? {
        assert Get(Fold(init), field, key) == None;
      }
    }
  }

  /** When no file repeats a key, the last definer's one entry is the answer, and the result repeats no key either. */
  lemma {:induction false} FoldIsLastDefiner(files: seq<TomlFile>, field: Field, key: string)
    requires forall i :: 0 <= i < |files| ==> UniqueFile(files[i])
    ensures UniqueFile(Fold(files))
    ensures Get(Fold(files), field, key) == LastDefiner(files, field, key)
  {
    FoldResolves(files, field, key);
    if files != [] {
      var init, last := files[..|files| - 1], files[|files| - 1];
      FoldIsLastDefiner(init, field, key);
      FoldResolves(init, field, key);
      MergeKeepsUnique(Fold(init), last);
      var list := ListOf(last, field);
      if list.Some? {
        KeysHave(list.value, key);
        LastIsFirst(list.value, key);
      }
    }
  }
}
