/**
  The manifest (`package.xml`) half of PackageMerge: reading a parsed manifest
  into a mapping from metadata type name to member names
  (`convertXmlToMetadataHash`), the per-type union of several such mappings
  (`joinHashmaps`, `getItemSet`) and the deterministic order in which the merged
  manifest is written out (the loop of `mergePackageXMLs`).

  A parsed document is abstracted to its root element and the elements that
  `getElementsByTagName` finds in it, in document order.
 */
module Manifest {
  import opened Options
  import opened Lexicographic

  /** One `types` element: the text of its first `name` element (None when it
      has none) and the texts of its `members` elements, in document order. */
  datatype TypeGroup = TypeGroup(name: Option<string>, members: seq<string>)

  /** The elements of a manifest that the merge looks at; every other element is `Other`. */
  datatype Element = Version(text: string) | Types(group: TypeGroup) | Other

  /** A parsed manifest: its root element (tag, namespace and attributes, kept
      opaque) and its elements in document order. */
  datatype Document = Document(root: string, children: seq<Element>)

  /** `HashMap<String, HashSet<String>>`: type name to the set of its members. */
  type MetadataHash = map<string, set<string>>

  /** The `types` elements of a document, in document order. */
  function TypesList(children: seq<Element>): (r: seq<TypeGroup>)
    ensures |r| <= |children|
  {
    if children == [] then []
    else (if children[0].Types? then [children[0].group] else []) + TypesList(children[1..])
  }

  /** The text of the first `version` element, if there is one. */
  function FirstVersion(children: seq<Element>): Option<string>
  {
    if children == [] then None
    else if children[0].Version? then Some(children[0].text)
    else FirstVersion(children[1..])
  }

  /** Every `types` element has a `name`: reading the name never meets a null. */
  predicate Named(groups: seq<TypeGroup>)
  {
    forall i :: 0 <= i < |groups| ==> groups[i].name.Some?
  }

  /** `groups` holds a `types` element named `k`. */
  predicate Declares(groups: seq<TypeGroup>, k: string)
  {
    exists i :: 0 <= i < |groups| && groups[i].name == Some(k)
  }

  /** `groups` lists `m` as a member of a `types` element named `k`. */
  predicate Lists(groups: seq<TypeGroup>, k: string, m: string)
  {
    exists i :: 0 <= i < |groups| && groups[i].name == Some(k) && m in groups[i].members
  }

  function ItemsOf(h: MetadataHash, k: string): set<string>
  {
    if k in h then h[k] else {}
  }

  /** The mapping built from `groups`, one group after the other. */
  function HashOf(groups: seq<TypeGroup>): MetadataHash
    requires Named(groups)
  {
    if groups == [] then map[]
    else
      var h := HashOf(groups[..|groups| - 1]);
      var g := groups[|groups| - 1];
      h[g.name.value := ItemsOf(h, g.name.value) + set m | m in g.members]
  }

  /** The mapping has one key per type name that occurs, and under it every
      member listed by any group of that name, and nothing else. */
  lemma {:induction false} HashOfMeaning(groups: seq<TypeGroup>)
    requires Named(groups)
    ensures forall k :: k in HashOf(groups) <==> Declares(groups, k)
    ensures forall k, m :: k in HashOf(groups) ==> (m in HashOf(groups)[k] <==> Lists(groups, k, m))
  {
    if groups != [] {
      var n := |groups| - 1;
      HashOfMeaning(groups[..n]);
      DeclaresSnoc(groups);
      ListsSnoc(groups);
    }
  }

  lemma DeclaresSnoc(groups: seq<TypeGroup>)
    requires groups != []
    ensures forall k :: Declares(groups, k) <==> Declares(groups[..|groups| - 1], k) || groups[|groups| - 1].name == Some(k)
  {
    var n := |groups| - 1;
    var init := groups[..n];
    forall k
      ensures Declares(groups, k) <==> Declares(init, k) || groups[n].name == Some(k)
    {
      if Declares(groups, k) {
        var i :| 0 <= i < |groups| && groups[i].name == Some(k);
        if i < n {
          assert init[i] == groups[i];
        }
      }
      if Declares(init, k) {
        var i :| 0 <= i < |init| && init[i].name == Some(k);
        assert groups[i] == init[i];
      }
    }
  }

  lemma ListsSnoc(groups: seq<TypeGroup>)
    requires groups != []
    ensures forall k, m :: Lists(groups, k, m) <==> Lists(groups[..|groups| - 1], k, m) || (groups[|groups| - 1].name == Some(k) && m in groups[|groups| - 1].members)
  {
    var n := |groups| - 1;
    var init := groups[..n];
    forall k, m
      ensures Lists(groups, k, m) <==> Lists(init, k, m) || (groups[n].name == Some(k) && m in groups[n].members)
    {
      if Lists(groups, k, m) {
        var i :| 0 <= i < |groups| && groups[i].name == Some(k) && m in groups[i].members;
        if i < n {
          assert init[i] == groups[i];
        }
      }
      if Lists(init, k, m) {
        var i :| 0 <= i < |init| && init[i].name == Some(k) && m in init[i].members;
        assert groups[i] == init[i];
      }
    }
  }

  lemma HashOfSnoc(groups: seq<TypeGroup>, g: TypeGroup)
    requires Named(groups) && g.name.Some?
    ensures Named(groups + [g])
    ensures HashOf(groups + [g]) == HashOf(groups)[g.name.value := ItemsOf(HashOf(groups), g.name.value) + set m | m in g.members]
  {
    assert (groups + [g])[..|groups|] == groups;
  }

  lemma HashOfNext(groups: seq<TypeGroup>, i: nat)
    requires i < |groups| && Named(groups[..i]) && groups[i].name.Some?
    ensures Named(groups[..i + 1])
    ensures HashOf(groups[..i + 1]) == HashOf(groups[..i])[groups[i].name.value := ItemsOf(HashOf(groups[..i]), groups[i].name.value) + set m | m in groups[i].members]
  {
    assert groups[..i + 1] == groups[..i] + [groups[i]];
    HashOfSnoc(groups[..i], groups[i]);
  }

  /** `convertXmlToMetadataHash`: reads every `types` element of `doc` into the
      mapping. A `types` element without a `name` makes the source throw a
      null dereference; that is the None result. */
  method ConvertXmlToMetadataHash(doc: Document) returns (r: Option<MetadataHash>)
    ensures r.Some? <==> Named(TypesList(doc.children))
    ensures r.Some? ==> r.value == HashOf(TypesList(doc.children))
  {
    var retval: MetadataHash := map[];
    var typesList := TypesList(doc.children);
    var i := 0;
    while i < |typesList|
      invariant 0 <= i <= |typesList|
      invariant Named(typesList[..i])
      invariant retval == HashOf(typesList[..i])
    {
      var mdTypeElement := typesList[i];
      if mdTypeElement.name.None? {
        assert !Named(typesList);
        return None;
      }
      var mdTypeName := mdTypeElement.name.value;
      ghost var before := retval;
      if mdTypeName !in retval {
        retval := retval[mdTypeName := {}];
      }
      retval := AddMembers(retval, mdTypeName, mdTypeElement.members);
      assert retval == before[mdTypeName := ItemsOf(before, mdTypeName) + set m | m in mdTypeElement.members];
      HashOfNext(typesList, i);
      i := i + 1;
    }
    assert typesList[..i] == typesList;
    return Some(retval);
  }

  /** The inner loop of `convertXmlToMetadataHash`: each member is added to the
      set held under `typeName`, which the map shares, so the map sees each
      addition. */
  method AddMembers(retval0: MetadataHash, typeName: string, memberList: seq<string>) returns (retval: MetadataHash)
    requires typeName in retval0
    ensures retval == retval0[typeName := retval0[typeName] + set m | m in memberList]
  {
    retval := retval0;
    var itemSet := retval0[typeName];
    var j := 0;
    while j < |memberList|
      invariant 0 <= j <= |memberList|
      invariant itemSet == retval0[typeName] + set m | m in memberList[..j]
      invariant retval == retval0[typeName := itemSet]
    {
      itemSet := itemSet + {memberList[j]};
      retval := retval[typeName := itemSet];
      assert memberList[..j + 1] == memberList[..j] + [memberList[j]];
      j := j + 1;
    }
    assert memberList[..j] == memberList;
  }

  /** `getItemSet`: the set stored under `typeName`, inserting a new empty set
      first when there is none. The map is returned because the source changes
      the map it is given. */
  method GetItemSet(m: MetadataHash, typeName: string) returns (itemSet: set<string>, m': MetadataHash)
    ensures typeName in m ==> m' == m
    ensures typeName !in m ==> m' == m[typeName := {}]
    ensures typeName in m' && itemSet == m'[typeName]
  {
    if typeName in m {
      itemSet := m[typeName];
      m' := m;
    } else {
      itemSet := {};
      m' := m[typeName := itemSet];
    }
  }

  /** `acc` with the sets of `m` under `keys` added to it, key by key. */
  function Absorb(acc: MetadataHash, m: MetadataHash, keys: set<string>): MetadataHash
    requires keys <= m.Keys
  {
    map k | k in acc.Keys + keys :: ItemsOf(acc, k) + (if k in keys then m[k] else {})
  }

  lemma AbsorbOne(acc: MetadataHash, m: MetadataHash, done: set<string>, k: string)
    requires done <= m.Keys && k in m && k !in done
    ensures Absorb(acc, m, done + {k}) == Absorb(acc, m, done)[k := ItemsOf(Absorb(acc, m, done), k) + m[k]]
  {
    var before, after := Absorb(acc, m, done), Absorb(acc, m, done + {k});
    var updated := before[k := ItemsOf(before, k) + m[k]];
    assert after.Keys == updated.Keys;
    forall k' | k' in after
      ensures after[k'] == updated[k']
    {
    }
  }

  /** The per-type union of `maps`, taken in list order. */
  function JoinAll(maps: seq<MetadataHash>): MetadataHash
  {
    if maps == [] then map[]
    else
      var last := maps[|maps| - 1];
      Absorb(JoinAll(maps[..|maps| - 1]), last, last.Keys)
  }

  /** Some map of `maps` has the key `k`. */
  predicate HasType(maps: seq<MetadataHash>, k: string)
  {
    exists i :: 0 <= i < |maps| && k in maps[i]
  }

  /** Some map of `maps` holds `x` under `k`. */
  predicate HasMember(maps: seq<MetadataHash>, k: string, x: string)
  {
    exists i :: 0 <= i < |maps| && k in maps[i] && x in maps[i][k]
  }

  lemma {:induction false} JoinAllKeys(maps: seq<MetadataHash>)
    ensures forall k :: k in JoinAll(maps) <==> HasType(maps, k)
  {
    if maps != [] {
      var n := |maps| - 1;
      var init := maps[..n];
      JoinAllKeys(init);
      forall k
        ensures HasType(maps, k) <==> HasType(init, k) || k in maps[n]
      {
        if HasType(maps, k) {
          var i :| 0 <= i < |maps| && k in maps[i];
          if i < n {
            assert init[i] == maps[i];
          }
        }
        if HasType(init, k) {
          var i :| 0 <= i < |init| && k in init[i];
          assert maps[i] == init[i];
        }
      }
    }
  }

  lemma {:induction false} JoinAllMembers(maps: seq<MetadataHash>)
    ensures forall k, x :: x in ItemsOf(JoinAll(maps), k) <==> HasMember(maps, k, x)
  {
    if maps != [] {
      var n := |maps| - 1;
      var init := maps[..n];
      JoinAllMembers(init);
      forall k, x
        ensures HasMember(maps, k, x) <==> HasMember(init, k, x) || (k in maps[n] && x in maps[n][k])
      {
        if HasMember(maps, k, x) {
          var i :| 0 <= i < |maps| && k in maps[i] && x in maps[i][k];
          if i < n {
            assert init[i] == maps[i];
          }
        }
        if HasMember(init, k, x) {
          var i :| 0 <= i < |init| && k in init[i] && x in init[i][k];
          assert maps[i] == init[i];
        }
      }
    }
  }

  /** The union's keys are the union of all key sets, and each key maps to the
      union of that key's sets across the inputs: no member is lost and none
      is invented. */
  lemma JoinAllMeaning(maps: seq<MetadataHash>)
    ensures forall k :: k in JoinAll(maps) <==> HasType(maps, k)
    ensures forall k, x :: k in JoinAll(maps) ==> (x in JoinAll(maps)[k] <==> HasMember(maps, k, x))
  {
    JoinAllKeys(maps);
    JoinAllMembers(maps);
  }

  lemma SameMembersSameItems(a: seq<MetadataHash>, b: seq<MetadataHash>, k: string)
    requires forall x :: HasMember(a, k, x) <==> HasMember(b, k, x)
    ensures ItemsOf(JoinAll(a), k) == ItemsOf(JoinAll(b), k)
  {
    JoinAllMembers(a);
    JoinAllMembers(b);
    forall x
      ensures x in ItemsOf(JoinAll(a), k) <==> x in ItemsOf(JoinAll(b), k)
    {
      assert x in ItemsOf(JoinAll(a), k) <==> HasMember(a, k, x);
    }
  }

  /** Two lists of maps with the same keys and the same members under each key
      have the same union. */
  lemma SameContentsSameJoin(a: seq<MetadataHash>, b: seq<MetadataHash>)
    requires forall k :: HasType(a, k) <==> HasType(b, k)
    requires forall k, x :: HasMember(a, k, x) <==> HasMember(b, k, x)
    ensures JoinAll(a) == JoinAll(b)
  {
    var ja, jb := JoinAll(a), JoinAll(b);
    JoinAllKeys(a);
    JoinAllKeys(b);
    assert ja.Keys == jb.Keys;
    forall k | k in ja
      ensures ja[k] == jb[k]
    {
      SameMembersSameItems(a, b, k);
    }
  }

  lemma AbsorbNothing(acc: MetadataHash, m: MetadataHash)
    ensures Absorb(acc, m, {}) == acc
  {
    var r := Absorb(acc, m, {});
    assert r.Keys == acc.Keys;
    forall k | k in r
      ensures r[k] == acc[k]
    {
    }
  }

  /** The union of a single mapping is that mapping. */
  lemma JoinAllOne(h: MetadataHash)
    ensures JoinAll([h]) == h
  {
    var empty: MetadataHash := map[];
    assert [h][..0] == [];
    assert JoinAll([h][..0]) == empty;
    var r := JoinAll([h]);
    assert r == Absorb(empty, h, h.Keys);
    assert empty.Keys == {};
    assert r.Keys == h.Keys;
    forall k | k in r
      ensures r[k] == h[k]
    {
    }
  }

  /** The union does not depend on the order of the inputs (commutative and
      associative). */
  lemma JoinAllOrderFree(a: seq<MetadataHash>, b: seq<MetadataHash>)
    requires multiset(a) == multiset(b)
    ensures JoinAll(a) == JoinAll(b)
  {
    forall k
      ensures HasType(a, k) <==> HasType(b, k)
    {
      if HasType(a, k) {
        var i :| 0 <= i < |a| && k in a[i];
        assert a[i] in multiset(b);
        var j :| 0 <= j < |b| && b[j] == a[i];
      }
      if HasType(b, k) {
        var j :| 0 <= j < |b| && k in b[j];
        assert b[j] in multiset(a);
        var i :| 0 <= i < |a| && a[i] == b[j];
      }
    }
    forall k, x
      ensures HasMember(a, k, x) <==> HasMember(b, k, x)
    {
      if HasMember(a, k, x) {
        var i :| 0 <= i < |a| && k in a[i] && x in a[i][k];
        assert a[i] in multiset(b);
        var j :| 0 <= j < |b| && b[j] == a[i];
      }
      if HasMember(b, k, x) {
        var j :| 0 <= j < |b| && k in b[j] && x in b[j][k];
        assert b[j] in multiset(a);
        var i :| 0 <= i < |a| && a[i] == b[j];
      }
    }
    SameContentsSameJoin(a, b);
  }

  /** Repeating an input changes nothing (duplicates collapse). */
  lemma JoinAllIdempotent(a: seq<MetadataHash>, m: MetadataHash)
    requires m in a
    ensures JoinAll(a + [m]) == JoinAll(a)
  {
    var j :| 0 <= j < |a| && a[j] == m;
    forall k
      ensures HasType(a + [m], k) <==> HasType(a, k)
    {
      if HasType(a + [m], k) {
        var i :| 0 <= i < |a + [m]| && k in (a + [m])[i];
        if i == |a| {
          assert k in a[j];
        } else {
          assert k in a[i];
        }
      }
      if HasType(a, k) {
        var i :| 0 <= i < |a| && k in a[i];
        assert (a + [m])[i] == a[i];
      }
    }
    forall k, x
      ensures HasMember(a + [m], k, x) <==> HasMember(a, k, x)
    {
      if HasMember(a + [m], k, x) {
        var i :| 0 <= i < |a + [m]| && k in (a + [m])[i] && x in (a + [m])[i][k];
        if i == |a| {
          assert k in a[j] && x in a[j][k];
        } else {
          assert k in a[i] && x in a[i][k];
        }
      }
      if HasMember(a, k, x) {
        var i :| 0 <= i < |a| && k in a[i] && x in a[i][k];
        assert (a + [m])[i] == a[i];
      }
    }
    SameContentsSameJoin(a + [m], a);
  }

  /** Merging a union into further maps is the union of everything: this is
      what lets the target manifest absorb the inputs one at a time. */
  lemma JoinAllFlatten(a: seq<MetadataHash>, b: seq<MetadataHash>)
    ensures JoinAll([JoinAll(a)] + b) == JoinAll(a + b)
  {
    FlattenTypes(a, b);
    FlattenMembers(a, b);
    SameContentsSameJoin([JoinAll(a)] + b, a + b);
  }

  lemma FlattenTypes(a: seq<MetadataHash>, b: seq<MetadataHash>)
    ensures forall k :: HasType([JoinAll(a)] + b, k) <==> HasType(a + b, k)
  {
    var j := JoinAll(a);
    JoinAllKeys(a);
    forall k
      ensures HasType([j] + b, k) <==> HasType(a + b, k)
    {
      if HasType([j] + b, k) {
        var i :| 0 <= i < |[j] + b| && k in ([j] + b)[i];
        if i == 0 {
          var i' :| 0 <= i' < |a| && k in a[i'];
          assert (a + b)[i'] == a[i'];
        } else {
          assert (a + b)[|a| + i - 1] == b[i - 1];
        }
      }
      if HasType(a + b, k) {
        var i :| 0 <= i < |a + b| && k in (a + b)[i];
        if i < |a| {
          assert HasType(a, k);
          assert ([j] + b)[0] == j;
        } else {
          assert ([j] + b)[i - |a| + 1] == b[i - |a|];
        }
      }
    }
  }

  lemma FlattenMembers(a: seq<MetadataHash>, b: seq<MetadataHash>)
    ensures forall k, x :: HasMember([JoinAll(a)] + b, k, x) <==> HasMember(a + b, k, x)
  {
    var j := JoinAll(a);
    JoinAllMeaning(a);
    forall k, x
      ensures HasMember([j] + b, k, x) <==> HasMember(a + b, k, x)
    {
      if HasMember([j] + b, k, x) {
        var i :| 0 <= i < |[j] + b| && k in ([j] + b)[i] && x in ([j] + b)[i][k];
        if i == 0 {
          var i' :| 0 <= i' < |a| && k in a[i'] && x in a[i'][k];
          assert (a + b)[i'] == a[i'];
        } else {
          assert (a + b)[|a| + i - 1] == b[i - 1];
        }
      }
      if HasMember(a + b, k, x) {
        var i :| 0 <= i < |a + b| && k in (a + b)[i] && x in (a + b)[i][k];
        if i < |a| {
          assert HasMember(a, k, x) && HasType(a, k);
          assert ([j] + b)[0] == j;
        } else {
          assert ([j] + b)[i - |a| + 1] == b[i - |a|];
        }
      }
    }
  }

  /** One round of the outer loop of `joinHashmaps`: every type of `m`, in
      whatever order the key set yields them, has its members added to the set
      that `retval` holds for it. `m` is handed to `getItemSet` only with one of
      its own keys, so it is left as it was. */
  method AddAllTypes(retval0: MetadataHash, m0: MetadataHash) returns (retval: MetadataHash)
    ensures retval == Absorb(retval0, m0, m0.Keys)
  {
    var m := m0;
    retval := retval0;
    var keys := m.Keys;
    ghost var done: set<string> := {};
    AbsorbNothing(retval0, m);
    while keys != {}
      invariant keys + done == m0.Keys && keys !! done
      invariant m == m0
      invariant retval == Absorb(retval0, m0, done)
      decreases keys
    {
      var mdType :| mdType in keys;
      AbsorbOne(retval0, m0, done, mdType);
      ghost var before := retval;
      var targetItemSet, sourceItemSet;
      targetItemSet, retval := GetItemSet(retval, mdType);
      assert targetItemSet == ItemsOf(before, mdType);
      sourceItemSet, m := GetItemSet(m, mdType);
      // addAll acts on the set that retval holds
      targetItemSet := targetItemSet + sourceItemSet;
      retval := retval[mdType := targetItemSet];
      keys := keys - {mdType};
      done := done + {mdType};
    }
  }

  /** `joinHashmaps`: the per-type union of `maps`, taken in list order; the
      input maps are not changed. */
  method JoinHashmaps(maps: seq<MetadataHash>) returns (r: MetadataHash)
    ensures r == JoinAll(maps)
    ensures maps == [] ==> r == map[]
  {
    var retval: MetadataHash := map[];
    for i := 0 to |maps|
      invariant retval == JoinAll(maps[..i])
    {
      retval := AddAllTypes(retval, maps[i]);
      assert maps[..i + 1][..i] == maps[..i];
    }
    assert maps[..|maps|] == maps;
    return retval;
  }

  /** The name of a `types` element ("" for anything else). */
  function TypeNameOf(e: Element): string
  {
    if e.Types? && e.group.name.Some? then e.group.name.value else ""
  }

  /** The type names of a body, in order. */
  function NamesOf(body: seq<Element>): (names: seq<string>)
    ensures |names| == |body|
    ensures forall i :: 0 <= i < |body| ==> names[i] == TypeNameOf(body[i])
  {
    seq(|body|, i requires 0 <= i < |body| => TypeNameOf(body[i]))
  }

  /** `e` is a `types` element for one key of `hash` that lists exactly that
      key's members, once each and in strictly ascending order. */
  ghost predicate IsGroupFor(e: Element, hash: MetadataHash)
  {
    && e.Types? && e.group.name.Some? && e.group.name.value in hash
    && StrictlyAscending(e.group.members)
    && forall x :: x in e.group.members <==> x in hash[e.group.name.value]
  }

  /** `body` is one `types` element per key of `hash`, in strictly ascending
      order of type name. */
  ghost predicate IsBodyFor(body: seq<Element>, hash: MetadataHash)
  {
    && (forall i :: 0 <= i < |body| ==> IsGroupFor(body[i], hash))
    && StrictlyAscending(NamesOf(body))
    && (forall k :: k in hash ==> k in NamesOf(body))
  }

  /** `d` is the merged manifest for `hash`: the version element first, then
      the body described by IsBodyFor. */
  ghost predicate IsManifestFor(d: Document, versionText: string, hash: MetadataHash)
  {
    |d.children| >= 1 && d.children[0] == Version(versionText) && IsBodyFor(d.children[1..], hash)
  }

  /** The `types` element written for type name `k`. */
  function GroupFor(hash: MetadataHash, k: string): Element
    requires k in hash
  {
    Types(TypeGroup(Some(k), Sorted(hash[k])))
  }

  /** The `types` elements of the merged manifest. */
  function Body(hash: MetadataHash): seq<Element>
  {
    var names := Sorted(hash.Keys);
    SortedMeaning(hash.Keys);
    seq(|names|, i requires 0 <= i < |names| => GroupFor(hash, names[i]))
  }

  lemma BodyIsBodyFor(hash: MetadataHash)
    ensures IsBodyFor(Body(hash), hash)
  {
    var names := Sorted(hash.Keys);
    SortedMeaning(hash.Keys);
    var body := Body(hash);
    forall i | 0 <= i < |body|
      ensures body[i] == GroupFor(hash, names[i]) && IsGroupFor(body[i], hash)
    {
      SortedMeaning(hash[names[i]]);
    }
    assert NamesOf(body) == names;
  }

  /** The manifest that `mergePackageXMLs` writes: the root of `doc1`, its
      version, then the body. */
  function Serialised(root: string, versionText: string, hash: MetadataHash): Document
  {
    Document(root, [Version(versionText)] + Body(hash))
  }

  /** The written manifest has the root and the version it was given, followed
      by one group per type name in ascending order, each listing that type's
      members in ascending order. */
  lemma SerialisedIsManifestFor(root: string, versionText: string, hash: MetadataHash)
    ensures Serialised(root, versionText, hash).root == root
    ensures IsManifestFor(Serialised(root, versionText, hash), versionText, hash)
  {
    var d := Serialised(root, versionText, hash);
    BodyIsBodyFor(hash);
    assert d.children[1..] == Body(hash);
  }

  /** Determinism: there is exactly one body for a mapping, however the
      mapping was built. */
  lemma BodyUnique(b1: seq<Element>, b2: seq<Element>, hash: MetadataHash)
    requires IsBodyFor(b1, hash) && IsBodyFor(b2, hash)
    ensures b1 == b2
  {
    var n1, n2 := NamesOf(b1), NamesOf(b2);
    forall x
      ensures x in n1 <==> x in n2
    {
      if x in n1 {
        var i :| 0 <= i < |n1| && n1[i] == x;
        assert IsGroupFor(b1[i], hash);
      }
      if x in n2 {
        var j :| 0 <= j < |n2| && n2[j] == x;
        assert IsGroupFor(b2[j], hash);
      }
    }
    AscendingUnique(n1, n2);
    forall i | 0 <= i < |b1|
      ensures b1[i] == b2[i]
    {
      assert n1[i] == n2[i];
      assert IsGroupFor(b1[i], hash) && IsGroupFor(b2[i], hash);
      AscendingUnique(b1[i].group.members, b2[i].group.members);
    }
  }

  lemma ManifestUnique(d1: Document, d2: Document, versionText: string, hash: MetadataHash)
    requires d1.root == d2.root
    requires IsManifestFor(d1, versionText, hash) && IsManifestFor(d2, versionText, hash)
    ensures d1 == d2
  {
    BodyUnique(d1.children[1..], d2.children[1..], hash);
    assert d1.children == [d1.children[0]] + d1.children[1..];
    assert d2.children == [d2.children[0]] + d2.children[1..];
  }

  lemma {:induction false} TypesListOfBody(body: seq<Element>)
    requires forall i :: 0 <= i < |body| ==> body[i].Types?
    ensures |TypesList(body)| == |body|
    ensures forall i :: 0 <= i < |body| ==> TypesList(body)[i] == body[i].group
  {
    if body != [] {
      TypesListOfBody(body[1..]);
    }
  }

  /** In groups with pairwise distinct names, a name's members are exactly the
      members of the one group that carries it. */
  lemma HashOfDistinctNames(groups: seq<TypeGroup>, i: int)
    requires Named(groups)
    requires forall a, b :: 0 <= a < b < |groups| ==> groups[a].name != groups[b].name
    requires 0 <= i < |groups|
    ensures groups[i].name.value in HashOf(groups)
    ensures forall m :: m in HashOf(groups)[groups[i].name.value] <==> m in groups[i].members
  {
    HashOfMeaning(groups);
    var k := groups[i].name.value;
    forall m
      ensures Lists(groups, k, m) <==> m in groups[i].members
    {
      if Lists(groups, k, m) {
        var j :| 0 <= j < |groups| && groups[j].name == Some(k) && m in groups[j].members;
        assert j == i;
      }
    }
  }

  /** The groups of a body, with their names. */
  lemma BodyGroups(body: seq<Element>, hash: MetadataHash) returns (groups: seq<TypeGroup>)
    requires IsBodyFor(body, hash)
    ensures groups == TypesList(body) && |groups| == |body|
    ensures forall i :: 0 <= i < |groups| ==> groups[i] == body[i].group && groups[i].name == Some(NamesOf(body)[i])
    ensures forall a, b :: 0 <= a < b < |groups| ==> groups[a].name != groups[b].name
  {
    var names := NamesOf(body);
    forall i | 0 <= i < |body|
      ensures body[i].Types? && body[i].group.name == Some(names[i])
    {
      assert IsGroupFor(body[i], hash);
    }
    TypesListOfBody(body);
    groups := TypesList(body);
    forall a, b | 0 <= a < b < |groups|
      ensures groups[a].name != groups[b].name
    {
      assert Less(names[a], names[b]);
      LessIrreflexive(names[a]);
    }
  }

  lemma ReadBackKeys(body: seq<Element>, hash: MetadataHash, groups: seq<TypeGroup>)
    requires IsBodyFor(body, hash)
    requires groups == TypesList(body) && |groups| == |body|
    requires forall i :: 0 <= i < |groups| ==> groups[i] == body[i].group && groups[i].name == Some(NamesOf(body)[i])
    ensures Named(groups)
    ensures HashOf(groups).Keys == hash.Keys
  {
    var names := NamesOf(body);
    HashOfMeaning(groups);
    forall k
      ensures Declares(groups, k) <==> k in hash
    {
      if k in hash {
        assert k in names;
        var i :| 0 <= i < |names| && names[i] == k;
        assert groups[i].name == Some(k);
      }
      if Declares(groups, k) {
        var i :| 0 <= i < |groups| && groups[i].name == Some(k);
        assert IsGroupFor(body[i], hash);
      }
    }
  }

  lemma ReadBackMembers(body: seq<Element>, hash: MetadataHash, groups: seq<TypeGroup>, i: int)
    requires IsBodyFor(body, hash)
    requires groups == TypesList(body) && |groups| == |body|
    requires forall i :: 0 <= i < |groups| ==> groups[i] == body[i].group && groups[i].name == Some(NamesOf(body)[i])
    requires forall a, b :: 0 <= a < b < |groups| ==> groups[a].name != groups[b].name
    requires Named(groups) && 0 <= i < |groups|
    ensures var k := groups[i].name.value;
            k in HashOf(groups) && k in hash && HashOf(groups)[k] == hash[k]
  {
    var k := groups[i].name.value;
    HashOfDistinctNames(groups, i);
    assert IsGroupFor(body[i], hash);
    assert body[i].group.name.value == k;
    forall m
      ensures m in HashOf(groups)[k] <==> m in hash[k]
    {
      assert m in HashOf(groups)[k] <==> m in groups[i].members;
    }
  }

  lemma ReadBackBody(body: seq<Element>, hash: MetadataHash)
    requires IsBodyFor(body, hash)
    ensures Named(TypesList(body))
    ensures HashOf(TypesList(body)) == hash
  {
    var groups := BodyGroups(body, hash);
    ReadBackKeys(body, hash, groups);
    HashOfMeaning(groups);
    forall k | k in HashOf(groups)
      ensures HashOf(groups)[k] == hash[k]
    {
      assert Declares(groups, k);
      var i :| 0 <= i < |groups| && groups[i].name == Some(k);
      ReadBackMembers(body, hash, groups, i);
    }
  }

  /** Reading the merged manifest back gives its version and exactly the
      mapping it was written from. */
  lemma ReadBack(d: Document, versionText: string, hash: MetadataHash)
    requires IsManifestFor(d, versionText, hash)
    ensures FirstVersion(d.children) == Some(versionText)
    ensures Named(TypesList(d.children))
    ensures HashOf(TypesList(d.children)) == hash
  {
    var body := d.children[1..];
    assert d.children == [d.children[0]] + body;
    assert TypesList(d.children) == TypesList(body);
    ReadBackBody(body, hash);
  }

  /** The loop that writes the merged manifest: the version element of `doc1`
      first, then one `types` element per type name in `TreeSet` order, each
      with its members in `TreeSet` order. */
  method SerialiseManifest(root: string, versionText: string, hash: MetadataHash) returns (output: Document)
    ensures output == Serialised(root, versionText, hash)
  {
    var children := [Version(versionText)];
    var typeNames := Sorted(hash.Keys);
    SortedMeaning(hash.Keys);
    for i := 0 to |typeNames|
      invariant |children| == i + 1 && children[0] == Version(versionText)
      invariant forall k :: 0 <= k < i ==> children[k + 1] == GroupFor(hash, typeNames[k])
    {
      var mdTypeName := typeNames[i];
      var itemsList := hash[mdTypeName];
      var itemNames := Sorted(itemsList);
      var members: seq<string> := [];
      for j := 0 to |itemNames|
        invariant members == itemNames[..j]
      {
        members := members + [itemNames[j]];
      }
      assert members == itemNames;
      children := children + [Types(TypeGroup(Some(mdTypeName), members))];
    }
    output := Document(root, children);
    assert output.children == [Version(versionText)] + Body(hash);
  }

}
