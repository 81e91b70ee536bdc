/** Deduplication of a seeker's taxonomy skills by URI, as the profile
    builder does it before storing them:
    `Array.from(new Map(skills.map(s => [s.uri, s])).values())`.
    A JavaScript `Map` remembers keys in the order they were first inserted,
    and setting an existing key replaces its value where it stands, so every
    URI keeps the place of its first occurrence and the record of its last. */
module SkillDedup {

  datatype Option<T> = None | Some(value: T)

  /** A skill found in the taxonomy for a CV entry or for an occupation. */
  datatype EscoSkill = EscoSkill(uri: string, title: string, skillType: Option<string>)

  /** A JavaScript `Map` from URI to skill: the keys in insertion order and
      the current value of each. */
  datatype InsertionMap = InsertionMap(keys: seq<string>, entries: map<string, EscoSkill>)

  predicate Distinct(xs: seq<string>) {
    forall i, j :: 0 <= i < j < |xs| ==> xs[i] != xs[j]
  }

  /** The URIs of a list of skills, in order. */
  function Uris(skills: seq<EscoSkill>): (us: seq<string>)
    ensures |us| == |skills| && forall i :: 0 <= i < |skills| ==> us[i] == skills[i].uri
  {
    seq(|skills|, i requires 0 <= i < |skills| => skills[i].uri)
  }

  /** The position of the first occurrence of `u`. */
  function FirstIndex(xs: seq<string>, u: string): (r: nat)
    requires u in xs
    ensures r < |xs| && xs[r] == u
    ensures forall j :: 0 <= j < r ==> xs[j] != u
  {
    FirstIndexFrom(xs, u, 0)
  }

  function FirstIndexFrom(xs: seq<string>, u: string, i: nat): (r: nat)
    requires i <= |xs| && u in xs
    requires forall j :: 0 <= j < i ==> xs[j] != u
    ensures i <= r < |xs| && xs[r] == u
    ensures forall j :: 0 <= j < r ==> xs[j] != u
    decreases |xs| - i
  {
    if xs[i] == u then i else FirstIndexFrom(xs, u, i + 1)
  }

  /** The position of the last occurrence of `u`. */
  function LastIndex(xs: seq<string>, u: string): (r: nat)
    requires u in xs
    ensures r < |xs| && xs[r] == u
    ensures forall j :: r < j < |xs| ==> xs[j] != u
  {
    LastIndexBelow(xs, u, |xs|)
  }

  function LastIndexBelow(xs: seq<string>, u: string, i: nat): (r: nat)
    requires i <= |xs| && u in xs
    requires forall j :: i <= j < |xs| ==> xs[j] != u
    ensures r < i && xs[r] == u
    ensures forall j :: r < j < |xs| ==> xs[j] != u
  {
    if xs[i - 1] == u then i - 1 else LastIndexBelow(xs, u, i - 1)
  }

  /** Appending a URI moves no first occurrence of a URI already present. */
  lemma FirstIndexSnoc(xs: seq<string>, x: string, u: string)
    requires u in xs
    ensures u in xs + [x] && FirstIndex(xs + [x], u) == FirstIndex(xs, u)
  {
    var a, b := FirstIndex(xs + [x], u), FirstIndex(xs, u);
    assert (xs + [x])[b] == u;
    assert xs[a] == (xs + [x])[a];
  }

  /** A URI appended for the first time has its first occurrence at the end. */
  lemma FirstIndexNew(xs: seq<string>, x: string)
    requires x !in xs
    ensures FirstIndex(xs + [x], x) == |xs|
  {
    assert forall j :: 0 <= j < |xs| ==> (xs + [x])[j] == xs[j] != x;
  }

  /** Appending `x` makes it its own last occurrence and moves no other. */
  lemma LastIndexSnoc(xs: seq<string>, x: string, u: string)
    requires u in xs + [x]
    ensures u == x ==> LastIndex(xs + [x], u) == |xs|
    ensures u != x ==> u in xs && LastIndex(xs + [x], u) == LastIndex(xs, u)
  {
    var xs' := xs + [x];
    if u != x {
      assert u in xs by {
        var k :| 0 <= k < |xs'| && xs'[k] == u;
        assert k < |xs| && xs[k] == u;
      }
      var a, b := LastIndex(xs', u), LastIndex(xs, u);
      assert xs'[b] == u;
      assert xs'[|xs|] != u;
      assert xs[a] == xs'[a];
    }
  }

  /** `map.set(key, value)`: a new key goes to the end, an existing key keeps
      its place and takes the new value. */
  function Put(m: InsertionMap, key: string, value: EscoSkill): (r: InsertionMap)
    ensures m.keys <= r.keys && |r.keys| <= |m.keys| + 1
  {
    if key in m.entries then InsertionMap(m.keys, m.entries[key := value])
    else InsertionMap(m.keys + [key], m.entries[key := value])
  }

  /** `new Map(skills.map(s => [s.uri, s]))`: the entries set one after the
      other. */
  function FromEntries(skills: seq<EscoSkill>): (m: InsertionMap)
    ensures |m.keys| <= |skills|
  {
    if skills == [] then InsertionMap([], map[])
    else
      var n := |skills| - 1;
      Put(FromEntries(skills[..n]), skills[n].uri, skills[n])
  }

  /** The keys are pairwise distinct and are exactly the entries' keys. */
  ghost predicate KeysAreEntries(m: InsertionMap) {
    Distinct(m.keys) && forall u :: u in m.keys <==> u in m.entries
  }

  /** Each URI of the list is a key, each holding the last skill with it. */
  ghost predicate HoldsLastRecords(m: InsertionMap, skills: seq<EscoSkill>) {
    var us := Uris(skills);
    && (forall u :: u in m.entries <==> u in us)
    && (forall u :: u in m.entries && u in us ==> m.entries[u] == skills[LastIndex(us, u)])
  }

  /** The keys come in the order of the URIs' first occurrences. */
  ghost predicate InFirstOccurrenceOrder(m: InsertionMap, us: seq<string>) {
    forall i, j :: 0 <= i < j < |m.keys| && m.keys[i] in us && m.keys[j] in us ==>
      FirstIndex(us, m.keys[i]) < FirstIndex(us, m.keys[j])
  }

  /** No more keys than URIs, as many exactly when the URIs were distinct,
      and then the keys are the URIs. */
  ghost predicate SizeFacts(m: InsertionMap, us: seq<string>) {
    && |m.keys| <= |us|
    && (|m.keys| == |us| <==> Distinct(us))
    && (Distinct(us) ==> m.keys == us)
  }

  /** What a `Map` built from `skills` holds: every URI of `skills` once as a
      key, keys in order of first occurrence, each with the last skill that
      has it. */
  ghost predicate Represents(m: InsertionMap, skills: seq<EscoSkill>) {
    && KeysAreEntries(m)
    && HoldsLastRecords(m, skills)
    && InFirstOccurrenceOrder(m, Uris(skills))
    && SizeFacts(m, Uris(skills))
  }

  /** Setting one more entry keeps the map faithful to the longer list. */
  lemma PutStep(m: InsertionMap, skills: seq<EscoSkill>, s: EscoSkill)
    requires Represents(m, skills)
    ensures Represents(Put(m, s.uri, s), skills + [s])
  {
    UrisSnoc(skills, s);
    PutKeys(m, skills, s);
    PutRecords(m, skills, s);
    PutOrder(m, skills, s);
    PutSizes(m, skills, s);
  }

  lemma UrisSnoc(skills: seq<EscoSkill>, s: EscoSkill)
    ensures Uris(skills + [s]) == Uris(skills) + [s.uri]
  {
  }

  lemma PutKeys(m: InsertionMap, skills: seq<EscoSkill>, s: EscoSkill)
    requires KeysAreEntries(m) && HoldsLastRecords(m, skills)
    ensures KeysAreEntries(Put(m, s.uri, s))
  {
  }

  lemma PutRecords(m: InsertionMap, skills: seq<EscoSkill>, s: EscoSkill)
    requires HoldsLastRecords(m, skills)
    ensures HoldsLastRecords(Put(m, s.uri, s), skills + [s])
  {
    var us, x := Uris(skills), s.uri;
    var skills' := skills + [s];
    var us' := Uris(skills');
    UrisSnoc(skills, s);
    var m' := Put(m, x, s);
    forall u | u in m'.entries && u in us' ensures m'.entries[u] == skills'[LastIndex(us', u)] {
      LastIndexSnoc(us, x, u);
    }
  }

  lemma PutOrder(m: InsertionMap, skills: seq<EscoSkill>, s: EscoSkill)
    requires KeysAreEntries(m) && HoldsLastRecords(m, skills) && InFirstOccurrenceOrder(m, Uris(skills))
    ensures InFirstOccurrenceOrder(Put(m, s.uri, s), Uris(skills + [s]))
  {
    var us, x := Uris(skills), s.uri;
    var us' := Uris(skills + [s]);
    UrisSnoc(skills, s);
    var m' := Put(m, x, s);
    forall i, j | 0 <= i < j < |m'.keys| && m'.keys[i] in us' && m'.keys[j] in us'
      ensures FirstIndex(us', m'.keys[i]) < FirstIndex(us', m'.keys[j])
    {
      assert m'.keys[i] == m.keys[i] && m.keys[i] in m.entries;
      FirstIndexSnoc(us, x, m'.keys[i]);
      if j < |m.keys| {
        assert m'.keys[j] == m.keys[j] && m.keys[j] in m.entries;
        FirstIndexSnoc(us, x, m'.keys[j]);
      } else {
        FirstIndexNew(us, x);
      }
    }
  }

  lemma PutSizes(m: InsertionMap, skills: seq<EscoSkill>, s: EscoSkill)
    requires KeysAreEntries(m) && HoldsLastRecords(m, skills) && SizeFacts(m, Uris(skills))
    ensures SizeFacts(Put(m, s.uri, s), Uris(skills + [s]))
  {
    var us, x := Uris(skills), s.uri;
    var us' := Uris(skills + [s]);
    UrisSnoc(skills, s);
    if x in us {
      var k := FirstIndex(us, x);
      assert us'[k] == us'[|us|];
    } else {
      assert forall i :: 0 <= i < |us| ==> us'[i] == us[i];
      if Distinct(us) {
        forall i, j | 0 <= i < j < |us'| ensures us'[i] != us'[j] {
          if j == |us| { assert us[i] in us; }
        }
      }
    }
  }

  lemma {:induction false} FromEntriesRepresents(skills: seq<EscoSkill>)
    ensures Represents(FromEntries(skills), skills)
  {
    if skills != [] {
      var n := |skills| - 1;
      FromEntriesRepresents(skills[..n]);
      PutStep(FromEntries(skills[..n]), skills[..n], skills[n]);
      assert skills[..n] + [skills[n]] == skills;
    }
  }

  /** `Array.from(map.values())`: the values in key order. */
  function Values(m: InsertionMap): (vs: seq<EscoSkill>)
    requires forall u :: u in m.keys ==> u in m.entries
    ensures |vs| == |m.keys|
    ensures forall i :: 0 <= i < |m.keys| ==> vs[i] == m.entries[m.keys[i]]
  {
    seq(|m.keys|, i requires 0 <= i < |m.keys| => m.entries[m.keys[i]])
  }

  /** The deduplication step of the profile builder. Its result has pairwise
      distinct URIs, exactly the URIs of the input, in order of their first
      occurrence, each with the last input record that has it, and is as
      long as the input exactly when the input's URIs were already
      distinct. */
  function DedupByUri(skills: seq<EscoSkill>): (unique: seq<EscoSkill>)
    ensures Distinct(Uris(unique))
    ensures forall u :: u in Uris(unique) <==> u in Uris(skills)
    ensures forall i, j :: 0 <= i < j < |unique| ==>
      unique[i].uri in Uris(skills) && unique[j].uri in Uris(skills)
      && FirstIndex(Uris(skills), unique[i].uri) < FirstIndex(Uris(skills), unique[j].uri)
    ensures forall k :: 0 <= k < |unique| ==>
      unique[k].uri in Uris(skills) && unique[k] == skills[LastIndex(Uris(skills), unique[k].uri)]
    ensures |unique| <= |skills|
    ensures |unique| == |skills| <==> Distinct(Uris(skills))
  {
    var m := FromEntries(skills);
    FromEntriesRepresents(skills);
    var unique := Values(m);
    UniqueUris(m, skills, unique);
    unique
  }

  lemma UniqueUris(m: InsertionMap, skills: seq<EscoSkill>, unique: seq<EscoSkill>)
    requires Represents(m, skills)
    requires unique == Values(m)
    ensures Uris(unique) == m.keys
  {
    var us := Uris(skills);
    forall k | 0 <= k < |unique| ensures unique[k].uri == m.keys[k] {
      assert m.keys[k] in m.entries;
      assert m.keys[k] in us;
    }
  }

  /** A list whose URIs are already distinct comes out unchanged. */
  lemma DedupOfDistinct(skills: seq<EscoSkill>)
    requires Distinct(Uris(skills))
    ensures DedupByUri(skills) == skills
  {
    FromEntriesRepresents(skills);
    var m := FromEntries(skills);
    assert SizeFacts(m, Uris(skills));
    DistinctValues(m, skills);
  }

  /** A map whose keys are a list's distinct URIs, each holding the last
      record with it, holds the list itself. */
  lemma DistinctValues(m: InsertionMap, skills: seq<EscoSkill>)
    requires Distinct(Uris(skills)) && m.keys == Uris(skills) && HoldsLastRecords(m, skills)
    ensures forall u :: u in m.keys ==> u in m.entries
    ensures Values(m) == skills
  {
    var us := Uris(skills);
    var unique := Values(m);
    forall k | 0 <= k < |skills| ensures unique[k] == skills[k] {
      var r := LastIndex(us, us[k]);
      assert us[r] == us[k];
    }
  }

  /** Deduplicating twice is the same as deduplicating once. */
  lemma DedupIdempotent(skills: seq<EscoSkill>)
    ensures DedupByUri(DedupByUri(skills)) == DedupByUri(skills)
  {
    DedupOfDistinct(DedupByUri(skills));
  }

  /** A URI seen twice with another in between: it stays in first place and
      carries the later record's title and type. */
  lemma FirstPlaceLastRecord(a: EscoSkill, b: EscoSkill, c: EscoSkill)
    requires a.uri == c.uri && a.uri != b.uri
    ensures DedupByUri([a, b, c]) == [c, b]
  {
    assert [a, b, c][..2] == [a, b];
    assert [a, b][..1] == [a];
    assert [a][..0] == [];
    assert FromEntries([]) == InsertionMap([], map[]);
    var m1 := FromEntries([a]);
    assert m1 == InsertionMap([a.uri], map[a.uri := a]);
    var m2 := FromEntries([a, b]);
    assert m2 == InsertionMap([a.uri, b.uri], map[a.uri := a, b.uri := b]);
    var m3 := FromEntries([a, b, c]);
    assert m3 == InsertionMap([a.uri, b.uri], map[a.uri := c, b.uri := b]);
  }
}
