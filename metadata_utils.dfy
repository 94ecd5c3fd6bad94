/**
 * Normalisation of entity identifiers (main/metadata_utils.py): ids gathered
 * from iRODS attribute-value-unit triples or from a file header are filed in
 * a dict with one list per identifier kind, `name`, `internal_id` and
 * `accession_number`; plus the path helpers that name a lanelet and guess its
 * iRODS location, and the comparison of entity lists fetched by different
 * kinds of id.
 */
module MetadataUtils {
  import opened Python
  import opened Paths
  import Utils

  /** The kinds of identifier an entity is known by, which are the keys of
      the dicts of ids. The kind guesser of the program is not part of this
      model: the operations that need it take it as a total function into
      this type. */
  datatype IdKind = Name | InternalId | AccessionNumber {
    /** The dict key under which ids of this kind are filed. */
    function Key(): string {
      match this
      case Name => "name"
      case InternalId => "internal_id"
      case AccessionNumber => "accession_number"
    }
  }

  const KindKeys: set<IdKind> := {Name, InternalId, AccessionNumber}

  /** A map that has the three kinds as keys is defined on every kind. */
  lemma AllKinds<V>(m: map<IdKind, V>)
    requires Name in m && InternalId in m && AccessionNumber in m
    ensures forall kind: IdKind :: kind in m
  {
    forall kind: IdKind ensures kind in m {
      match kind
      case Name =>
      case InternalId =>
      case AccessionNumber =>
    }
  }

  // ---------------------------------------------------------------------------
  // HeaderUtils.sort_entities_by_guessing_id_type

  /** The ids whose guessed kind is `kind`, in input order. */
  function Bucket<T>(ids: seq<T>, guess: T -> IdKind, kind: IdKind): seq<T> {
    if ids == [] then []
    else
      var rest := Bucket(ids[..|ids| - 1], guess, kind);
      if guess(ids[|ids| - 1]) == kind then rest + [ids[|ids| - 1]] else rest
  }

  /** A bucket holds each id of its kind as often as the input does, and no
      id of another kind. */
  lemma {:induction false} BucketCount<T>(ids: seq<T>, guess: T -> IdKind, kind: IdKind, x: T)
    ensures Count(Bucket(ids, guess, kind), x) == if guess(x) == kind then Count(ids, x) else 0
  {
    if ids != [] {
      var init, last := ids[..|ids| - 1], ids[|ids| - 1];
      var rest := Bucket(init, guess, kind);
      BucketCount(init, guess, kind, x);
      if guess(last) == kind {
        assert (rest + [last])[..|rest|] == rest;
      }
    }
  }

  /** Filing keeps the input order: the bucket of a concatenation is the
      concatenation of the buckets. */
  lemma {:induction false} BucketAppend<T>(a: seq<T>, b: seq<T>, guess: T -> IdKind, kind: IdKind)
    ensures Bucket(a + b, guess, kind) == Bucket(a, guess, kind) + Bucket(b, guess, kind)
  {
    if b == [] {
      assert a + b == a;
    } else {
      BucketAppend(a, b[..|b| - 1], guess, kind);
      assert (a + b)[..|a + b| - 1] == a + b[..|b| - 1];
    }
  }

  /** Every id lands in exactly one bucket. */
  lemma {:induction false} BucketsTotal<T>(ids: seq<T>, guess: T -> IdKind)
    ensures |Bucket(ids, guess, Name)| + |Bucket(ids, guess, InternalId)|
            + |Bucket(ids, guess, AccessionNumber)| == |ids|
  {
    if ids != [] {
      BucketsTotal(ids[..|ids| - 1], guess);
    }
  }

  /** The dict built by `sort_entities_by_guessing_id_type`: the keys in the
      order name, accession_number, internal_id, each holding the ids of its
      kind in input order. */
  function SortedIds<T>(ids: seq<T>, guess: T -> IdKind): Dict<IdKind, seq<T>> {
    Dict([Name, AccessionNumber, InternalId],
         map[Name := Bucket(ids, guess, Name),
             AccessionNumber := Bucket(ids, guess, AccessionNumber),
             InternalId := Bucket(ids, guess, InternalId)])
  }

  /** The dict has exactly the three kind keys; each id is filed under its
      guessed kind as often as it occurs in the input and nowhere else; the
      lists together are as long as the input. */
  lemma SortedIdsSpec<T>(ids: seq<T>, guess: T -> IdKind)
    ensures SortedIds(ids, guess).Valid() && SortedIds(ids, guess).entries.Keys == KindKeys
    ensures forall kind: IdKind :: kind in SortedIds(ids, guess).entries
    ensures forall kind: IdKind, x :: Count(SortedIds(ids, guess).entries[kind], x) ==
              if guess(x) == kind then Count(ids, x) else 0
    ensures var r := SortedIds(ids, guess).entries;
            |r[Name]| + |r[InternalId]| + |r[AccessionNumber]| == |ids|
  {
    AllKinds(SortedIds(ids, guess).entries);
    BucketsTotal(ids, guess);
    forall kind: IdKind, x ensures Count(SortedIds(ids, guess).entries[kind], x) ==
                                 if guess(x) == kind then Count(ids, x) else 0 {
      BucketCount(ids, guess, kind, x);
    }
  }

  /** `sort_entities_by_guessing_id_type(ids_list)`: starts from three empty
      lists and appends each id to the list of its guessed kind. */
  method SortEntitiesByGuessingIdType<T>(ids: seq<T>, guess: T -> IdKind)
    returns (sorted: Dict<IdKind, seq<T>>)
    ensures sorted == SortedIds(ids, guess)
  {
    sorted := Dict([Name, AccessionNumber, InternalId],
                   map[Name := [], AccessionNumber := [], InternalId := []]);
    assert ids[..0] == [];
    for i := 0 to |ids|
      invariant sorted == SortedIds(ids[..i], guess)
    {
      var id := ids[i];
      var key := guess(id);
      AllKinds(sorted.entries);
      assert ids[..i + 1][..i] == ids[..i];
      sorted := sorted.(entries := sorted.entries[key := sorted.entries[key] + [id]]);
    }
    assert ids[..|ids|] == ids;
  }

  // ---------------------------------------------------------------------------
  // iRODSUtils.extract_values_for_key_from_irods_metadata and the extractors

  /** An iRODS metadata triple, of which the checks read the attribute and
      the value. */
  datatype Avu = Avu(attribute: string, value: string)

  /** The values of the AVUs whose attribute is `key`, in input order. */
  function ValuesForKey(avus: seq<Avu>, key: string): seq<string> {
    if avus == [] then []
    else
      var rest := ValuesForKey(avus[..|avus| - 1], key);
      if avus[|avus| - 1].attribute == key then rest + [avus[|avus| - 1].value] else rest
  }

  /** Each value occurs as often as an AVU with the key and that value. */
  lemma {:induction false} ValuesForKeyCount(avus: seq<Avu>, key: string, v: string)
    ensures Count(ValuesForKey(avus, key), v) == Count(avus, Avu(key, v))
  {
    if avus != [] {
      var init, last := avus[..|avus| - 1], avus[|avus| - 1];
      var rest := ValuesForKey(init, key);
      ValuesForKeyCount(init, key, v);
      if last.attribute == key {
        assert (rest + [last.value])[..|rest|] == rest;
      }
    }
  }

  /** The values keep the order of their AVUs. */
  lemma {:induction false} ValuesForKeyAppend(a: seq<Avu>, b: seq<Avu>, key: string)
    ensures ValuesForKey(a + b, key) == ValuesForKey(a, key) + ValuesForKey(b, key)
  {
    if b == [] {
      assert a + b == a;
    } else {
      ValuesForKeyAppend(a, b[..|b| - 1], key);
      assert (a + b)[..|a + b| - 1] == a + b[..|b| - 1];
    }
  }

  /** `extract_values_for_key_from_irods_metadata(avus_list, key)` */
  method ExtractValuesForKey(avus: seq<Avu>, key: string) returns (results: seq<string>)
    ensures results == ValuesForKey(avus, key)
  {
    results := [];
    for i := 0 to |avus|
      invariant results == ValuesForKey(avus[..i], key)
    {
      assert avus[..i + 1][..i] == avus[..i];
      if avus[i].attribute == key {
        results := results + [avus[i].value];
      }
    }
    assert avus[..|avus|] == avus;
  }

  /** `extract_samples_from_irods_metadata`: names from `sample`, accession
      numbers from `sample_accession_number`, internal ids from `sample_id`. */
  function ExtractSamples(avus: seq<Avu>): (r: Dict<IdKind, seq<string>>)
    ensures r.Valid() && r.entries.Keys == KindKeys
    ensures r.keys == [Name, AccessionNumber, InternalId]
    ensures r.entries[Name] == ValuesForKey(avus, "sample")
    ensures r.entries[AccessionNumber] == ValuesForKey(avus, "sample_accession_number")
    ensures r.entries[InternalId] == ValuesForKey(avus, "sample_id")
  {
    Dict([Name, AccessionNumber, InternalId],
         map[Name := ValuesForKey(avus, "sample"),
             AccessionNumber := ValuesForKey(avus, "sample_accession_number"),
             InternalId := ValuesForKey(avus, "sample_id")])
  }

  /** `extract_studies_from_irods_metadata`: names from `study`, internal ids
      from `study_id`, accession numbers from `study_accession_number`. */
  function ExtractStudies(avus: seq<Avu>): (r: Dict<IdKind, seq<string>>)
    ensures r.Valid() && r.entries.Keys == KindKeys
    ensures r.keys == [Name, InternalId, AccessionNumber]
    ensures r.entries[Name] == ValuesForKey(avus, "study")
    ensures r.entries[InternalId] == ValuesForKey(avus, "study_id")
    ensures r.entries[AccessionNumber] == ValuesForKey(avus, "study_accession_number")
  {
    Dict([Name, InternalId, AccessionNumber],
         map[Name := ValuesForKey(avus, "study"),
             InternalId := ValuesForKey(avus, "study_id"),
             AccessionNumber := ValuesForKey(avus, "study_accession_number")])
  }

  /** The library ids recorded under either `library_id` or `library`. */
  predicate IsLibraryId(avus: seq<Avu>, x: string) {
    Avu("library_id", x) in avus || Avu("library", x) in avus
  }

  /** A map defined on every kind has exactly the three kinds as keys. */
  lemma KindKeysOfTotal<V>(m: map<IdKind, V>)
    requires forall kind: IdKind :: kind in m
    ensures m.Keys == KindKeys
  {
    forall kind | kind in m.Keys ensures kind in KindKeys {
      match kind
      case Name =>
      case InternalId =>
      case AccessionNumber =>
    }
    assert Name in m && InternalId in m && AccessionNumber in m;
  }

  /** `ids` files exactly the elements of `filed`, each once, under its
      guessed kind. */
  ghost predicate FiledByKind(ids: map<IdKind, seq<string>>, filed: set<string>, guess: string -> IdKind) {
    (forall kind: IdKind :: kind in ids) &&
    (forall kind: IdKind :: NoDups(ids[kind])) &&
    (forall kind: IdKind, x :: x in ids[kind] <==> x in filed && guess(x) == kind)
  }

  /** Appending a new element to the list of its guessed kind keeps the
      filing exact. */
  lemma FiledByKindStep(ids: map<IdKind, seq<string>>, filed: set<string>, guess: string -> IdKind, id: string)
    requires FiledByKind(ids, filed, guess) && id !in filed
    ensures FiledByKind(ids[guess(id) := ids[guess(id)] + [id]], filed + {id}, guess)
  {
    var key := guess(id);
    var ids' := ids[key := ids[key] + [id]];
    forall kind: IdKind ensures NoDups(ids'[kind]) {
      if kind == key {
        assert id !in ids[key];
      }
    }
  }

  /** `set(library_ids + library_names)`: the pool of library ids. */
  method LibraryIdPool(avus: seq<Avu>) returns (pool: set<string>)
    ensures forall x :: x in pool <==> IsLibraryId(avus, x)
  {
    var internalIds := ExtractValuesForKey(avus, "library_id");
    var names := ExtractValuesForKey(avus, "library");
    pool := Elems(internalIds + names);
    forall x ensures x in pool <==> IsLibraryId(avus, x) {
      CountPositive(internalIds, x);
      CountPositive(names, x);
      ValuesForKeyCount(avus, "library_id", x);
      ValuesForKeyCount(avus, "library", x);
      CountPositive(avus, Avu("library_id", x));
      CountPositive(avus, Avu("library", x));
    }
  }

  /** The loop of `extract_libraries_from_irods_metadata`: files every
      element of the pool under its guessed kind, in the set's (unspecified)
      iteration order. */
  method FileByGuessedKind(pool0: set<string>, guess: string -> IdKind) returns (ids: Dict<IdKind, seq<string>>)
    ensures ids.keys == [Name, AccessionNumber, InternalId]
    ensures FiledByKind(ids.entries, pool0, guess)
  {
    var pool := pool0;
    var m := map[Name := [], AccessionNumber := [], InternalId := []];
    ghost var filed: set<string> := {};
    assert FiledByKind(m, filed, guess) by {
      AllKinds(m);
    }
    while pool != {}
      invariant pool + filed == pool0 && pool !! filed
      invariant FiledByKind(m, filed, guess)
      decreases |pool|
    {
      var id :| id in pool;
      FiledByKindStep(m, filed, guess, id);
      m := m[guess(id) := m[guess(id)] + [id]];
      pool := pool - {id};
      filed := filed + {id};
    }
    ids := Dict([Name, AccessionNumber, InternalId], m);
  }

  /** `extract_libraries_from_irods_metadata`: the values under `library_id`
      and `library` are pooled into a set, which is then filed by guessed
      kind. */
  method ExtractLibraries(avus: seq<Avu>, guess: string -> IdKind) returns (ids: Dict<IdKind, seq<string>>)
    ensures ids.Valid() && ids.entries.Keys == KindKeys
    ensures forall kind: IdKind :: kind in ids.entries
    ensures ids.keys == [Name, AccessionNumber, InternalId]
    ensures forall kind: IdKind :: NoDups(ids.entries[kind])
    ensures forall kind: IdKind, x :: x in ids.entries[kind] <==> IsLibraryId(avus, x) && guess(x) == kind
  {
    var pool := LibraryIdPool(avus);
    ids := FileByGuessedKind(pool, guess);
    KindKeysOfTotal(ids.entries);
  }

  // ---------------------------------------------------------------------------
  // GeneralUtils.check_same_entities

  /** The error recorded when two kinds of id fetched different entities. */
  datatype DifferentEntities<E> = DifferentEntities(
    entityType: string, idType1: IdKind, idType2: IdKind, entitiesSet1: seq<E>, entitiesSet2: seq<E>)

  /** The lists at key positions `i - 1` and `i` are both non-empty and hold
      different sets of entities. */
  predicate PairDiffers<E(==)>(d: Dict<IdKind, seq<E>>, i: nat)
    requires 1 <= i < |d.keys|
  {
    var l1, l2 := d.Get(d.keys[i - 1]), d.Get(d.keys[i]);
    l1.Some? && l1.value != [] && l2.Some? && l2.value != [] && Elems(l1.value) != Elems(l2.value)
  }

  /** The problem recorded for the pair at positions `i - 1` and `i`: the
      two kinds and the lists fetched by each. */
  function DifferentPair<E(==)>(d: Dict<IdKind, seq<E>>, entityType: string, i: nat): DifferentEntities<E>
    requires 1 <= i < |d.keys| && PairDiffers(d, i)
  {
    DifferentEntities(entityType, d.keys[i - 1], d.keys[i], d.Get(d.keys[i - 1]).value, d.Get(d.keys[i]).value)
  }

  /** The problem recorded for the pair at positions `i - 1` and `i`, if any. */
  function PairProblem<E(==)>(d: Dict<IdKind, seq<E>>, entityType: string, i: nat): seq<DifferentEntities<E>>
    requires 1 <= i < |d.keys|
  {
    if PairDiffers(d, i) then [DifferentPair(d, entityType, i)] else []
  }

  /** The problems of the adjacent pairs `(i - 1, i)` for `1 <= i < n`, in
      order. */
  function AdjacentProblems<E(==)>(d: Dict<IdKind, seq<E>>, entityType: string, n: nat): seq<DifferentEntities<E>>
    requires n <= 1 || n <= |d.keys|
  {
    if n <= 1 then [] else AdjacentProblems(d, entityType, n - 1) + PairProblem(d, entityType, n - 1)
  }

  /** A problem is recorded exactly for each compared pair whose lists are
      non-empty and differ, and for no other; it names the two kinds and
      carries the two lists. */
  lemma {:induction false} AdjacentProblemsSpec<E>(d: Dict<IdKind, seq<E>>, entityType: string, n: nat)
    requires n <= 1 || n <= |d.keys|
    ensures AdjacentProblems(d, entityType, n) == [] <==> forall i :: 1 <= i < n ==> !PairDiffers(d, i)
    ensures forall p :: p in AdjacentProblems(d, entityType, n) ==>
              exists i :: 1 <= i < n && PairDiffers(d, i) && p == DifferentPair(d, entityType, i)
    ensures forall i :: 1 <= i < n && PairDiffers(d, i) ==>
              DifferentPair(d, entityType, i) in AdjacentProblems(d, entityType, n)
    ensures |AdjacentProblems(d, entityType, n)| <= if n == 0 then 0 else n - 1
  {
    if n > 1 {
      AdjacentProblemsSpec(d, entityType, n - 1);
      var prev := AdjacentProblems(d, entityType, n - 1);
      var last := PairProblem(d, entityType, n - 1);
      assert AdjacentProblems(d, entityType, n) == prev + last;
      if PairDiffers(d, n - 1) {
        assert DifferentPair(d, entityType, n - 1) == (prev + last)[|prev|];
      }
    }
  }

  /** `check_same_entities(seqsc_entities, entity_type)` as written: the loop
      runs over `range(1, len(id_types) - 1)`, so the last adjacent pair of
      kinds is never compared. */
  method CheckSameEntities<E(==)>(d: Dict<IdKind, seq<E>>, entityType: string)
    returns (problems: seq<DifferentEntities<E>>)
    ensures problems == AdjacentProblems(d, entityType, if |d.keys| == 0 then 0 else |d.keys| - 1)
    ensures |d.keys| < 3 ==> problems == []
  {
    problems := [];
    var idTypes := d.keys;
    var i := 1;
    while i < |idTypes| - 1
      invariant 1 <= i && (i <= |idTypes| - 1 || i == 1)
      invariant problems == AdjacentProblems(d, entityType, i)
    {
      var l1, l2 := d.Get(idTypes[i - 1]), d.Get(idTypes[i]);
      if l1.Some? && l1.value != [] && l2.Some? && l2.value != [] {
        if Elems(l1.value) != Elems(l2.value) {
          problems := problems + [DifferentEntities(entityType, idTypes[i - 1], idTypes[i], l1.value, l2.value)];
        }
      }
      i := i + 1;
    }
  }

  /** The comparison as evidently intended: every adjacent pair of kinds,
      `range(1, len(id_types))`. */
  method CheckSameEntitiesAllPairs<E(==)>(d: Dict<IdKind, seq<E>>, entityType: string)
    returns (problems: seq<DifferentEntities<E>>)
    ensures problems == AdjacentProblems(d, entityType, |d.keys|)
    ensures problems == [] <==> forall i :: 1 <= i < |d.keys| ==> !PairDiffers(d, i)
  {
    problems := [];
    var idTypes := d.keys;
    var i := 1;
    while i < |idTypes|
      invariant 1 <= i && (i <= |idTypes| || i == 1)
      invariant problems == AdjacentProblems(d, entityType, i)
    {
      var l1, l2 := d.Get(idTypes[i - 1]), d.Get(idTypes[i]);
      if l1.Some? && l1.value != [] && l2.Some? && l2.value != [] {
        if Elems(l1.value) != Elems(l2.value) {
          problems := problems + [DifferentEntities(entityType, idTypes[i - 1], idTypes[i], l1.value, l2.value)];
        }
      }
      i := i + 1;
    }
    assert problems == [] <==> forall i :: 1 <= i < |d.keys| ==> !PairDiffers(d, i) by {
      AdjacentProblemsSpec(d, entityType, |d.keys|);
    }
  }

  /** Two kinds that fetched different entities: the loop as written compares
      nothing, the intended comparison reports the pair. */
  lemma CheckSameEntitiesSkipsLastPair()
    ensures var d := Dict([Name, InternalId], map[Name := [1], InternalId := [2]]);
            AdjacentProblems(d, "sample", |d.keys| - 1) == [] &&
            AdjacentProblems(d, "sample", |d.keys|) ==
              [DifferentEntities("sample", Name, InternalId, [1], [2])]
  {
    var d := Dict([Name, InternalId], map[Name := [1], InternalId := [2]]);
    assert 1 in Elems(d.Get(Name).value) && 1 !in Elems(d.Get(InternalId).value);
    assert PairDiffers(d, 1);
  }

  // ---------------------------------------------------------------------------
  // iRODSUtils.extract_lanelet_name, guess_seq_irods_path_from_lustre_path

  /** `extract_lanelet_name(irods_path)`: the file name, i.e. the longest
      suffix without a slash. */
  function ExtractLaneletName(irodsPath: string): (r: string)
    ensures HasNoSlash(r) && |r| <= |irodsPath| && r == irodsPath[|irodsPath| - |r|..]
    ensures |r| < |irodsPath| ==> irodsPath[|irodsPath| - |r| - 1] == '/'
  {
    Basename(irodsPath)
  }

  /** `s.split(c)[0]`: `s` up to the first occurrence of `c`, or all of it. */
  function FirstField(s: string, c: char): (r: string)
    ensures r <= s && c !in r
    ensures |r| < |s| ==> s[|r|] == c
  {
    if s == [] || s[0] == c then [] else [s[0]] + FirstField(s[1..], c)
  }

  /** `guess_seq_irods_path_from_lustre_path(lustre_path)`: NPG files live in
      `/seq/<run id>/<file name>`, the run id being the file name up to its
      first underscore. The file name is taken as the basename of the path. */
  function GuessSeqIrodsPath(lustrePath: string): (r: string)
    ensures Basename(r) == Basename(lustrePath)
  {
    var fname := Basename(lustrePath);
    var runId := FirstField(fname, '_');
    BasenameOfJoin("/seq/" + runId, fname);
    "/seq/" + runId + "/" + fname
  }
}
