/**
 * Self-consistency checks on the entities fetched from Sequencescape: every
 * queried id must have been found, no id may be shared by two fetched
 * entities, and the entities fetched by different kinds of id should agree.
 */
module SeqscapeChecks {
  import opened Python
  import opened MetadataUtils

  /** A fetched Sequencescape entity (sample, library or study) through the
      three attributes the checks read with `getattr`. Two entities are equal,
      also inside `set()`, exactly when all three attributes are. */
  datatype Entity = Entity(name: Value, internalId: Value, accessionNumber: Value)

  /** `getattr(ent, id_type)` */
  function Attr(e: Entity, kind: IdKind): Value {
    match kind
    case Name => e.name
    case InternalId => e.internalId
    case AccessionNumber => e.accessionNumber
  }

  /** `SeqscapeEntitiesFetched`: the entities fetched by querying the ids
      `queryIds` of kind `queryIdType`. `fetchedEntityType` stands for the
      result's `entity_type` attribute, taken to be the `fetched_entity_type`
      it was built with. */
  datatype Fetched = Fetched(entitiesFetched: seq<Entity>, queryIds: seq<string>, queryIdType: IdKind,
                             queryEntityType: string, fetchedEntityType: string)

  /** The exceptions the checks raise, or `Ok` when none is raised. */
  datatype Outcome =
    | Ok
    | NotFound(idType: IdKind, missing: set<string>, entityType: string)
    | TooMany(idType: IdKind, duplicated: seq<Value>, entities: seq<Entity>)

  // ---------------------------------------------------------------------------
  // SeqscapeFetchedEntitiesChecks

  /** `_find_missing_ids(ids_found, ids_given)`: the given ids that were not
      found. */
  function FindMissingIds(idsFound: seq<string>, idsGiven: seq<string>): (r: set<string>)
    ensures forall x :: x in r <==> x in idsGiven && x !in idsFound
  {
    Elems(idsGiven) - Elems(idsFound)
  }

  /** `_find_duplicated_ids(ids_found)`: each value found more than once,
      listed once. */
  function FindDuplicatedIds(idsFound: seq<Value>): (r: seq<Value>)
    ensures NoDups(r)
    ensures forall x :: x in r <==> Count(idsFound, x) > 1
    ensures r == [] <==> NoDups(idsFound)
  {
    Duplicated(idsFound)
  }

  /** The fetched entities' attributes of the queried kind. */
  function IdsFound(f: Fetched): (r: seq<Value>)
    ensures |r| == |f.entitiesFetched|
    ensures forall i :: 0 <= i < |r| ==> r[i] == Attr(f.entitiesFetched[i], f.queryIdType)
  {
    seq(|f.entitiesFetched|, i requires 0 <= i < |f.entitiesFetched| => Attr(f.entitiesFetched[i], f.queryIdType))
  }

  /** The same attributes rendered with `str()`. */
  function IdsFoundAsStrings(f: Fetched): (r: seq<string>)
    ensures |r| == |f.entitiesFetched|
    ensures forall i :: 0 <= i < |r| ==> r[i] == ToStr(Attr(f.entitiesFetched[i], f.queryIdType))
  {
    seq(|f.entitiesFetched|, i requires 0 <= i < |f.entitiesFetched| => ToStr(Attr(f.entitiesFetched[i], f.queryIdType)))
  }

  /** No fetched entity has `q` as the `str()` of its attribute. */
  predicate Unmatched(f: Fetched, q: string) {
    forall e :: e in f.entitiesFetched ==> ToStr(Attr(e, f.queryIdType)) != q
  }

  /** `check_all_ids_were_found(entities_fetched_obj)`: NotFound, carrying the
      queried ids no fetched entity matches, exactly when there is one. */
  function CheckAllIdsWereFound(f: Fetched): (r: Outcome)
    ensures r.Ok? || r.NotFound?
    ensures r.NotFound? <==> exists q :: q in f.queryIds && Unmatched(f, q)
    ensures r.NotFound? ==>
              r.idType == f.queryIdType && r.entityType == f.queryEntityType &&
              forall q :: q in r.missing <==> q in f.queryIds && Unmatched(f, q)
  {
    var found := IdsFoundAsStrings(f);
    var missing := FindMissingIds(found, f.queryIds);
    assert forall q :: q in found <==> !Unmatched(f, q) by {
      forall q ensures q in found <==> !Unmatched(f, q) {
        if q in found {
          var i :| 0 <= i < |found| && found[i] == q;
          assert f.entitiesFetched[i] in f.entitiesFetched;
        }
        if !Unmatched(f, q) {
          var e :| e in f.entitiesFetched && ToStr(Attr(e, f.queryIdType)) == q;
          var i :| 0 <= i < |f.entitiesFetched| && f.entitiesFetched[i] == e;
          assert found[i] == q;
        }
      }
    }
    if missing != {} then
      NotFound(f.queryIdType, missing, f.queryEntityType)
    else
      assert forall q :: q in f.queryIds ==> !Unmatched(f, q) by {
        forall q | q in f.queryIds ensures !Unmatched(f, q) {
          assert q !in missing;
        }
      }
      Ok
  }

  /** `[ent for ent in entities if getattr(ent, kind) in ids]` */
  function EntitiesWithIdIn(ents: seq<Entity>, kind: IdKind, ids: seq<Value>): (r: seq<Entity>)
    ensures forall e :: e in r <==> e in ents && Attr(e, kind) in ids
    ensures |r| <= |ents|
  {
    if ents == [] then []
    else
      var rest := EntitiesWithIdIn(ents[1..], kind, ids);
      assert forall e :: e in ents <==> e == ents[0] || e in ents[1..];
      (if Attr(ents[0], kind) in ids then [ents[0]] else []) + rest
  }

  /** `check_no_duplicates_found(entities_fetched_obj)`: TooMany exactly when
      two fetched entities share the queried attribute, carrying each shared
      value once and every entity that holds one of them. */
  function CheckNoDuplicatesFound(f: Fetched): (r: Outcome)
    ensures r.Ok? || r.TooMany?
    ensures r.TooMany? <==> !NoDups(IdsFound(f))
    ensures r.TooMany? ==>
              r.idType == f.queryIdType && NoDups(r.duplicated) &&
              (forall x :: x in r.duplicated <==> Count(IdsFound(f), x) > 1) &&
              (forall e :: e in r.entities <==>
                 e in f.entitiesFetched && Count(IdsFound(f), Attr(e, f.queryIdType)) > 1)
  {
    var idsFound := IdsFound(f);
    var idsDuplicated := FindDuplicatedIds(idsFound);
    var entitiesDuplIds := EntitiesWithIdIn(f.entitiesFetched, f.queryIdType, idsDuplicated);
    if idsDuplicated != [] then TooMany(f.queryIdType, idsDuplicated, entitiesDuplIds) else Ok
  }

  /** Two fetched entities with the same attribute trip the duplicate check. */
  lemma SharedIdIsTooMany(f: Fetched, i: nat, j: nat)
    requires i < j < |f.entitiesFetched|
    requires Attr(f.entitiesFetched[i], f.queryIdType) == Attr(f.entitiesFetched[j], f.queryIdType)
    ensures CheckNoDuplicatesFound(f).TooMany?
    ensures f.entitiesFetched[i] in CheckNoDuplicatesFound(f).entities
    ensures f.entitiesFetched[j] in CheckNoDuplicatesFound(f).entities
  {
    var ids := IdsFound(f);
    assert ids[i] == ids[j];
    CountTwoPositions(ids, i, j);
  }

  // ---------------------------------------------------------------------------
  // SeqscapeRawMetadataChecks.check_entities_fetched

  /** Both checks on one fetch result, the duplicate check only when every id
      was found. */
  function CheckFetched(f: Fetched): Outcome {
    var found := CheckAllIdsWereFound(f);
    if !found.Ok? then found else CheckNoDuplicatesFound(f)
  }

  /** `check_entities_fetched(entities_fetched_list)`: the first exception
      raised over the list, in order. */
  function FirstFailure(list: seq<Fetched>): Outcome {
    if list == [] then Ok
    else
      var o := CheckFetched(list[0]);
      if !o.Ok? then o else FirstFailure(list[1..])
  }

  /** The outcome is Ok exactly when every fetch result passes both checks;
      otherwise it is the outcome of the first one that does not. */
  lemma {:induction false} FirstFailureSpec(list: seq<Fetched>)
    ensures FirstFailure(list).Ok? <==> forall f :: f in list ==> CheckFetched(f).Ok?
    ensures !FirstFailure(list).Ok? ==>
              exists j :: 0 <= j < |list| && FirstFailure(list) == CheckFetched(list[j]) &&
                          forall i :: 0 <= i < j ==> CheckFetched(list[i]).Ok?
  {
    if list != [] {
      FirstFailureSpec(list[1..]);
      assert forall f :: f in list <==> f == list[0] || f in list[1..];
      if CheckFetched(list[0]).Ok? && !FirstFailure(list).Ok? {
        var j :| 0 <= j < |list[1..]| && FirstFailure(list[1..]) == CheckFetched(list[1..][j]) &&
                 forall i :: 0 <= i < j ==> CheckFetched(list[1..][i]).Ok?;
        assert FirstFailure(list) == CheckFetched(list[j + 1]);
        assert forall i :: 0 <= i < j + 1 ==> CheckFetched(list[i]).Ok? by {
          forall i | 0 <= i < j + 1 ensures CheckFetched(list[i]).Ok? {
            if i > 0 { assert list[i] == list[1..][i - 1]; }
          }
        }
      }
    }
  }

  /** A missing id is reported even when the same fetch result also holds
      duplicates: the duplicate check of that result is not reached. */
  lemma NotFoundPreemptsTooMany(f: Fetched)
    requires exists q :: q in f.queryIds && Unmatched(f, q)
    ensures FirstFailure([f]).NotFound?
  {
  }

  /** Failures of a concatenation: those of the first part, else those of the
      second. */
  lemma {:induction false} FirstFailureAppend(a: seq<Fetched>, b: seq<Fetched>)
    ensures FirstFailure(a + b) == if FirstFailure(a).Ok? then FirstFailure(b) else FirstFailure(a)
  {
    if a == [] {
      assert a + b == b;
    } else {
      FirstFailureAppend(a[1..], b);
      assert (a + b)[1..] == a[1..] + b;
    }
  }

  /** The loop of `check_entities_fetched`, leaving at the first raised
      exception. */
  method CheckEntitiesFetched(list: seq<Fetched>) returns (outcome: Outcome)
    ensures outcome == FirstFailure(list)
  {
    var i := 0;
    while i < |list|
      invariant 0 <= i <= |list|
      invariant FirstFailure(list) == FirstFailure(list[i..])
    {
      var f := list[i];
      outcome := CheckAllIdsWereFound(f);
      if !outcome.Ok? {
        return;
      }
      outcome := CheckNoDuplicatesFound(f);
      if !outcome.Ok? {
        return;
      }
      assert list[i..][1..] == list[i + 1..];
      i := i + 1;
    }
    outcome := Ok;
  }

  // ---------------------------------------------------------------------------
  // SeqscapeRawMetadataChecks._compare_entity_sets

  /** `DiffEntitiesRetrievedFromSeqscapeByDiffIdTypesError` */
  datatype DiffEntities = DiffEntities(entityType: string, idType1: IdKind, idType2: IdKind,
                                       entitiesSet1: seq<Entity>, entitiesSet2: seq<Entity>)

  /** Positions `i - 1` and `i` fetched different sets of entities. */
  predicate SetsDiffer(list: seq<Fetched>, i: nat)
    requires 1 <= i < |list|
  {
    Elems(list[i - 1].entitiesFetched) != Elems(list[i].entitiesFetched)
  }

  /** The error recorded for the pair `(i - 1, i)` as written: the id type of
      position `i` is labelled as the first, while the first entity set is
      that of position `i - 1`. */
  function PairErrorAsWritten(list: seq<Fetched>, i: nat): DiffEntities
    requires 1 <= i < |list|
  {
    DiffEntities(list[i].fetchedEntityType, list[i].queryIdType, list[i - 1].queryIdType,
                 list[i - 1].entitiesFetched, list[i].entitiesFetched)
  }

  /** The error recorded for the pair `(i - 1, i)` with matching labels. */
  function PairError(list: seq<Fetched>, i: nat): DiffEntities
    requires 1 <= i < |list|
  {
    DiffEntities(list[i].fetchedEntityType, list[i - 1].queryIdType, list[i].queryIdType,
                 list[i - 1].entitiesFetched, list[i].entitiesFetched)
  }

  /** The errors of the pairs `(i - 1, i)`, `1 <= i < n`, labelled as written
      (`labelsAsWritten`) or with matching labels. */
  function PairErrors(list: seq<Fetched>, n: nat, labelsAsWritten: bool): seq<DiffEntities>
    requires n <= 1 || n <= |list|
  {
    if n <= 1 then []
    else
      PairErrors(list, n - 1, labelsAsWritten) +
      if SetsDiffer(list, n - 1) then
        [if labelsAsWritten then PairErrorAsWritten(list, n - 1) else PairError(list, n - 1)]
      else []
  }

  /** An error is recorded for exactly the compared pairs whose sets differ. */
  lemma {:induction false} PairErrorsSpec(list: seq<Fetched>, n: nat, labelsAsWritten: bool)
    requires n <= 1 || n <= |list|
    ensures PairErrors(list, n, labelsAsWritten) == [] <==> forall i :: 1 <= i < n ==> !SetsDiffer(list, i)
    ensures forall p :: p in PairErrors(list, n, labelsAsWritten) ==>
              exists i :: 1 <= i < n && SetsDiffer(list, i) &&
                          p == if labelsAsWritten then PairErrorAsWritten(list, i) else PairError(list, i)
    ensures forall i :: 1 <= i < n && SetsDiffer(list, i) ==>
              (if labelsAsWritten then PairErrorAsWritten(list, i) else PairError(list, i))
                in PairErrors(list, n, labelsAsWritten)
  {
    if n > 1 {
      PairErrorsSpec(list, n - 1, labelsAsWritten);
      var prev := PairErrors(list, n - 1, labelsAsWritten);
      if SetsDiffer(list, n - 1) {
        var e := if labelsAsWritten then PairErrorAsWritten(list, n - 1) else PairError(list, n - 1);
        assert PairErrors(list, n, labelsAsWritten) == prev + [e];
        assert e == (prev + [e])[|prev|];
      } else {
        assert PairErrors(list, n, labelsAsWritten) == prev;
      }
    }
  }

  /** `_compare_entity_sets(entities_list)` as written: the loop runs over
      `range(1, len(entities_list) - 1)` and labels the id types the other way
      round from the entity sets. */
  method CompareEntitySets(list: seq<Fetched>) returns (problems: seq<DiffEntities>)
    ensures problems == PairErrors(list, if |list| == 0 then 0 else |list| - 1, true)
    ensures |list| <= 2 ==> problems == []
    ensures problems == [] <==> forall i :: 1 <= i < |list| - 1 ==> !SetsDiffer(list, i)
    ensures forall p :: p in problems ==>
              exists i :: 1 <= i < |list| - 1 && SetsDiffer(list, i) &&
                          p.idType1 == list[i].queryIdType && p.entitiesSet1 == list[i - 1].entitiesFetched &&
                          p.idType2 == list[i - 1].queryIdType && p.entitiesSet2 == list[i].entitiesFetched
    ensures forall i :: 1 <= i < |list| - 1 && SetsDiffer(list, i) ==> PairErrorAsWritten(list, i) in problems
  {
    problems := [];
    var i := 1;
    while i < |list| - 1
      invariant 1 <= i && (i <= |list| - 1 || i == 1)
      invariant problems == PairErrors(list, i, true)
    {
      if !(Elems(list[i - 1].entitiesFetched) == Elems(list[i].entitiesFetched)) {
        problems := problems + [DiffEntities(list[i].fetchedEntityType, list[i].queryIdType, list[i - 1].queryIdType,
                                             list[i - 1].entitiesFetched, list[i].entitiesFetched)];
      }
      i := i + 1;
    }
    PairErrorsSpec(list, if |list| == 0 then 0 else |list| - 1, true);
  }

  /** The comparison as evidently intended: every adjacent pair,
      `range(1, len(entities_list))`, each error labelling an entity set with
      the id type that fetched it. */
  method CompareEntitySetsAllPairs(list: seq<Fetched>) returns (problems: seq<DiffEntities>)
    ensures problems == PairErrors(list, |list|, false)
    ensures problems == [] <==> forall i :: 1 <= i < |list| ==> !SetsDiffer(list, i)
    ensures forall p :: p in problems ==>
              exists i :: 1 <= i < |list| && SetsDiffer(list, i) &&
                          p.idType1 == list[i - 1].queryIdType && p.entitiesSet1 == list[i - 1].entitiesFetched &&
                          p.idType2 == list[i].queryIdType && p.entitiesSet2 == list[i].entitiesFetched
  {
    problems := [];
    var i := 1;
    while i < |list|
      invariant 1 <= i && (i <= |list| || i == 1)
      invariant problems == PairErrors(list, i, false)
    {
      if !(Elems(list[i - 1].entitiesFetched) == Elems(list[i].entitiesFetched)) {
        problems := problems + [DiffEntities(list[i].fetchedEntityType, list[i - 1].queryIdType, list[i].queryIdType,
                                             list[i - 1].entitiesFetched, list[i].entitiesFetched)];
      }
      i := i + 1;
    }
    PairErrorsSpec(list, |list|, false);
  }

  /** Adjacent sets all agree exactly when all fetched sets agree. */
  lemma {:induction false} AdjacentAgreementIsAgreement(list: seq<Fetched>)
    ensures (forall i :: 1 <= i < |list| ==> !SetsDiffer(list, i)) <==>
            (forall i, j :: 0 <= i < |list| && 0 <= j < |list| ==>
               Elems(list[i].entitiesFetched) == Elems(list[j].entitiesFetched))
  {
    if |list| > 1 {
      var init := list[..|list| - 1];
      AdjacentAgreementIsAgreement(init);
      if forall i :: 1 <= i < |list| ==> !SetsDiffer(list, i) {
        assert forall i :: 1 <= i < |init| ==> !SetsDiffer(init, i) by {
          forall i | 1 <= i < |init| ensures !SetsDiffer(init, i) {
            assert !SetsDiffer(list, i);
          }
        }
        assert !SetsDiffer(list, |list| - 1);
      }
    }
  }

  /** Two fetch results with different entities: the loop as written compares
      nothing, the intended comparison reports the pair. */
  lemma CompareEntitySetsSkipsLastPair()
    ensures var e1, e2 := Entity(Str("s1"), Int(1), Nil), Entity(Str("s2"), Int(2), Nil);
            var list := [Fetched([e1], ["s1"], Name, "sample", "sample"),
                         Fetched([e2], ["1"], InternalId, "sample", "sample")];
            PairErrors(list, |list| - 1, true) == [] && PairErrors(list, |list|, false) != []
  {
    var e1, e2 := Entity(Str("s1"), Int(1), Nil), Entity(Str("s2"), Int(2), Nil);
    var list := [Fetched([e1], ["s1"], Name, "sample", "sample"),
                 Fetched([e2], ["1"], InternalId, "sample", "sample")];
    assert e1 in Elems(list[0].entitiesFetched) && e1 !in Elems(list[1].entitiesFetched);
    assert SetsDiffer(list, 1);
  }

  /** Three fetch results whose first two differ: as written, the error
      labels the entities fetched by name with the id type internal_id. */
  lemma CompareEntitySetsSwapsIdTypes()
    ensures var e1, e2 := Entity(Str("s1"), Int(1), Nil), Entity(Str("s2"), Int(2), Nil);
            var list := [Fetched([e1], ["s1"], Name, "sample", "sample"),
                         Fetched([e2], ["2"], InternalId, "sample", "sample"),
                         Fetched([e2], ["2"], InternalId, "sample", "sample")];
            var p, q := PairErrors(list, |list| - 1, true), PairErrors(list, |list|, false);
            |p| == 1 && p[0].entitiesSet1 == [e1] && p[0].idType1 == InternalId &&
            |q| == 1 && q[0].entitiesSet1 == [e1] && q[0].idType1 == Name
  {
    var e1, e2 := Entity(Str("s1"), Int(1), Nil), Entity(Str("s2"), Int(2), Nil);
    var list := [Fetched([e1], ["s1"], Name, "sample", "sample"),
                 Fetched([e2], ["2"], InternalId, "sample", "sample"),
                 Fetched([e2], ["2"], InternalId, "sample", "sample")];
    assert e1 in Elems(list[0].entitiesFetched) && e1 !in Elems(list[1].entitiesFetched);
    assert SetsDiffer(list, 1);
    assert Elems(list[1].entitiesFetched) == Elems(list[2].entitiesFetched);
    assert !SetsDiffer(list, 2);
    assert PairErrors(list, 2, true) == [PairErrorAsWritten(list, 1)];
    assert PairErrors(list, 2, false) == [PairError(list, 1)];
    assert PairErrors(list, 3, false) == PairErrors(list, 2, false);
  }

  // ---------------------------------------------------------------------------
  // SeqscapeRawMetadataChecks.check_raw_metadata

  function Flatten(groups: seq<seq<Fetched>>): seq<Fetched> {
    if groups == [] then [] else groups[0] + Flatten(groups[1..])
  }

  /** `check_raw_metadata(raw_metadata)` over the fetch results grouped by
      entity type, in the order the raw metadata lists the types: each group
      is checked, and the comparison of its entity sets is computed and
      discarded. The outcome is the first exception over all groups. */
  method CheckRawMetadata(groups: seq<seq<Fetched>>) returns (outcome: Outcome)
    ensures outcome == FirstFailure(Flatten(groups))
  {
    var i := 0;
    while i < |groups|
      invariant 0 <= i <= |groups|
      invariant FirstFailure(Flatten(groups)) == FirstFailure(Flatten(groups[i..]))
    {
      outcome := CheckEntitiesFetched(groups[i]);
      FirstFailureAppend(groups[i], Flatten(groups[i + 1..]));
      assert groups[i..][1..] == groups[i + 1..];
      if !outcome.Ok? {
        return;
      }
      var _ := CompareEntitySets(groups[i]);
      i := i + 1;
    }
    outcome := Ok;
  }
}
