/**
 * The metadata read from a SAM/BAM/CRAM file header, and its validity check:
 * sentinel identifiers ("N/A", -1, None, ...) are reported by
 * `_check_for_invalid_ids` and stripped by `fix_metadata`.
 */
module HeaderMetadata {
  import opened Python
  import opened MetadataUtils

  /** `SAMFileHeaderMetadata.INVALID_IDS`: four strings, the integer -1 and
      None. */
  const InvalidIds: seq<Value> := [Str("N/A"), Str("undefined"), Str("unspecified"), Int(-1), Str(""), Nil]

  /** The name of the check a CheckResult reports on; only
      `CHECK_NAMES.check_valid_ids` occurs here. */
  datatype CheckName = CheckValidIds {
    function Text(): string {
      "Check valid id strings"
    }
  }

  /** `_is_id_valid(id)`: membership in the sentinel list. */
  predicate IsIdValid(id: Value) {
    id !in InvalidIds
  }

  /** Validity is decided by Python's `==`, so the string "-1" is valid while
      the integer -1 is not, and no other string or integer is rejected. */
  lemma IsIdValidSpec(id: Value)
    ensures !IsIdValid(id) <==>
              id == Str("N/A") || id == Str("undefined") || id == Str("unspecified") ||
              id == Int(-1) || id == Str("") || id == Nil
    ensures IsIdValid(Str("-1"))
  {
  }

  /** The ids under one key of a header dict: a list as parsed, or the set
      that `fix_metadata` leaves behind. */
  datatype Ids = IdList(list: seq<Value>) | IdSet(elems: set<Value>)

  function Members(ids: Ids): set<Value> {
    match ids
    case IdList(l) => Elems(l)
    case IdSet(s) => s
  }

  /** `_filter_out_invalid_ids(ids)`: the set of the valid ids. */
  function FilterOutInvalidIds(ids: Ids): (r: set<Value>)
    ensures r <= Members(ids)
    ensures forall x :: x in r ==> IsIdValid(x)
    ensures forall x :: x in Members(ids) && x !in r ==> !IsIdValid(x)
  {
    set x | x in Members(ids) && IsIdValid(x)
  }

  /** Filtering a filtered set changes nothing. */
  lemma FilterOutInvalidIdsIdempotent(ids: Ids)
    ensures FilterOutInvalidIds(IdSet(FilterOutInvalidIds(ids))) == FilterOutInvalidIds(ids)
  {
  }

  /** `[id for id in values if not _is_id_valid(id)]` on a list. */
  function InvalidOf(l: seq<Value>): (r: seq<Value>)
    ensures |r| <= |l|
  {
    if l == [] then []
    else (if IsIdValid(l[0]) then [] else [l[0]]) + InvalidOf(l[1..])
  }

  lemma {:induction false} InvalidOfMembers(l: seq<Value>)
    ensures forall x :: x in InvalidOf(l) <==> x in l && !IsIdValid(x)
  {
    if l != [] {
      InvalidOfMembers(l[1..]);
      assert forall x :: x in l <==> x == l[0] || x in l[1..];
    }
  }

  /** The invalid ids under one key, as reported in the error message, with
      their multiplicity in the list; a set holds each at most once. */
  function WrongIds(ids: Ids): multiset<Value> {
    match ids
    case IdList(l) => multiset(InvalidOf(l))
    case IdSet(s) => multiset(set x | x in s && !IsIdValid(x))
  }

  /** An id is reported exactly when it is an invalid member. */
  lemma WrongIdsMembers(ids: Ids)
    ensures forall x :: x in WrongIds(ids) <==> x in Members(ids) && !IsIdValid(x)
  {
    if ids.IdList? {
      InvalidOfMembers(ids.list);
    }
  }

  // ---------------------------------------------------------------------------
  // CheckResult

  /** `RESULT`; `Unset` is the value a fresh CheckResult holds until a check
      sets it. */
  datatype Status = Unset | Success | Failure

  /** The error messages of `_check_for_invalid_ids`:
      "No ids found." and "Invalid <key>(s) for <entity type>: <wrong ids>". */
  datatype Message = NoIdsFound | InvalidIdsOf(key: IdKind, entityType: string, wrong: multiset<Value>)

  datatype CheckResult = CheckResult(checkName: CheckName, result: Status, errorMessage: seq<Message>)

  /** The result before any key is examined. */
  function ChecksStart(noKeys: bool): CheckResult {
    if noKeys then CheckResult(CheckValidIds, Failure, [NoIdsFound])
    else CheckResult(CheckValidIds, Unset, [])
  }

  /** The result after examining key `k` with invalid ids `wrong`. */
  function CheckStep(before: CheckResult, k: IdKind, entityType: string, wrong: multiset<Value>): CheckResult {
    if |wrong| == 0 then before
    else CheckResult(before.checkName, Failure, before.errorMessage + [InvalidIdsOf(k, entityType, wrong)])
  }

  /** The result once the dict items `items` have been examined, starting
      from the fresh result of a dict that has keys or, if `noKeys`, has
      none. */
  function ChecksOver(items: seq<(IdKind, Ids)>, noKeys: bool, entityType: string): CheckResult {
    if items == [] then ChecksStart(noKeys)
    else
      var last := items[|items| - 1];
      CheckStep(ChecksOver(items[..|items| - 1], noKeys, entityType), last.0, entityType, WrongIds(last.1))
  }

  /** `_check_for_invalid_ids(multi_ids_dict, entity_type)` */
  function InvalidIdsCheck(d: Dict<IdKind, Ids>, entityType: string): CheckResult
    requires d.Valid()
  {
    ChecksOver(d.Items(), d.keys == [], entityType)
  }

  /** The "Invalid ..." messages that the items call for: one per item with
      an invalid id. */
  function Expected(items: seq<(IdKind, Ids)>, entityType: string): set<Message> {
    set p | p in items && |WrongIds(p.1)| > 0 :: InvalidIdsOf(p.0, entityType, WrongIds(p.1))
  }

  /** FAILURE exactly when there is a message, and "No ids found." exactly
      for a dict without keys. */
  lemma {:induction false} ChecksOverStatus(items: seq<(IdKind, Ids)>, noKeys: bool, entityType: string)
    ensures var r := ChecksOver(items, noKeys, entityType);
            r.checkName == CheckValidIds && r.result != Success &&
            (r.result == Failure <==> r.errorMessage != []) &&
            (NoIdsFound in r.errorMessage <==> noKeys)
  {
    if items != [] {
      ChecksOverStatus(items[..|items| - 1], noKeys, entityType);
    }
  }

  /** The "Invalid ..." messages are exactly the expected ones. */
  lemma {:induction false} ChecksOverMessages(items: seq<(IdKind, Ids)>, noKeys: bool, entityType: string)
    ensures forall m :: m in ChecksOver(items, noKeys, entityType).errorMessage && m.InvalidIdsOf? <==>
              m in Expected(items, entityType)
  {
    if items != [] {
      var init, last := items[..|items| - 1], items[|items| - 1];
      ChecksOverMessages(init, noKeys, entityType);
      assert items == init + [last];
      assert forall p :: p in items <==> p in init || p == last;
      var w := WrongIds(last.1);
      assert Expected(items, entityType) ==
             Expected(init, entityType) + (if |w| > 0 then {InvalidIdsOf(last.0, entityType, w)} else {});
    }
  }

  /** "No ids found." comes first when the dict has no keys, and every other
      message is an "Invalid ..." one. */
  predicate NoIdsFoundFirst(msgs: seq<Message>, noKeys: bool) {
    (noKeys ==> msgs != [] && msgs[0] == NoIdsFound) &&
    forall i :: 0 <= i < |msgs| && (i > 0 || !noKeys) ==> msgs[i].InvalidIdsOf?
  }

  lemma {:induction false} ChecksOverOrder(items: seq<(IdKind, Ids)>, noKeys: bool, entityType: string)
    ensures NoIdsFoundFirst(ChecksOver(items, noKeys, entityType).errorMessage, noKeys)
  {
    if items != [] {
      var init, last := items[..|items| - 1], items[|items| - 1];
      ChecksOverOrder(init, noKeys, entityType);
      var before := ChecksOver(init, noKeys, entityType).errorMessage;
      var w := WrongIds(last.1);
      if |w| > 0 {
        var msgs := before + [InvalidIdsOf(last.0, entityType, w)];
        assert ChecksOver(items, noKeys, entityType).errorMessage == msgs;
        assert NoIdsFoundFirst(msgs, noKeys) by {
          forall i | 0 <= i < |msgs| && (i > 0 || !noKeys) ensures msgs[i].InvalidIdsOf? {
            if i < |before| {
              assert msgs[i] == before[i];
            }
          }
        }
      }
    }
  }

  /** Items with distinct keys get at most one message each, so no message
      repeats, and each "Invalid ..." message names the key of an item. */
  lemma {:induction false} ChecksOverDistinct(items: seq<(IdKind, Ids)>, noKeys: bool, entityType: string)
    requires forall i, j :: 0 <= i < j < |items| ==> items[i].0 != items[j].0
    ensures var msgs := ChecksOver(items, noKeys, entityType).errorMessage;
            NoDups(msgs) &&
            forall m :: m in msgs && m.InvalidIdsOf? ==> exists p :: p in items && p.0 == m.key
  {
    if items != [] {
      var init, last := items[..|items| - 1], items[|items| - 1];
      ChecksOverDistinct(init, noKeys, entityType);
      assert items == init + [last];
      var before := ChecksOver(init, noKeys, entityType).errorMessage;
      var w := WrongIds(last.1);
      if |w| > 0 {
        var m := InvalidIdsOf(last.0, entityType, w);
        forall mm | mm in before && mm.InvalidIdsOf? ensures mm.key != last.0 {
          var p :| p in init && p.0 == mm.key;
          var i :| 0 <= i < |init| && init[i] == p;
          assert items[i] == p;
        }
        assert m !in before;
        assert forall p :: p in init ==> p in items;
      } else {
        assert forall p :: p in init ==> p in items;
      }
    }
  }

  /** No message at all exactly when the dict has keys and no item holds an
      invalid id. */
  lemma {:induction false} ChecksOverPasses(items: seq<(IdKind, Ids)>, noKeys: bool, entityType: string)
    ensures ChecksOver(items, noKeys, entityType).errorMessage == [] <==>
              !noKeys && forall p :: p in items ==> |WrongIds(p.1)| == 0
  {
    if items != [] {
      var init, last := items[..|items| - 1], items[|items| - 1];
      ChecksOverPasses(init, noKeys, entityType);
      assert items == init + [last];
      if |WrongIds(last.1)| > 0 {
        assert last in items;
      } else {
        assert forall p :: p in items <==> p in init || p == last;
      }
    }
  }

  /** The whole check: FAILURE exactly when it has messages, "No ids found."
      exactly for a dict without keys (a dict of empty lists does not get
      it), and an "Invalid ..." message for a key exactly when the key holds
      an invalid id, carrying those ids. */
  lemma InvalidIdsCheckSpec(d: Dict<IdKind, Ids>, entityType: string)
    requires d.Valid()
    ensures var r := InvalidIdsCheck(d, entityType);
            r.checkName == CheckValidIds &&
            (r.result == Failure <==> r.errorMessage != []) &&
            (r.result != Failure ==> r.result == Unset) &&
            (NoIdsFound in r.errorMessage <==> d.keys == []) &&
            (forall m :: m in r.errorMessage ==> m == NoIdsFound || (m.InvalidIdsOf? && m.entityType == entityType)) &&
            (forall k, w :: InvalidIdsOf(k, entityType, w) in r.errorMessage <==>
               k in d.entries && w == WrongIds(d.entries[k]) && |w| > 0) &&
            (r.errorMessage == [] <==> d.keys != [] && forall k :: k in d.entries ==> |WrongIds(d.entries[k])| == 0) &&
            NoDups(r.errorMessage) &&
            (NoIdsFound in r.errorMessage ==> r.errorMessage[0] == NoIdsFound) &&
            (d.keys == [] ==> r.errorMessage == [NoIdsFound])
  {
    var items := d.Items();
    ChecksOverOrder(items, d.keys == [], entityType);
    ChecksOverDistinct(items, d.keys == [], entityType);
    ChecksOverPasses(items, d.keys == [], entityType);
    ChecksOverStatus(items, d.keys == [], entityType);
    ChecksOverMessages(items, d.keys == [], entityType);
    ItemsMembers(d);
    forall k, w ensures InvalidIdsOf(k, entityType, w) in Expected(items, entityType) <==>
                        k in d.entries && w == WrongIds(d.entries[k]) && |w| > 0
    {
      if k in d.entries && w == WrongIds(d.entries[k]) && |w| > 0 {
        assert (k, d.entries[k]) in items;
      }
    }
  }

  /** The loop of `_check_for_invalid_ids` over the dict's items, updating a
      fresh result in place. */
  method CheckForInvalidIds(d: Dict<IdKind, Ids>, entityType: string) returns (r: CheckResult)
    requires d.Valid()
    ensures r == InvalidIdsCheck(d, entityType)
  {
    r := CheckResult(CheckValidIds, Unset, []);
    if d.keys == [] {
      r := r.(result := Failure);
      r := r.(errorMessage := r.errorMessage + [NoIdsFound]);
    }
    var items := d.Items();
    assert items[..0] == [];
    for i := 0 to |items|
      invariant r == ChecksOver(items[..i], d.keys == [], entityType)
    {
      var (k, values) := items[i];
      var wrong := WrongIds(values);
      ghost var before := r;
      if |wrong| > 0 {
        r := r.(errorMessage := r.errorMessage + [InvalidIdsOf(k, entityType, wrong)]);
        r := r.(result := Failure);
      }
      assert r == CheckStep(before, k, entityType, wrong);
      assert items[..i + 1][..i] == items[..i];
      assert r == ChecksOver(items[..i + 1], d.keys == [], entityType);
    }
    assert items[..|items|] == items;
  }

  // ---------------------------------------------------------------------------
  // fix_metadata

  /** A header dict after `fix_metadata`: every list replaced by the set of
      its valid ids. */
  function FixDict(d: Dict<IdKind, Ids>): (r: Dict<IdKind, Ids>)
    ensures r.keys == d.keys
  {
    Dict(d.keys, map k | k in d.entries :: IdSet(FilterOutInvalidIds(d.entries[k])))
  }

  /** Fixing keeps the keys and leaves no invalid id behind. */
  lemma FixDictSpec(d: Dict<IdKind, Ids>)
    ensures d.Valid() ==> FixDict(d).Valid()
    ensures FixDict(d).entries.Keys == d.entries.Keys
    ensures forall k, x :: k in FixDict(d).entries && x in Members(FixDict(d).entries[k]) ==> IsIdValid(x)
    ensures forall k :: k in d.entries ==> Members(FixDict(d).entries[k]) <= Members(d.entries[k])
    ensures forall k, x :: k in d.entries ==>
              (x in Members(FixDict(d).entries[k]) <==> x in Members(d.entries[k]) && IsIdValid(x))
  {
    forall k, x | k in d.entries
      ensures x in Members(FixDict(d).entries[k]) <==> x in Members(d.entries[k]) && IsIdValid(x)
    {
      assert FixDict(d).entries[k] == IdSet(FilterOutInvalidIds(d.entries[k]));
    }
  }

  /** Fixing twice is fixing once. */
  lemma FixDictIdempotent(d: Dict<IdKind, Ids>)
    ensures FixDict(FixDict(d)) == FixDict(d)
  {
    var once := FixDict(d);
    forall k | k in once.entries ensures FixDict(once).entries[k] == once.entries[k] {
      FilterOutInvalidIdsIdempotent(d.entries[k]);
    }
  }

  /** Once fixed, a dict with keys passes the invalid-ids check. */
  lemma CheckAfterFix(d: Dict<IdKind, Ids>, entityType: string)
    requires d.Valid() && d.keys != []
    ensures FixDict(d).Valid()
    ensures InvalidIdsCheck(FixDict(d), entityType) == CheckResult(CheckValidIds, Unset, [])
  {
    var f := FixDict(d);
    FixDictSpec(d);
    forall k | k in f.entries ensures |WrongIds(f.entries[k])| == 0 {
      WrongIdsMembers(f.entries[k]);
      assert WrongIds(f.entries[k]) == multiset{};
    }
    InvalidIdsCheckSpec(f, entityType);
  }

  /** The in-place loop of `fix_metadata` over one dict: each key's value is
      overwritten by its filtered set. */
  method FixIds(d: Dict<IdKind, Ids>) returns (r: Dict<IdKind, Ids>)
    requires d.Valid()
    ensures r == FixDict(d)
  {
    r := d;
    for i := 0 to |d.keys|
      invariant r.keys == d.keys && r.entries.Keys == d.entries.Keys
      invariant forall j :: 0 <= j < i ==> r.entries[d.keys[j]] == IdSet(FilterOutInvalidIds(d.entries[d.keys[j]]))
      invariant forall j :: i <= j < |d.keys| ==> r.entries[d.keys[j]] == d.entries[d.keys[j]]
    {
      var k := d.keys[i];
      r := r.(entries := r.entries[k := IdSet(FilterOutInvalidIds(r.entries[k]))]);
    }
    forall k | k in r.entries ensures r.entries[k] == FixDict(d).entries[k] {
      var j :| 0 <= j < |d.keys| && d.keys[j] == k;
    }
  }

  // ---------------------------------------------------------------------------
  // SAMFileHeaderMetadata

  /** Python's `==` on two dicts: same keys with equal values, whatever the
      insertion order. */
  predicate DictEq(a: Dict<IdKind, Ids>, b: Dict<IdKind, Ids>) {
    a.entries == b.entries
  }

  /** Dict equality is lookup equality on every key. */
  lemma DictEqSpec(a: Dict<IdKind, Ids>, b: Dict<IdKind, Ids>)
    ensures DictEq(a, b) <==> forall k :: a.Get(k) == b.Get(k)
  {
    if forall k :: a.Get(k) == b.Get(k) {
      forall k ensures k in a.entries <==> k in b.entries {
        assert a.Get(k).Some? <==> b.Get(k).Some?;
      }
      forall k | k in a.entries ensures a.entries[k] == b.entries[k] {
        assert a.Get(k) == b.Get(k);
      }
      assert a.entries == b.entries;
    }
  }

  /** Fixing respects dict equality. */
  lemma FixDictRespectsDictEq(a: Dict<IdKind, Ids>, b: Dict<IdKind, Ids>)
    requires DictEq(a, b)
    ensures DictEq(FixDict(a), FixDict(b))
  {
  }

  class SAMFileHeaderMetadata {
    var fpath: string
    var samples: Dict<IdKind, Ids>
    var libraries: Dict<IdKind, Ids>
    var studies: Dict<IdKind, Ids>
    var reference: Option<string>
    var platforms: Option<seq<string>>

    ghost predicate Valid()
      reads this
    {
      samples.Valid() && libraries.Valid() && studies.Valid()
    }

    constructor(fpath: string, samples: Dict<IdKind, Ids>, libraries: Dict<IdKind, Ids>,
                studies: Dict<IdKind, Ids>, reference: Option<string>, platforms: Option<seq<string>>)
      requires samples.Valid() && libraries.Valid() && studies.Valid()
      ensures Valid()
      ensures this.fpath == fpath && this.samples == samples && this.libraries == libraries
      ensures this.studies == studies && this.reference == reference && this.platforms == platforms
    {
      this.fpath := fpath;
      this.samples := samples;
      this.libraries := libraries;
      this.studies := studies;
      this.reference := reference;
      this.platforms := platforms;
    }

    /** `check_metadata()`: the samples' result, then the libraries'; the
        studies are not checked. */
    method CheckMetadata() returns (errors: seq<CheckResult>)
      requires Valid()
      ensures |errors| == 2
      ensures errors[0] == InvalidIdsCheck(samples, "sample")
      ensures errors[1] == InvalidIdsCheck(libraries, "library")
    {
      errors := [];
      var r := CheckForInvalidIds(samples, "sample");
      errors := errors + [r];
      r := CheckForInvalidIds(libraries, "library");
      errors := errors + [r];
    }

    /** `fix_metadata()`: the samples and libraries lose their invalid ids and
        their lists become sets; nothing else changes. */
    method FixMetadata()
      requires Valid()
      modifies this
      ensures Valid()
      ensures samples == FixDict(old(samples)) && libraries == FixDict(old(libraries))
      ensures studies == old(studies) && fpath == old(fpath)
      ensures reference == old(reference) && platforms == old(platforms)
    {
      FixDictSpec(samples);
      FixDictSpec(libraries);
      samples := FixIds(samples);
      libraries := FixIds(libraries);
    }

    /** `__eq__`: all six fields equal, the dicts compared as Python dicts. */
    predicate Equals(other: SAMFileHeaderMetadata)
      reads this, other
    {
      fpath == other.fpath && DictEq(samples, other.samples) && DictEq(libraries, other.libraries) &&
      DictEq(studies, other.studies) && reference == other.reference && platforms == other.platforms
    }
  }

  /** `LaneletSAMFileHeaderMetadata`: the header metadata of one lanelet,
      which adds the lanelet names to the fields compared by `__eq__`. */
  class LaneletSAMFileHeaderMetadata {
    var header: SAMFileHeaderMetadata
    var lanelets: Option<seq<string>>

    constructor(header: SAMFileHeaderMetadata, lanelets: Option<seq<string>>)
      ensures this.header == header && this.lanelets == lanelets
    {
      this.header := header;
      this.lanelets := lanelets;
    }

    /** `__eq__`: the base class's comparison and equal lanelets. */
    predicate Equals(other: LaneletSAMFileHeaderMetadata)
      reads this, other, header, other.header
    {
      header.Equals(other.header) && lanelets == other.lanelets
    }
  }

  /** Two header objects compare equal exactly when every field agrees, the
      dicts key by key regardless of insertion order. */
  lemma EqualsSpec(a: SAMFileHeaderMetadata, b: SAMFileHeaderMetadata)
    ensures a.Equals(b) <==>
              a.fpath == b.fpath && a.reference == b.reference && a.platforms == b.platforms &&
              (forall k :: a.samples.Get(k) == b.samples.Get(k)) &&
              (forall k :: a.libraries.Get(k) == b.libraries.Get(k)) &&
              (forall k :: a.studies.Get(k) == b.studies.Get(k))
  {
    DictEqSpec(a.samples, b.samples);
    DictEqSpec(a.libraries, b.libraries);
    DictEqSpec(a.studies, b.studies);
  }

  /** Two lanelet header objects compare equal exactly when their lanelets
      and every field of their header metadata agree. */
  lemma LaneletEqualsSpec(a: LaneletSAMFileHeaderMetadata, b: LaneletSAMFileHeaderMetadata)
    ensures a.Equals(b) <==>
              a.lanelets == b.lanelets &&
              a.header.fpath == b.header.fpath && a.header.reference == b.header.reference &&
              a.header.platforms == b.header.platforms &&
              (forall k :: a.header.samples.Get(k) == b.header.samples.Get(k)) &&
              (forall k :: a.header.libraries.Get(k) == b.header.libraries.Get(k)) &&
              (forall k :: a.header.studies.Get(k) == b.header.studies.Get(k))
  {
    EqualsSpec(a.header, b.header);
  }
}
