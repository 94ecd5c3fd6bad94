/**
 * The pure checks of the CRAM/BAM metadata test driver: presence of the three
 * kinds of identifier in iRODS metadata, the header-versus-iRODS comparison,
 * and the argument checks made before any test runs.
 */
module CramAndBamChecks {
  import opened Python
  import opened MetadataUtils

  // ---------------------------------------------------------------------------
  // check_all_identifiers_in_metadata

  /** The report line for a kind with no identifiers, spelled as the source
      spells it. */
  function MissingMessage(kind: IdKind): string {
    match kind
    case Name => "NO names in IRODS metadata"
    case InternalId => "NO  internal_ids in IRODS metadata"
    case AccessionNumber => "NO accession numbers in IRODS metadata"
  }

  /** Position of a kind in the order the checks run: name, internal_id,
      accession_number. */
  function Rank(kind: IdKind): nat {
    match kind
    case Name => 0
    case InternalId => 1
    case AccessionNumber => 2
  }

  /** `not metadata.get(kind)`: the kind is absent or its list is empty. */
  predicate Lacks<V>(metadata: Dict<IdKind, seq<V>>, kind: IdKind) {
    metadata.Get(kind).None? || metadata.Get(kind).value == []
  }

  predicate Enabled(kind: IdKind, name: bool, internalId: bool, accessionNumber: bool) {
    match kind
    case Name => name
    case InternalId => internalId
    case AccessionNumber => accessionNumber
  }

  /** `check_all_identifiers_in_metadata(metadata, name, internal_id,
      accession_number)`: one report line per enabled kind that is missing or
      empty, in the order name, internal_id, accession_number. The report
      names the kinds; `MissingMessage` gives each line's text. */
  method CheckAllIdentifiersInMetadata<V>(metadata: Dict<IdKind, seq<V>>, name: bool, internalId: bool,
                                          accessionNumber: bool)
    returns (errorReport: seq<IdKind>)
    ensures forall kind :: kind in errorReport <==>
              Enabled(kind, name, internalId, accessionNumber) && Lacks(metadata, kind)
    ensures forall i, j :: 0 <= i < j < |errorReport| ==> Rank(errorReport[i]) < Rank(errorReport[j])
    ensures NoDups(errorReport) && |errorReport| <= 3
  {
    errorReport := [];
    if name && Lacks(metadata, Name) {
      errorReport := errorReport + [Name];
    }
    if internalId && Lacks(metadata, InternalId) {
      errorReport := errorReport + [InternalId];
    }
    if accessionNumber && Lacks(metadata, AccessionNumber) {
      errorReport := errorReport + [AccessionNumber];
    }
    forall kind ensures kind in errorReport <==>
                        Enabled(kind, name, internalId, accessionNumber) && Lacks(metadata, kind) {
      match kind
      case Name =>
      case InternalId =>
      case AccessionNumber =>
    }
    ReportHasNoDuplicates(errorReport);
  }

  /** The report never names a kind twice. */
  lemma ReportHasNoDuplicates(report: seq<IdKind>)
    requires forall i, j :: 0 <= i < j < |report| ==> Rank(report[i]) < Rank(report[j])
    ensures NoDups(report) && |report| <= 3
  {
    if |report| > 3 {
      assert Rank(report[0]) < Rank(report[1]) < Rank(report[2]) < Rank(report[3]);
    }
  }

  // ---------------------------------------------------------------------------
  // check_irods_vs_header_metadata

  /** `HeaderVsIrodsMetadataAttributeError`, or `Ok` when nothing is raised. */
  datatype Comparison =
    | Ok
    | Mismatch(fpath: string, attribute: IdKind, headerValue: seq<string>, irodsValue: seq<string>,
               entityType: string)

  /** Kind `k` is non-empty on both sides and the header holds an id that
      iRODS lacks. */
  predicate KindMismatch(header: Dict<IdKind, seq<string>>, irods: Dict<IdKind, seq<string>>, k: IdKind) {
    !Lacks(irods, k) && !Lacks(header, k) && !(Elems(header.entries[k]) <= Elems(irods.entries[k]))
  }

  /** `check_irods_vs_header_metadata(irods_path, header_dict, irods_dict,
      entity_type)`: the header's kinds are visited in its iteration order and
      the first mismatching kind is raised. */
  method CheckIrodsVsHeaderMetadata(irodsPath: string, header: Dict<IdKind, seq<string>>,
                                    irods: Dict<IdKind, seq<string>>, entityType: string)
    returns (outcome: Comparison)
    requires header.Valid()
    ensures outcome.Ok? <==> forall k :: !KindMismatch(header, irods, k)
    ensures outcome.Mismatch? ==>
              KindMismatch(header, irods, outcome.attribute) && outcome.fpath == irodsPath &&
              outcome.entityType == entityType &&
              outcome.headerValue == header.entries[outcome.attribute] &&
              outcome.irodsValue == irods.entries[outcome.attribute] &&
              exists j :: 0 <= j < |header.keys| && header.keys[j] == outcome.attribute &&
                          forall i :: 0 <= i < j ==> !KindMismatch(header, irods, header.keys[i])
    ensures forall k :: Lacks(header, k) || Lacks(irods, k) ==> outcome.Ok? || outcome.attribute != k
  {
    for j := 0 to |header.keys|
      invariant forall i :: 0 <= i < j ==> !KindMismatch(header, irods, header.keys[i])
    {
      var idType := header.keys[j];
      var headIdsList := header.entries[idType];
      if !Lacks(irods, idType) && !Lacks(header, idType) {
        if !(Elems(headIdsList) <= Elems(irods.entries[idType])) {
          assert KindMismatch(header, irods, idType);
          assert header.keys[j] == idType;
          return Mismatch(irodsPath, idType, headIdsList, irods.entries[idType], entityType);
        }
      }
    }
    forall k ensures !KindMismatch(header, irods, k) {
      if k in header.entries {
        var i :| 0 <= i < |header.keys| && header.keys[i] == k;
      }
    }
    return Ok;
  }

  /** A dict compared with itself never mismatches. */
  lemma IdenticalNeverMismatches(d: Dict<IdKind, seq<string>>, k: IdKind)
    ensures !KindMismatch(d, d, k)
  {
  }

  /** Extra iRODS ids never cause a mismatch: a kind that agrees keeps
      agreeing when iRODS gains ids under it. */
  lemma ExtraIrodsIdsNeverMismatch(header: Dict<IdKind, seq<string>>, irods: Dict<IdKind, seq<string>>,
                                   k: IdKind, extra: seq<string>)
    requires !Lacks(irods, k) && !KindMismatch(header, irods, k)
    ensures !KindMismatch(header, irods.(entries := irods.entries[k := irods.entries[k] + extra]), k)
  {
    var more := irods.entries[k] + extra;
    assert Elems(irods.entries[k]) <= Elems(more);
  }

  /** The comparison is one-directional: when iRODS holds every header id of
      a kind and more, the kind does not mismatch, while the same lists the
      other way round do. */
  lemma MismatchIsOneDirectional(header: Dict<IdKind, seq<string>>, irods: Dict<IdKind, seq<string>>, k: IdKind)
    requires !Lacks(header, k) && !Lacks(irods, k)
    requires Elems(header.entries[k]) < Elems(irods.entries[k])
    ensures !KindMismatch(header, irods, k) && KindMismatch(irods, header, k)
  {
  }

  // ---------------------------------------------------------------------------
  // run_metadata_tests (argument guards) and check_args

  /** The test selection flags of `run_metadata_tests`. */
  datatype TestFlags = TestFlags(samplesIrodsVsHeader: bool, samplesIrodsVsSeqscape: bool,
                                 librariesIrodsVsHeader: bool, librariesIrodsVsSeqscape: bool,
                                 studyIrodsVsSeqscape: bool)

  predicate IrodsTestRequested(f: TestFlags) {
    f.samplesIrodsVsHeader || f.samplesIrodsVsSeqscape || f.librariesIrodsVsHeader ||
    f.librariesIrodsVsSeqscape || f.studyIrodsVsSeqscape
  }

  predicate HeaderTestRequested(f: TestFlags) {
    f.samplesIrodsVsHeader || f.librariesIrodsVsHeader
  }

  /** The `ValueError`s `run_metadata_tests` raises before doing any work. */
  datatype GuardError = NoIrodsMetadata | NoHeaderMetadata

  /** The guards at the top of `run_metadata_tests`: the iRODS metadata (an
      AVU list, falsy when empty) must be given when any iRODS test is
      requested, and the header metadata when a header test is; the iRODS
      guard is checked first. */
  function RunMetadataTestsGuard(irodsMetadata: seq<Avu>, headerGiven: bool, flags: TestFlags): (r: Option<GuardError>)
    ensures r == Some(NoIrodsMetadata) <==> irodsMetadata == [] && IrodsTestRequested(flags)
    ensures r == Some(NoHeaderMetadata) <==>
              (irodsMetadata != [] || !IrodsTestRequested(flags)) && !headerGiven && HeaderTestRequested(flags)
    ensures r.None? <==>
              (irodsMetadata != [] || !IrodsTestRequested(flags)) && (headerGiven || !HeaderTestRequested(flags))
  {
    if irodsMetadata == [] && IrodsTestRequested(flags) then Some(NoIrodsMetadata)
    else if !headerGiven && HeaderTestRequested(flags) then Some(NoHeaderMetadata)
    else None
  }

  /** Every header test is an iRODS test too, so with neither metadata given
      a header test is refused for the missing iRODS metadata. */
  lemma HeaderTestWithoutAnyMetadata(flags: TestFlags)
    requires HeaderTestRequested(flags)
    ensures RunMetadataTestsGuard([], false, flags) == Some(NoIrodsMetadata)
  {
  }

  /** The parsed command line. Optional string arguments are falsy when
      absent or empty. */
  datatype Args = Args(study: Option<string>, fpathsIrods: Option<string>, fofn: Option<string>,
                       samplesIrodsVsHeader: bool, samplesIrodsVsSeqscape: bool,
                       librariesIrodsVsHeader: bool, librariesIrodsVsSeqscape: bool,
                       studyIrodsVsSeqscape: bool, desiredRef: Option<string>, collateralTests: bool,
                       checkIrodsMetaAgainstConfig: Option<string>)

  predicate Given(o: Option<string>) {
    o.Some? && o.value != ""
  }

  predicate AnyCheckSelected(args: Args) {
    args.samplesIrodsVsHeader || args.samplesIrodsVsSeqscape || args.librariesIrodsVsHeader ||
    args.librariesIrodsVsSeqscape || args.studyIrodsVsSeqscape || Given(args.desiredRef) ||
    args.collateralTests || Given(args.checkIrodsMetaAgainstConfig)
  }

  /** The `ValueError`s of `check_args`. */
  datatype ArgsError = NothingToDo | NoCheckSelected

  /** `check_args(args)`: a study or a list of iRODS paths must be given (a
      fofn alone does not do), and at least one check must be selected; the
      first condition is checked first. */
  function CheckArgs(args: Args): (r: Option<ArgsError>)
    ensures r == Some(NothingToDo) <==> !Given(args.fpathsIrods) && !Given(args.study)
    ensures r == Some(NoCheckSelected) <==>
              (Given(args.fpathsIrods) || Given(args.study)) && !AnyCheckSelected(args)
    ensures r.None? <==> (Given(args.fpathsIrods) || Given(args.study)) && AnyCheckSelected(args)
  {
    if !Given(args.fpathsIrods) && !Given(args.study) then Some(NothingToDo)
    else if !AnyCheckSelected(args) then Some(NoCheckSelected)
    else None
  }
}
