/**
 Extraction, discrepancy resolution and the retry claim of a typology
 (typologies.service.ts, document-upload.service.ts of document-service).
 */
module Extraction {
  import opened Wrappers
  import opened Text
  import opened Versions
  import opened Typologies

  datatype ExtractionStatus =
    | NotUploaded | Processing | Completed | Discrepancy | PendingConfirmation | Confirmed | ExtractionFailed

  /** Declared or extracted data; None is null. */
  datatype Fields = Fields(nombre: Option<string>, codigo: Option<string>, version: Option<string>)

  datatype Campo = Nombre | Codigo | Version

  datatype Mismatch = Mismatch(campo: Campo, declared: Option<string>, extracted: string)

  datatype Doc = Doc(status: ExtractionStatus, typologyStatus: TypologyStatus, declared: Fields,
                     confirmedFromExtraction: bool,
                     extracted: Fields, discrepancies: seq<Mismatch>, startedAt: Option<int>, deleted: bool)

  /** For a manual override: None leaves the field, Some(v) sets it, also to null. */
  datatype Patch = Patch(nombre: Option<Option<string>>, codigo: Option<Option<string>>,
                         version: Option<Option<string>>)

  datatype Action = KeepDeclared | AdoptExtracted | ManualOverride(patch: Patch)

  datatype ResolveError = NotFound | NoPendingAction | StillMismatched | CodeAlreadyActive

  const STUCK_EXTRACTION_THRESHOLD_MS := 15 * 60 * 1000

  function Trimmed3(f: Fields): Fields { Fields(TrimOrNone(f.nombre), TrimOrNone(f.codigo), TrimOrNone(f.version)) }

  predicate Complete(f: Fields) { Filled(f.nombre) && Filled(f.codigo) && Filled(f.version) }

  /** Names are compared after a normalisation that stays unspecified here. */
  predicate NamesEqual(normalize: string -> string, a: Option<string>, b: Option<string>) {
    a == b || (a.Some? && b.Some? && normalize(a.value) == normalize(b.value))
  }

  function Or(a: Option<string>, b: Option<string>): Option<string> { if a.Some? then a else b }

  function Patched(f: Fields, p: Patch): Fields {
    Fields(if p.nombre.Some? then p.nombre.value else f.nombre,
           if p.codigo.Some? then p.codigo.value else f.codigo,
           if p.version.Some? then p.version.value else f.version)
  }

  // What the two checks compare

  ghost predicate Agrees(normalize: string -> string, campo: Campo, extracted: Fields, declared: Fields) {
    match campo
    case Nombre => Filled(extracted.nombre) ==> NamesEqual(normalize, extracted.nombre, declared.nombre)
    case Codigo => Filled(extracted.codigo) ==> extracted.codigo == declared.codigo
    case Version => Filled(extracted.version) ==> SameOptional(extracted.version, declared.version)
  }

  /** Whatever the extractor found is what was declared. */
  ghost predicate AllAgree(normalize: string -> string, extracted: Fields, declared: Fields) {
    forall campo :: Agrees(normalize, campo, extracted, declared)
  }

  function Of(f: Fields, campo: Campo): Option<string> {
    match campo case Nombre => f.nombre case Codigo => f.codigo case Version => f.version
  }

  ghost function MismatchOf(normalize: string -> string, campo: Campo, extracted: Fields, declared: Fields)
    : seq<Mismatch> {
    if Agrees(normalize, campo, extracted, declared) then []
    else [Mismatch(campo, Of(declared, campo), Of(extracted, campo).value)]
  }

  ghost function Mismatches(normalize: string -> string, extracted: Fields, declared: Fields): seq<Mismatch> {
    MismatchOf(normalize, Nombre, extracted, declared) + MismatchOf(normalize, Codigo, extracted, declared)
    + MismatchOf(normalize, Version, extracted, declared)
  }

  // The transitions

  ghost function Apply(normalize: string -> string, d: Doc, raw: Fields): Doc {
    if d.deleted then d
    else
      var extracted := Trimmed3(raw);
      if Complete(d.declared) then
        var found := Mismatches(normalize, extracted, d.declared);
        d.(extracted := extracted, discrepancies := found, status := if found != [] then Discrepancy else Completed)
      else d.(extracted := extracted, discrepancies := [], status := PendingConfirmation)
  }

  function Declared(d: Doc, action: Action): Fields {
    match action
    case KeepDeclared => d.declared
    case AdoptExtracted =>
      Fields(Or(d.extracted.nombre, d.declared.nombre), Or(d.extracted.codigo, d.declared.codigo),
             Or(d.extracted.version, d.declared.version))
    case ManualOverride(p) => Patched(d.declared, p)
  }

  /** `taken`: another active typology has the code the document would end up with. */
  ghost function Resolve(normalize: string -> string, d: Doc, action: Action, taken: bool): Result<Doc, ResolveError> {
    if d.deleted then Failure(NotFound)
    else if d.status != Discrepancy && d.status != PendingConfirmation then Failure(NoPendingAction)
    else
      var declared := Declared(d, action);
      if !action.AdoptExtracted? && Mismatches(normalize, d.extracted, declared) != [] then Failure(StillMismatched)
      else if Complete(declared) && taken then Failure(CodeAlreadyActive)
      else Success(d.(declared := declared, status := Confirmed,
                      confirmedFromExtraction := d.confirmedFromExtraction || action.AdoptExtracted?,
                      typologyStatus := if Complete(declared) then Active else Incomplete))
  }

  // What they decide, in terms of the texts

  /** nombre, codigo and version are all there and none is empty. */
  ghost predicate AllDeclared(f: Fields) {
    forall campo :: Of(f, campo).Some? && Of(f, campo).value != ""
  }

  /** The extractor's text for a field, if it is not blank, against the declared one. */
  ghost predicate Contradicts(normalize: string -> string, campo: Campo,
                              text: Option<string>, declared: Option<string>)
  {
    && text.Some? && Trim(text.value) != ""
    && var found := Trim(text.value);
       match campo
       case Nombre => declared.None? || (declared.value != found && normalize(declared.value) != normalize(found))
       case Codigo => declared != Some(found)
       case Version => declared.None? || !SameVersion(found, declared.value)
  }

  /** The fields that contradict, each once, in the order nombre, codigo, version, with both texts. */
  ghost predicate ListsContradictions(normalize: string -> string, raw: Fields, declared: Fields,
                                      found: seq<Mismatch>)
  {
    && (forall m :: m in found <==>
          && Contradicts(normalize, m.campo, Of(raw, m.campo), Of(declared, m.campo))
          && m.declared == Of(declared, m.campo) && m.extracted == Trim(Of(raw, m.campo).value))
    && (forall i, j :: 0 <= i < j < |found| ==> Rank(found[i].campo) < Rank(found[j].campo))
  }

  ghost function Rank(campo: Campo): nat { match campo case Nombre => 0 case Codigo => 1 case Version => 2 }

  /** What a resolution leaves in a field. */
  ghost function Chosen(action: Action, campo: Campo, declared: Fields, extracted: Fields): Option<string> {
    match action
    case KeepDeclared => Of(declared, campo)
    case AdoptExtracted => if Of(extracted, campo).None? then Of(declared, campo) else Of(extracted, campo)
    case ManualOverride(p) =>
      var given := match campo case Nombre => p.nombre case Codigo => p.codigo case Version => p.version;
      if given.None? then Of(declared, campo) else given.value
  }

  lemma CompleteIsAllDeclared(f: Fields)
    ensures Complete(f) <==> AllDeclared(f)
  {
    if AllDeclared(f) {
      assert Of(f, Nombre).Some? && Of(f, Codigo).Some? && Of(f, Version).Some?;
    }
  }

  lemma DisagreeingContradicts(normalize: string -> string, campo: Campo, raw: Fields, declared: Fields)
    ensures Agrees(normalize, campo, Trimmed3(raw), declared)
            <==> !Contradicts(normalize, campo, Of(raw, campo), Of(declared, campo))
  {
    match campo case Nombre => case Codigo => case Version =>
  }

  lemma MismatchesAreContradictions(normalize: string -> string, raw: Fields, declared: Fields)
    ensures ListsContradictions(normalize, raw, declared, Mismatches(normalize, Trimmed3(raw), declared))
  {
    forall campo
      ensures Agrees(normalize, campo, Trimmed3(raw), declared)
              <==> !Contradicts(normalize, campo, Of(raw, campo), Of(declared, campo))
    {
      DisagreeingContradicts(normalize, campo, raw, declared);
    }
    var a, b, c := MismatchOf(normalize, Nombre, Trimmed3(raw), declared),
                   MismatchOf(normalize, Codigo, Trimmed3(raw), declared),
                   MismatchOf(normalize, Version, Trimmed3(raw), declared);
    forall m ensures m in Mismatches(normalize, Trimmed3(raw), declared) <==> m in a || m in b || m in c {}
    forall m ensures m in Mismatches(normalize, Trimmed3(raw), declared) <==>
          && Contradicts(normalize, m.campo, Of(raw, m.campo), Of(declared, m.campo))
          && m.declared == Of(declared, m.campo) && m.extracted == Trim(Of(raw, m.campo).value)
    {
      match m.campo case Nombre => case Codigo => case Version =>
    }
  }

  // The document, updated in place

  class TypologyDocument {
    var status: ExtractionStatus
    var typologyStatus: TypologyStatus
    var declared: Fields
    var confirmedFromExtraction: bool
    var extracted: Fields
    var discrepancies: seq<Mismatch>
    var startedAt: Option<int>
    var deleted: bool
    const normalize: string -> string

    constructor (declared: Fields, normalize: string -> string)
      ensures this.normalize == normalize
      ensures Snapshot() == Doc(NotUploaded, if Complete(declared) then Active else Incomplete, declared, false,
                                Fields(None, None, None), [], None, false)
    {
      this.status, this.startedAt, this.deleted := NotUploaded, None, false;
      this.typologyStatus := if Complete(declared) then Active else Incomplete;
      this.declared, this.confirmedFromExtraction := declared, false;
      this.extracted, this.discrepancies := Fields(None, None, None), [];
      this.normalize := normalize;
    }

    function Snapshot(): Doc
      reads this
    {
      Doc(status, typologyStatus, declared, confirmedFromExtraction, extracted, discrepancies, startedAt, deleted)
    }

    /** The comparison both operations make, field by field. */
    method Compare(extracted: Fields, declared: Fields) returns (found: seq<Mismatch>)
      ensures found == Mismatches(normalize, extracted, declared)
    {
      found := [];
      if Filled(extracted.nombre) && !NamesEqual(normalize, extracted.nombre, declared.nombre) {
        found := found + [Mismatch(Nombre, declared.nombre, extracted.nombre.value)];
      }
      if Filled(extracted.codigo) && extracted.codigo != declared.codigo {
        found := found + [Mismatch(Codigo, declared.codigo, extracted.codigo.value)];
      }
      var sameVersion := VersionsEqual(extracted.version, declared.version);
      if Filled(extracted.version) && !sameVersion {
        found := found + [Mismatch(Version, declared.version, extracted.version.value)];
      }
    }

    method ApplyExtractedMetadata(raw: Fields)
      modifies this
      ensures Snapshot() == Apply(normalize, old(Snapshot()), raw)
      ensures old(deleted) ==> Snapshot() == old(Snapshot())
      ensures Snapshot() == old(Snapshot()).(status := status, extracted := extracted, discrepancies := discrepancies)
      ensures !old(deleted) ==>
                && (forall campo :: Of(extracted, campo) == TrimOrNone(Of(raw, campo)))
                && if !AllDeclared(declared) then status == PendingConfirmation && discrepancies == []
                   else
                     && status == (if discrepancies == [] then Completed else Discrepancy)
                     && ListsContradictions(normalize, raw, declared, discrepancies)
    {
      CompleteIsAllDeclared(declared);
      MismatchesAreContradictions(normalize, raw, declared);
      if deleted {
        return;
      }
      extracted := Fields(TrimOrNone(raw.nombre), TrimOrNone(raw.codigo), TrimOrNone(raw.version));
      discrepancies := [];
      if Complete(declared) {
        discrepancies := Compare(extracted, declared);
        status := if |discrepancies| > 0 then Discrepancy else Completed;
      } else {
        status := PendingConfirmation;
      }
    }

    method ResolveDiscrepancy(action: Action, taken: bool) returns (r: Result<(), ResolveError>)
      modifies this
      ensures match Resolve(normalize, old(Snapshot()), action, taken)
              case Success(d) => r.Success? && Snapshot() == d
              case Failure(e) => r == Failure(e) && Snapshot() == old(Snapshot())
      ensures r.Failure? ==> r.error == if deleted then NotFound
                                        else if status !in {Discrepancy, PendingConfirmation} then NoPendingAction
                                        else if taken && AllDeclared(Declared(Snapshot(), action))
                                                && (action.AdoptExtracted?
                                                    || AllAgree(normalize, extracted, Declared(Snapshot(), action)))
                                        then CodeAlreadyActive
                                        else StillMismatched
      ensures r.Success? ==>
                && Snapshot() == old(Snapshot()).(declared := declared, status := Confirmed,
                                                  confirmedFromExtraction := confirmedFromExtraction,
                                                  typologyStatus := typologyStatus)
                && (confirmedFromExtraction <==> old(confirmedFromExtraction) || action.AdoptExtracted?)
                && typologyStatus == (if AllDeclared(declared) then Active else Incomplete)
                && (forall campo :: Of(declared, campo) == Chosen(action, campo, old(declared), extracted))
    {
      ResolveSucceedsExactly(normalize, Snapshot(), action, taken);
      CompleteIsAllDeclared(Declared(Snapshot(), action));
      if deleted {
        return Failure(NotFound);
      }
      if status != Discrepancy && status != PendingConfirmation {
        return Failure(NoPendingAction);
      }
      var draft := declared;
      match action {
        case KeepDeclared =>
        case AdoptExtracted =>
          draft := Fields(Or(extracted.nombre, draft.nombre), Or(extracted.codigo, draft.codigo),
                          Or(extracted.version, draft.version));
        case ManualOverride(p) =>
          if p.nombre.Some? { draft := draft.(nombre := p.nombre.value); }
          if p.codigo.Some? { draft := draft.(codigo := p.codigo.value); }
          if p.version.Some? { draft := draft.(version := p.version.value); }
      }
      if !action.AdoptExtracted? {
        var mismatched := Compare(extracted, draft);
        if |mismatched| > 0 {
          return Failure(StillMismatched);
        }
      }
      if Complete(draft) && taken {
        return Failure(CodeAlreadyActive);
      }
      declared := draft;
      confirmedFromExtraction := confirmedFromExtraction || action.AdoptExtracted?;
      status := Confirmed;
      typologyStatus := if Complete(draft) then Active else Incomplete;
      return Success(());
    }

    /** The atomic conditional update of a retry: `readAt` gives the threshold, `stampedAt` the new start. */
    method ClaimRetry(readAt: int, stampedAt: int) returns (claimed: bool)
      modifies this
      ensures claimed == CanClaim(old(Snapshot()), readAt)
      ensures claimed <==>
                && !old(deleted)
                && (old(status) == ExtractionFailed
                    || (old(status) == Processing && old(startedAt).Some?
                        && old(startedAt).value + 15 * 60 * 1000 < readAt))
      ensures Snapshot() == if claimed then old(Snapshot()).(status := Processing, startedAt := Some(stampedAt))
                            else old(Snapshot())
      ensures Snapshot() == Next(old(Snapshot()), Claim(readAt, stampedAt))
    {
      var stuckThreshold := readAt - STUCK_EXTRACTION_THRESHOLD_MS;
      claimed := !deleted
                 && (status == ExtractionFailed
                     || (status == Processing && startedAt.Some? && startedAt.value < stuckThreshold));
      if claimed {
        status, startedAt := Processing, Some(stampedAt);
      }
    }
  }

  // Discrepancies

  lemma NoMismatchIsAgreement(normalize: string -> string, extracted: Fields, declared: Fields)
    ensures Mismatches(normalize, extracted, declared) == [] <==> AllAgree(normalize, extracted, declared)
  {
    var a, b, c := MismatchOf(normalize, Nombre, extracted, declared),
                   MismatchOf(normalize, Codigo, extracted, declared),
                   MismatchOf(normalize, Version, extracted, declared);
    assert |Mismatches(normalize, extracted, declared)| == |a| + |b| + |c|;
    assert AllAgree(normalize, extracted, declared) <==>
             Agrees(normalize, Nombre, extracted, declared) && Agrees(normalize, Codigo, extracted, declared)
             && Agrees(normalize, Version, extracted, declared) by {
      forall campo | Agrees(normalize, Nombre, extracted, declared) && Agrees(normalize, Codigo, extracted, declared)
                     && Agrees(normalize, Version, extracted, declared)
        ensures Agrees(normalize, campo, extracted, declared)
      {
        match campo case Nombre => case Codigo => case Version =>
      }
    }
  }

  /** What was adopted agrees with what was extracted. */
  lemma AdoptedAgrees(normalize: string -> string, d: Doc)
    ensures AllAgree(normalize, d.extracted, Declared(d, AdoptExtracted))
  {
    forall campo ensures Agrees(normalize, campo, d.extracted, Declared(d, AdoptExtracted)) {
      match campo
      case Nombre =>
      case Codigo =>
      case Version =>
        if d.extracted.version.Some? {
          SameVersionIsEquivalence(d.extracted.version.value, d.extracted.version.value, d.extracted.version.value);
        }
    }
  }

  /** A resolution that leaves complete data settles the matter: extracting the same again finds nothing to ask. */
  lemma ResolutionIsSettled(normalize: string -> string, d: Doc, raw: Fields, action: Action, taken: bool)
    requires d.extracted == Trimmed3(raw)
    requires Resolve(normalize, d, action, taken).Success?
    requires Complete(Resolve(normalize, d, action, taken).value.declared)
    ensures var again := Apply(normalize, Resolve(normalize, d, action, taken).value, raw);
            again.status == Completed && again.discrepancies == []
  {
    AdoptedAgrees(normalize, d);
    NoMismatchIsAgreement(normalize, d.extracted, Declared(d, action));
  }

  /** Keeping the declared data of a document whose extraction found a discrepancy always fails. */
  lemma KeepFailsOnDiscrepancy(normalize: string -> string, before: Doc, raw: Fields, d: Doc, taken: bool)
    requires Apply(normalize, before, raw).status == Discrepancy && !before.deleted
    requires d.status == Discrepancy && !d.deleted
    requires d.declared == before.declared && d.extracted == Trimmed3(raw)
    ensures Resolve(normalize, d, KeepDeclared, taken) == Failure(StillMismatched)
  {
  }

  /** What each action needs, field by field. */
  lemma ResolveSucceedsExactly(normalize: string -> string, d: Doc, action: Action, taken: bool)
    ensures Resolve(normalize, d, action, taken).Success? <==>
              && !d.deleted && d.status in {Discrepancy, PendingConfirmation}
              && !(taken && Complete(Declared(d, action)))
              && (action.AdoptExtracted? || AllAgree(normalize, d.extracted, Declared(d, action)))
  {
    NoMismatchIsAgreement(normalize, d.extracted, Declared(d, action));
  }

  /** Adopting never makes a complete typology incomplete, whatever the extractor missed: what it missed is null. */
  lemma AdoptKeepsComplete(normalize: string -> string, d: Doc, raw: Fields, taken: bool)
    requires d.extracted == Trimmed3(raw) && Complete(d.declared)
    ensures var r := Resolve(normalize, d, AdoptExtracted, taken);
            r.Success? ==> Complete(r.value.declared) && r.value.typologyStatus == Active
  {
  }

  // Retries

  datatype Event =
    | Claim(readAt: int, stampedAt: int)
    | Upload(at: int)
    | Write(status: ExtractionStatus)     // an extraction result, a failed emit, a resolution
    | Remove

  predicate CanClaim(d: Doc, readAt: int) {
    && !d.deleted
    && (d.status == ExtractionFailed
        || (d.status == Processing && d.startedAt.Some? && d.startedAt.value < readAt - STUCK_EXTRACTION_THRESHOLD_MS))
  }

  function Next(d: Doc, e: Event): Doc {
    match e
    case Claim(readAt, stampedAt) =>
      if CanClaim(d, readAt) then d.(status := Processing, startedAt := Some(stampedAt)) else d
    case Upload(at) => if d.deleted then d else d.(status := Processing, startedAt := Some(at))
    case Write(st) => d.(status := st)
    case Remove => d.(deleted := true)
  }

  function Run(d: Doc, es: seq<Event>): Doc {
    if es == [] then d else Next(Run(d, es[..|es| - 1]), es[|es| - 1])
  }

  predicate Claimed(d: Doc, es: seq<Event>, i: nat)
    requires i < |es|
  {
    es[i].Claim? && CanClaim(Run(d, es[..i]), es[i].readAt)
  }

  /** Each call reads the clock for the threshold before it stamps the new start. */
  ghost predicate ReadsFirst(es: seq<Event>) {
    forall i :: 0 <= i < |es| && es[i].Claim? ==> es[i].readAt <= es[i].stampedAt
  }

  /** No failure is written between i and j. */
  ghost predicate NoFailure(es: seq<Event>, i: nat, j: nat) {
    forall k :: i < k < j && k < |es| ==> es[k] != Write(ExtractionFailed)
  }

  /** Event k writes a new start: a retry that gets through, or an upload. */
  predicate Starts(d: Doc, es: seq<Event>, k: nat)
    requires k < |es|
  {
    Claimed(d, es, k) || (es[k].Upload? && !Run(d, es[..k]).deleted)
  }

  function StampOf(e: Event): int
    requires e.Claim? || e.Upload?
  {
    if e.Claim? then e.stampedAt else e.at
  }

  /** From a retry on, the start of the document is that of the last retry or upload that wrote one. */
  lemma {:induction false} StampIsLast(d: Doc, es: seq<Event>, i: nat, j: nat) returns (l: nat)
    requires i < j <= |es| && Claimed(d, es, i)
    ensures i <= l < j && Starts(d, es, l) && forall k :: l < k < j ==> !Starts(d, es, k)
    ensures Run(d, es[..j]).startedAt == Some(StampOf(es[l]))
    decreases j
  {
    assert es[..j][..j - 1] == es[..j - 1];
    if Starts(d, es, j - 1) {
      l := j - 1;
    } else {
      l := StampIsLast(d, es, i, j - 1);
    }
  }

  /** Without a failure, a document that was claimed does not become FAILED. */
  lemma {:induction false} StaysUnfailed(d: Doc, es: seq<Event>, i: nat, j: nat)
    requires i < j <= |es| && Claimed(d, es, i) && NoFailure(es, i, j)
    ensures Run(d, es[..j]).status != ExtractionFailed
    decreases j
  {
    assert es[..j][..j - 1] == es[..j - 1];
    if j > i + 1 {
      StaysUnfailed(d, es, i, j - 1);
    }
  }

  /**
   After a retry that got through, with no failure written since, the next one has to wait for
   over 15 minutes exactly when it could not get through at all, or the start of the document is
   not earlier than the one that the retry wrote.
   */
  lemma NextClaimIsFarExactly(d: Doc, es: seq<Event>, i: nat, j: nat)
    requires i < j <= |es| && Claimed(d, es, i) && NoFailure(es, i, j)
    ensures var now := Run(d, es[..j]);
            (forall readAt :: CanClaim(now, readAt) ==> es[i].stampedAt + STUCK_EXTRACTION_THRESHOLD_MS < readAt)
            <==> now.deleted || now.status != Processing || now.startedAt.None?
                 || es[i].stampedAt <= now.startedAt.value
  {
    StaysUnfailed(d, es, i, j);
    var now := Run(d, es[..j]);
    if now.startedAt.Some? && !now.deleted && now.status == Processing {
      assert CanClaim(now, now.startedAt.value + STUCK_EXTRACTION_THRESHOLD_MS + 1);
    }
  }

  /** Two retries that get through are over 15 minutes apart if the last start before the second is not too early. */
  lemma ClaimsAreFarApart(d: Doc, es: seq<Event>, i: nat, j: nat)
    requires i < j < |es| && ReadsFirst(es) && Claimed(d, es, i) && Claimed(d, es, j) && NoFailure(es, i, j)
    requires Run(d, es[..j]).startedAt.Some? ==> es[i].stampedAt <= Run(d, es[..j]).startedAt.value
    ensures es[i].stampedAt + STUCK_EXTRACTION_THRESHOLD_MS < es[j].readAt <= es[j].stampedAt
  {
    NextClaimIsFarExactly(d, es, i, j);
  }

  /** In particular if every upload in between is stamped after the first retry. */
  lemma {:induction false} InOrderIsFarApart(d: Doc, es: seq<Event>, i: nat, j: nat)
    requires i < j < |es| && ReadsFirst(es) && Claimed(d, es, i) && Claimed(d, es, j) && NoFailure(es, i, j)
    requires forall k :: i < k < j && es[k].Upload? ==> es[i].stampedAt <= es[k].at
    ensures es[i].stampedAt + STUCK_EXTRACTION_THRESHOLD_MS < es[j].readAt <= es[j].stampedAt
    decreases j
  {
    var l := StampIsLast(d, es, i, j);
    if i < l && es[l].Claim? {
      InOrderIsFarApart(d, es, i, l);
    }
    ClaimsAreFarApart(d, es, i, j);
  }

  /**
   An upload takes its stamp before it saves. If a retry gets through in between, the start goes
   back behind the retry, and a second retry gets through any shorter time later, down to none.
   */
  lemma SlowUploadLetsBothThrough(gap: nat) returns (d: Doc, es: seq<Event>)
    requires gap <= STUCK_EXTRACTION_THRESHOLD_MS
    ensures |es| == 3 && ReadsFirst(es) && Claimed(d, es, 0) && Claimed(d, es, 2)
    ensures es[1].Upload? && es[1].at < es[0].readAt == es[0].stampedAt
    ensures es[2].readAt == es[2].stampedAt == es[0].stampedAt + gap
  {
    var t := STUCK_EXTRACTION_THRESHOLD_MS + 1;
    var none := Fields(None, None, None);
    d := Doc(ExtractionFailed, Incomplete, none, false, none, [], None, false);
    es := [Claim(t, t), Upload(gap), Claim(t + gap, t + gap)];
    assert es[..0] == [] && es[..1][..0] == [] && es[..2][..1] == es[..1];
    assert Run(d, es[..1]) == Next(d, es[0]);
    assert Run(d, es[..2]) == Next(Next(d, es[0]), es[1]);
    assert gap < t + gap - STUCK_EXTRACTION_THRESHOLD_MS;
  }

  /** So of any number of calls that race on one document, one at most emits again. */
  lemma OneRacerWins(d: Doc, es: seq<Event>, i: nat, j: nat)
    requires i < |es| && j < |es| && ReadsFirst(es)
    requires forall k :: 0 <= k < |es| ==> es[k].Claim?
    requires forall k, l :: 0 <= k < |es| && 0 <= l < |es| ==>
               es[k].readAt <= es[l].stampedAt + STUCK_EXTRACTION_THRESHOLD_MS
    requires Claimed(d, es, i) && Claimed(d, es, j)
    ensures i == j
  {
    if i < j {
      InOrderIsFarApart(d, es, i, j);
    } else if j < i {
      InOrderIsFarApart(d, es, j, i);
    }
  }
}
