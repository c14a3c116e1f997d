/** scan_worker_card: the decision whether an event needs work, the reading of the card and
    the field set sent to the `users` table. */
module Reconcile {
  import opened Wrappers
  import opened Dicts
  import opened Blocks
  import opened QueryAnswers
  import opened Dates
  import opened Expiry
  import opened Certificates
  import opened CardUrl

  const MODIFY: string := "MODIFY"
  const WORKER: string := "worker"

  /** The fields of the previous record version that a MODIFY event carries. */
  datatype OldImage = OldImage(cardUrl: string, displayName: string, chineseName: string, refNo: string,
                               certificates: PriorCertificates)

  /** A change notification: `oldImage` is None when the record carries no `OldImage`. */
  datatype Event = Event(eventName: string, id: string, cardUrl: string, oldImage: Option<OldImage>)

  /** The first answer to each of the configured queries. */
  datatype CardAnswers = CardAnswers(name: Option<string>, nameChi: Option<string>, refNo: Option<string>,
                                     dateFrom: Option<string>, dateTo: Option<string>, expiryDate: Option<string>,
                                     certificate: Option<string>)

  /** The update of the record keyed by (`accountType`, `id`). */
  datatype WorkerUpdate = WorkerUpdate(accountType: string, id: string,
                                       displayName: Option<string>, chineseName: Option<string>, refNo: Option<string>,
                                       validityFrom: int, validityTo: int, expiryDate: int,
                                       certificates: seq<Option<string>>)

  /** The object store read followed by the OCR call on the image bytes: the response's
      blocks, or the error either service raised. */
  type Ocr = Location -> Result<seq<Block>>

  /** textract_extract_queries: the answer map of the image at `loc`. */
  function ExtractQueries(ocr: Ocr, loc: Location): (r: Result<QaMap>)
    ensures ocr(loc).Err? ==> r == Err(ocr(loc).error)
    ensures r.Ok? ==> ocr(loc).Ok? && Valid(r.value)
    ensures r.Ok? ==> TotalLength(r.value.keys, r.value.items) == |Partition(ocr(loc).value).queryMap.keys|
  {
    var blocks :- ocr(loc);
    var p := Partition(blocks);
    var qas := QaRelationship(Values(p.queryMap), p.answerMap);
    if qas.Ok? then
      QaTotal(Values(p.queryMap), p.answerMap);
      qas
    else
      qas
  }

  /** `response_textract[alias][0]`: an alias the answer map lacks reads as an empty list of
      the defaultdict, so both a missing alias and an empty list raise IndexError. */
  function FirstAnswer(qas: QaMap, alias: string): (r: Result<Option<string>>)
    ensures r.Ok? <==> alias in qas.items && |qas.items[alias]| > 0
    ensures r.Ok? ==> r.value == qas.items[alias][0]
    ensures r.Err? ==> r.error == IndexError
  {
    if alias in qas.items && |qas.items[alias]| > 0 then Ok(qas.items[alias][0]) else Err(IndexError)
  }

  /** The seven answers, read in the order of the source; the first missing one raises. */
  function ReadAnswers(qas: QaMap): (r: Result<CardAnswers>)
    ensures r.Ok? <==> forall alias :: alias in Aliases ==> alias in qas.items && |qas.items[alias]| > 0
    ensures r.Err? ==> r.error == IndexError
  {
    var name :- FirstAnswer(qas, "Name");
    var nameChi :- FirstAnswer(qas, "Name_Chi");
    var refNo :- FirstAnswer(qas, "No.");
    var dateFrom :- FirstAnswer(qas, "DateFrom");
    var dateTo :- FirstAnswer(qas, "DateTo");
    var expiryDate :- FirstAnswer(qas, "ExpiryDate");
    var certificate :- FirstAnswer(qas, "Type");
    Ok(CardAnswers(name, nameChi, refNo, dateFrom, dateTo, expiryDate, certificate))
  }

  /** The aliases of the configured queries that the handler reads. */
  const Aliases: set<string> := {"Name", "Name_Chi", "No.", "DateFrom", "DateTo", "ExpiryDate", "Type"}

  /** The card belongs to the worker of the previous version: a MODIFY whose old display name
      and reference number equal the ones just read. A name or number the OCR did not find
      (None) never equals a stored string. */
  predicate SameWorker(e: Event, a: CardAnswers): (same: bool)
    ensures same ==> e.eventName == MODIFY && e.oldImage.Some? && a.name.Some? && a.refNo.Some?
    ensures same ==> a.name.value == e.oldImage.value.displayName && a.refNo.value == e.oldImage.value.refNo
  {
    && e.eventName == MODIFY && e.oldImage.Some?
    && Some(e.oldImage.value.displayName) == a.name
    && Some(e.oldImage.value.refNo) == a.refNo
  }

  /** The certificates of the previous version; nothing outside a MODIFY. */
  function PriorOf(e: Event): (prior: PriorCertificates)
    ensures e.eventName != MODIFY || e.oldImage.None? ==> prior == Absent
    ensures e.eventName == MODIFY && e.oldImage.Some? ==> prior == e.oldImage.value.certificates
  {
    if e.eventName == MODIFY && e.oldImage.Some? then e.oldImage.value.certificates else Absent
  }

  /** The field set from the answers: three normalised dates, the resolved expiry and the
      merged certificate history. */
  function Assemble(e: Event, a: CardAnswers, now: int): (r: Result<WorkerUpdate>)
    ensures r.Ok? <==> ExtractDate(a.dateFrom, now).Ok? && ExtractDate(a.dateTo, now).Ok? && ExtractDate(a.expiryDate, now).Ok?
    ensures r.Err? ==> r.error == ValueError
    ensures r.Ok? ==> var u := r.value;
      && u.accountType == WORKER && u.id == e.id
      && u.displayName == a.name && u.chineseName == a.nameChi && u.refNo == a.refNo
      && u.validityFrom == ExtractDate(a.dateFrom, now).value.0
      && u.validityTo == ExtractDate(a.dateTo, now).value.0
      && var (to, toRead) := ExtractDate(a.dateTo, now).value;
      && var (expiry, expiryRead) := ExtractDate(a.expiryDate, now).value;
      && u.expiryDate == ResolveExpiry(to, toRead, expiry, expiryRead)
      && (toRead && expiryRead ==> u.expiryDate == if expiry >= to then expiry else to)
      && (toRead && !expiryRead ==> u.expiryDate == to)
      && (!toRead ==> u.expiryDate == expiry)
      && |u.certificates| >= 1 && u.certificates[|u.certificates| - 1] == a.certificate
  {
    var from :- ExtractDate(a.dateFrom, now);
    var to :- ExtractDate(a.dateTo, now);
    var expiry :- ExtractDate(a.expiryDate, now);
    var expiryDate := ResolveExpiry(to.0, to.1, expiry.0, expiry.1);
    var certificates := MergeCertificates(SameWorker(e, a), PriorOf(e), a.certificate);
    Ok(WorkerUpdate(WORKER, e.id, a.name, a.nameChi, a.refNo, from.0, to.0, expiryDate, certificates))
  }

  /** The whole of scan_worker_card up to the database write: a MODIFY without an old image
      raises KeyError, a MODIFY with an unchanged card image needs no work (None), and any
      other event gives the update to send. */
  function Reconcile(e: Event, ocr: Ocr, now: int): (r: Result<Option<WorkerUpdate>>)
    ensures e.eventName == MODIFY && e.oldImage.None? ==> r == Err(KeyError("OldImage"))
    ensures r.Ok? && r.value.None? ==> e.eventName == MODIFY && e.oldImage.value.cardUrl == e.cardUrl
    ensures r.Ok? && r.value.Some? ==> SplitCardUrl(e.cardUrl).Ok? && ExtractQueries(ocr, SplitCardUrl(e.cardUrl).value).Ok?
    ensures r.Ok? && r.value.Some? ==> r.value.value.accountType == WORKER && r.value.value.id == e.id
  {
    if e.eventName == MODIFY && e.oldImage.None? then
      Err(KeyError("OldImage"))
    else if e.eventName == MODIFY && e.oldImage.value.cardUrl == e.cardUrl then
      Ok(None)
    else
      var loc :- SplitCardUrl(e.cardUrl);
      var qas :- ExtractQueries(ocr, loc);
      var answers :- ReadAnswers(qas);
      var update :- Assemble(e, answers, now);
      Ok(Some(update))
  }

  /** An unchanged card image is a no-op whatever the OCR service and the clock would say,
      and it is the only way to reach one. */
  lemma NoOpExactly(e: Event, ocr: Ocr, now: int)
    ensures Reconcile(e, ocr, now) == Ok(None) <==>
      e.eventName == MODIFY && e.oldImage.Some? && e.oldImage.value.cardUrl == e.cardUrl
  {
  }

  /** Repeating a no-op event is again a no-op, with any collaborators. */
  lemma NoOpStable(e: Event, ocr1: Ocr, ocr2: Ocr, now1: int, now2: int)
    requires Reconcile(e, ocr1, now1) == Ok(None)
    ensures Reconcile(e, ocr2, now2) == Ok(None)
  {
    NoOpExactly(e, ocr1, now1);
    NoOpExactly(e, ocr2, now2);
  }

  /** The update of a read card: keyed by the event's id, the names and reference number are
      the first answers to their queries, and its certificate history ends with the answer to
      `Type`. */
  lemma UpdateFields(e: Event, ocr: Ocr, now: int, u: WorkerUpdate)
    requires Reconcile(e, ocr, now) == Ok(Some(u))
    ensures SplitCardUrl(e.cardUrl).Ok?
    ensures var qas := ExtractQueries(ocr, SplitCardUrl(e.cardUrl).value);
      && qas.Ok?
      && u.accountType == WORKER && u.id == e.id
      && FirstAnswer(qas.value, "Name") == Ok(u.displayName)
      && FirstAnswer(qas.value, "Name_Chi") == Ok(u.chineseName)
      && FirstAnswer(qas.value, "No.") == Ok(u.refNo)
      && |u.certificates| >= 1
      && FirstAnswer(qas.value, "Type") == Ok(u.certificates[|u.certificates| - 1])
  {
    var qas := ExtractQueries(ocr, SplitCardUrl(e.cardUrl).value).value;
    var a := ReadAnswers(qas).value;
    assert Assemble(e, a, now) == Ok(u);
    ReadAnswersFields(qas, a);
    AssembleFields(e, a, now, u);
  }

  lemma ReadAnswersFields(qas: QaMap, a: CardAnswers)
    requires ReadAnswers(qas) == Ok(a)
    ensures FirstAnswer(qas, "Name") == Ok(a.name) && FirstAnswer(qas, "Name_Chi") == Ok(a.nameChi)
    ensures FirstAnswer(qas, "No.") == Ok(a.refNo) && FirstAnswer(qas, "Type") == Ok(a.certificate)
    ensures FirstAnswer(qas, "DateFrom") == Ok(a.dateFrom) && FirstAnswer(qas, "DateTo") == Ok(a.dateTo)
    ensures FirstAnswer(qas, "ExpiryDate") == Ok(a.expiryDate)
  {
  }

  lemma AssembleFields(e: Event, a: CardAnswers, now: int, u: WorkerUpdate)
    requires Assemble(e, a, now) == Ok(u)
    ensures u.accountType == WORKER && u.id == e.id
    ensures u.displayName == a.name && u.chineseName == a.nameChi && u.refNo == a.refNo
    ensures u.certificates == MergeCertificates(SameWorker(e, a), PriorOf(e), a.certificate)
  {
  }

  /** The dates of a read card: each is its answer normalised, and the stored expiry is the
      one the expiry rule resolves from the two normalised answers, so it never precedes a
      validity end that was read. */
  lemma UpdateDates(e: Event, ocr: Ocr, now: int, u: WorkerUpdate)
    requires Reconcile(e, ocr, now) == Ok(Some(u))
    ensures SplitCardUrl(e.cardUrl).Ok?
    ensures var qas := ExtractQueries(ocr, SplitCardUrl(e.cardUrl).value);
      && qas.Ok? && ReadAnswers(qas.value).Ok?
      && var a := ReadAnswers(qas.value).value;
      && ExtractDate(a.dateFrom, now).Ok? && u.validityFrom == ExtractDate(a.dateFrom, now).value.0
      && ExtractDate(a.dateTo, now).Ok? && u.validityTo == ExtractDate(a.dateTo, now).value.0
      && ExtractDate(a.expiryDate, now).Ok?
      && var (to, toRead) := ExtractDate(a.dateTo, now).value;
      && var (expiry, expiryRead) := ExtractDate(a.expiryDate, now).value;
      && u.expiryDate == ResolveExpiry(to, toRead, expiry, expiryRead)
      && (toRead ==> u.expiryDate >= u.validityTo)
  {
  }

  /** A MODIFY for the same worker keeps every earlier certificate that differs from the new
      one, in order, and appends the new one. */
  lemma SameWorkerMerges(e: Event, ocr: Ocr, now: int, u: WorkerUpdate)
    requires Reconcile(e, ocr, now) == Ok(Some(u))
    requires e.eventName == MODIFY && e.oldImage.Some?
    requires Some(e.oldImage.value.displayName) == u.displayName && Some(e.oldImage.value.refNo) == u.refNo
    ensures |u.certificates| >= 1
    ensures var c := u.certificates[|u.certificates| - 1];
      u.certificates == Without(Prior(e.oldImage.value.certificates), c) + [c]
  {
    var qas := ExtractQueries(ocr, SplitCardUrl(e.cardUrl).value).value;
    var a := ReadAnswers(qas).value;
    assert Assemble(e, a, now) == Ok(u);
    AssembleFields(e, a, now, u);
    assert SameWorker(e, a);
    MergePrefix(true, e.oldImage.value.certificates, a.certificate);
  }

  /** Any other event starts the history afresh with the new certificate alone. */
  lemma OtherwiseResets(e: Event, ocr: Ocr, now: int, u: WorkerUpdate)
    requires Reconcile(e, ocr, now) == Ok(Some(u))
    requires !(e.eventName == MODIFY && e.oldImage.Some?
               && Some(e.oldImage.value.displayName) == u.displayName && Some(e.oldImage.value.refNo) == u.refNo)
    ensures |u.certificates| == 1
  {
    var qas := ExtractQueries(ocr, SplitCardUrl(e.cardUrl).value).value;
    var a := ReadAnswers(qas).value;
    assert Assemble(e, a, now) == Ok(u);
    AssembleFields(e, a, now, u);
    ResetCases(SameWorker(e, a), PriorOf(e), a.certificate);
  }

  /** An INSERT of a card reading Jane, X1, 01/01/2024 to 01/01/2025, expiring 15/02/2025,
      a WelderCert: the later expiry date is stored and the history is the one certificate. */
  lemma InsertExample(id: string, url: string, now: int)
    ensures Assemble(Event("INSERT", id, url, None),
                     CardAnswers(Some("Jane"), None, Some("X1"), Some("01/01/2024"), Some("01/01/2025"),
                                 Some("15/02/2025"), Some("WelderCert")), now)
         == Ok(WorkerUpdate(WORKER, id, Some("Jane"), None, Some("X1"), 1704067200, 1735689600, 1739577600,
                            [Some("WelderCert")]))
  {
    var e := Event("INSERT", id, url, None);
    var a := CardAnswers(Some("Jane"), None, Some("X1"), Some("01/01/2024"), Some("01/01/2025"),
                         Some("15/02/2025"), Some("WelderCert"));
    Jan2024(now);
    Jan2025(now);
    Feb2025(now);
    assert ResolveExpiry(1735689600, true, 1739577600, true) == 1739577600;
    assert e.eventName != MODIFY;
    ResetCases(SameWorker(e, a), PriorOf(e), a.certificate);
  }

  lemma Jan2024(now: int)
    ensures ExtractDate(Some("01/01/2024"), now) == Ok((1704067200, true))
  {
    var d := Date(2024, 1, 1);
    assert Timestamp(d) == 1704067200;
    assert Format(d, '/') == "01/01/2024";
    SeparatorIrrelevant(d, now);
  }

  lemma Jan2025(now: int)
    ensures ExtractDate(Some("01/01/2025"), now) == Ok((1735689600, true))
  {
    var d := Date(2025, 1, 1);
    assert Timestamp(d) == 1735689600;
    assert Format(d, '/') == "01/01/2025";
    SeparatorIrrelevant(d, now);
  }

  lemma Feb2025(now: int)
    ensures ExtractDate(Some("15/02/2025"), now) == Ok((1739577600, true))
  {
    var d := Date(2025, 2, 15);
    assert Timestamp(d) == 1739577600;
    assert Format(d, '/') == "15/02/2025";
    SeparatorIrrelevant(d, now);
  }

  /** scan_worker_card, step by step, with the source's loops as methods. */
  method ScanWorkerCard(e: Event, ocr: Ocr, now: int) returns (r: Result<Option<WorkerUpdate>>)
    ensures r == Reconcile(e, ocr, now)
  {
    if e.eventName == MODIFY {
      if e.oldImage.None? {
        return Err(KeyError("OldImage"));
      }
      if e.oldImage.value.cardUrl == e.cardUrl {
        return Ok(None);
      }
    }
    var loc :- SplitCardUrl(e.cardUrl);
    var blocks :- ocr(loc);
    var queryMap, answerMap, blockMap := GetQaMap(blocks);
    var qas :- GetQaRelationship(queryMap, answerMap);
    var a :- ReadAnswers(qas);
    var from :- ExtractDate(a.dateFrom, now);
    var to :- ExtractDate(a.dateTo, now);
    var expiry :- ExtractDate(a.expiryDate, now);
    var expiryDate := ResolveExpiry(to.0, to.1, expiry.0, expiry.1);
    var certificates := BuildCertificates(SameWorker(e, a), PriorOf(e), a.certificate);
    r := Ok(Some(WorkerUpdate(WORKER, e.id, a.name, a.nameChi, a.refNo, from.0, to.0, expiryDate, certificates)));
  }
}
