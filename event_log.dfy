/**
 * The per-machine event log as the two routes use it: the create route
 * validates a request, reads the newest hash of the machine's chain and
 * appends one row carrying that pointer and the hash of the new payload; the
 * verify route selects the machine's events oldest first and walks them.
 */
module EventLog {
  import opened Platform
  import opened JsText
  import opened HexDigest
  import opened CanonicalJson
  import opened EventModel
  import opened ChainVerify

  /** The create route's request body; None is an absent or null field. */
  datatype EventBody = EventBody(
    machineId: Option<string>,
    eventType: Option<string>,
    description: Option<string>,
    data: Option<string>)

  datatype EventField = MachineIdField | EventTypeField | DescriptionField

  /** An accepted request: the three trimmed fields and the raw `data`. */
  datatype EventInput = EventInput(machineId: string, eventType: string, description: string, data: Option<string>)

  /**
   * Trims the three required fields and refuses the first one that is empty
   * after trimming, in the order machine_id, event_type, description.
   */
  function ValidateEvent(body: EventBody): (r: Result<EventInput, EventField>)
    ensures r == Err(MachineIdField) <==> AllSpace(OrEmpty(body.machineId))
    ensures r == Err(EventTypeField) <==>
      !AllSpace(OrEmpty(body.machineId)) && AllSpace(OrEmpty(body.eventType))
    ensures r == Err(DescriptionField) <==>
      !AllSpace(OrEmpty(body.machineId)) && !AllSpace(OrEmpty(body.eventType)) && AllSpace(OrEmpty(body.description))
    ensures r.Ok? ==>
      && r.value.machineId == Trim(OrEmpty(body.machineId)) && r.value.machineId != ""
      && r.value.eventType == Trim(OrEmpty(body.eventType)) && r.value.eventType != ""
      && r.value.description == Trim(OrEmpty(body.description)) && r.value.description != ""
      && r.value.data == body.data
  {
    var machineId := Trim(OrEmpty(body.machineId));
    var eventType := Trim(OrEmpty(body.eventType));
    var description := Trim(OrEmpty(body.description));
    if machineId == "" then Err(MachineIdField)
    else if eventType == "" then Err(EventTypeField)
    else if description == "" then Err(DescriptionField)
    else Ok(EventInput(machineId, eventType, description, body.data))
  }

  /** The newest event's stored hash, or none when the machine has no events. */
  function NewestHash(rows: seq<EventRow>, machineId: string): (h: Option<string>)
    ensures ChainOf(rows, machineId) == [] ==> h == None
    ensures ChainOf(rows, machineId) != [] ==> h == ChainOf(rows, machineId)[|ChainOf(rows, machineId)| - 1].hash
  {
    var c := ChainOf(rows, machineId);
    PrevAt(c, |c|)
  }

  /**
   * After a row is inserted, the next read of its machine's newest hash gives
   * that row's hash, and every other machine's newest hash is unchanged.
   */
  lemma NewestHashAfterAppend(rows: seq<EventRow>, row: EventRow, machineId: string)
    ensures NewestHash(rows + [row], machineId) ==
      (if row.machineId == machineId then row.hash else NewestHash(rows, machineId))
  {
    ChainOfAppend(rows, row, machineId);
  }

  /** The row the create route inserts for an accepted request. */
  function NewRow(sha: string -> Digest, rows: seq<EventRow>, input: EventInput, id: string): (row: EventRow)
    ensures row.machineId == input.machineId && row.eventType == input.eventType
    ensures row.description == input.description && row.data == input.data && row.id == id
    ensures ChainOf(rows, input.machineId) == [] ==> row.previousHash == None
    ensures ChainOf(rows, input.machineId) != [] ==>
      row.previousHash == ChainOf(rows, input.machineId)[|ChainOf(rows, input.machineId)| - 1].hash
    ensures row.hash.Some? && HexDecode(row.hash.value) == Some(sha(Stringify(RowPayload(row, row.previousHash))))
  {
    var prev := NewestHash(rows, input.machineId);
    ComputeHashDecodes(sha, Stringify(HashPayload(input.machineId, input.eventType, input.description, prev)));
    EventRow(id, input.machineId, input.eventType, input.description, input.data, prev,
             Some(EntryHash(sha, HashPayload(input.machineId, input.eventType, input.description, prev))))
  }

  /** An append keeps every machine's well-linked chain well linked. */
  lemma AppendKeepsChainsLinked(sha: string -> Digest, rows: seq<EventRow>, input: EventInput, id: string, m: string)
    requires WellLinked(sha, ChainOf(rows, m))
    ensures WellLinked(sha, ChainOf(rows + [NewRow(sha, rows, input, id)], m))
  {
    var row := NewRow(sha, rows, input, id);
    ChainOfAppend(rows, row, m);
    if row.machineId == m {
      LinkedExtension(sha, ChainOf(rows, m), row);
      assert ChainOf(rows + [row], m) == ChainOf(rows, m) + [row];
    } else {
      assert ChainOf(rows + [row], m) == ChainOf(rows, m);
    }
  }

  /** An append keeps all chains well linked at once. */
  lemma AppendPreservesLinkage(sha: string -> Digest, rows: seq<EventRow>, input: EventInput, id: string)
    ensures (forall m :: WellLinked(sha, ChainOf(rows, m))) ==>
      forall m :: WellLinked(sha, ChainOf(rows + [NewRow(sha, rows, input, id)], m))
  {
    if forall m :: WellLinked(sha, ChainOf(rows, m)) {
      forall m ensures WellLinked(sha, ChainOf(rows + [NewRow(sha, rows, input, id)], m)) {
        AppendKeepsChainsLinked(sha, rows, input, id, m);
      }
    }
  }

  /** After an append to a well-linked chain, verifying that machine reports it intact. */
  lemma AppendThenVerify(sha: string -> Digest, rows: seq<EventRow>, input: EventInput, id: string)
    requires WellLinked(sha, ChainOf(rows, input.machineId))
    ensures Walk(EntryHasher(sha), ChainOf(rows + [NewRow(sha, rows, input, id)], input.machineId)) == Intact
  {
    AppendKeepsChainsLinked(sha, rows, input, id, input.machineId);
    WellLinkedVerifies(sha, ChainOf(rows + [NewRow(sha, rows, input, id)], input.machineId));
  }

  /** The create route's reply. */
  datatype AppendResponse =
    | Appended                               // 200 { ok: true }
    | AppendMissingEnv                       // 500
    | MissingField(field: EventField)        // 400
    | AppendStorageError(message: string)    // 500

  /** The `machine_events` table, with the digest function the deployment uses. */
  class MachineEvents {
    const sha256: string -> Digest
    var rows: seq<EventRow>

    constructor (sha256: string -> Digest)
      ensures this.sha256 == sha256 && rows == []
      ensures Valid()
    {
      this.sha256 := sha256;
      rows := [];
    }

    /** Every machine's chain is as the create route leaves it. */
    ghost predicate Valid()
      reads this
    {
      forall m :: WellLinked(sha256, ChainOf(rows, m))
    }

    /**
     * The create route. A storage failure of the newest-hash read or of the
     * insert is given as `readError` / `insertError`; `newId` is the id the
     * database assigns.
     */
    method Post(env: Env, body: EventBody, newId: string, readError: Option<string>, insertError: Option<string>)
      returns (r: AppendResponse)
      modifies this
      ensures !DatabaseConfigured(env) ==> r == AppendMissingEnv && rows == old(rows)
      ensures DatabaseConfigured(env) && ValidateEvent(body).Err? ==>
        r == MissingField(ValidateEvent(body).error) && rows == old(rows)
      ensures DatabaseConfigured(env) && ValidateEvent(body).Ok? && readError.Some? ==>
        r == AppendStorageError(readError.value) && rows == old(rows)
      ensures DatabaseConfigured(env) && ValidateEvent(body).Ok? && readError.None? && insertError.Some? ==>
        r == AppendStorageError(insertError.value) && rows == old(rows)
      ensures DatabaseConfigured(env) && ValidateEvent(body).Ok? && readError.None? && insertError.None? ==>
        r == Appended && rows == old(rows) + [NewRow(sha256, old(rows), ValidateEvent(body).value, newId)]
      ensures old(Valid()) ==> Valid()
    {
      if !DatabaseConfigured(env) {
        return AppendMissingEnv;
      }
      var machineId := Trim(OrEmpty(body.machineId));
      var eventType := Trim(OrEmpty(body.eventType));
      var description := Trim(OrEmpty(body.description));
      var data := body.data;
      if machineId == "" {
        assert ValidateEvent(body) == Err(MachineIdField);
        return MissingField(MachineIdField);
      }
      if eventType == "" {
        assert ValidateEvent(body) == Err(EventTypeField);
        return MissingField(EventTypeField);
      }
      if description == "" {
        assert ValidateEvent(body) == Err(DescriptionField);
        return MissingField(DescriptionField);
      }
      assert ValidateEvent(body) == Ok(EventInput(machineId, eventType, description, data));
      if readError.Some? {
        return AppendStorageError(readError.value);
      }
      var last := ChainOf(rows, machineId);
      var previousHash := if |last| > 0 then last[|last| - 1].hash else None;
      assert previousHash == NewestHash(rows, machineId);
      var hash := ComputeHash(sha256, Stringify(HashPayload(machineId, eventType, description, previousHash)));
      assert hash == EntryHash(sha256, HashPayload(machineId, eventType, description, previousHash));
      if insertError.Some? {
        return AppendStorageError(insertError.value);
      }
      var input := EventInput(machineId, eventType, description, data);
      var row := EventRow(newId, machineId, eventType, description, data, previousHash, Some(hash));
      assert row == NewRow(sha256, rows, input, newId);
      AppendPreservesLinkage(sha256, rows, input, newId);
      rows := rows + [row];
      r := Appended;
    }

    /**
     * The verify route. It only reads the table; `selectError` is a failure
     * of the select.
     */
    method Get(env: Env, machineIdParam: Option<string>, selectError: Option<string>) returns (r: VerifyResponse)
      ensures !DatabaseConfigured(env) ==> r == VerifyMissingEnv
      ensures DatabaseConfigured(env) && !Truthy(machineIdParam) ==> r == MissingMachineId
      ensures DatabaseConfigured(env) && Truthy(machineIdParam) && selectError.Some? ==>
        r == VerifyStorageError(selectError.value)
      ensures DatabaseConfigured(env) && Truthy(machineIdParam) && selectError.None? ==>
        var list := ChainOf(rows, machineIdParam.value);
        r == ReportFor(list, Walk(EntryHasher(sha256), list))
      ensures Valid() && DatabaseConfigured(env) && Truthy(machineIdParam) && selectError.None? ==>
        r.Report? && r.verified
    {
      if !DatabaseConfigured(env) {
        return VerifyMissingEnv;
      }
      if !Truthy(machineIdParam) {
        return MissingMachineId;
      }
      if selectError.Some? {
        return VerifyStorageError(selectError.value);
      }
      var list := ChainOf(rows, machineIdParam.value);
      var v := VerifyChain(sha256, list);
      r := ReportFor(list, v);
      if Valid() {
        WellLinkedVerifies(sha256, list);
      }
    }
  }
}
