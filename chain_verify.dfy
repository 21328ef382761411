/**
 * The chain verifier: walks a machine's events oldest first with a running
 * pointer, stops at the first event whose stored pointer differs from it
 * ("chain broken") or whose stored hash differs from the recomputed one
 * ("hash mismatch"), and otherwise reports the chain intact.
 */
module ChainVerify {
  import opened Platform
  import opened HexDigest
  import opened CanonicalJson
  import opened EventModel

  /** The outcome of a walk: intact, or the position of the first inconsistency. */
  datatype Verdict = Intact | Broken(at: nat) | Tampered(at: nat)

  /** `(ev.previous_hash || null)`: an empty stored pointer counts as no pointer. */
  function Normalize(h: Option<string>): (r: Option<string>)
    ensures r == None <==> (h == None || h == Some(""))
    ensures r.Some? ==> r == h
  {
    if h == Some("") then None else h
  }

  /**
   * The stored hash of the event at position i equals the hash `hashOf` gives
   * for its payload with the pointer it should carry.
   */
  predicate HashMatches(hashOf: HashPayload -> string, list: seq<EventRow>, i: nat)
    requires i < |list|
  {
    list[i].hash == Some(hashOf(PayloadAt(list, i)))
  }

  /** The verifier's two checks pass at position i, judged on the stored rows. */
  predicate Accepted(hashOf: HashPayload -> string, list: seq<EventRow>, i: nat)
    requires i < |list|
  {
    Normalize(list[i].previousHash) == PrevAt(list, i) && HashMatches(hashOf, list, i)
  }

  /** Every event before position k passes both checks. */
  predicate AcceptedBefore(hashOf: HashPayload -> string, list: seq<EventRow>, k: nat)
    requires k <= |list|
  {
    forall j | 0 <= j < k :: Accepted(hashOf, list, j)
  }

  /**
   * The walk from position i holding the running pointer `prev`. The hash
   * recomputed for a payload is the parameter `hashOf`; the route uses
   * `EntryHasher(sha)`, and the walk's structure does not depend on it.
   */
  function WalkFrom(hashOf: HashPayload -> string, list: seq<EventRow>, i: nat, prev: Option<string>): (v: Verdict)
    requires i <= |list|
    ensures v.Broken? || v.Tampered? ==> i <= v.at < |list|
    decreases |list| - i
  {
    if i == |list| then Intact
    else if Normalize(list[i].previousHash) != prev then Broken(i)
    else if list[i].hash != Some(hashOf(RowPayload(list[i], prev))) then Tampered(i)
    else WalkFrom(hashOf, list, i + 1, list[i].hash)
  }

  /** The whole walk, starting with `prev = null`. */
  function Walk(hashOf: HashPayload -> string, list: seq<EventRow>): (v: Verdict)
    ensures v.Broken? || v.Tampered? ==> v.at < |list|
  {
    WalkFrom(hashOf, list, 0, None)
  }

  /** The loop of the verify route. */
  method VerifyChain(sha: string -> Digest, list: seq<EventRow>) returns (v: Verdict)
    ensures v == Walk(EntryHasher(sha), list)
  {
    var prev: Option<string> := None;
    var i := 0;
    while i < |list|
      invariant 0 <= i <= |list|
      invariant WalkFrom(EntryHasher(sha), list, i, prev) == Walk(EntryHasher(sha), list)
    {
      var ev := list[i];
      if Normalize(ev.previousHash) != prev {
        return Broken(i);
      }
      var expected := ComputeHash(sha, Stringify(HashPayload(ev.machineId, ev.eventType, ev.description, prev)));
      assert expected == EntryHasher(sha)(RowPayload(ev, prev));
      if ev.hash != Some(expected) {
        return Tampered(i);
      }
      prev := ev.hash;
      i := i + 1;
    }
    return Intact;
  }

  // ----- what a verdict says about the rows -----

  /** Walking past events that pass both checks leaves the running pointer at the last stored hash. */
  lemma {:induction false} WalkSkipsAccepted(hashOf: HashPayload -> string, list: seq<EventRow>, k: nat)
    requires k <= |list| && AcceptedBefore(hashOf, list, k)
    ensures Walk(hashOf, list) == WalkFrom(hashOf, list, k, PrevAt(list, k))
  {
    if k > 0 {
      WalkSkipsAccepted(hashOf, list, k - 1);
      assert Accepted(hashOf, list, k - 1);
    }
  }

  lemma {:induction false} WalkFromFacts(hashOf: HashPayload -> string, list: seq<EventRow>, i: nat)
    requires i <= |list| && AcceptedBefore(hashOf, list, i)
    ensures var v := WalkFrom(hashOf, list, i, PrevAt(list, i));
      && (v == Intact ==> AcceptedBefore(hashOf, list, |list|))
      && (v.Broken? ==> AcceptedBefore(hashOf, list, v.at) && Normalize(list[v.at].previousHash) != PrevAt(list, v.at))
      && (v.Tampered? ==> AcceptedBefore(hashOf, list, v.at) && Normalize(list[v.at].previousHash) == PrevAt(list, v.at)
                          && !HashMatches(hashOf, list, v.at))
    decreases |list| - i
  {
    if i < |list| && Accepted(hashOf, list, i) {
      assert AcceptedBefore(hashOf, list, i + 1);
      WalkFromFacts(hashOf, list, i + 1);
    }
  }

  /**
   * The verdict names the first inconsistency: every earlier event passes
   * both checks, and the named one fails the check the verdict names.
   * The chain is reported intact exactly when every event passes.
   */
  lemma VerdictLocatesFirstFault(hashOf: HashPayload -> string, list: seq<EventRow>)
    ensures var v := Walk(hashOf, list);
      && (v == Intact <==> AcceptedBefore(hashOf, list, |list|))
      && (v.Broken? ==> v.at < |list| && AcceptedBefore(hashOf, list, v.at)
                        && Normalize(list[v.at].previousHash) != PrevAt(list, v.at))
      && (v.Tampered? ==> v.at < |list| && AcceptedBefore(hashOf, list, v.at)
                          && Normalize(list[v.at].previousHash) == PrevAt(list, v.at)
                          && !HashMatches(hashOf, list, v.at))
  {
    WalkFromFacts(hashOf, list, 0);
    if AcceptedBefore(hashOf, list, |list|) {
      WalkSkipsAccepted(hashOf, list, |list|);
    }
  }

  /** Every event of a well-linked chain passes both checks. */
  lemma LinkedAccepted(sha: string -> Digest, c: seq<EventRow>)
    requires WellLinked(sha, c)
    ensures AcceptedBefore(EntryHasher(sha), c, |c|)
  {
    forall i | 0 <= i < |c| ensures Accepted(EntryHasher(sha), c, i) {
      assert Linked(sha, c, i);
      assert EntryHasher(sha)(PayloadAt(c, i)) == EntryHash(sha, PayloadAt(c, i));
      if i > 0 {
        assert Linked(sha, c, i - 1);
        assert |PrevAt(c, i).value| == 64;
      }
    }
  }

  /** A chain written only by the writer verifies as intact. */
  lemma WellLinkedVerifies(sha: string -> Digest, c: seq<EventRow>)
    requires WellLinked(sha, c)
    ensures Walk(EntryHasher(sha), c) == Intact
  {
    LinkedAccepted(sha, c);
    WalkSkipsAccepted(EntryHasher(sha), c, |c|);
  }

  /**
   * Changing the event type or description of event i of a well-linked
   * chain (keeping its stored pointer and hash) is reported as a hash
   * mismatch at event i, unless the forged payload collides with the original
   * under SHA-256. A changed machine id takes the row out of the list the
   * route selects instead (`MachineIdChangeDropsRow`).
   */
  lemma TamperReportedAt(sha: string -> Digest, c: seq<EventRow>, i: nat, forged: EventRow)
    requires WellLinked(sha, c) && i < |c|
    requires forged.previousHash == c[i].previousHash && forged.hash == c[i].hash
    requires RowPayload(forged, PrevAt(c, i)) != PayloadAt(c, i)
    requires NoCollision(sha, Stringify(RowPayload(forged, PrevAt(c, i))), Stringify(PayloadAt(c, i)))
    ensures Walk(EntryHasher(sha), c[i := forged]) == Tampered(i)
  {
    var c' := c[i := forged];
    LinkedAccepted(sha, c);
    assert forall j | 0 <= j <= i :: PrevAt(c', j) == PrevAt(c, j);
    assert AcceptedBefore(EntryHasher(sha), c', i) by {
      forall j | 0 <= j < i ensures Accepted(EntryHasher(sha), c', j) {
        assert Accepted(EntryHasher(sha), c, j);
      }
    }
    WalkSkipsAccepted(EntryHasher(sha), c', i);
    assert Linked(sha, c, i);
    assert Normalize(c'[i].previousHash) == PrevAt(c', i) by {
      assert Accepted(EntryHasher(sha), c, i);
    }
    if c'[i].hash == Some(EntryHasher(sha)(RowPayload(c'[i], PrevAt(c', i)))) {
      EntryHashCollides(sha, RowPayload(forged, PrevAt(c, i)), PayloadAt(c, i));
      assert false;
    }
  }

  /**
   * Deleting an event that has a successor is reported as a broken pointer at
   * the successor, which now sits at the deleted event's position.
   */
  lemma RemovalReportedAtSuccessor(sha: string -> Digest, c: seq<EventRow>, k: nat)
    requires WellLinked(sha, c) && ConsecutiveCollisionFree(sha, c)
    requires k + 1 < |c|
    ensures Walk(EntryHasher(sha), c[..k] + c[k + 1..]) == Broken(k)
  {
    var c' := c[..k] + c[k + 1..];
    LinkedAccepted(sha, c);
    assert forall j | 0 <= j < k :: c'[j] == c[j];
    assert forall j | 0 <= j <= k :: PrevAt(c', j) == PrevAt(c, j);
    assert AcceptedBefore(EntryHasher(sha), c', k) by {
      forall j | 0 <= j < k ensures Accepted(EntryHasher(sha), c', j) {
        assert Accepted(EntryHasher(sha), c, j);
      }
    }
    WalkSkipsAccepted(EntryHasher(sha), c', k);
    assert c'[k] == c[k + 1];
    assert Linked(sha, c, k + 1) && Linked(sha, c, k);
    HashDiffersFromPointer(sha, c, k);
    assert c'[k].previousHash == c[k].hash;
    assert Normalize(c'[k].previousHash) == c[k].hash;
  }

  /**
   * Deleting the newest event is not detectable: what remains is itself a
   * well-linked chain and verifies as intact.
   */
  lemma TailRemovalUndetected(sha: string -> Digest, c: seq<EventRow>)
    requires WellLinked(sha, c) && c != []
    ensures Walk(EntryHasher(sha), c[..|c| - 1]) == Intact
  {
    var c' := c[..|c| - 1];
    forall i | 0 <= i < |c'| ensures Linked(sha, c', i) {
      assert Linked(sha, c, i);
      assert PrevAt(c', i) == PrevAt(c, i);
    }
    WellLinkedVerifies(sha, c');
  }

  /** Two event lists that differ at most in their stored `data`. */
  predicate SameButData(a: seq<EventRow>, b: seq<EventRow>) {
    |a| == |b| && forall i | 0 <= i < |a| :: a[i].(data := None) == b[i].(data := None)
  }

  /** The stored `data` never influences the verdict: it is not part of the hashed payload. */
  lemma {:induction false} VerdictIgnoresData(hashOf: HashPayload -> string, a: seq<EventRow>, b: seq<EventRow>, i: nat, prev: Option<string>)
    requires SameButData(a, b) && i <= |a|
    ensures WalkFrom(hashOf, a, i, prev) == WalkFrom(hashOf, b, i, prev)
    decreases |a| - i
  {
    if i < |a| {
      assert a[i].(data := None) == b[i].(data := None);
      VerdictIgnoresData(hashOf, a, b, i + 1, a[i].hash);
    }
  }

  // ----- the route's reply -----

  /** `String(ev.id).slice(0, 8)`. */
  function IdPrefix(id: string): (r: string)
    ensures |r| <= 8 && |r| <= |id| && r == id[..|r|]
    ensures |id| >= 8 ==> |r| == 8
    ensures |id| < 8 ==> r == id
  {
    if |id| <= 8 then id else id[..8]
  }

  const EmptyMessage: string := "Inga events att verifiera."
  const IntactMessage: string := "Kedjan \U{E4}r intakt \U{2705}"
  const BrokenPrefix: string := "Kedjan \U{E4}r bruten vid event "
  const MismatchPrefix: string := "Hash mismatch vid event "
  const Ellipsis: string := "\U{2026}"

  /** The body of the verify route's reply. */
  datatype VerifyResponse =
    | VerifyMissingEnv            // 500
    | MissingMachineId            // 400
    | VerifyStorageError(message: string)  // 500
    | Report(verified: bool, message: string)  // 200

  /** The reply for a verdict on the selected list. */
  function ReportFor(list: seq<EventRow>, v: Verdict): (r: VerifyResponse)
    requires v.Broken? || v.Tampered? ==> v.at < |list|
    ensures r.Report? && (r.verified <==> v == Intact)
    ensures v == Intact && list == [] ==> r.message == EmptyMessage
    ensures v == Intact && list != [] ==> r.message == IntactMessage
    ensures v.Broken? ==> r.message == BrokenPrefix + IdPrefix(list[v.at].id) + Ellipsis
    ensures v.Tampered? ==> r.message == MismatchPrefix + IdPrefix(list[v.at].id) + Ellipsis
  {
    match v
    case Intact => Report(true, if |list| == 0 then EmptyMessage else IntactMessage)
    case Broken(k) => Report(false, BrokenPrefix + IdPrefix(list[k].id) + Ellipsis)
    case Tampered(k) => Report(false, MismatchPrefix + IdPrefix(list[k].id) + Ellipsis)
  }
}
