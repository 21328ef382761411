/**
 * The `machine_events` table and the hash-chain linkage its rows are meant to
 * satisfy: each event of a machine stores the hash of its predecessor and the
 * hash of its own fields together with that pointer.
 */
module EventModel {
  import opened Platform
  import opened JsText
  import opened HexDigest
  import opened CanonicalJson

  /** One row of `machine_events`; `data` is the stored structured payload as JSON text. */
  datatype EventRow = EventRow(
    id: string,
    machineId: string,
    eventType: string,
    description: string,
    data: Option<string>,
    previousHash: Option<string>,
    hash: Option<string>)

  /**
   * The events of one machine, oldest first. Rows are kept in insertion order,
   * which is their `created_at` order.
   */
  function ChainOf(rows: seq<EventRow>, machineId: string): (c: seq<EventRow>)
    ensures |c| <= |rows|
    ensures forall i | 0 <= i < |c| :: c[i].machineId == machineId
  {
    if rows == [] then []
    else (if rows[0].machineId == machineId then [rows[0]] else []) + ChainOf(rows[1..], machineId)
  }

  /** Adding a row extends that row's machine's chain by it and leaves every other chain alone. */
  lemma {:induction false} ChainOfAppend(rows: seq<EventRow>, row: EventRow, machineId: string)
    ensures ChainOf(rows + [row], machineId) ==
      ChainOf(rows, machineId) + (if row.machineId == machineId then [row] else [])
  {
    var r := rows + [row];
    if rows == [] {
      assert r[1..] == [];
    } else {
      assert r[0] == rows[0] && r[1..] == rows[1..] + [row];
      ChainOfAppend(rows[1..], row, machineId);
    }
  }

  /** Selecting a machine's events distributes over a split of the table. */
  lemma {:induction false} ChainOfConcat(a: seq<EventRow>, b: seq<EventRow>, machineId: string)
    ensures ChainOf(a + b, machineId) == ChainOf(a, machineId) + ChainOf(b, machineId)
  {
    if a == [] {
      assert a + b == b;
    } else {
      assert (a + b)[0] == a[0];
      assert (a + b)[1..] == a[1..] + b;
      ChainOfConcat(a[1..], b, machineId);
    }
  }

  /**
   * Moving row k of a machine's chain to another machine removes exactly that
   * event from the chain and keeps the others in order: the verifier sees a
   * deleted event, not a changed one.
   */
  lemma MachineIdChangeDropsRow(rows: seq<EventRow>, k: nat, forged: EventRow, machineId: string)
    requires k < |rows| && rows[k].machineId == machineId && forged.machineId != machineId
    ensures var before, after := ChainOf(rows[..k], machineId), ChainOf(rows[k + 1..], machineId);
      && ChainOf(rows, machineId) == before + [rows[k]] + after
      && ChainOf(rows[k := forged], machineId) == before + after
  {
    assert rows == rows[..k] + [rows[k]] + rows[k + 1..];
    assert rows[k := forged] == rows[..k] + [forged] + rows[k + 1..];
    ChainOfConcat(rows[..k] + [rows[k]], rows[k + 1..], machineId);
    ChainOfAppend(rows[..k], rows[k], machineId);
    ChainOfConcat(rows[..k] + [forged], rows[k + 1..], machineId);
    ChainOfAppend(rows[..k], forged, machineId);
  }

  /** The payload the routes hash for an event, given the pointer to hash with. */
  function RowPayload(ev: EventRow, previousHash: Option<string>): HashPayload {
    HashPayload(ev.machineId, ev.eventType, ev.description, previousHash)
  }

  /** `computeHash(JSON.stringify(hashPayload))`. */
  function EntryHash(sha: string -> Digest, p: HashPayload): (h: string)
    ensures |h| == 64 && IsDigitString(h, 16)
  {
    ComputeHash(sha, Stringify(p))
  }

  /** The entry hash with the digest function fixed, as a function of the payload. */
  function EntryHasher(sha: string -> Digest): HashPayload -> string {
    p => EntryHash(sha, p)
  }

  /**
   * Entry hashes of two payloads agree only when their serialisations have the
   * same digest, which (barring a SHA-256 collision) means equal payloads.
   */
  lemma EntryHashCollides(sha: string -> Digest, p: HashPayload, q: HashPayload)
    requires EntryHash(sha, p) == EntryHash(sha, q)
    requires NoCollision(sha, Stringify(p), Stringify(q))
    ensures p == q
  {
    ComputeHashInjective(sha, Stringify(p), Stringify(q));
    StringifyInjective(p, q);
  }

  /** `sha` does not map these two distinct texts to the same digest. */
  ghost predicate NoCollision(sha: string -> Digest, a: string, b: string) {
    sha(a) == sha(b) ==> a == b
  }

  /** The hash the event at position i must point to: the stored hash of its predecessor. */
  function PrevAt(c: seq<EventRow>, i: nat): Option<string>
    requires i <= |c|
  {
    if i == 0 then None else c[i - 1].hash
  }

  /** The payload of the event at position i, with the pointer it should carry. */
  function PayloadAt(c: seq<EventRow>, i: nat): HashPayload
    requires i < |c|
  {
    RowPayload(c[i], PrevAt(c, i))
  }

  /** The event at position i is as the writer leaves it: exact pointer, matching hash. */
  ghost predicate Linked(sha: string -> Digest, c: seq<EventRow>, i: nat)
    requires i < |c|
  {
    c[i].previousHash == PrevAt(c, i) && c[i].hash == Some(EntryHash(sha, PayloadAt(c, i)))
  }

  ghost predicate WellLinked(sha: string -> Digest, c: seq<EventRow>) {
    forall i | 0 <= i < |c| :: Linked(sha, c, i)
  }

  /** The digests of consecutive events' payloads do not collide. */
  ghost predicate ConsecutiveCollisionFree(sha: string -> Digest, c: seq<EventRow>) {
    forall i | 1 <= i < |c| :: NoCollision(sha, Stringify(PayloadAt(c, i)), Stringify(PayloadAt(c, i - 1)))
  }

  /** A well-linked chain with one more event that points at its last hash is well linked. */
  lemma LinkedExtension(sha: string -> Digest, c: seq<EventRow>, row: EventRow)
    requires WellLinked(sha, c)
    requires row.previousHash == PrevAt(c, |c|)
    requires row.hash == Some(EntryHash(sha, RowPayload(row, row.previousHash)))
    ensures WellLinked(sha, c + [row])
  {
    var c' := c + [row];
    forall i | 0 <= i < |c'| ensures Linked(sha, c', i) {
      if i < |c| {
        assert c'[i] == c[i];
        assert Linked(sha, c, i);
        assert PrevAt(c', i) == PrevAt(c, i);
      } else {
        assert c'[i] == row;
        assert PrevAt(c', i) == PrevAt(c, |c|);
      }
    }
  }

  /** In a well-linked chain no event's hash equals the pointer it stores. */
  lemma {:induction false} HashDiffersFromPointer(sha: string -> Digest, c: seq<EventRow>, i: nat)
    requires WellLinked(sha, c) && ConsecutiveCollisionFree(sha, c)
    requires i < |c|
    ensures c[i].hash != PrevAt(c, i)
  {
    if i > 0 {
      HashDiffersFromPointer(sha, c, i - 1);
      var p, q := PayloadAt(c, i), PayloadAt(c, i - 1);
      if c[i].hash == PrevAt(c, i) {
        assert Linked(sha, c, i) && Linked(sha, c, i - 1);
        assert Some(EntryHash(sha, p)) == c[i].hash == c[i - 1].hash == Some(EntryHash(sha, q));
        assert NoCollision(sha, Stringify(p), Stringify(q));
        EntryHashCollides(sha, p, q);
        assert false;
      }
    } else {
      assert Linked(sha, c, 0);
    }
  }
}
