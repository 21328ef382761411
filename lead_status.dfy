/**
 * The admin route that sets a lead's status: configuration, shared-key and
 * request checks in a fixed order, then an update of the `status` column of
 * the lead with the given id.
 */
module LeadStatus {
  import opened Platform
  import opened JsText

  /** The statuses a lead may be given. */
  const Allowed: seq<string> := ["new", "contacted", "in_progress", "won", "lost"]

  datatype StatusError =
    | StatusMissingEnv   // 500
    | Unauthorized       // 401
    | MissingId          // 400 "Missing id"
    | InvalidStatus      // 400 "Invalid status"

  /**
   * The shared-key check: with `ADMIN_KEY` unset or empty every caller passes;
   * otherwise the `x-admin-key` header (missing counts as "") must equal it.
   */
  function Authorized(env: Env, sentKey: Option<string>): (ok: bool)
    ensures !Truthy(env.adminKey) ==> ok
    ensures Truthy(env.adminKey) ==> (ok <==> Truthy(sentKey) && sentKey.value == env.adminKey.value)
  {
    OrEmpty(env.adminKey) == "" || OrEmpty(sentKey) == OrEmpty(env.adminKey)
  }

  /** Every check the route makes before touching the table; the trimmed id and status on success. */
  function GateStatusUpdate(env: Env, sentKey: Option<string>, id: Option<string>, status: Option<string>)
    : (r: Result<(string, string), StatusError>)
    ensures r == Err(StatusMissingEnv) <==> !DatabaseConfigured(env)
    ensures r == Err(Unauthorized) <==> DatabaseConfigured(env) && !Authorized(env, sentKey)
    ensures r == Err(MissingId) <==>
      DatabaseConfigured(env) && Authorized(env, sentKey) && AllSpace(OrEmpty(id))
    ensures r == Err(InvalidStatus) <==>
      DatabaseConfigured(env) && Authorized(env, sentKey) && !AllSpace(OrEmpty(id))
      && Trim(OrEmpty(status)) !in Allowed
    ensures r.Ok? ==>
      && r.value.0 == Trim(OrEmpty(id)) && r.value.0 != ""
      && r.value.1 == Trim(OrEmpty(status)) && r.value.1 in Allowed
  {
    if !DatabaseConfigured(env) then Err(StatusMissingEnv)
    else if OrEmpty(env.adminKey) != "" && OrEmpty(sentKey) != OrEmpty(env.adminKey) then Err(Unauthorized)
    else
      var leadId := Trim(OrEmpty(id));
      var newStatus := Trim(OrEmpty(status));
      if leadId == "" then Err(MissingId)
      else if newStatus !in Allowed then Err(InvalidStatus)
      else Ok((leadId, newStatus))
  }

  /** One row of `leads`, without its id (the key of the table). */
  datatype Lead = Lead(
    name: Option<string>,
    email: Option<string>,
    phone: Option<string>,
    source: Option<string>,
    message: Option<string>,
    machineType: Option<string>,
    status: string)

  datatype StatusResponse =
    | StatusUpdated(lead: Option<(string, string)>)   // 200; null when no lead has the id
    | StatusRefused(error: StatusError)
    | StatusStorageError(message: string)             // 500

  /**
   * `update({ status }).eq("id", id)`: the lead with that id, if there is one,
   * gets the new status; no other lead and no other column changes.
   */
  function WithStatus(leads: map<string, Lead>, id: string, status: string): (after: map<string, Lead>)
    ensures after.Keys == leads.Keys
    ensures id in leads ==> after[id].status == status && after[id].(status := leads[id].status) == leads[id]
    ensures forall other | other in leads && other != id :: after[other] == leads[other]
  {
    if id in leads then leads[id := leads[id].(status := status)] else leads
  }

  /** The `leads` table, keyed by id. */
  class Leads {
    var leads: map<string, Lead>

    constructor (leads: map<string, Lead>)
      ensures this.leads == leads
    {
      this.leads := leads;
    }

    /** The route; `updateError` is a failure of the update. */
    method SetStatus(env: Env, sentKey: Option<string>, id: Option<string>, status: Option<string>, updateError: Option<string>)
      returns (r: StatusResponse)
      modifies this
      ensures var g := GateStatusUpdate(env, sentKey, id, status);
        && (g.Err? ==> r == StatusRefused(g.error) && leads == old(leads))
        && (g.Ok? && updateError.Some? ==> r == StatusStorageError(updateError.value) && leads == old(leads))
        && (g.Ok? && updateError.None? ==>
              r == StatusUpdated(if g.value.0 in old(leads) then Some(g.value) else None)
              && leads == WithStatus(old(leads), g.value.0, g.value.1))
    {
      var g := GateStatusUpdate(env, sentKey, id, status);
      if g.Err? {
        return StatusRefused(g.error);
      }
      var leadId := g.value.0;
      var newStatus := g.value.1;
      if updateError.Some? {
        return StatusStorageError(updateError.value);
      }
      if leadId in leads {
        r := StatusUpdated(Some((leadId, newStatus)));
      } else {
        r := StatusUpdated(None);
      }
      leads := WithStatus(leads, leadId, newStatus);
    }
  }
}
