/**
 * Shared vocabulary of the route handlers: optional values, results and the
 * process environment they read.
 */
module Platform {

  /** A JavaScript value that may be `null` or `undefined` (None) or present (Some). */
  datatype Option<+T> = None | Some(value: T) {
    predicate IsFailure() { None? }

    function PropagateFailure<U>(): Option<U>
      requires None?
    {
      None
    }

    function Extract(): T
      requires Some?
    {
      value
    }
  }

  /** The outcome of a validation step: a value or the reason it was refused. */
  datatype Result<+T, +E> = Ok(value: T) | Err(error: E)

  /** The environment variables the routes consult; None is an unset variable. */
  datatype Env = Env(supabaseUrl: Option<string>, serviceRoleKey: Option<string>, adminKey: Option<string>)

  /** JavaScript truthiness of an optional string: set and not empty. */
  predicate Truthy(v: Option<string>) {
    v.Some? && v.value != ""
  }

  /** The JavaScript idiom `v || ""`. */
  function OrEmpty(v: Option<string>): (s: string)
    ensures s == "" <==> !Truthy(v)
    ensures Truthy(v) ==> s == v.value
  {
    if v.Some? then v.value else ""
  }

  /** The guard `!url || !key` shared by the routes that talk to the database. */
  predicate DatabaseConfigured(env: Env) {
    Truthy(env.supabaseUrl) && Truthy(env.serviceRoleKey)
  }
}
