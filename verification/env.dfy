/** `process.env` as a map from variable name to value: a name that is
    absent from the map is `undefined`. */
module Env {
  import opened Wrappers

  type Env = map<string, string>

  /** True when `name` is set to a non-empty string, the JavaScript
      truthiness of `process.env[name]`. */
  predicate IsSet(env: Env, name: string) {
    name in env && env[name] != ""
  }

  /** Position of the first variable in `names` that is set, or
      `|names|` when none is. */
  function FirstSetIndex(env: Env, names: seq<string>): (k: nat)
    ensures k <= |names|
    ensures forall i :: 0 <= i < k ==> !IsSet(env, names[i])
    ensures k < |names| ==> IsSet(env, names[k])
    decreases |names|
  {
    if names == [] || IsSet(env, names[0]) then 0
    else 1 + FirstSetIndex(env, names[1..])
  }

  /** `env[k0] || env[k1] || ...`: the value of the first variable in
      `names` that is set, or `None` when none is (every value in the
      chain was `undefined` or `""`, which is falsy). */
  function FirstSet(env: Env, names: seq<string>): (r: Option<string>)
    ensures r.None? <==> forall i :: 0 <= i < |names| ==> !IsSet(env, names[i])
    ensures r.Some? ==> exists k :: 0 <= k < |names| && IsSet(env, names[k]) && r.value == env[names[k]]
                                    && forall i :: 0 <= i < k ==> !IsSet(env, names[i])
  {
    var k := FirstSetIndex(env, names);
    if k < |names| then Some(env[names[k]]) else None
  }
}
