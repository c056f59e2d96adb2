/** Environment.SetEnvironmentVariable(name, value, EnvironmentVariableTarget.User):
    the user's persisted variables, read by processes started later. */
module SystemEnvironment {
  import opened Options

  /** The runtime refuses user-scoped names of this length or longer. */
  const MaxUserVariableName: nat := 255

  /** The runtime's argument checks on the name (ArgumentException otherwise). */
  predicate ValidName(name: string) {
    && name != ""
    && name[0] != '\0'
    && '=' !in name
    && |name| < MaxUserVariableName
  }

  /** An empty value, or one starting with NUL, deletes the variable. */
  predicate DeletesVariable(value: string) {
    value == "" || value[0] == '\0'
  }

  /** The variables after the call, or None when it throws. */
  function SetUserVariable(vars: map<string, string>, name: string, value: string): (r: Option<map<string, string>>)
    ensures r.Some? <==> ValidName(name)
    ensures r.Some? && !DeletesVariable(value) ==> name in r.value && r.value[name] == value
    ensures r.Some? && DeletesVariable(value) ==> name !in r.value
    ensures r.Some? ==> forall k :: k != name ==> (k in r.value <==> k in vars) && (k in vars ==> r.value[k] == vars[k])
  {
    if !ValidName(name) then None
    else if DeletesVariable(value) then Some(vars - {name})
    else Some(vars[name := value])
  }

  class UserEnvironment {
    var variables: map<string, string>

    constructor (variables: map<string, string>)
      ensures this.variables == variables
    {
      this.variables := variables;
    }

    /** Environment.SetEnvironmentVariable with the User target; `ok` is false
        when it throws, and then nothing changed. */
    method SetEnvironmentVariable(name: string, value: string) returns (ok: bool)
      modifies this
      ensures match SetUserVariable(old(variables), name, value)
              case Some(vars) => ok && variables == vars
              case None => !ok && variables == old(variables)
    {
      var r := SetUserVariable(variables, name, value);
      ok := r.Some?;
      if ok {
        variables := r.value;
      }
    }
  }
}
