/** `validateEnvVars` of index.js: the start-up check of the process environment. */
module Config {
  import opened Options

  /** The variables index.js insists on, in the order it checks them. */
  const RequiredVars: seq<string> := [
    "TWILIO_SID",
    "TWILIO_AUTH_TOKEN",
    "TWILIO_PHONE",
    "DEST_PHONE",
    "GOOGLE_CREDENTIALS",
    "GOOGLE_TOKEN",
    "CLOUDINARY_CLOUD_NAME",
    "CLOUDINARY_API_KEY",
    "CLOUDINARY_API_SECRET"
  ]

  /** `process.env[name]` is truthy: present and not empty. */
  predicate IsSet(env: map<string, string>, name: string)
  {
    name in env && env[name] != ""
  }

  /** The message of the Error thrown for a missing variable. */
  function NotSetMessage(name: string): string
  {
    "Environment variable " + name + " is not set"
  }

  /**
   * Checks the variables in order and fails on the first one that is not
   * set, naming it; passes when every one is set.
   */
  method ValidateEnvVars(env: map<string, string>) returns (r: Outcome<string>)
    ensures r.Pass? <==> forall i :: 0 <= i < |RequiredVars| ==> IsSet(env, RequiredVars[i])
    ensures r.Fail? ==> exists i :: 0 <= i < |RequiredVars| && !IsSet(env, RequiredVars[i])
                          && (forall j :: 0 <= j < i ==> IsSet(env, RequiredVars[j]))
                          && r.error == NotSetMessage(RequiredVars[i])
  {
    for i := 0 to |RequiredVars|
      invariant forall j :: 0 <= j < i ==> IsSet(env, RequiredVars[j])
    {
      var name := RequiredVars[i];
      if !(name in env && env[name] != "") {
        return Fail(NotSetMessage(name));
      }
    }
    return Pass;
  }
}
