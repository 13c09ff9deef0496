/** Startup validation in `main` (main.go lines 23-31): the retention duration
    must exceed thirty seconds, and a kubeconfig path must come from the flag or,
    failing that, from the KUBECONFIG environment variable. */
module Startup {
  import opened Basics

  /** Durations at or below this bound are rejected. */
  const MinimumDuration: Duration := 30 * Second

  const KubeconfigVariable: string := "KUBECONFIG"

  datatype StartupError = DurationTooShort | KubeconfigMissing

  /** The validated settings the rest of the run works with. */
  datatype Settings = Settings(duration: Duration, kubeconfig: string)

  /** `os.Getenv`: the variable's value, or the empty string when it is unset. */
  function Getenv(env: map<string, string>, key: string): (value: string)
    ensures key in env ==> value == env[key]
    ensures key !in env ==> value == ""
    ensures value != "" ==> key in env && env[key] == value
  {
    if key in env then env[key] else ""
  }

  /** Setting a variable changes what `Getenv` reads for that variable only. */
  lemma GetenvAfterSet(env: map<string, string>, variable: string, v: string, key: string)
    ensures Getenv(env[variable := v], key) == if key == variable then v else Getenv(env, key)
  {
  }

  /** The two startup checks, in the order `main` makes them: the duration
      first, then the kubeconfig, where an empty flag falls back to the
      environment and an empty result aborts the run. */
  function Validate(duration: Duration, kubeconfigFlag: string, env: map<string, string>): (r: Result<Settings, StartupError>)
    ensures r.Ok? <==> MinimumDuration < duration && (kubeconfigFlag != "" || Getenv(env, KubeconfigVariable) != "")
    ensures duration <= MinimumDuration ==> r == Err(DurationTooShort)
    ensures MinimumDuration < duration && kubeconfigFlag == "" && Getenv(env, KubeconfigVariable) == "" ==> r == Err(KubeconfigMissing)
    ensures r.Ok? ==> r.value.duration == duration && r.value.kubeconfig != ""
    ensures r.Ok? && kubeconfigFlag != "" ==> r.value.kubeconfig == kubeconfigFlag
    ensures r.Ok? && kubeconfigFlag == "" ==> KubeconfigVariable in env && r.value.kubeconfig == env[KubeconfigVariable]
  {
    if duration <= MinimumDuration then
      Err(DurationTooShort)
    else
      var kubeconfig := if kubeconfigFlag != "" then kubeconfigFlag else Getenv(env, KubeconfigVariable);
      if kubeconfig == "" then Err(KubeconfigMissing) else Ok(Settings(duration, kubeconfig))
  }

  /** With no kubeconfig flag, a non-empty `KUBECONFIG` variable is the
      kubeconfig the run uses, whatever else the environment holds. */
  lemma KubeconfigFromEnvironment(duration: Duration, env: map<string, string>, path: string)
    requires MinimumDuration < duration
    requires path != ""
    ensures Validate(duration, "", env[KubeconfigVariable := path]) == Ok(Settings(duration, path))
  {
  }

  /** Once the duration is accepted, every cutoff taken from a clock reading at
      or after 1970 lies strictly after the zero time, so an event whose
      timestamp was never set is always older than the cutoff. */
  lemma AcceptedCutoffFollowsZeroTime(duration: Duration, kubeconfigFlag: string, env: map<string, string>, now: Time)
    requires Validate(duration, kubeconfigFlag, env).Ok?
    requires UnixEpoch <= now
    ensures Before(ZeroTime, Cutoff(now, duration))
    ensures Cutoff(now, duration) < now
  {
  }
}
