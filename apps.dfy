/** The application configuration of core/apps.py: masking the OIDC client
    secret for the startup log, and the module-level flag that makes the
    startup logging happen once per process. */
module Apps {
  const NotConfigured := "(not configured)"
  const Stars := "***"

  /** `CoreConfig._mask_secret`. */
  function MaskSecret(secret: string): (r: string)
    ensures secret == [] ==> r == NotConfigured
    ensures 0 < |secret| <= 6 ==> r == Stars
    ensures |secret| > 6 ==> |r| == 9 && r == secret[..3] + Stars + secret[|secret| - 3..]
  {
    if secret == [] then NotConfigured
    else if |secret| <= 6 then Stars
    else secret[..3] + Stars + secret[|secret| - 3..]
  }

  /** The mask shows nothing of a secret beyond its first three and last
      three characters, not even its length: two secrets that agree on those
      (or are both short) mask alike. */
  lemma MaskRevealsOnlyEnds(a: string, b: string)
    requires (0 < |a| <= 6 && 0 < |b| <= 6) ||
             (|a| > 6 && |b| > 6 && a[..3] == b[..3] && a[|a| - 3..] == b[|b| - 3..])
    ensures MaskSecret(a) == MaskSecret(b)
  {
  }

  /** An empty secret is reported as not configured, and no configured
      secret masks to that text. */
  lemma NotConfiguredIffEmpty(secret: string)
    ensures MaskSecret(secret) == NotConfigured <==> secret == []
  {
    if secret != [] && |secret| > 6 {
      assert MaskSecret(secret)[3] == '*' != NotConfigured[3];
    }
  }

  /** The process-wide state of `ready()`: the `_startup_logged` flag, and
      how many times the configuration has been written to the log. */
  class Startup {
    var startupLogged: bool
    var timesLogged: nat

    ghost predicate Valid()
      reads this
    {
      timesLogged == if startupLogged then 1 else 0
    }

    /** The module is loaded with the flag down and nothing logged. */
    constructor ()
      ensures Valid() && !startupLogged && timesLogged == 0
    {
      startupLogged := false;
      timesLogged := 0;
    }

    /** `CoreConfig.ready`: log the configuration unless it was logged before. */
    method Ready()
      requires Valid()
      modifies this
      ensures Valid() && startupLogged && timesLogged == 1
      ensures old(startupLogged) ==> timesLogged == old(timesLogged)
    {
      if !startupLogged {
        startupLogged := true;
        LogStartupConfig();
      }
    }

    /** `_log_startup_config`: the log lines themselves are not modelled. */
    method LogStartupConfig()
      modifies this
      ensures startupLogged == old(startupLogged) && timesLogged == old(timesLogged) + 1
    {
      timesLogged := timesLogged + 1;
    }
  }
}
