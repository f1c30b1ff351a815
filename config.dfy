/** Validation of the loaded configuration dictionary (`validate_config`).

    The validator walks the dictionary once, adds one to an error counter
    for every problem it finds, fills in a default `timeout` in place, and
    accepts the configuration when the counter is zero. */
module ConfigValidation {
  import opened Values

  /** The six keys every configuration must hold, in the order they are checked. */
  const REQUIRED_KEYS: seq<string> :=
    ["smtp_server", "smtp_port", "email_address", "email_password", "recipients", "downloads"]

  /** Seconds allowed per request when the configuration gives no `timeout`. */
  const DEFAULT_TIMEOUT: int := 5

  /** The shapes the validator relies on: `downloads` is a list of mappings and
      `recipients` a list of strings, whenever they are present. */
  predicate WellShaped(config: Entries) {
    && ("downloads" in config ==> config["downloads"].DownloadList?)
    && ("recipients" in config ==> config["recipients"].StrList?)
  }

  /** A download entry that names both its `url` and its `name`. */
  predicate HasFields(entry: DownloadEntry) {
    "url" in entry && "name" in entry
  }

  /** What a valid configuration is, stated directly: every required key is
      present, every download names both a `url` and a `name`, and there is
      at least one recipient. */
  predicate Complete(config: Entries)
    requires WellShaped(config)
  {
    && (forall k :: k in REQUIRED_KEYS ==> k in config)
    && (forall d :: d in config["downloads"].entries ==> HasFields(d))
    && |config["recipients"].items| >= 1
  }

  /** Number of `keys` absent from `config`. */
  function CountMissing(keys: seq<string>, config: Entries): (n: nat)
    ensures n <= |keys|
  {
    if keys == [] then 0
    else CountMissing(keys[..|keys| - 1], config) + (if keys[|keys| - 1] in config then 0 else 1)
  }

  /** Errors contributed by one download entry: one for a missing `url`,
      one for a missing `name`. */
  function EntryErrors(entry: DownloadEntry): (n: nat)
    ensures n <= 2
    ensures n == 0 <==> HasFields(entry)
  {
    (if "url" in entry then 0 else 1) + (if "name" in entry then 0 else 1)
  }

  /** Errors contributed by a list of download entries. */
  function DownloadErrors(entries: seq<DownloadEntry>): (n: nat)
    ensures n <= 2 * |entries|
  {
    if entries == [] then 0
    else DownloadErrors(entries[..|entries| - 1]) + EntryErrors(entries[|entries| - 1])
  }

  /** The error count the validator reaches on `config`. */
  function ErrorCount(config: Entries): (n: nat)
    requires WellShaped(config)
    ensures n <= |REQUIRED_KEYS| + (if "downloads" in config then 2 * |config["downloads"].entries| else 0) + 1
  {
    CountMissing(REQUIRED_KEYS, config)
    + (if "downloads" in config then DownloadErrors(config["downloads"].entries) else 0)
    + (if "recipients" in config && |config["recipients"].items| < 1 then 1 else 0)
  }

  /** The dictionary after the default timeout has been filled in. */
  function WithDefaultTimeout(config: Entries): (r: Entries)
    ensures r.Keys == config.Keys + {"timeout"}
    ensures forall k :: k in config ==> r[k] == config[k]
    ensures "timeout" !in config ==> r["timeout"] == Int(DEFAULT_TIMEOUT)
  {
    if "timeout" in config then config else config["timeout" := Int(DEFAULT_TIMEOUT)]
  }

  lemma {:induction false} CountMissingZero(keys: seq<string>, config: Entries)
    ensures CountMissing(keys, config) == 0 <==> forall k :: k in keys ==> k in config
  {
    if keys != [] {
      var init := keys[..|keys| - 1];
      CountMissingZero(init, config);
      assert keys == init + [keys[|keys| - 1]];
    }
  }

  lemma {:induction false} DownloadErrorsZero(entries: seq<DownloadEntry>)
    ensures DownloadErrors(entries) == 0 <==> forall d :: d in entries ==> HasFields(d)
  {
    if entries != [] {
      var init := entries[..|entries| - 1];
      DownloadErrorsZero(init);
      assert entries == init + [entries[|entries| - 1]];
    }
  }

  /** The validator accepts exactly the complete configurations. */
  lemma ErrorCountZeroIff(config: Entries)
    requires WellShaped(config)
    ensures ErrorCount(config) == 0 <==> Complete(config)
  {
    CountMissingZero(REQUIRED_KEYS, config);
    if "downloads" in config {
      DownloadErrorsZero(config["downloads"].entries);
    }
  }

  lemma {:induction false} CountMissingOtherKey(keys: seq<string>, config: Entries, k: string, v: Value)
    requires k !in keys
    ensures CountMissing(keys, config[k := v]) == CountMissing(keys, config)
  {
    if keys != [] {
      CountMissingOtherKey(keys[..|keys| - 1], config, k, v);
    }
  }

  /** Filling in the timeout does not change the verdict, so validating an
      already validated dictionary gives the same answer and changes nothing. */
  lemma RevalidationIsStable(config: Entries)
    requires WellShaped(config)
    ensures WellShaped(WithDefaultTimeout(config))
    ensures ErrorCount(WithDefaultTimeout(config)) == ErrorCount(config)
    ensures WithDefaultTimeout(WithDefaultTimeout(config)) == WithDefaultTimeout(config)
  {
    if "timeout" !in config {
      CountMissingOtherKey(REQUIRED_KEYS, config, "timeout", Int(DEFAULT_TIMEOUT));
    }
  }

  /** Counts the configuration errors the way `validate_config` does: one pass
      over the required keys, one over the download entries, then the
      recipient check. */
  method CountErrors(config: Entries) returns (errors: nat)
    requires WellShaped(config)
    ensures errors == ErrorCount(config)
    ensures errors == 0 <==> Complete(config)
  {
    errors := 0;
    for i := 0 to |REQUIRED_KEYS|
      invariant errors == CountMissing(REQUIRED_KEYS[..i], config)
    {
      assert REQUIRED_KEYS[..i + 1][..i] == REQUIRED_KEYS[..i];
      if REQUIRED_KEYS[i] !in config {
        errors := errors + 1;
      }
    }
    assert REQUIRED_KEYS[..|REQUIRED_KEYS|] == REQUIRED_KEYS;
    if "downloads" in config {
      var downloads := config["downloads"].entries;
      for j := 0 to |downloads|
        invariant errors == CountMissing(REQUIRED_KEYS, config) + DownloadErrors(downloads[..j])
      {
        assert downloads[..j + 1][..j] == downloads[..j];
        if "url" !in downloads[j] {
          errors := errors + 1;
        }
        if "name" !in downloads[j] {
          errors := errors + 1;
        }
      }
      assert downloads[..|downloads|] == downloads;
    }
    if "recipients" in config && |config["recipients"].items| < 1 {
      errors := errors + 1;
    }
    ErrorCountZeroIff(config);
  }

  /** The configuration dictionary, which validation updates in place. */
  class ConfigDict {
    var entries: Entries

    constructor (entries: Entries)
      ensures this.entries == entries
    {
      this.entries := entries;
    }
  }

  /** `validate_config`: a missing configuration (`null`) is rejected at once;
      otherwise the verdict is whether the error count is zero, and a default
      `timeout` is stored whether or not the configuration is valid. */
  method ValidateConfig(config: ConfigDict?) returns (ok: bool)
    requires config != null ==> WellShaped(config.entries)
    modifies config
    ensures config == null ==> !ok
    ensures config != null ==> ok == Complete(old(config.entries))
    ensures config != null ==> config.entries == WithDefaultTimeout(old(config.entries))
  {
    if config == null {
      return false;
    }
    var errors := CountErrors(config.entries);
    if "timeout" !in config.entries {
      config.entries := config.entries["timeout" := Int(DEFAULT_TIMEOUT)];
    }
    ok := errors == 0;
  }
}
