/** The run driver (`main`): load and validate the configuration, check every
    download in order, send one report email per failing download, and exit
    with the number of failures. */
module Driver {
  import opened Values
  import opened ConfigValidation
  import opened UrlChecker
  import opened Messages

  /** The status a download is reported with when its check raised. */
  const EXCEPTION_STATUS: int := 999

  /** The only status that counts as available. */
  const OK_STATUS: int := 200

  /** The exit code of a run whose configuration could not be read or is invalid. */
  const CONFIG_ERROR_EXIT: int := 1

  /** What `load_config` produced: the file could not be opened (an `OSError`),
      or it was parsed, to `null` when the file was empty. */
  datatype Load = Unreadable | Loaded(config: ConfigDict?)

  /** The status `main` records for a download: the one the check returned,
      or 999 when the check raised. */
  function StatusOf(net: Network, url: string, timeout: Value): (s: int)
    ensures Check(net, url, timeout).result.Raised? ==> s == EXCEPTION_STATUS
    ensures s == OK_STATUS ==> Check(net, url, timeout).result == Returned(OK_STATUS, Check(net, url, timeout).result.warned)
  {
    match Check(net, url, timeout).result
    case Returned(s, _) => s
    case Raised(_) => EXCEPTION_STATUS
  }

  predicate Fails(net: Network, entry: DownloadEntry, timeout: Value)
    requires HasFields(entry)
  {
    StatusOf(net, entry["url"], timeout) != OK_STATUS
  }

  /** How many of `downloads` fail. */
  function Failures(net: Network, timeout: Value, downloads: seq<DownloadEntry>): (n: nat)
    requires forall d :: d in downloads ==> HasFields(d)
    ensures n <= |downloads|
  {
    if downloads == [] then 0
    else
      var last := downloads[|downloads| - 1];
      Failures(net, timeout, downloads[..|downloads| - 1]) + (if Fails(net, last, timeout) then 1 else 0)
  }

  /** The email for one failing download. */
  function ReportFor(net: Network, timeout: Value, recipients: seq<string>, sender: Value, entry: DownloadEntry): Email
    requires HasFields(entry)
  {
    Compose(entry["name"], entry["url"], StatusOf(net, entry["url"], timeout), recipients, sender)
  }

  /** The emails one download adds: its report when it fails, none otherwise. */
  function EmailsOf(net: Network, timeout: Value, recipients: seq<string>, sender: Value, entry: DownloadEntry): (es: seq<Email>)
    requires HasFields(entry)
    ensures |es| == if Fails(net, entry, timeout) then 1 else 0
  {
    if Fails(net, entry, timeout) then [ReportFor(net, timeout, recipients, sender, entry)] else []
  }

  /** `f` of every element of `s`, concatenated in the order of `s`. */
  function Gather<T, U>(s: seq<T>, f: T --> seq<U>): seq<U>
    requires forall x :: x in s ==> f.requires(x)
  {
    if s == [] then [] else Gather(s[..|s| - 1], f) + f(s[|s| - 1])
  }

  /** When `f` gives at most one result per element, so does the gathering. */
  lemma {:induction false} GatherShort<T, U>(s: seq<T>, f: T --> seq<U>)
    requires forall x :: x in s ==> f.requires(x) && |f(x)| <= 1
    ensures |Gather(s, f)| <= |s|
  {
    if s != [] {
      assert forall x :: x in s[..|s| - 1] ==> x in s;
      GatherShort(s[..|s| - 1], f);
    }
  }

  /** Gathering over one more element appends that element's results. */
  lemma GatherSnoc<T, U>(s: seq<T>, x: T, f: T --> seq<U>)
    requires forall y :: y in s ==> f.requires(y)
    requires f.requires(x)
    ensures forall y :: y in s + [x] ==> f.requires(y)
    ensures Gather(s + [x], f) == Gather(s, f) + f(x)
  {
    var t := s + [x];
    assert t[..|t| - 1] == s;
  }

  /** Gathering over consecutive parts gives the parts' results one after the other. */
  lemma {:induction false} GatherAppend<T, U>(a: seq<T>, b: seq<T>, f: T --> seq<U>)
    requires forall x :: x in a ==> f.requires(x)
    requires forall x :: x in b ==> f.requires(x)
    ensures forall x :: x in a + b ==> f.requires(x)
    ensures Gather(a + b, f) == Gather(a, f) + Gather(b, f)
    decreases |b|
  {
    if b == [] {
      assert a + b == a;
    } else {
      var init, last := b[..|b| - 1], b[|b| - 1];
      assert last in b && b == init + [last] && a + b == (a + init) + [last];
      GatherAppend(a, init, f);
      GatherSnoc(a + init, last, f);
      GatherSnoc(init, last, f);
    }
  }

  /** The emails of a run, one per failing download, in configuration order. */
  function Reports(net: Network, timeout: Value, recipients: seq<string>, sender: Value, downloads: seq<DownloadEntry>): (es: seq<Email>)
    requires forall d :: d in downloads ==> HasFields(d)
    ensures |es| <= |downloads|
  {
    GatherShort(downloads, d requires HasFields(d) => EmailsOf(net, timeout, recipients, sender, d));
    Gather(downloads, d requires HasFields(d) => EmailsOf(net, timeout, recipients, sender, d))
  }

  /** Every email of a run is sent from the configured address to all the
      recipients joined into one `To` header. */
  lemma {:induction false} ReportsAddressed(net: Network, timeout: Value, recipients: seq<string>, sender: Value, downloads: seq<DownloadEntry>)
    requires forall d :: d in downloads ==> HasFields(d)
    ensures forall e :: e in Reports(net, timeout, recipients, sender, downloads) ==> e.sender == sender && e.to == Join(recipients)
  {
    if downloads != [] {
      var init := downloads[..|downloads| - 1];
      assert forall d :: d in init ==> d in downloads;
      ReportsAddressed(net, timeout, recipients, sender, init);
    }
  }

  /** The emails whose sending raised; each is only logged. */
  function Undelivered(emails: seq<Email>, deliver: Email -> bool): seq<Email> {
    if emails == [] then []
    else Undelivered(emails[..|emails| - 1], deliver)
         + (if deliver(emails[|emails| - 1]) then [] else [emails[|emails| - 1]])
  }

  /** Exactly one email is sent per failing download. */
  lemma {:induction false} OneEmailPerFailure(net: Network, timeout: Value, recipients: seq<string>, sender: Value, downloads: seq<DownloadEntry>)
    requires forall d :: d in downloads ==> HasFields(d)
    ensures |Reports(net, timeout, recipients, sender, downloads)| == Failures(net, timeout, downloads)
  {
    if downloads != [] {
      OneEmailPerFailure(net, timeout, recipients, sender, downloads[..|downloads| - 1]);
    }
  }

  /** The run reports nothing exactly when every download answered 200. */
  lemma {:induction false} NoFailuresIff(net: Network, timeout: Value, downloads: seq<DownloadEntry>)
    requires forall d :: d in downloads ==> HasFields(d)
    ensures Failures(net, timeout, downloads) == 0 <==>
      forall d :: d in downloads ==> StatusOf(net, d["url"], timeout) == OK_STATUS
  {
    if downloads != [] {
      var init := downloads[..|downloads| - 1];
      NoFailuresIff(net, timeout, init);
      assert downloads == init + [downloads[|downloads| - 1]];
    }
  }

  /** `email` is the report of the failing download `entry`: its subject names
      the download and its body carries the download's status and URL. */
  predicate Describes(net: Network, timeout: Value, email: Email, entry: DownloadEntry)
    requires HasFields(entry)
  {
    && Fails(net, entry, timeout)
    && ParseSubject(email.subject) == Some(entry["name"])
    && ParseBody(email.body, entry["name"]) == Some((StatusOf(net, entry["url"], timeout), entry["url"]))
  }

  /** Every email of the run is the report of some failing download. */
  lemma {:induction false} ReportsDescribeFailures(net: Network, timeout: Value, recipients: seq<string>, sender: Value, downloads: seq<DownloadEntry>)
    requires forall d :: d in downloads ==> HasFields(d)
    ensures forall e :: e in Reports(net, timeout, recipients, sender, downloads) ==>
      exists d :: d in downloads && Describes(net, timeout, e, d)
  {
    if downloads != [] {
      var init := downloads[..|downloads| - 1];
      var last := downloads[|downloads| - 1];
      assert forall d :: d in init ==> d in downloads;
      ReportsDescribeFailures(net, timeout, recipients, sender, init);
      forall e | e in Reports(net, timeout, recipients, sender, downloads)
        ensures exists d :: d in downloads && Describes(net, timeout, e, d)
      {
        if e in Reports(net, timeout, recipients, sender, init) {
          var d :| d in init && Describes(net, timeout, e, d);
          assert d in downloads;
        } else {
          assert last in downloads;
          assert e == ReportFor(net, timeout, recipients, sender, last);
          assert Describes(net, timeout, e, last);
        }
      }
    }
  }

  /** The emails of consecutive parts of the configuration follow each other:
      the report keeps configuration order. */
  lemma ReportsAppend(net: Network, timeout: Value, recipients: seq<string>, sender: Value,
                      a: seq<DownloadEntry>, b: seq<DownloadEntry>)
    requires forall d :: d in a ==> HasFields(d)
    requires forall d :: d in b ==> HasFields(d)
    ensures forall d :: d in a + b ==> HasFields(d)
    ensures Reports(net, timeout, recipients, sender, a + b)
      == Reports(net, timeout, recipients, sender, a) + Reports(net, timeout, recipients, sender, b)
  {
    GatherAppend(a, b, d requires HasFields(d) => EmailsOf(net, timeout, recipients, sender, d));
  }

  /** The emails of a single download: its report when it fails, none otherwise. */
  lemma ReportsOfOne(net: Network, timeout: Value, recipients: seq<string>, sender: Value, entry: DownloadEntry)
    requires HasFields(entry)
    ensures Reports(net, timeout, recipients, sender, [entry])
      == if Fails(net, entry, timeout) then [ReportFor(net, timeout, recipients, sender, entry)] else []
  {
    assert [] + [entry] == [entry];
    GatherSnoc([], entry, d requires HasFields(d) => EmailsOf(net, timeout, recipients, sender, d));
  }

  /** Every failing download gets exactly its own email, at its place in
      configuration order: after the emails of the downloads before it and
      before those of the downloads after it. A download that does not fail
      adds no email. */
  lemma FailureIsReported(net: Network, timeout: Value, recipients: seq<string>, sender: Value,
                          downloads: seq<DownloadEntry>, i: nat)
    requires forall d :: d in downloads ==> HasFields(d)
    requires i < |downloads|
    ensures HasFields(downloads[i])
    ensures Reports(net, timeout, recipients, sender, downloads)
      == Reports(net, timeout, recipients, sender, downloads[..i])
         + (if Fails(net, downloads[i], timeout) then [ReportFor(net, timeout, recipients, sender, downloads[i])] else [])
         + Reports(net, timeout, recipients, sender, downloads[i + 1..])
    ensures Fails(net, downloads[i], timeout) ==>
      ReportFor(net, timeout, recipients, sender, downloads[i]) in Reports(net, timeout, recipients, sender, downloads)
  {
    var entry := downloads[i];
    var before, after := downloads[..i], downloads[i + 1..];
    assert entry in downloads;
    assert forall d :: d in before ==> d in downloads;
    assert forall d :: d in after ==> d in downloads;
    assert downloads == (before + [entry]) + after;
    ReportsAppend(net, timeout, recipients, sender, before + [entry], after);
    ReportsAppend(net, timeout, recipients, sender, before, [entry]);
    ReportsOfOne(net, timeout, recipients, sender, entry);
  }

  /** A check that raises is reported as a failure with status 999; a check
      that returns is reported with the status it returned. */
  lemma StatusOfCheck(net: Network, entry: DownloadEntry, timeout: Value)
    requires HasFields(entry)
    ensures var r := Check(net, entry["url"], timeout).result;
      && (r.Raised? ==> Fails(net, entry, timeout) && StatusOf(net, entry["url"], timeout) == EXCEPTION_STATUS)
      && (r.Returned? ==> StatusOf(net, entry["url"], timeout) == r.status
                          && (Fails(net, entry, timeout) <==> r.status != OK_STATUS))
  {
  }

  /** What one more download adds to the count and to the emails. */
  lemma RunStep(net: Network, timeout: Value, recipients: seq<string>, sender: Value, downloads: seq<DownloadEntry>, i: nat)
    requires forall d :: d in downloads ==> HasFields(d)
    requires i < |downloads|
    ensures HasFields(downloads[i])
    ensures Failures(net, timeout, downloads[..i + 1])
      == Failures(net, timeout, downloads[..i]) + (if Fails(net, downloads[i], timeout) then 1 else 0)
    ensures Reports(net, timeout, recipients, sender, downloads[..i + 1])
      == Reports(net, timeout, recipients, sender, downloads[..i])
         + (if Fails(net, downloads[i], timeout) then [ReportFor(net, timeout, recipients, sender, downloads[i])] else [])
  {
    assert downloads[i] in downloads;
    assert downloads[..i + 1][..i] == downloads[..i];
    assert forall d :: d in downloads[..i] ==> d in downloads;
    assert downloads[..i + 1] == downloads[..i] + [downloads[i]];
    ReportsAppend(net, timeout, recipients, sender, downloads[..i], [downloads[i]]);
    ReportsOfOne(net, timeout, recipients, sender, downloads[i]);
  }

  lemma UndeliveredStep(emails: seq<Email>, e: Email, deliver: Email -> bool)
    ensures Undelivered(emails + [e], deliver) == Undelivered(emails, deliver) + (if deliver(e) then [] else [e])
  {
    assert (emails + [e])[..|emails|] == emails;
  }

  /** The loop of `main` over the downloads: check each one, count it and
      send its email when its status is not 200, log a failed send. */
  method CheckDownloads(net: Network, deliver: Email -> bool, timeout: Value, recipients: seq<string>,
                        sender: Value, downloads: seq<DownloadEntry>)
    returns (errors: nat, outbox: seq<Email>, undelivered: seq<Email>)
    requires forall d :: d in downloads ==> HasFields(d)
    ensures errors == Failures(net, timeout, downloads) == |outbox|
    ensures outbox == Reports(net, timeout, recipients, sender, downloads)
    ensures undelivered == Undelivered(outbox, deliver)
  {
    errors, outbox, undelivered := 0, [], [];
    for i := 0 to |downloads|
      invariant errors == Failures(net, timeout, downloads[..i])
      invariant outbox == Reports(net, timeout, recipients, sender, downloads[..i])
      invariant undelivered == Undelivered(outbox, deliver)
    {
      var entry := downloads[i];
      RunStep(net, timeout, recipients, sender, downloads, i);
      var url := entry["url"];
      var name := entry["name"];
      var result, _ := ValidateUrl(net, url, timeout);
      var status := match result case Returned(s, _) => s case Raised(_) => EXCEPTION_STATUS;
      assert status == StatusOf(net, url, timeout);
      if status != OK_STATUS {
        errors := errors + 1;
        var email := Compose(name, url, status, recipients, sender);
        assert email == ReportFor(net, timeout, recipients, sender, entry);
        UndeliveredStep(outbox, email, deliver);
        outbox := outbox + [email];
        if !deliver(email) {
          undelivered := undelivered + [email];
        }
      }
    }
    assert downloads[..|downloads|] == downloads;
    OneEmailPerFailure(net, timeout, recipients, sender, downloads);
  }

  /** `main`: an unreadable, empty or invalid configuration ends the run with
      exit code 1 before any request; otherwise every download is checked and
      the exit code is the number of failures, whatever became of the emails. */
  method Run(load: Load, net: Network, deliver: Email -> bool) returns (exitCode: int, outbox: seq<Email>)
    requires load.Loaded? && load.config != null ==> WellShaped(load.config.entries)
    modifies if load.Loaded? && load.config != null then {load.config} else {}
    ensures load.Unreadable? || load.config == null ==> exitCode == CONFIG_ERROR_EXIT && outbox == []
    ensures load.Loaded? && load.config != null ==>
      var before := old(load.config.entries);
      && load.config.entries == WithDefaultTimeout(before)
      && (!Complete(before) ==> exitCode == CONFIG_ERROR_EXIT && outbox == [])
      && (Complete(before) ==>
            var timeout := load.config.entries["timeout"];
            var recipients := before["recipients"].items;
            var downloads := before["downloads"].entries;
            && exitCode == Failures(net, timeout, downloads)
            && outbox == Reports(net, timeout, recipients, before["email_address"], downloads))
  {
    if load.Unreadable? {
      return CONFIG_ERROR_EXIT, [];
    }
    var config := load.config;
    var ok := ValidateConfig(config);
    if !ok {
      return CONFIG_ERROR_EXIT, [];
    }
    var entries := config.entries;
    var errors, sent, _ := CheckDownloads(net, deliver, entries["timeout"], entries["recipients"].items,
                                          entries["email_address"], entries["downloads"].entries);
    exitCode, outbox := errors, sent;
  }
}
