# url_checker, modelled in Dafny

`url_checker` is a batch job that checks a configured list of downloads. For
each download it sends an HTTP HEAD request and follows a bounded chain of
redirects. When the final status is not 200, or when the request raised, it
sends one report email for that download. The process exits with the number
of failing downloads. Before any check, the configuration dictionary is
validated and a default `timeout` of 5 is filled in.

The model has five modules, one file each:

- `values.dfy` (`Values`): `Option`, the configuration `Value`
  (string, integer, list of strings, list of download mappings) and the
  dictionary type `Entries`.
- `config.dfy` (`ConfigValidation`): `validate_config`. The error count is a
  specification function (`ErrorCount`). `CountErrors` computes it with the
  source's two loops. `ValidateConfig` updates a `ConfigDict` object in
  place, the way the source mutates the dictionary.
- `checker.dfy` (`UrlChecker`): `validate_url`. The network is an oracle
  `Network = Request -> Reply`; a reply is an answer (status and optional
  `Location`) or a failure, which stands for a raised exception. `Follow` is
  the redirect loop as a recursive function. `ValidateUrl` is the same loop as
  a `while` loop, proved equal to it. The result records every request sent
  and whether the "too many redirects" warning was logged.
- `messages.dfy` (`Messages`): the subject, body and `To` text built in
  `send_email`. `%d` formatting is written out, and each field has a parser
  that reads it back.
- `driver.dfy` (`Driver`): the loop of `main` over the downloads
  (`CheckDownloads`) and `main` itself (`Run`).

The model keeps these boundaries of the code exactly:

- The redirect test is `range(300, 399)`, so 300 to 398. Status 399 is not
  followed.
- The loop guard is `checks_for_3xx <= 5`, so up to six follow-ups are sent.
  The warning fires when the counter is at least 5, even when the chain then
  ends in a 200.
- A request that raises becomes status 999 in `main`. There is no separate
  error outcome.
- Every failing download gets its own email, sent inside the loop. There is
  no single combined report. The subject is `"<name> unavailable"`. The text
  handed to `set_content` as the body is `"It does not seem like <name> is
  available. Received a <status> response when sending a HEAD
  request.\n\nURL: <url>"`.
- Follow-up requests carry no timeout. Only the first request gets the
  configured one. The program sets no headers of its own on any request.

## Model

| member | source | states |
|---|---|---|
| `ConfigValidation.CountErrors` | url_checker/url_checker.py:42-64 | The loops count exactly `ErrorCount`: the missing required keys, plus the downloads without `url`, plus those without `name`, plus one for an empty `recipients`. The count is zero exactly when the configuration is `Complete`. |
| `ConfigValidation.ErrorCount` | url_checker/url_checker.py:49-64 | Defines the count the validator reaches: the missing required keys, plus one per download without `url` and one per download without `name`, plus one for an empty `recipients`. It is at most one per required key, two per download and one for the recipients. `ErrorCountZeroIff` states when it is zero. |
| `ConfigValidation.ErrorCountZeroIff` | url_checker/url_checker.py:42-69 | The error count is zero if and only if all six keys are present, every download has `url` and `name`, and there is at least one recipient. |
| `ConfigValidation.CountMissingZero` | url_checker/url_checker.py:49-52 | No key is counted missing if and only if every required key is in the dictionary. |
| `ConfigValidation.DownloadErrorsZero` | url_checker/url_checker.py:53-60 | The download loop counts nothing if and only if every entry has both `url` and `name`. |
| `ConfigValidation.EntryErrors` | url_checker/url_checker.py:55-60 | One entry adds at most two errors. It adds none exactly when it has both `url` and `name`. |
| `ConfigValidation.WithDefaultTimeout` | url_checker/url_checker.py:65-67 | Afterwards `timeout` is present. Every existing key keeps its value, so a configured `timeout` is kept. `timeout` is set to 5 when it was absent. |
| `ConfigValidation.RevalidationIsStable` | url_checker/url_checker.py:49-67 | Filling in the timeout does not change the error count, and filling it in twice equals filling it in once. |
| `ConfigValidation.ValidateConfig` | url_checker/url_checker.py:33-69 | A `null` configuration is rejected. Otherwise the verdict is `Complete` of the dictionary as it was. The dictionary then holds the default timeout, also when validation fails. |
| `UrlChecker.Follow` | url_checker/url_checker.py:82-92 | The counter only grows and never exceeds 6. Each answered follow-up adds one to the counter. When the loop ends on an answer, that answer is not a redirect with a `Location` while the counter is at most 5. |
| `UrlChecker.Check` | url_checker/url_checker.py:81-95 | Defines `validate_url` against the network: the first request with the configured timeout, then `Follow`, and the outcome from the last reply. Its contract: 1 to 7 requests are sent, the first goes to the URL with the timeout, and the warning is logged exactly when five or more follow-ups were sent. `CheckShape` characterises it completely. |
| `UrlChecker.ValidateUrl` | url_checker/url_checker.py:72-95 | The `while` loop sends exactly the requests of `Check` and returns its outcome: the status, the warning flag, or the exception. |
| `UrlChecker.CheckShape` | url_checker/url_checker.py:81-95 | Between 1 and 7 requests are sent. The first goes to the URL with the timeout. Each later one goes, with no timeout, to the `Location` of the previous answer, which was a redirect. The outcome is the last reply: its exception, or its status. The warning is logged exactly when 5 or more follow-ups were sent. A returned redirect that still has a `Location` means 6 follow-ups were sent. |
| `UrlChecker.FollowShape` | url_checker/url_checker.py:84-92 | From any point of the chain, each follow-up goes to the previous `Location`, and the loop's last reply is the reply to the last request sent. |
| `UrlChecker.NotRedirectedFirst` | url_checker/url_checker.py:81-85 | A first answer outside 300..398 is returned unchanged. There is no warning and no second request. |
| `UrlChecker.RedirectBoundary` | url_checker/url_checker.py:84-85 | A first 398 with a `Location` is followed to that location. A first 399 with a `Location` is returned at once. |
| `UrlChecker.MissingLocationStops` | url_checker/url_checker.py:86-92 | A redirect answer without `Location` ends the loop. No further request is sent and its own status is returned. |
| `UrlChecker.FiveRedirectsThenOk` | url_checker/url_checker.py:82-95 | Five redirects then a 200 return 200 with the warning logged. Four redirects then a 200 return 200 without it. |
| `UrlChecker.CapAtSixFollowUps` | url_checker/url_checker.py:82-88 | Six redirects then a 200 still return 200. With exactly seven redirects the loop stops after 7 requests and returns the redirect status of the seventh answer. |
| `UrlChecker.LadderCheck` | url_checker/url_checker.py:81-95 | For a chain of any length of redirects that ends in a non-redirect status: with at most six redirects every one is followed and the final status is returned; with more, exactly six follow-ups are sent and the seventh answer's 301 is returned. The requests sent are listed exactly, and the warning is logged exactly when five or more follow-ups were sent. |
| `Messages.NatToDecimal` | url_checker/url_checker.py:116-118 | `%d` of a natural number gives digits with no leading zero, at least one digit. |
| `Messages.FormatInt` | url_checker/url_checker.py:116-118 | `%d` gives a leading `-` exactly for negative numbers; every other character is a digit. |
| `Messages.FormatIntRoundTrip` | url_checker/url_checker.py:116-118 | The formatted status parses back to the same integer. |
| `Messages.Subject` | url_checker/url_checker.py:120 | The subject is the name followed by `" unavailable"` and nothing else. `SubjectRoundTrip` reads the name back. |
| `Messages.SubjectRoundTrip` | url_checker/url_checker.py:120 | The subject is the name followed by `" unavailable"`, and the name can be read back from it. |
| `Messages.Body` | url_checker/url_checker.py:116-118 | The body is exactly as long as the three fixed texts, the name, the `%d` status and the URL together, so it holds nothing else. `BodyRoundTrip` reads the status and the URL back. |
| `Messages.BodyRoundTrip` | url_checker/url_checker.py:116-118 | Parsed with the download's name, the body gives back exactly the status and URL it was built from. |
| `Messages.Join` | url_checker/url_checker.py:122 | The `To` header has room for a two-character separator between each pair of recipients and is at least as long as the first recipient. `JoinSplitRoundTrip` reads the list back. |
| `Messages.JoinSplitRoundTrip` | url_checker/url_checker.py:122 | For a non-empty recipient list without commas, splitting the `To` header on `", "` gives back the list. |
| `Messages.Compose` | url_checker/url_checker.py:115-122 | The prepared message carries the name in its subject, and the status and URL in its body. Its `To` header splits back into the recipients. |
| `Driver.Failures` | url_checker/url_checker.py:142-156 | The failure count never exceeds the number of downloads. |
| `Driver.StatusOf` | url_checker/url_checker.py:146-153 | A check that raised is recorded as 999. A recorded 200 means the check returned 200 and did not raise. `StatusOfCheck` states both cases. |
| `Driver.StatusOfCheck` | url_checker/url_checker.py:146-155 | A check that raised is recorded as 999 and is a failure. A returned status is recorded as it is, and fails exactly when it is not 200. |
| `Driver.Reports` | url_checker/url_checker.py:155-160 | Defines the emails of a run: the email of each failing download, gathered in configuration order. There are never more emails than downloads. `OneEmailPerFailure`, `ReportsDescribeFailures`, `ReportsAppend` and `FailureIsReported` characterise it. |
| `Driver.OneEmailPerFailure` | url_checker/url_checker.py:155-160 | There are exactly as many emails as failing downloads. |
| `Driver.NoFailuresIff` | url_checker/url_checker.py:142-164 | The failure count is zero if and only if every download's status is 200. |
| `Driver.ReportsDescribeFailures` | url_checker/url_checker.py:155-160 | Every email is the report of some failing download of the list: its subject gives back that download's name, and its body gives back its status and URL. |
| `Driver.ReportsAddressed` | url_checker/url_checker.py:121-122 | Every email of a run is sent from the configured address to all the recipients, joined into one `To` header. |
| `Driver.ReportsAppend` | url_checker/url_checker.py:142-160 | The emails of two consecutive parts of the download list are the emails of the first part followed by those of the second: emails keep configuration order. |
| `Driver.FailureIsReported` | url_checker/url_checker.py:142-160 | Every failing download's own email is among the emails, placed after the emails of the downloads before it and before those of the downloads after it. A download that does not fail adds no email. |
| `Driver.CheckDownloads` | url_checker/url_checker.py:142-162 | The loop counts the failing downloads and sends exactly their emails, in configuration order. An email whose send fails is only logged, and the count does not depend on it. |
| `Driver.Run` | url_checker/url_checker.py:133-164 | An unreadable, empty or invalid configuration exits with 1 and sends no email. Otherwise the exit value is the number of failing downloads and the emails are those of `CheckDownloads`. The checks use the configured timeout, or 5 when none is given. |

## Left out

- `load_config` is not modelled: it reads a file under `$HOME` and parses YAML. `Run` takes its outcome as the `Load` value: the file was unreadable, or it parsed to a dictionary or to nothing.
- The HTTP transport is an oracle (`Network`). Real timeouts are not modelled, and neither are headers other than `Location`, including the default headers, such as `User-Agent`, that the HTTP library adds on its own. The oracle receives the timeout each request is sent with. It is a fixed function: the same request always gets the same reply, so a server that answers the same URL differently from one request to the next, within a redirect chain or across two downloads with the same `url`, is not modelled.
- The SMTP transport is not modelled: connection, EHLO, STARTTLS, login and sending. An oracle `deliver` says whether sending a message raised. The SMTP server, port and password are not modelled.
- `Email.body` is the string passed to `set_content`, not the MIME payload: the trailing newline and the transfer encoding the email library adds are not modelled.
- Logging is not modelled beyond the `warned` flag of a check and the list of emails whose sending failed.
- `sys.exit` becomes the returned exit value. The operating system's reduction of exit statuses to 0..255 is not modelled.
- ConfigValidation.ValidateConfig: requires `downloads`, when present, to be a list of mappings, and `recipients`, when present, to be a list of strings. Python's behaviour on other shapes is not modelled; for example, an integer `recipients` raises on `len`.
- Driver.Run: has the same shape requirement on the loaded dictionary as `ValidateConfig`.
- Download `name` and `url` values are strings in the model. YAML numbers used as names are not modelled.
- The `From` header keeps the configured `email_address` value as given, with no conversion to text.
- `setup.py` is not part of this model; it holds only packaging metadata.
