/** The text of the report email built by `send_email`: the subject, the
    body (with the status formatted by `%d`) and the `To` header (the
    recipients joined by `", "`), together with the parsers that read each
    field back. */
module Messages {
  import opened Values

  /** One report email. `sender` is the configured `email_address`, as given. */
  datatype Email = Email(subject: string, body: string, sender: Value, to: string)

  const SUBJECT_TAIL: string := " unavailable"
  const BODY_LEAD: string := "It does not seem like "
  const BODY_MID: string := " is available. Received a "
  // `BodyRoundTrip` relies on this text starting with a space: the space
  // ends the status digits.
  const BODY_TAIL: string := " " + "response when sending a HEAD request.\n\nURL: "
  const RECIPIENT_SEPARATOR: string := ", "

  // ---------------------------------------------------------------------
  // Decimal formatting, as `%d` does it
  // ---------------------------------------------------------------------

  predicate IsDigit(c: char) {
    '0' <= c <= '9'
  }

  predicate AllDigits(s: string) {
    forall i :: 0 <= i < |s| ==> IsDigit(s[i])
  }

  function DigitChar(d: nat): (c: char)
    requires d < 10
    ensures IsDigit(c)
  {
    ('0' as int + d) as char
  }

  function DigitValue(c: char): (d: nat)
    requires IsDigit(c)
    ensures d < 10
  {
    c as int - '0' as int
  }

  /** The decimal digits of `n`, most significant first, without leading zeros. */
  function NatToDecimal(n: nat): (s: string)
    ensures |s| >= 1 && AllDigits(s)
    ensures s[0] == '0' ==> n == 0
  {
    if n < 10 then [DigitChar(n)] else NatToDecimal(n / 10) + [DigitChar(n % 10)]
  }

  /** `"%d" % n`: a minus sign for negative numbers, then the digits. */
  function FormatInt(n: int): (s: string)
    ensures |s| >= 1 && (s[0] == '-' <==> n < 0)
    ensures AllDigits(if n < 0 then s[1..] else s)
    ensures forall i :: 0 <= i < |s| ==> s[i] == '-' || IsDigit(s[i])
  {
    if n < 0 then "-" + NatToDecimal(-n) else NatToDecimal(n)
  }

  /** The value of a string of decimal digits. */
  function DecimalValue(s: string): nat
    requires AllDigits(s)
  {
    if s == [] then 0 else DecimalValue(s[..|s| - 1]) * 10 + DigitValue(s[|s| - 1])
  }

  /** Reads back an optionally signed decimal integer. */
  function ParseInt(s: string): Option<int> {
    if |s| >= 2 && s[0] == '-' && AllDigits(s[1..]) then Some(-(DecimalValue(s[1..]) as int))
    else if |s| >= 1 && AllDigits(s) then Some(DecimalValue(s))
    else None
  }

  lemma {:induction false} DecimalRoundTrip(n: nat)
    ensures DecimalValue(NatToDecimal(n)) == n
  {
    if n >= 10 {
      var s := NatToDecimal(n);
      DecimalRoundTrip(n / 10);
      assert s[..|s| - 1] == NatToDecimal(n / 10);
    }
  }

  /** The status written into a body reads back as the same integer. */
  lemma FormatIntRoundTrip(n: int)
    ensures ParseInt(FormatInt(n)) == Some(n)
  {
    if n < 0 {
      DecimalRoundTrip(-n);
      assert FormatInt(n)[1..] == NatToDecimal(-n);
    } else {
      DecimalRoundTrip(n);
    }
  }

  // ---------------------------------------------------------------------
  // Subject and body
  // ---------------------------------------------------------------------

  /** `"%s unavailable" % software`. */
  function Subject(name: string): (s: string)
    ensures |s| == |name| + |SUBJECT_TAIL|
    ensures s[..|name|] == name && s[|name|..] == SUBJECT_TAIL
  {
    name + SUBJECT_TAIL
  }

  /** Reads the download name back out of a subject line. */
  function ParseSubject(subject: string): Option<string> {
    if |subject| >= |SUBJECT_TAIL| && subject[|subject| - |SUBJECT_TAIL|..] == SUBJECT_TAIL
    then Some(subject[..|subject| - |SUBJECT_TAIL|])
    else None
  }

  lemma SubjectRoundTrip(name: string)
    ensures ParseSubject(Subject(name)) == Some(name)
  {
    var s := Subject(name);
    assert s[|s| - |SUBJECT_TAIL|..] == SUBJECT_TAIL;
    assert s[..|s| - |SUBJECT_TAIL|] == name;
  }

  /** The body: the name, the status formatted with `%d`, and the URL. */
  function Body(name: string, status: int, url: string): (b: string)
    ensures |b| == |BODY_LEAD| + |name| + |BODY_MID| + |FormatInt(status)| + |BODY_TAIL| + |url|
  {
    BODY_LEAD + name + BODY_MID + FormatInt(status) + BODY_TAIL + url
  }

  /** Length of the longest prefix of `s` made of a sign or digits. */
  function NumberSpan(s: string): (n: nat)
    ensures n <= |s|
  {
    if s != [] && (s[0] == '-' || IsDigit(s[0])) then 1 + NumberSpan(s[1..]) else 0
  }

  /** Reads the status and the URL back out of the body written for `name`. */
  function ParseBody(body: string, name: string): Option<(int, string)> {
    var head := BODY_LEAD + name + BODY_MID;
    if |body| < |head| || body[..|head|] != head then None
    else
      var rest := body[|head|..];
      var n := NumberSpan(rest);
      var after := rest[n..];
      if |after| < |BODY_TAIL| || after[..|BODY_TAIL|] != BODY_TAIL then None
      else match ParseInt(rest[..n])
        case None => None
        case Some(status) => Some((status, after[|BODY_TAIL|..]))
  }

  lemma {:induction false} NumberSpanOfFormatted(digits: string, tail: string)
    requires forall i :: 0 <= i < |digits| ==> digits[i] == '-' || IsDigit(digits[i])
    requires tail != [] && tail[0] == ' '
    ensures NumberSpan(digits + tail) == |digits|
  {
    if digits != [] {
      assert (digits + tail)[1..] == digits[1..] + tail;
      NumberSpanOfFormatted(digits[1..], tail);
    }
  }

  /** The body carries the status and the URL recoverably: parsed with the
      download's name, it gives back exactly the status and URL it was built from. */
  lemma BodyRoundTrip(name: string, status: int, url: string)
    ensures ParseBody(Body(name, status, url), name) == Some((status, url))
  {
    var body := Body(name, status, url);
    var head := BODY_LEAD + name + BODY_MID;
    var digits := FormatInt(status);
    assert body == head + (digits + (BODY_TAIL + url));
    assert body[..|head|] == head;
    var rest := body[|head|..];
    assert rest == digits + (BODY_TAIL + url);
    assert (BODY_TAIL + url)[0] == ' ';
    NumberSpanOfFormatted(digits, BODY_TAIL + url);
    assert rest[..|digits|] == digits;
    assert rest[|digits|..] == BODY_TAIL + url;
    FormatIntRoundTrip(status);
  }

  // ---------------------------------------------------------------------
  // The To header
  // ---------------------------------------------------------------------

  /** `", ".join(recipients)`. */
  function Join(parts: seq<string>): (s: string)
    ensures |s| >= 2 * (|parts| - 1)
    ensures parts != [] ==> |s| >= |parts[0]|
  {
    if parts == [] then ""
    else if |parts| == 1 then parts[0]
    else parts[0] + RECIPIENT_SEPARATOR + Join(parts[1..])
  }

  /** `s.split(", ")`: cut at every separator, scanning left to right. */
  function Split(s: string): (parts: seq<string>)
    ensures |parts| >= 1
  {
    if |s| >= 2 && s[..2] == RECIPIENT_SEPARATOR then [""] + Split(s[2..])
    else if s == [] then [""]
    else
      var rest := Split(s[1..]);
      [[s[0]] + rest[0]] + rest[1..]
  }

  lemma {:induction false} SplitPlain(a: string)
    requires ',' !in a
    ensures Split(a) == [a]
  {
    if a != [] {
      assert ',' !in a[1..];
      SplitPlain(a[1..]);
      assert [a[0]] + a[1..] == a;
    }
  }

  lemma {:induction false} SplitAfter(a: string, t: string)
    requires ',' !in a
    ensures Split(a + RECIPIENT_SEPARATOR + t) == [a] + Split(t)
  {
    var s := a + RECIPIENT_SEPARATOR + t;
    if a == [] {
      assert s[..2] == RECIPIENT_SEPARATOR;
      assert s[2..] == t;
    } else {
      assert s[0] == a[0] && s[0] != ',';
      assert s[1..] == a[1..] + RECIPIENT_SEPARATOR + t;
      assert ',' !in a[1..];
      SplitAfter(a[1..], t);
      assert [a[0]] + a[1..] == a;
    }
  }

  /** A non-empty recipient list whose addresses hold no comma. */
  predicate Separable(recipients: seq<string>) {
    |recipients| >= 1 && forall r :: r in recipients ==> ',' !in r
  }

  /** Recipients that hold no comma can be read back from the `To` header. */
  lemma {:induction false} JoinSplitRoundTrip(recipients: seq<string>)
    ensures Separable(recipients) ==> Split(Join(recipients)) == recipients
  {
    if !Separable(recipients) {
    } else if |recipients| == 1 {
      SplitPlain(recipients[0]);
    } else {
      JoinSplitRoundTrip(recipients[1..]);
      SplitAfter(recipients[0], Join(recipients[1..]));
      assert [recipients[0]] + recipients[1..] == recipients;
    }
  }

  /** The message `send_email` prepares for a download that answered `status`. */
  function Compose(name: string, url: string, status: int, recipients: seq<string>, sender: Value): (e: Email)
    ensures ParseSubject(e.subject) == Some(name)
    ensures ParseBody(e.body, name) == Some((status, url))
    ensures Separable(recipients) ==> Split(e.to) == recipients
  {
    SubjectRoundTrip(name);
    BodyRoundTrip(name, status, url);
    JoinSplitRoundTrip(recipients);
    Email(Subject(name), Body(name, status, url), sender, Join(recipients))
  }
}
