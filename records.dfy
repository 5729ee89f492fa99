/** The three tables of the application (users, sessions, mail configuration),
    the handler outcomes, and calendar dates with their text form. */
module Records {
  import opened Text

  datatype Option<T> = None | Some(value: T)

  /** What a handler answers: a page or redirect, or one of the three bare
      status responses ("Invalid credentials" 401, "User already exists" 400,
      "Access denied" 403). */
  datatype Status = Ok | Invalid401 | Exists400 | Denied403

  /** A calendar date as `datetime.date` holds it. */
  datatype Date = Date(year: nat, month: nat, day: nat)

  predicate IsLeapYear(y: nat)
  {
    y % 4 == 0 && (y % 100 != 0 || y % 400 == 0)
  }

  function DaysInMonth(y: nat, m: nat): nat
  {
    if m == 2 then (if IsLeapYear(y) then 29 else 28)
    else if m == 4 || m == 6 || m == 9 || m == 11 then 30
    else 31
  }

  /** The dates `datetime.date` can represent. */
  predicate ValidDate(d: Date)
  {
    1 <= d.year <= 9999 && 1 <= d.month <= 12 && 1 <= d.day <= DaysInMonth(d.year, d.month)
  }

  /** Chronological order `a <= b` on dates. */
  predicate DateLe(a: Date, b: Date)
  {
    a.year < b.year
    || (a.year == b.year && a.month < b.month)
    || (a.year == b.year && a.month == b.month && a.day <= b.day)
  }

  lemma DateLeTotal(a: Date, b: Date)
    ensures DateLe(a, b) || DateLe(b, a)
    ensures DateLe(a, b) && DateLe(b, a) ==> a == b
  {
  }

  lemma DateLeTransitive(a: Date, b: Date, c: Date)
    requires DateLe(a, b) && DateLe(b, c)
    ensures DateLe(a, c)
  {
  }

  /** `str(d)` for a `datetime.date`: `%04d-%02d-%02d`. */
  function DateText(d: Date): (r: string)
    ensures |r| >= 10
    ensures forall i :: 0 <= i < |r| ==> IsDigit(r[i]) || r[i] == '-'
  {
    Padded(d.year, 4) + "-" + Padded(d.month, 2) + "-" + Padded(d.day, 2)
  }

  /** The text of a valid date is ten characters, and its three dash-separated
      fields read back as the year, month and day, so distinct dates never
      print alike. */
  lemma DateTextFields(d: Date)
    requires ValidDate(d)
    ensures |DateText(d)| == 10
    ensures Split(DateText(d), '-') == [Padded(d.year, 4), Padded(d.month, 2), Padded(d.day, 2)]
    ensures Value(Padded(d.year, 4)) == d.year
    ensures Value(Padded(d.month, 2)) == d.month
    ensures Value(Padded(d.day, 2)) == d.day
  {
    PaddedRoundTrip(d.year, 4);
    PaddedRoundTrip(d.month, 2);
    PaddedRoundTrip(d.day, 2);
    var y, m, dd := Padded(d.year, 4), Padded(d.month, 2), Padded(d.day, 2);
    DashFree(y);
    DashFree(m);
    DashFree(dd);
    assert DateText(d) == y + ['-'] + (m + ['-'] + dd);
    SplitAfterHead(y, '-', m + ['-'] + dd);
    SplitAfterHead(m, '-', dd);
  }

  lemma DashFree(s: string)
    requires AllDigits(s)
    ensures '-' !in s
  {
  }

  lemma {:induction false} DateTextInjective(a: Date, b: Date)
    requires ValidDate(a) && ValidDate(b)
    requires DateText(a) == DateText(b)
    ensures a == b
  {
    DateTextFields(a);
    DateTextFields(b);
  }

  /** A row of the user table. `credential` is the stored password hash. */
  datatype User = User(id: nat, name: string, email: string, credential: string, isAdmin: bool)

  /** A row of the session table. `attendees` is the comma-joined list of
      user names; the column admits NULL, modelled as `None`. */
  datatype Session = Session(
    id: nat,
    date: Date,
    time: string,
    name: string,
    attendees: Option<string>,
    creator: string)

  /** The outgoing-mail server settings, all four kept as text. */
  datatype MailSettings = MailSettings(server: string, port: string, username: string, password: string)

  /** The row of the mail configuration table. */
  datatype MailRow = MailRow(id: nat, settings: MailSettings)
}
