/** What `send_notification_email` (app.py:53-86) sends when a session is
    created: nothing without a mail configuration, otherwise one plain-text
    message per registered user, all with the same subject and body. The SMTP
    connection itself is not modelled; its first failure, if any, is an input. */
module Notification {
  import opened Text
  import opened Records

  const Subject: string := "Någon vill panga HS!"
  const SenderName: string := "HSGeneralen"
  const Greeting: string := "Be there or be a fyrkant!!!"
  const NewLine: char := '\n'

  /** One outgoing message: the envelope sender, the From, To and Subject
      headers, and the body. */
  datatype Message = Message(envelopeFrom: string, fromHeader: string, to: string, subject: string, body: string)

  /** Each line followed by a line break, the way the body's f-string
      pieces end in `\n`. */
  function Lines(ls: seq<string>): (r: string)
    ensures |ls| > 0 ==> |ls[0]| < |r| && r[..|ls[0]|] == ls[0] && r[|ls[0]|] == NewLine
    ensures |ls| > 0 ==> r[|r| - 1] == NewLine
  {
    if |ls| == 0 then "" else ls[0] + [NewLine] + Lines(ls[1..])
  }

  /** The lines of the message body: a greeting, a blank line, then one line
      each for the session's name, date, time and creator. */
  function BodyLines(s: Session): seq<string>
  {
    [Greeting, "", "Spel: " + s.name, "Datum: " + DateText(s.date),
     "Tid: " + s.time, "HerreSkapare: " + s.creator]
  }

  /** The body opens with the greeting on its own line and ends with a
      line break. */
  function Body(s: Session): (r: string)
    ensures |Greeting| < |r| && r[..|Greeting|] == Greeting && r[|Greeting|] == NewLine
    ensures r[|r| - 1] == NewLine
  {
    Lines(BodyLines(s))
  }

  /** `[user.email for user in User.query.filter(User.email.isnot(None))]`:
      the email column is NOT NULL, so every user, in table order. */
  function Recipients(users: seq<User>): (r: seq<string>)
    ensures |r| == |users|
    ensures forall i :: 0 <= i < |users| ==> r[i] == users[i].email
  {
    if |users| == 0 then [] else [users[0].email] + Recipients(users[1..])
  }

  /** The message for one recipient. */
  function MessageTo(settings: MailSettings, s: Session, recipient: string): Message
  {
    Message(settings.username, SenderName + " <" + settings.username + ">", recipient, Subject, Body(s))
  }

  function MessagesTo(settings: MailSettings, s: Session, recipients: seq<string>): (r: seq<Message>)
    ensures |r| == |recipients|
    ensures forall i :: 0 <= i < |r| ==> r[i] == MessageTo(settings, s, recipients[i])
  {
    if |recipients| == 0 then []
    else [MessageTo(settings, s, recipients[0])] + MessagesTo(settings, s, recipients[1..])
  }

  /** The messages the notification hands to the mail server, in order;
      `None` when no mail configuration is stored. */
  function Outbox(mail: Option<MailRow>, users: seq<User>, s: Session): (r: Option<seq<Message>>)
    ensures r.None? <==> mail.None?
    ensures r.Some? ==> |r.value| == |users|
  {
    match mail
    case None => None
    case Some(row) => Some(MessagesTo(row.settings, s, Recipients(users)))
  }

  /** The messages actually sent when the server raises at message number
      `failure` (0 for a failure while connecting or logging in): the sending
      loop stops at the first exception, which is only logged. */
  function Sent(outbox: seq<Message>, failure: Option<nat>): (r: seq<Message>)
    ensures |r| <= |outbox| && r == outbox[..|r|]
    ensures failure.None? ==> r == outbox
    ensures failure.Some? ==> |r| == if failure.value < |outbox| then failure.value else |outbox|
  {
    match failure
    case None => outbox
    case Some(k) => if k < |outbox| then outbox[..k] else outbox
  }

  /** Without a mail configuration nothing is sent; with one, every user gets
      exactly one message, addressed to their email, in table order, with the
      fixed subject, the configured account as sender and the session's body. */
  lemma OutboxAddressesEveryUser(mail: Option<MailRow>, users: seq<User>, s: Session)
    ensures Outbox(mail, users, s).None? <==> mail.None?
    ensures mail.Some? ==> |Outbox(mail, users, s).value| == |users|
    ensures mail.Some? ==> forall i :: 0 <= i < |users| ==>
      var m := Outbox(mail, users, s).value[i];
      && m.to == users[i].email
      && m.subject == Subject
      && m.body == Body(s)
      && m.envelopeFrom == mail.value.settings.username
      && m.fromHeader == SenderName + " <" + mail.value.settings.username + ">"
  {
  }

  /** Ending every line with a break is joining the lines, and one empty
      line after them, with breaks. */
  lemma {:induction false} LinesJoin(ls: seq<string>)
    ensures Lines(ls) == Join(ls + [""], NewLine)
    decreases |ls|
  {
    if |ls| > 0 {
      LinesJoin(ls[1..]);
      assert (ls + [""])[1..] == ls[1..] + [""];
      assert |ls + [""]| > 1;
    }
  }

  /** The lines of a body carry the session's fields back out, as long as
      the name, time and creator hold no line break; the final break leaves
      an empty last piece. */
  lemma BodySplitsIntoLines(s: Session)
    requires NewLine !in s.name && NewLine !in s.time && NewLine !in s.creator
    ensures Split(Body(s), NewLine) == BodyLines(s) + [""]
  {
    BodyLinesHaveNoBreak(s);
    LinesJoin(BodyLines(s));
    SplitJoin(BodyLines(s) + [""], NewLine);
  }

  lemma BodyLinesHaveNoBreak(s: Session)
    requires NewLine !in s.name && NewLine !in s.time && NewLine !in s.creator
    ensures SeparatorFree(BodyLines(s) + [""], NewLine)
  {
    DateTextHasNoNewLine(s.date);
    LabelledLine("Spel: ", s.name);
    LabelledLine("Datum: ", DateText(s.date));
    LabelledLine("Tid: ", s.time);
    LabelledLine("HerreSkapare: ", s.creator);
    GreetingIsOneLine();
  }

  lemma GreetingIsOneLine()
    ensures NewLine !in Greeting
  {
    var a, b, c := "Be there", " or be a ", "fyrkant!!!";
    assert Greeting == a + b + c;
    assert NewLine !in a;
    assert NewLine !in b;
    assert NewLine !in c;
  }

  lemma LabelledLine(tag: string, value: string)
    requires NewLine !in tag && NewLine !in value
    ensures NewLine !in tag + value
  {
  }

  lemma DateTextHasNoNewLine(d: Date)
    ensures NewLine !in DateText(d)
  {
    var y, m, dd := Padded(d.year, 4), Padded(d.month, 2), Padded(d.day, 2);
    assert DateText(d) == y + "-" + m + "-" + dd;
    assert AllDigits(y) && AllDigits(m) && AllDigits(dd);
  }
}
