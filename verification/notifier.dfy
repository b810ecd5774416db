/** The notification side of the missed-dose sweep: the "simulate or send"
    decision of the SMS and e-mail helpers, the message texts, and the alert
    string handed back to the caller. */
module Notifier {
  import opened Text

  /** Twilio credentials as read from the environment at start-up. */
  datatype SmsConfig = SmsConfig(accountSid: string, authToken: string)

  /** SMTP settings as read from the environment; `None` is an unset variable. */
  datatype EmailConfig = EmailConfig(server: Option<string>, user: Option<string>, password: Option<string>)

  /** What the external transport did with one attempted delivery. */
  datatype Transport = Accepted(token: string) | Rejected

  /** What a send helper reports: a real delivery, a simulation, or a swallowed failure. */
  datatype SendOutcome = Delivered(token: string) | Simulated | Failed

  /** One delivery the sweep attempts. */
  datatype Notification =
    | Sms(to: string, body: string)
    | Email(to: string, subject: string, body: string)

  /** The placeholder values the backend falls back to when the Twilio variables are unset. */
  const DefaultSms: SmsConfig := SmsConfig("ACxxxxxxxxxxxxxxxxxxxxxxxxxxxxx", "your_auth_token")

  /** The SMTP settings when none of the variables are set. */
  const DefaultEmail: EmailConfig := EmailConfig(None, None, None)

  /** `send_sms` simulates when either credential still holds its placeholder text. */
  predicate SmsSimulated(c: SmsConfig)
  {
    Contains(c.accountSid, "ACxxxxxxxx") || Contains(c.authToken, "your_auth_token")
  }

  /** `send_email` simulates unless server, user and password are all set and non-empty. */
  predicate EmailSimulated(c: EmailConfig)
  {
    !(Truthy(c.server) && Truthy(c.user) && Truthy(c.password))
  }

  function SendSms(c: SmsConfig, t: Transport): SendOutcome
  {
    if SmsSimulated(c) then Simulated
    else match t
      case Accepted(sid) => Delivered(sid)
      case Rejected => Failed
  }

  function SendEmail(c: EmailConfig, t: Transport): SendOutcome
  {
    if EmailSimulated(c) then Simulated
    else match t
      case Accepted(_) => Delivered("sent")
      case Rejected => Failed
  }

  /** The Python value a send helper returns: `"simulated"`, the message id or
      `"sent"`, or `None`. */
  function Returned(o: SendOutcome): Option<string>
  {
    match o
    case Delivered(token) => Some(token)
    case Simulated => Some("simulated")
    case Failed => None
  }

  /** The transport is consulted only when the credentials are real; a placeholder
      configuration simulates whatever the transport would have done, and a
      failure is reported as `None`, never raised. */
  lemma {:induction false} SendSmsOutcome(c: SmsConfig, t: Transport)
    ensures SendSms(c, t) == Simulated <==> SmsSimulated(c)
    ensures Returned(SendSms(c, t)) == None <==> !SmsSimulated(c) && t == Rejected
    ensures SmsSimulated(c) ==> forall t' :: SendSms(c, t') == SendSms(c, t)
  {
  }

  lemma {:induction false} SendEmailOutcome(c: EmailConfig, t: Transport)
    ensures SendEmail(c, t) == Simulated <==> EmailSimulated(c)
    ensures Returned(SendEmail(c, t)) == None <==> !EmailSimulated(c) && t == Rejected
    ensures !EmailSimulated(c) && t.Accepted? ==> Returned(SendEmail(c, t)) == Some("sent")
  {
  }

  /** With the placeholder values the backend ships with, every SMS is a simulation. */
  lemma DefaultSmsSimulates(t: Transport)
    ensures SendSms(DefaultSms, t) == Simulated
  {
    assert "ACxxxxxxxx" <= DefaultSms.accountSid;
  }

  /** With no SMTP variables set, every e-mail is a simulation. */
  lemma DefaultEmailSimulates(t: Transport)
    ensures SendEmail(DefaultEmail, t) == Simulated
  {
  }

  /** A real-looking SID is not taken for the placeholder; only then is the token consulted. */
  lemma {:induction false} RealSidDependsOnToken(sid: string, token: string)
    requires !Contains(sid, "ACxxxxxxxx")
    ensures SmsSimulated(SmsConfig(sid, token)) <==> Contains(token, "your_auth_token")
  {
  }

  // ---------------------------------------------------------------------------
  // Message texts

  const EmailSubject: string := "Medication Reminder: Missed Dose"

  const EmailGreeting: string := "Hi "
  const EmailMissed: string := ",\n\nThis is a reminder that you missed your dose for "
  const EmailClosing: string := ".\n\nPlease take it as soon as possible.\n\n- MedReminder App"
  const SmsGreeting: string := "MedReminder Alert: Hi "
  const SmsMissed: string := ", it looks like you missed your "
  const SmsClosing: string := " dose. Please take it as soon as possible."
  const ContactOpening: string := "MedReminder Alert: "
  const ContactMissed: string := " has missed their "
  const ContactClosing: string := " dose. Please check on them."
  const AlertOpening: string := "ALERT: Missed "
  const AlertMiddle: string := " dose. Sending reminders to you"

  function PatientEmailBody(patient: string, medicine: string): string
  {
    EmailGreeting + patient + EmailMissed + medicine + EmailClosing
  }

  function PatientSmsBody(patient: string, medicine: string): string
  {
    SmsGreeting + patient + SmsMissed + medicine + SmsClosing
  }

  function ContactSmsBody(patient: string, medicine: string): string
  {
    ContactOpening + patient + ContactMissed + medicine + ContactClosing
  }

  /** The part every alert for `medicine` starts with. */
  function AlertStem(medicine: string): string
  {
    AlertOpening + medicine + AlertMiddle
  }

  const ContactClause: string := " and your contact, "

  /** The alert shown to the caller; it names the close contact exactly when the
      contact's number is truthy. */
  function AlertMessage(medicine: string, contactName: Option<string>, contactNumber: Option<string>): string
  {
    if Truthy(contactNumber) then
      AlertStem(medicine) + ContactClause + NameOrNone(contactName) + "."
    else
      AlertStem(medicine) + "."
  }

  /** How a Python f-string renders an optional string. */
  function NameOrNone(o: Option<string>): string
  {
    match o
    case Some(s) => s
    case None => "None"
  }

  /** Reads back from an alert for a known medicine whether a close contact was
      alerted and under which name: `Some(None)` for "only you",
      `Some(Some(name))` for "you and your contact", `None` for any other text. */
  function AlertedContact(alert: string, medicine: string): Option<Option<string>>
  {
    var stem := AlertStem(medicine);
    if !(stem <= alert) then None
    else
      var rest := alert[|stem|..];
      if rest == "." then Some(None)
      else if ContactClause <= rest && |rest| > |ContactClause| && rest[|rest| - 1] == '.' then
        Some(Some(rest[|ContactClause|..|rest| - 1]))
      else None
  }

  /** The alert tells the caller, unambiguously, whether escalation reached a
      second party and whom. */
  lemma {:induction false} AlertedContactOfAlert(medicine: string, contactName: Option<string>, contactNumber: Option<string>)
    ensures AlertedContact(AlertMessage(medicine, contactName, contactNumber), medicine)
            == if Truthy(contactNumber) then Some(Some(NameOrNone(contactName))) else Some(None)
  {
    var stem := AlertStem(medicine);
    var alert := AlertMessage(medicine, contactName, contactNumber);
    assert stem <= alert;
    var rest := alert[|stem|..];
    if Truthy(contactNumber) {
      var name := NameOrNone(contactName);
      assert rest == ContactClause + name + ".";
      assert rest[..|ContactClause|] == ContactClause;
      assert rest[|ContactClause|..|rest| - 1] == name;
    } else {
      assert rest == ".";
    }
  }

  /** The deliveries attempted for one missed-dose row: the patient's SMS and
      e-mail always, the close contact's SMS only when the contact number is truthy. */
  function RowNotifications(patient: string, patientNumber: string, patientEmail: string,
                            medicine: string, contactNumber: Option<string>): seq<Notification>
  {
    [Sms(patientNumber, PatientSmsBody(patient, medicine)),
     Email(patientEmail, EmailSubject, PatientEmailBody(patient, medicine))]
    + (if Truthy(contactNumber) then [Sms(contactNumber.value, ContactSmsBody(patient, medicine))] else [])
  }

  lemma {:induction false} RowNotificationsShape(patient: string, patientNumber: string, patientEmail: string,
                                                 medicine: string, contactNumber: Option<string>)
    ensures var ns := RowNotifications(patient, patientNumber, patientEmail, medicine, contactNumber);
            && |ns| == (if Truthy(contactNumber) then 3 else 2)
            && ns[0].Sms? && ns[0].to == patientNumber
            && ns[1].Email? && ns[1].to == patientEmail && ns[1].subject == EmailSubject
            && (forall k :: 0 <= k < |ns| && ns[k].Email? ==> k == 1)
            && (|ns| == 3 ==> ns[2].Sms? && ns[2].to == contactNumber.value)
  {
  }
}
