/** `Header.__init__` of the current module: decode From, To and Subject
    inside one `try` that catches only UnicodeError, parse the Date header,
    and render the header table. Fields not reached keep the class defaults. */
module EmailHeader {
  import opened Results
  import opened Codecs
  import opened HtmlEscape
  import opened HeaderDecoder
  import opened Dates
  import OutputNamer

  /** The four headers as `msg.get(name)` sees them: None when absent. */
  datatype MessageHeaders = MessageHeaders(
    fromHeader: Option<string>, toHeader: Option<string>,
    subjectHeader: Option<string>, dateHeader: Option<string>)

  /** `email.utils.parsedate_to_datetime`: None when it raises ValueError. */
  type DateParser = string -> Option<DateTime>

  /** What can escape from the constructor: a LookupError from a header
      naming an unknown charset, or the ValueError of an unparseable date. */
  datatype Raised = CodecRaised(error: Error) | DateRaised(date: string)

  /** The instance attributes the constructor leaves behind. */
  datatype HeaderState = HeaderState(
    fromAddr: string, toAddr: string, subject: string,
    html: string, formattedDate: string, date: Option<DateTime>)

  const NotDecoded := "Not decoded."

  /** The class attributes, which a field keeps until it is assigned. */
  const Defaults := HeaderState(NotDecoded, NotDecoded, NotDecoded, NotDecoded, "No date.", None)

  /** The state after the constructor ran, and what it raised, if anything. */
  datatype Outcome = Outcome(state: HeaderState, raised: Option<Raised>)

  /** The fixed text of the header table, around the four fields. */
  const TableStart := "\n<table style=\"font-family: serif;\n              margin-bottom: 20px;\n"
    + "              border-spacing: 1rem 0;\n              text-align: left\">\n"
    + "<tr><th scope=\"row\">From:</th><td>"
  const ToCell := "</td></tr>\n<tr><th scope=\"row\">To:</th><td>"
  const DateCell := "</td></tr>\n<tr><th scope=\"row\">Date:</th><td>"
  const SubjectCell := "</td></tr>\n<tr><th scope=\"row\">Subject:</th><td>"
  const TableEnd := "</td></tr>\n</table>\n"

  /** The f-string of the header table. */
  function Table(s: HeaderState): string {
    TableStart + s.fromAddr + ToCell + s.toAddr + DateCell + s.formattedDate + SubjectCell + s.subject + TableEnd
  }

  /** The three decodes of the `try` block, in order. A UnicodeDecodeError
      ends the block with the fields not yet assigned at their defaults; a
      LookupError is not a UnicodeError and leaves the constructor. */
  function Addresses(reg: Registry, parse: HeaderParser, msg: MessageHeaders): (HeaderState, Option<Error>) {
    match HeaderHtml(reg, parse, msg.fromHeader.GetOr("No sender"))
    case Failure(e) => (Defaults, if e.UnicodeDecodeError? then None else Some(e))
    case Success(f) =>
      var s1 := Defaults.(fromAddr := f);
      match HeaderHtml(reg, parse, msg.toHeader.GetOr("No recipient"))
      case Failure(e) => (s1, if e.UnicodeDecodeError? then None else Some(e))
      case Success(t) =>
        var s2 := s1.(toAddr := t);
        match HeaderHtml(reg, parse, msg.subjectHeader.GetOr("No subject"))
        case Failure(e) => (s2, if e.UnicodeDecodeError? then None else Some(e))
        case Success(u) => (s2.(subject := u), None)
  }

  /** `formatted_date`: the stamp of a parsed date, "No date" without one. */
  function DateText(date: Option<DateTime>): string {
    if date.Some? then FormatStamp(date.value) else "No date"
  }

  /** The date, the formatted date and the table, once the addresses are set. */
  function Finish(s: HeaderState, date: Option<DateTime>): HeaderState {
    var dated := s.(date := date, formattedDate := DateText(date));
    dated.(html := Table(dated))
  }

  /** `Finish` is the state with its date fields set, then rendered. */
  lemma FinishIs(s: HeaderState, date: Option<DateTime>, dated: HeaderState)
    requires dated == s.(date := date, formattedDate := DateText(date))
    ensures Finish(s, date) == dated.(html := Table(dated))
  {
  }

  /** The whole constructor. */
  function Initialised(reg: Registry, parse: HeaderParser, parseDate: DateParser, msg: MessageHeaders): Outcome {
    var (s, err) := Addresses(reg, parse, msg);
    if err.Some? then Outcome(s, Some(CodecRaised(err.value)))
    else
      var raw := msg.dateHeader.GetOr("");
      if raw == "" then Outcome(Finish(s, None), None)
      else match parseDate(raw)
        case None => Outcome(s, Some(DateRaised(raw)))
        case Some(d) => Outcome(Finish(s, Some(d)), None)
  }

  class Header {
    var fromAddr: string
    var toAddr: string
    var subject: string
    var html: string
    var formattedDate: string
    var date: Option<DateTime>

    function State(): HeaderState
      reads this
    {
      HeaderState(fromAddr, toAddr, subject, html, formattedDate, date)
    }

    /** A fresh instance sees the class attributes. */
    constructor ()
      ensures State() == Defaults
    {
      fromAddr, toAddr, subject, html := NotDecoded, NotDecoded, NotDecoded, NotDecoded;
      formattedDate, date := "No date.", None;
    }

    /** The `try` block: From, To and Subject in order. */
    method DecodeAddresses(reg: Registry, parse: HeaderParser, msg: MessageHeaders)
      returns (escaped: Option<Error>)
      requires State() == Defaults
      modifies this
      ensures State() == Addresses(reg, parse, msg).0
      ensures escaped == Addresses(reg, parse, msg).1
    {
      var r := HeaderToHtml(reg, parse, msg.fromHeader.GetOr("No sender"));
      if r.Failure? {
        return if r.error.UnicodeDecodeError? then None else Some(r.error);
      }
      fromAddr := r.value;
      r := HeaderToHtml(reg, parse, msg.toHeader.GetOr("No recipient"));
      if r.Failure? {
        return if r.error.UnicodeDecodeError? then None else Some(r.error);
      }
      toAddr := r.value;
      r := HeaderToHtml(reg, parse, msg.subjectHeader.GetOr("No subject"));
      if r.Failure? {
        return if r.error.UnicodeDecodeError? then None else Some(r.error);
      }
      subject := r.value;
      escaped := None;
    }

    /** The body of `__init__`; `raised` is the exception it lets escape. */
    method Init(reg: Registry, parse: HeaderParser, parseDate: DateParser, msg: MessageHeaders)
      returns (raised: Option<Raised>)
      requires State() == Defaults
      modifies this
      ensures State() == Initialised(reg, parse, parseDate, msg).state
      ensures raised == Initialised(reg, parse, parseDate, msg).raised
    {
      var escaped := DecodeAddresses(reg, parse, msg);
      if escaped.Some? {
        return Some(CodecRaised(escaped.value));
      }
      ghost var decoded := State();
      var msgDate := msg.dateHeader.GetOr("");
      if msgDate == "" {
        date := None;
      } else {
        var parsed := parseDate(msgDate);
        if parsed.None? {
          return Some(DateRaised(msgDate));
        }
        date := parsed;
      }
      formattedDate := DateText(date);
      var dated := State();
      html := Table(dated);
      FinishIs(decoded, date, dated);
      raised := None;
    }
  }

  /** Every address field holds HTML-safe text, decoded or not. */
  lemma FieldsSafe(reg: Registry, parse: HeaderParser, parseDate: DateParser, msg: MessageHeaders)
    ensures var s := Initialised(reg, parse, parseDate, msg).state;
      HtmlSafe(s.fromAddr) && HtmlSafe(s.toAddr) && HtmlSafe(s.subject)
  {
    AddressesSafe(reg, parse, msg);
    AddressesKept(reg, parse, parseDate, msg);
  }

  lemma AddressesSafe(reg: Registry, parse: HeaderParser, msg: MessageHeaders)
    ensures var a := Addresses(reg, parse, msg).0;
      HtmlSafe(a.fromAddr) && HtmlSafe(a.toAddr) && HtmlSafe(a.subject)
  {
    assert HtmlSafe(NotDecoded);
    var f := HeaderHtml(reg, parse, msg.fromHeader.GetOr("No sender"));
    var t := HeaderHtml(reg, parse, msg.toHeader.GetOr("No recipient"));
    var u := HeaderHtml(reg, parse, msg.subjectHeader.GetOr("No subject"));
    if f.Success? { HeaderHtmlSafe(reg, parse, msg.fromHeader.GetOr("No sender")); }
    if t.Success? { HeaderHtmlSafe(reg, parse, msg.toHeader.GetOr("No recipient")); }
    if u.Success? { HeaderHtmlSafe(reg, parse, msg.subjectHeader.GetOr("No subject")); }
  }

  /** A UnicodeDecodeError in the sender stops the block: all three fields
      read "Not decoded." and the constructor carries on with the date. */
  lemma SenderUndecodable(reg: Registry, parse: HeaderParser, parseDate: DateParser, msg: MessageHeaders)
    requires HeaderHtml(reg, parse, msg.fromHeader.GetOr("No sender")).Failure?
    requires HeaderHtml(reg, parse, msg.fromHeader.GetOr("No sender")).error.UnicodeDecodeError?
    ensures var o := Initialised(reg, parse, parseDate, msg);
      o.state.fromAddr == NotDecoded && o.state.toAddr == NotDecoded && o.state.subject == NotDecoded &&
      (o.raised.Some? ==> o.raised.value.DateRaised?)
  {
  }

  /** A failing recipient keeps the sender already decoded. */
  lemma RecipientUndecodable(reg: Registry, parse: HeaderParser, parseDate: DateParser, msg: MessageHeaders)
    requires HeaderHtml(reg, parse, msg.fromHeader.GetOr("No sender")).Success?
    requires HeaderHtml(reg, parse, msg.toHeader.GetOr("No recipient")).Failure?
    requires HeaderHtml(reg, parse, msg.toHeader.GetOr("No recipient")).error.UnicodeDecodeError?
    ensures var o := Initialised(reg, parse, parseDate, msg);
      o.state.fromAddr == HeaderHtml(reg, parse, msg.fromHeader.GetOr("No sender")).value &&
      o.state.toAddr == NotDecoded && o.state.subject == NotDecoded
  {
  }

  /** A LookupError is not caught: the constructor raises it. */
  lemma UnknownCharsetRaises(reg: Registry, parse: HeaderParser, parseDate: DateParser, msg: MessageHeaders)
    requires HeaderHtml(reg, parse, msg.fromHeader.GetOr("No sender")).Failure?
    requires HeaderHtml(reg, parse, msg.fromHeader.GetOr("No sender")).error.LookupError?
    ensures Initialised(reg, parse, parseDate, msg).raised ==
      Some(CodecRaised(HeaderHtml(reg, parse, msg.fromHeader.GetOr("No sender")).error))
  {
  }

  /** All three decode: the fields are the decoded headers, absent ones
      replaced by the placeholders "No sender", "No recipient", "No subject". */
  lemma AllDecoded(reg: Registry, parse: HeaderParser, parseDate: DateParser, msg: MessageHeaders)
    requires HeaderHtml(reg, parse, msg.fromHeader.GetOr("No sender")).Success?
    requires HeaderHtml(reg, parse, msg.toHeader.GetOr("No recipient")).Success?
    requires HeaderHtml(reg, parse, msg.subjectHeader.GetOr("No subject")).Success?
    ensures var s := Initialised(reg, parse, parseDate, msg).state;
      s.fromAddr == HeaderHtml(reg, parse, msg.fromHeader.GetOr("No sender")).value &&
      s.toAddr == HeaderHtml(reg, parse, msg.toHeader.GetOr("No recipient")).value &&
      s.subject == HeaderHtml(reg, parse, msg.subjectHeader.GetOr("No subject")).value
  {
  }

  /** An absent sender shows as "No sender" when the parser returns that
      text as it is. */
  lemma AbsentSender(reg: Registry, parse: HeaderParser, parseDate: DateParser, msg: MessageHeaders)
    requires msg.fromHeader.None?
    requires parse("No sender") == [Str("No sender")]
    ensures Initialised(reg, parse, parseDate, msg).state.fromAddr == "No sender"
  {
    PlainText(reg, parse, "No sender");
    SenderKept(reg, parse, parseDate, msg);
  }

  /** A header the parser returns as one plain string, free of characters
      `escape` replaces, renders as itself. */
  lemma PlainText(reg: Registry, parse: HeaderParser, text: string)
    requires parse(text) == [Str(text)]
    requires forall i | 0 <= i < |text| :: text[i] != '&' && !Markup(text[i])
    ensures HeaderHtml(reg, parse, text) == Success(text)
  {
    PlainHeader(reg, parse, text);
    EscapePlain(text);
  }

  /** A decoded sender stays in the state, whatever happens afterwards. */
  lemma SenderKept(reg: Registry, parse: HeaderParser, parseDate: DateParser, msg: MessageHeaders)
    requires HeaderHtml(reg, parse, msg.fromHeader.GetOr("No sender")).Success?
    ensures Initialised(reg, parse, parseDate, msg).state.fromAddr ==
      HeaderHtml(reg, parse, msg.fromHeader.GetOr("No sender")).value
  {
    var (a, err) := Addresses(reg, parse, msg);
    assert a.fromAddr == HeaderHtml(reg, parse, msg.fromHeader.GetOr("No sender")).value;
    AddressesKept(reg, parse, parseDate, msg);
  }

  /** The date handling never touches the three address fields. */
  lemma AddressesKept(reg: Registry, parse: HeaderParser, parseDate: DateParser, msg: MessageHeaders)
    ensures var a := Addresses(reg, parse, msg).0;
      var s := Initialised(reg, parse, parseDate, msg).state;
      s.fromAddr == a.fromAddr && s.toAddr == a.toAddr && s.subject == a.subject
  {
    var a := Addresses(reg, parse, msg).0;
    FinishKeeps(a, None);
    FinishKeeps(a, parseDate(msg.dateHeader.GetOr("")));
  }

  lemma FinishKeeps(s: HeaderState, date: Option<DateTime>)
    ensures var f := Finish(s, date);
      f.fromAddr == s.fromAddr && f.toAddr == s.toAddr && f.subject == s.subject
  {
  }

  /** No Date header, or an empty one: no date, "No date" in the table, and
      nothing raised once the addresses went through. */
  lemma NoDate(reg: Registry, parse: HeaderParser, parseDate: DateParser, msg: MessageHeaders)
    requires msg.dateHeader.None? || msg.dateHeader == Some("")
    requires Addresses(reg, parse, msg).1.None?
    ensures var o := Initialised(reg, parse, parseDate, msg);
      o.raised.None? && o.state.date.None? && o.state.formattedDate == "No date" &&
      o.state.html == Table(o.state)
  {
  }

  /** A non-empty Date header the parser rejects raises, leaving the date
      fields at their defaults. */
  lemma BadDateRaises(reg: Registry, parse: HeaderParser, parseDate: DateParser, msg: MessageHeaders)
    requires msg.dateHeader.Some? && msg.dateHeader.value != ""
    requires parseDate(msg.dateHeader.value).None?
    requires Addresses(reg, parse, msg).1.None?
    ensures var o := Initialised(reg, parse, parseDate, msg);
      o.raised == Some(DateRaised(msg.dateHeader.value)) &&
      o.state.formattedDate == "No date." && o.state.date.None? && o.state.html == NotDecoded
  {
  }

  /** A parsed date is kept and shown as `YYYY-MM-DD, HH:MM`. */
  lemma GoodDate(reg: Registry, parse: HeaderParser, parseDate: DateParser, msg: MessageHeaders)
    requires msg.dateHeader.Some? && msg.dateHeader.value != ""
    requires parseDate(msg.dateHeader.value).Some?
    requires Addresses(reg, parse, msg).1.None?
    ensures var o := Initialised(reg, parse, parseDate, msg);
      o.raised.None? && o.state.date == parseDate(msg.dateHeader.value) &&
      o.state.formattedDate == FormatStamp(o.state.date.value) &&
      o.state.html == Table(o.state)
  {
  }

  /** The subject the file name is built from is the escaped `subject`
      field, so an `&` in the Subject header reaches the name as `&amp;`. */
  lemma EscapedSubjectName(reg: Registry, parse: HeaderParser, date: Option<DateTime>)
    requires parse("a&b") == [Str("a&b")]
    ensures HeaderHtml(reg, parse, "a&b") == Success("a&amp;b")
    ensures OutputNamer.BaseFilename(date, "a&amp;b") == OutputNamer.FileDate(date) + "-" + "a&amp;b" + ".pdf"
  {
    PlainHeader(reg, parse, "a&b");
    assert Escape("a&b") == "a&amp;b";
    OutputNamer.SafeSubjectClean("a&amp;b");
  }
}
