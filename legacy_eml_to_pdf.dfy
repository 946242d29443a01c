/** The older `eml_to_pdf` module: the first `text/html` part decoded with a
    fixed list of encodings, and an output name found by checking for
    existing files before choosing. Its `header_to_html` is the same function
    as the newer module's, modelled by `HeaderDecoder.HeaderToHtml`. */
module LegacyEmlToPdf {
  import opened Results
  import opened Strings
  import opened Codecs
  import opened Messages
  import opened Dates
  import opened OutputNamer

  /** The encodings tried, in order. */
  const Encodings: seq<string> := ["utf-8", "latin1", "iso-8859-1", "cp1252"]

  /** What `html_from_eml` returns: None, decoded text, or a payload that was
      not bytes, returned as it is. */
  datatype HtmlContent = NoHtml | Decoded(text: string) | Unchanged(payload: Payload)

  /** The `for encoding in [...]` loop as a reference: the first encoding that
      decodes wins, a UnicodeDecodeError moves on, any other exception
      propagates, and None means every encoding failed (the `else` branch). */
  function FirstDecoding(reg: Registry, b: seq<byte>, encs: seq<string>): Result<Option<string>, Error>
    decreases |encs|
  {
    if encs == [] then Success(None)
    else
      match Decode(reg, b, encs[0])
      case Success(t) => Success(Some(t))
      case Failure(e) => if e.UnicodeDecodeError? then FirstDecoding(reg, b, encs[1..]) else Failure(e)
  }

  /** Latin-1 decodes every byte string, so the list yields the UTF-8 text
      when the bytes are valid UTF-8 and their Latin-1 reading otherwise;
      `cp1252` is never tried and the `else` branch never runs. */
  lemma FallbackOrder(reg: Registry, b: seq<byte>)
    ensures FirstDecoding(reg, b, Encodings) ==
      Success(Some(if reg.utf8.strict(b).Some? then reg.utf8.strict(b).value else Latin1Decode(b)))
  {
    assert Encodings[1..] == ["latin1", "iso-8859-1", "cp1252"];
    assert Encodings[1..][0] == "latin1";
  }

  /** What the first `text/html` part gives. */
  function HtmlOf(reg: Registry, payload: Payload): HtmlContent {
    match payload
    case Bytes(b) =>
      Decoded(if reg.utf8.strict(b).Some? then reg.utf8.strict(b).value else Latin1Decode(b))
    case _ => Unchanged(payload)
  }

  /** The content of the first `text/html` part in walk order. */
  function FirstHtml(reg: Registry, parts: seq<Part>): HtmlContent
    decreases |parts|
  {
    if parts == [] then NoHtml
    else if parts[0].contentType == "text/html" then HtmlOf(reg, parts[0].payload)
    else FirstHtml(reg, parts[1..])
  }

  /** `html_from_eml`. */
  method HtmlFromEml(reg: Registry, parts: seq<Part>) returns (html: HtmlContent)
    ensures html == FirstHtml(reg, parts)
  {
    html := NoHtml;
    var i := 0;
    var done := false;
    while i < |parts| && !done
      invariant 0 <= i <= |parts|
      invariant !done ==> html == NoHtml && FirstHtml(reg, parts) == FirstHtml(reg, parts[i..])
      invariant done ==> html == FirstHtml(reg, parts)
      decreases |parts| - i, !done
    {
      var part := parts[i];
      assert parts[i..][0] == part && parts[i..][1..] == parts[i + 1..];
      if part.contentType == "text/html" {
        var payload := part.payload;
        if payload.Bytes? {
          var found := false;
          var j := 0;
          while j < |Encodings| && !found
            invariant 0 <= j <= 2
            invariant !found ==> j == 0 || (j == 1 && reg.utf8.strict(payload.data).None?)
            invariant found ==> html == HtmlOf(reg, payload)
            decreases |Encodings| - j, if found then 0 else 1
          {
            var attempt := Decode(reg, payload.data, Encodings[j]);
            if attempt.Success? {
              html := Decoded(attempt.value);
              found := true;
            } else {
              j := j + 1;
            }
          }
          if !found {
            assert false;
          }
        } else {
          html := Unchanged(payload);
        }
        done := true;
      } else {
        i := i + 1;
      }
    }
    if !done {
      assert parts[i..] == [];
    }
  }

  /** None exactly when no part is `text/html`. */
  lemma {:induction false} NoHtmlPart(reg: Registry, parts: seq<Part>)
    ensures FirstHtml(reg, parts) == NoHtml <==>
      forall i | 0 <= i < |parts| :: parts[i].contentType != "text/html"
    decreases |parts|
  {
    if parts != [] {
      NoHtmlPart(reg, parts[1..]);
      assert forall i | 1 <= i < |parts| :: parts[i] == parts[1..][i - 1];
      if parts[0].contentType == "text/html" {
        assert HtmlOf(reg, parts[0].payload) != NoHtml;
      }
    }
  }

  /** The first `text/html` part wins: what follows it is never looked at. */
  lemma {:induction false} FirstHtmlWins(reg: Registry, parts: seq<Part>, k: nat)
    requires k < |parts| && parts[k].contentType == "text/html"
    requires forall j | 0 <= j < k :: parts[j].contentType != "text/html"
    ensures FirstHtml(reg, parts) == HtmlOf(reg, parts[k].payload)
    decreases k
  {
    if k > 0 {
      assert parts[1..][k - 1] == parts[k];
      FirstHtmlWins(reg, parts[1..], k - 1);
    }
  }

  /** A bytes payload of the first HTML part is decoded the way the encoding list decides. */
  lemma HtmlOfFollowsEncodings(reg: Registry, b: seq<byte>)
    ensures HtmlOf(reg, Bytes(b)) == Decoded(FirstDecoding(reg, b, Encodings).value.value)
  {
    FallbackOrder(reg, b);
  }

  /** `get_output_path`: the base name while it exists is replaced by
      `D-S_k.pdf` for `k = 1, 2, ...`, checking each for existence. */
  method GetOutputPath(date: Option<DateTime>, subject: string, existing: set<string>) returns (path: string)
    ensures path == ExclusiveName(existing, BaseFilename(date, subject))
    ensures path !in existing
  {
    var fileDate := FileDate(date);
    var safeSubject := SafeSubject(subject);
    var baseFilename := fileDate + "-" + safeSubject + ".pdf";
    path := baseFilename;
    ghost var stem := fileDate + "-" + safeSubject;
    BaseSplit(date, subject);
    var counter := 1;
    while path in existing
      invariant counter >= 1
      invariant path == if counter == 1 then baseFilename else Candidate(stem, counter - 1, ".pdf")
      invariant counter > 1 ==> baseFilename in existing
      invariant forall j | 1 <= j < counter - 1 :: Candidate(stem, j, ".pdf") in existing
      decreases |existing| + 2 - counter
    {
      TakenBound(existing, stem, ".pdf", counter);
      path := fileDate + "-" + safeSubject + "_" + Decimal(counter) + ".pdf";
      counter := counter + 1;
    }
    if counter > 1 {
      FirstFreeIs(existing, stem, ".pdf", counter - 1);
    }
  }
}
