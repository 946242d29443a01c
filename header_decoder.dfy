/** `header_to_html`: concatenate the decoded pieces of an email header in
    order, then HTML-escape the result. The pieces are what
    `email.header.decode_header` returns for the RFC 2047 encoded words and
    the plain runs between them; that parser is a parameter. */
module HeaderDecoder {
  import opened Results
  import opened Codecs
  import opened HtmlEscape

  /** One `(content, charset)` pair of `decode_header`: text used verbatim,
      or bytes with the charset named in the encoded word (None for bytes
      that came without a charset). */
  datatype Segment = Str(text: string) | Raw(data: seq<byte>, charset: Option<string>)

  /** The header parser (`email.header.decode_header`). */
  type HeaderParser = string -> seq<Segment>

  /** The codec name a segment is decoded with: 'ascii' when it names none. */
  function SegmentCharset(seg: Segment): string
    requires seg.Raw?
  {
    seg.charset.GetOr("ascii")
  }

  /** `str(head[0], enc)` for byte segments; text segments are used as they are. */
  function SegmentText(reg: Registry, seg: Segment): Result<string, Error> {
    match seg
    case Str(t) => Success(t)
    case Raw(b, _) => Decode(reg, b, SegmentCharset(seg))
  }

  /** The in-order concatenation, or the exception of the first segment that fails. */
  function Joined(reg: Registry, segs: seq<Segment>): Result<string, Error>
    decreases |segs|
  {
    if segs == [] then Success("")
    else
      var prefix :- Joined(reg, segs[..|segs| - 1]);
      var last :- SegmentText(reg, segs[|segs| - 1]);
      Success(prefix + last)
  }

  /** What `header_to_html(header)` returns or raises. */
  function HeaderHtml(reg: Registry, parse: HeaderParser, header: string): Result<string, Error> {
    var text :- Joined(reg, parse(header));
    Success(Escape(text))
  }

  /** The accumulator loop of `header_to_html`. */
  method HeaderToHtml(reg: Registry, parse: HeaderParser, header: string) returns (r: Result<string, Error>)
    ensures r == HeaderHtml(reg, parse, header)
  {
    var headers := parse(header);
    var acc := "";
    var i := 0;
    while i < |headers|
      invariant 0 <= i <= |headers|
      invariant Joined(reg, headers[..i]) == Success(acc)
    {
      assert headers[..i + 1][..i] == headers[..i];
      var piece := SegmentText(reg, headers[i]);
      if piece.Failure? {
        FailureSticks(reg, headers, i + 1);
        assert headers[..|headers|] == headers;
        return Failure(piece.error);
      }
      acc := acc + piece.value;
      i := i + 1;
    }
    assert headers[..i] == headers;
    r := Success(Escape(acc));
  }

  /** Once a segment fails, no later segment changes the outcome. */
  lemma {:induction false} FailureSticks(reg: Registry, segs: seq<Segment>, k: nat)
    requires 0 < k <= |segs|
    requires Joined(reg, segs[..k - 1]).Success?
    requires SegmentText(reg, segs[k - 1]).Failure?
    ensures Joined(reg, segs).Failure?
    ensures Joined(reg, segs).error == SegmentText(reg, segs[k - 1]).error
    decreases |segs|
  {
    if k < |segs| {
      var init := segs[..|segs| - 1];
      assert init[..k - 1] == segs[..k - 1] && init[k - 1] == segs[k - 1];
      FailureSticks(reg, init, k);
    } else {
      assert segs[..|segs| - 1] == segs[..k - 1];
    }
  }

  /** The header fails exactly when some segment fails, and then with the
      exception of the first failing segment. */
  lemma {:induction false} JoinedFails(reg: Registry, segs: seq<Segment>)
    ensures Joined(reg, segs).Failure? <==>
      exists i | 0 <= i < |segs| :: SegmentText(reg, segs[i]).Failure?
    ensures Joined(reg, segs).Failure? ==>
      exists i | 0 <= i < |segs| :: SegmentText(reg, segs[i]).Failure? &&
        Joined(reg, segs).error == SegmentText(reg, segs[i]).error &&
        forall j | 0 <= j < i :: SegmentText(reg, segs[j]).Success?
    decreases |segs|
  {
    if segs != [] {
      var init := segs[..|segs| - 1];
      JoinedFails(reg, init);
      forall i | 0 <= i < |init| ensures init[i] == segs[i] { }
      if Joined(reg, init).Failure? {
        var i :| 0 <= i < |init| && SegmentText(reg, init[i]).Failure? &&
          Joined(reg, init).error == SegmentText(reg, init[i]).error &&
          forall j | 0 <= j < i :: SegmentText(reg, init[j]).Success?;
        assert SegmentText(reg, segs[i]).Failure?;
      } else if SegmentText(reg, segs[|segs| - 1]).Failure? {
        assert forall j | 0 <= j < |segs| - 1 :: SegmentText(reg, segs[j]).Success?;
      } else {
        forall i | 0 <= i < |segs| ensures SegmentText(reg, segs[i]).Success? {
          if i < |segs| - 1 {
            assert SegmentText(reg, init[i]).Success?;
          }
        }
      }
    }
  }

  /** Texts of segments that all decode, concatenated in order. */
  function Texts(reg: Registry, segs: seq<Segment>): string
    decreases |segs|
  {
    if segs == [] then ""
    else Texts(reg, segs[..|segs| - 1]) + SegmentText(reg, segs[|segs| - 1]).GetOr("")
  }

  /** When nothing fails, the result is the in-order concatenation: text
      segments verbatim, byte segments decoded with their charset. */
  lemma {:induction false} JoinedConcatenates(reg: Registry, segs: seq<Segment>)
    requires forall i | 0 <= i < |segs| :: SegmentText(reg, segs[i]).Success?
    ensures Joined(reg, segs) == Success(Texts(reg, segs))
    decreases |segs|
  {
    if segs != [] {
      var init := segs[..|segs| - 1];
      assert forall i | 0 <= i < |init| :: init[i] == segs[i];
      JoinedConcatenates(reg, init);
    }
  }

  /** A header without encoded words comes back from the parser as a single
      text segment; the result is then just its escape. */
  lemma PlainHeader(reg: Registry, parse: HeaderParser, header: string)
    requires parse(header) == [Str(header)]
    ensures HeaderHtml(reg, parse, header) == Success(Escape(header))
  {
    var segs := parse(header);
    assert segs[..0] == [];
    assert Joined(reg, segs[..0]) == Success("");
    assert SegmentText(reg, segs[0]) == Success(header);
    assert "" + header == header;
    assert Joined(reg, segs) == Success(header);
  }

  /** A byte segment without a charset is decoded as ASCII: it succeeds
      exactly when every byte is below 128. */
  lemma UnlabelledIsAscii(reg: Registry, data: seq<byte>)
    ensures SegmentText(reg, Raw(data, None)) == Decode(reg, data, "ascii")
    ensures SegmentText(reg, Raw(data, None)).Success? <==> forall i | 0 <= i < |data| :: data[i] < 128
  {
    AsciiDecode(reg, data);
  }

  /** Whatever the header holds, a successful result is safe to place in HTML
      and unescapes to the decoded header. */
  lemma HeaderHtmlSafe(reg: Registry, parse: HeaderParser, header: string)
    requires HeaderHtml(reg, parse, header).Success?
    ensures HtmlSafe(HeaderHtml(reg, parse, header).value)
    ensures Unescape(HeaderHtml(reg, parse, header).value) == Joined(reg, parse(header)).value
  {
    UnescapeEscape(Joined(reg, parse(header)).value);
  }
}
