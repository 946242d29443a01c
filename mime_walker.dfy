/** `walk_eml`: classify every part of the walk, collect the HTML and plain
    text bodies, the attachment list and the Content-ID map, then assemble
    the body: embedded HTML if there is any, else Markdown of the plain text. */
module MimeWalker {
  import opened Results
  import opened Strings
  import opened Codecs
  import opened HeaderDecoder
  import opened Messages
  import opened CharsetRecovery
  import opened ImageEmbedding

  /** The collaborators `walk_eml` calls and the model does not spell out. */
  datatype Env = Env(
    reg: Registry,
    parse: HeaderParser,
    unescape: UnicodeEscape,
    markdown: string -> string,
    md5Hex: seq<byte> -> string,
    sizeOf: seq<byte> -> int)

  /** The four accumulators of the loop. */
  datatype WalkState = WalkState(html: string, plain: string, cids: CidMap, attachments: seq<Attachment>)

  const Start := WalkState("", "", [], [])

  /** `if not payload` / `if not isinstance(payload, bytes)`: only non-empty bytes go on. */
  predicate Usable(p: Part) {
    p.payload.Bytes? && |p.payload.data| > 0
  }

  /** `part.get_content_charset() or 'utf-8'`. */
  function CharsetOf(p: Part): string {
    if p.charset.None? || p.charset.value == "" then "utf-8" else p.charset.value
  }

  /** The first branch: a text body, not marked as attachment. */
  predicate IsBody(p: Part) {
    (p.contentType == "text/plain" || p.contentType == "text/html") &&
    (p.disposition == NoDisposition || p.disposition == Inline)
  }

  /** The second branch: an attachment or an inline part that is not a body. */
  predicate IsFile(p: Part) {
    !IsBody(p) && (p.disposition == AttachmentDisposition || p.disposition == Inline)
  }

  predicate IsImage(p: Part) {
    StartsWith(p.contentType, "image/")
  }

  predicate ShouldSave(p: Part) {
    p.disposition == AttachmentDisposition || (p.disposition == Inline && !IsImage(p))
  }

  predicate Named(p: Part) {
    p.filename.Some? && p.filename.value != ""
  }

  predicate HasCid(p: Part) {
    p.contentId.Some? && p.contentId.value != ""
  }

  /** The key under which an image is stored: the id without its angle brackets. */
  function CidKey(p: Part): string
    requires HasCid(p)
  {
    Strip(p.contentId.value, {'<', '>'})
  }

  /** A part that ends up in the attachment list. */
  predicate Listed(p: Part) {
    Usable(p) && IsFile(p) && ShouldSave(p) && Named(p)
  }

  /** A part that ends up in the Content-ID map. */
  predicate Referenced(p: Part) {
    Usable(p) && IsFile(p) && IsImage(p) && HasCid(p)
  }

  /** The file-branch bookkeeping: the attachment, if listed, and the filename
      as it stands afterwards (escaped when it was listed). */
  function Saved(env: Env, p: Part): Result<(seq<Attachment>, Option<string>), Error>
    requires Usable(p)
  {
    if ShouldSave(p) && Named(p) then
      var name :- HeaderHtml(env.reg, env.parse, p.filename.value);
      Success(([Attachment(name, env.sizeOf(p.payload.data), env.md5Hex(p.payload.data))], Some(name)))
    else Success(([], p.filename))
  }

  /** One iteration of the loop. */
  function Step(env: Env, st: WalkState, p: Part): Result<WalkState, Error> {
    if !Usable(p) then Success(st)
    else if IsBody(p) then
      var text :- DecodeToStr(env.reg, env.unescape, p.payload, CharsetOf(p));
      if p.contentType == "text/plain" then Success(st.(plain := st.plain + text))
      else Success(st.(html := st.html + text))
    else if IsFile(p) then
      var saved :- Saved(env, p);
      var cids := if IsImage(p) && HasCid(p)
        then Put(st.cids, CidKey(p), InlineImage(saved.1, p.payload.data, p.contentType))
        else st.cids;
      Success(st.(attachments := st.attachments + saved.0, cids := cids))
    else Success(st)
  }

  /** The loop over the walk; the first exception ends it. */
  function Walk(env: Env, parts: seq<Part>): Result<WalkState, Error>
    decreases |parts|
  {
    if parts == [] then Success(Start)
    else
      var st :- Walk(env, parts[..|parts| - 1]);
      Step(env, st, parts[|parts| - 1])
  }

  /** The final assembly. */
  function Render(env: Env, st: WalkState): string {
    if st.html != "" then Embedded(st.html, st.cids) else env.markdown(st.plain)
  }

  /** What `walk_eml` returns or raises. */
  function WalkResult(env: Env, parts: seq<Part>): Result<(string, seq<Attachment>), Error> {
    var st :- Walk(env, parts);
    Success((Render(env, st), st.attachments))
  }

  method WalkEml(env: Env, parts: seq<Part>) returns (r: Result<(string, seq<Attachment>), Error>)
    ensures r == WalkResult(env, parts)
  {
    var htmlContent, plainTextContent := "", "";
    var cidAttachments: CidMap := [];
    var attachments: seq<Attachment> := [];
    var i := 0;
    while i < |parts|
      invariant 0 <= i <= |parts|
      invariant Walk(env, parts[..i]) == Success(WalkState(htmlContent, plainTextContent, cidAttachments, attachments))
    {
      var part := parts[i];
      assert parts[..i + 1][..i] == parts[..i] && parts[..i + 1][i] == part;
      ghost var before := WalkState(htmlContent, plainTextContent, cidAttachments, attachments);
      assert Walk(env, parts[..i + 1]) == Step(env, before, part);
      i := i + 1;
      if !Usable(part) {
        continue;
      }
      var payload := part.payload.data;
      if IsBody(part) {
        var decoded := DecodeToStr(env.reg, env.unescape, part.payload, CharsetOf(part));
        if decoded.Failure? {
          WalkFailureSticks(env, parts, i);
          return Failure(decoded.error);
        }
        if part.contentType == "text/plain" {
          plainTextContent := plainTextContent + decoded.value;
        } else {
          htmlContent := htmlContent + decoded.value;
        }
      } else if part.disposition == AttachmentDisposition || part.disposition == Inline {
        var filename := part.filename;
        var isImage := StartsWith(part.contentType, "image/");
        var shouldSave := part.disposition == AttachmentDisposition || (part.disposition == Inline && !isImage);
        if shouldSave && Named(part) {
          var name := HeaderToHtml(env.reg, env.parse, filename.value);
          if name.Failure? {
            WalkFailureSticks(env, parts, i);
            return Failure(name.error);
          }
          filename := Some(name.value);
          attachments := attachments + [Attachment(name.value, env.sizeOf(payload), env.md5Hex(payload))];
          assert Saved(env, part) == Success(([Attachment(name.value, env.sizeOf(payload), env.md5Hex(payload))], filename));
        } else {
          assert Saved(env, part) == Success(([], filename));
          assert attachments == attachments + [];
        }
        if isImage && HasCid(part) {
          cidAttachments := Put(cidAttachments, CidKey(part), InlineImage(filename, payload, part.contentType));
        }
      }
    }
    assert parts[..i] == parts;
    var body;
    if htmlContent != "" {
      body := EmbedImgs(htmlContent, cidAttachments);
    } else {
      body := env.markdown(plainTextContent);
    }
    r := Success((body, attachments));
  }

  /** An exception in part `k - 1` is what the whole walk raises. */
  lemma {:induction false} WalkFailureSticks(env: Env, parts: seq<Part>, k: nat)
    requires 0 < k <= |parts|
    requires Walk(env, parts[..k - 1]).Success?
    requires Step(env, Walk(env, parts[..k - 1]).value, parts[k - 1]).Failure?
    ensures WalkResult(env, parts) == Failure(Step(env, Walk(env, parts[..k - 1]).value, parts[k - 1]).error)
    decreases |parts|
  {
    if k < |parts| {
      var init := parts[..|parts| - 1];
      assert init[..k - 1] == parts[..k - 1] && init[k - 1] == parts[k - 1];
      WalkFailureSticks(env, init, k);
    } else {
      assert parts[..|parts| - 1] == parts[..k - 1];
    }
  }

  /** Whether a part raises does not depend on what came before it. */
  predicate PartOk(env: Env, p: Part) {
    Usable(p) ==>
      (IsBody(p) ==> DecodeToStr(env.reg, env.unescape, p.payload, CharsetOf(p)).Success?) &&
      (IsFile(p) && ShouldSave(p) && Named(p) ==> HeaderHtml(env.reg, env.parse, p.filename.value).Success?)
  }

  lemma StepOk(env: Env, st: WalkState, p: Part)
    ensures Step(env, st, p).Success? <==> PartOk(env, p)
  {
  }

  /** The walk raises exactly when some part raises: a body with an unknown
      charset, or an attachment name that does not decode. */
  lemma {:induction false} WalkOk(env: Env, parts: seq<Part>)
    ensures Walk(env, parts).Success? <==> forall i | 0 <= i < |parts| :: PartOk(env, parts[i])
    decreases |parts|
  {
    if parts != [] {
      var init := parts[..|parts| - 1];
      WalkOk(env, init);
      assert forall i | 0 <= i < |init| :: init[i] == parts[i];
      if Walk(env, init).Success? {
        StepOk(env, Walk(env, init).value, parts[|parts| - 1]);
      }
    }
  }

  /** What a body part contributes once it decodes. */
  function BodyText(env: Env, p: Part): string {
    DecodeToStr(env.reg, env.unescape, p.payload, CharsetOf(p)).GetOr("")
  }

  /** Reference definition of a body buffer: the decoded text of every usable
      body part of content type `ct`, in walk order. */
  function BodyOf(env: Env, parts: seq<Part>, ct: string): string
    decreases |parts|
  {
    if parts == [] then ""
    else
      var p := parts[|parts| - 1];
      BodyOf(env, parts[..|parts| - 1], ct) + (if Usable(p) && IsBody(p) && p.contentType == ct then BodyText(env, p) else "")
  }

  function AttachmentOf(env: Env, p: Part): Attachment
    requires Usable(p) && Named(p)
  {
    Attachment(HeaderHtml(env.reg, env.parse, p.filename.value).GetOr(""), env.sizeOf(p.payload.data), env.md5Hex(p.payload.data))
  }

  /** Reference definition of the attachment list: one entry per listed part,
      in walk order; the size is what `sys.getsizeof` reports. */
  function ListedOf(env: Env, parts: seq<Part>): seq<Attachment>
    decreases |parts|
  {
    if parts == [] then []
    else
      var p := parts[|parts| - 1];
      ListedOf(env, parts[..|parts| - 1]) + (if Listed(p) then [AttachmentOf(env, p)] else [])
  }

  /** The image a referenced part stores. */
  function ImageOf(env: Env, p: Part): InlineImage
    requires Usable(p)
  {
    var filename := if Listed(p) then Some(HeaderHtml(env.reg, env.parse, p.filename.value).GetOr("")) else p.filename;
    InlineImage(filename, p.payload.data, p.contentType)
  }

  /** Reference definition of the map: the last referenced part with key `k` wins. */
  function LastImage(env: Env, parts: seq<Part>, k: string): Option<InlineImage>
    decreases |parts|
  {
    if parts == [] then None
    else
      var p := parts[|parts| - 1];
      if Referenced(p) && CidKey(p) == k then Some(ImageOf(env, p))
      else LastImage(env, parts[..|parts| - 1], k)
  }

  /** A step that does not raise, described output by output. */
  lemma StepEffect(env: Env, st: WalkState, p: Part, k: string)
    requires PartOk(env, p)
    ensures Step(env, st, p).Success?
    ensures var st' := Step(env, st, p).value;
      st'.html == st.html + (if Usable(p) && IsBody(p) && p.contentType == "text/html" then BodyText(env, p) else "") &&
      st'.plain == st.plain + (if Usable(p) && IsBody(p) && p.contentType == "text/plain" then BodyText(env, p) else "") &&
      st'.attachments == st.attachments + (if Listed(p) then [AttachmentOf(env, p)] else []) &&
      Get(st'.cids, k) == (if Referenced(p) && CidKey(p) == k then Some(ImageOf(env, p)) else Get(st.cids, k))
  {
    if Usable(p) && IsFile(p) && IsImage(p) && HasCid(p) {
      var saved := Saved(env, p).value;
      GetPut(st.cids, CidKey(p), InlineImage(saved.1, p.payload.data, p.contentType), k);
    }
  }

  /** A walk that does not raise builds exactly the reference values: both
      bodies, the attachment list, and for every key the last image stored. */
  lemma {:induction false} WalkCharacterised(env: Env, parts: seq<Part>, k: string)
    requires Walk(env, parts).Success?
    ensures var st := Walk(env, parts).value;
      st.html == BodyOf(env, parts, "text/html") &&
      st.plain == BodyOf(env, parts, "text/plain") &&
      st.attachments == ListedOf(env, parts) &&
      Get(st.cids, k) == LastImage(env, parts, k)
    decreases |parts|
  {
    if parts != [] {
      var init := parts[..|parts| - 1];
      var p := parts[|parts| - 1];
      assert Walk(env, init).Success?;
      WalkCharacterised(env, init, k);
      StepOk(env, Walk(env, init).value, p);
      StepEffect(env, Walk(env, init).value, p, k);
    }
  }

  /** The keys of the map stay distinct throughout the walk. */
  lemma {:induction false} WalkKeysDistinct(env: Env, parts: seq<Part>)
    requires Walk(env, parts).Success?
    ensures DistinctKeys(Walk(env, parts).value.cids)
    decreases |parts|
  {
    if parts != [] {
      var init := parts[..|parts| - 1];
      var p := parts[|parts| - 1];
      WalkKeysDistinct(env, init);
      var st := Walk(env, init).value;
      if Usable(p) && IsFile(p) && IsImage(p) && HasCid(p) {
        var saved := Saved(env, p).value;
        PutKeys(st.cids, CidKey(p), InlineImage(saved.1, p.payload.data, p.contentType));
      }
    }
  }

  /** A part that is neither a body nor an attachment or inline part leaves no
      trace: no payload, a non-bytes payload, an image without
      Content-Disposition, a part with another disposition. */
  lemma IgnoredPart(env: Env, parts: seq<Part>, p: Part)
    requires !Usable(p) || (!IsBody(p) && !IsFile(p))
    ensures Walk(env, parts + [p]) == Walk(env, parts)
  {
    assert (parts + [p])[..|parts|] == parts;
  }

  /** The first branch wins: a text body marked inline is never listed nor
      stored as an image, even with a filename. */
  lemma BodyWins(p: Part)
    requires IsBody(p)
    ensures !Listed(p) && !Referenced(p)
  {
  }

  /** An inline image is stored for rendering but is not an attachment; an
      attachment image with a name and an id is both. */
  lemma ImageDispositions(p: Part)
    requires Usable(p) && IsImage(p) && HasCid(p)
    ensures p.disposition == Inline ==> Referenced(p) && !Listed(p)
    ensures p.disposition == AttachmentDisposition && Named(p) ==> Referenced(p) && Listed(p)
    ensures p.disposition == NoDisposition ==> !Referenced(p) && !Listed(p)
  {
    assert p.contentType != "text/plain" && p.contentType != "text/html" by {
      assert p.contentType[..6] == "image/";
      assert p.contentType[0] == 'i';
    }
  }

  /** The body is the embedded HTML when there is HTML, else Markdown of the text. */
  lemma {:induction false} RenderedBody(env: Env, parts: seq<Part>)
    requires Walk(env, parts).Success?
    ensures var html := BodyOf(env, parts, "text/html");
      WalkResult(env, parts).Success? &&
      WalkResult(env, parts).value.0 ==
        (if html != "" then Embedded(html, Walk(env, parts).value.cids)
         else env.markdown(BodyOf(env, parts, "text/plain")))
  {
    WalkCharacterised(env, parts, "");
  }
}
