# eml2pdf core, modelled in Dafny

eml2pdf turns `.eml` e-mail files into PDF files. This project models everything it does before rendering:

- **Reading the message.**
  - The walk (`walk_eml`) classifies every MIME part of a message. Text bodies go to an HTML buffer or a plain-text buffer. Attachments go to an ordered list, and inline images go to a Content-ID map.
  - Charset recovery (`decode_to_str`) turns payload bytes into text.
  - `embed_imgs` replaces `cid:` references by `data:` URIs.
  - `generate_attachment_list` builds the attachment table.
  - `header_to_html` decodes and escapes a header.
  - `Header.__init__` decodes the header fields and falls back on defaults.
- **Naming the output file.**
  - `get_output_base_path` builds `D-S.pdf` from the date and the cleaned subject.
  - `get_exclusive_outfile` picks the first free `stem_k.pdf` by exclusive creation.
- **Sanitising the HTML.** `sanitize_html` makes five passes over the parsed tree. They remove risky elements and remote images, clear styles that load URLs, neutralise remote links and strip event-handler and `data-` attributes.
- **The older `eml_to_pdf` module.** It takes the first HTML part and decodes it with a fixed list of encodings. It picks an output name by checking which files exist.

How the modules are built:

- Libraries the core calls are parameters of the model:
  - the codec registry beyond ASCII and Latin-1;
  - `email.header.decode_header`;
  - `parsedate_to_datetime`;
  - `markdown`;
  - `hashlib.md5`;
  - `sys.getsizeof`;
  - `hurry.filesize.size`;
  - the `unicode-escape` codec.
- Parsed messages and documents are given as values:
  - a message is the pre-order sequence of parts that `msg.walk()` yields;
  - an HTML document is a forest of `Element(tag, attrs, children)` and `Text` nodes.
- Loops in the source become Dafny methods with loops. Each one is proved equal to a specification function, and the lemmas state what that function means.
- Objects whose fields change become classes:
  - `Header`;
  - the output directory, whose names are a set that exclusive creation inserts into;
  - the BeautifulSoup document, whose passes reassign its node forest.

Modules, one per file:

| module | what it covers |
|---|---|
| `Results` | `Result`/`Option`, with `:-` propagation standing for raised exceptions |
| `Strings` | the `str` operations the core uses |
| `HtmlEscape` | `html.escape` and its inverse |
| `Codecs` | codec lookup, strict and `errors='replace'` decoding |
| `Base64` | the RFC 4648 encoder and a strict decoder |
| `Dates` | the two `strftime` formats |
| `Messages` | parts and attachments |
| `HeaderDecoder` | `header_to_html` |
| `EmailHeader` | `Header` |
| `CharsetRecovery` | `decode_to_str` |
| `ImageEmbedding` | the Content-ID dict and `embed_imgs` |
| `MimeWalker` | `walk_eml` |
| `AttachmentList` | `generate_attachment_list` |
| `OutputNamer` | `get_output_base_path` and `get_exclusive_outfile` |
| `Sanitizer` | `sanitize_html` |
| `LegacyEmlToPdf` | `eml_to_pdf/eml_to_pdf.py` |

Where the code and its documentation disagree, the model follows the code:

- A non-empty `Date` header that cannot be parsed makes `parsedate_to_datetime` raise. The documentation says the date becomes None.
- The `errors='replace'` fallback of `decode_to_str` reuses the same charset name. So an unknown charset raises `LookupError` from the fallback too, although the docstring lists `LookupError` as recovered.
- `Header.__init__` catches only `UnicodeError`. A `LookupError` from an unknown header charset escapes the constructor.
- The sanitiser is modelled twice. The tests are a `Policy` parameter of the passes, so every whole-tree property is proved for any policy whose own rewrites are final:
  - `AsWritten` holds the source's case-sensitive tests. `Sanitizer.SanitizeHtml` and the `Soup` passes use it, so they model the code.
  - `Corrected` lower-cases the value first, as URL schemes and CSS function names require. `Sanitizer.Sanitize` uses it.
  - The two "## Findings" rows name a member for each.

## Model

| member | source | states |
|---|---|---|
| HtmlEscape.UnescapeEscape | eml2pdf/libeml2pdf.py:177-178 | escaping a header loses nothing: decoding the five entities gives the text back |
| HtmlEscape.Escape | eml2pdf/libeml2pdf.py:177-178 | the escaped text holds no `<`, `>`, `"` or `'` and is at least as long as the input |
| HtmlEscape.EscapeAppend | eml2pdf/libeml2pdf.py:164-178 | escaping distributes over concatenation, so escaping the accumulated header equals concatenating the escaped segments |
| HtmlEscape.EscapePlain | eml2pdf/libeml2pdf.py:177-178 | text without `&`, `<`, `>`, `"` or `'` is returned as it is |
| Codecs.Decode | eml2pdf/libeml2pdf.py:176 | `str(bytes, enc)` fails exactly when the codec is unknown (LookupError) or the bytes are invalid for it (UnicodeDecodeError) |
| Codecs.DecodeReplace | eml2pdf/libeml2pdf.py:264 | the `errors='replace'` decode fails only for an unknown codec name, with LookupError |
| Codecs.AsciiDecode | eml2pdf/libeml2pdf.py:170-176 | ASCII decoding succeeds exactly when every byte is below 128, and then maps each byte to the same code point |
| Codecs.Latin1Total | eml_to_pdf/eml_to_pdf.py:84-88 | Latin-1 decodes every byte string, byte for byte |
| Codecs.Latin1RoundTrip | eml_to_pdf/eml_to_pdf.py:84-88 | Latin-1 decoding is invertible: encoding the decoded text gives the bytes back |
| Base64.DecodeEncode | eml2pdf/libeml2pdf.py:208 | the base 64 text of the image decodes back to exactly its bytes (section 4 of RFC 4648) |
| Base64.EncodeShape | eml2pdf/libeml2pdf.py:208 | the output is 4 characters per started 3-byte group, all from the alphabet or `=` |
| Dates.YmdFields | eml2pdf/libeml2pdf.py:428 | the `%Y-%m-%d` stamp gives back the year, the month and the day |
| Dates.YmdInjective | eml2pdf/libeml2pdf.py:428 | different dates give different stamps |
| Dates.YmdShape | eml2pdf/libeml2pdf.py:428 | from year 1000 on, the stamp is ten characters `YYYY-MM-DD` |
| HeaderDecoder.HeaderToHtml | eml2pdf/libeml2pdf.py:161-178 | the accumulator loop returns the escaped in-order concatenation, or the error of the first segment that fails (the older module's `header_to_html`, eml_to_pdf/eml_to_pdf.py:53-70, is the same loop) |
| HeaderDecoder.JoinedFails | eml2pdf/libeml2pdf.py:164-176 | the header fails exactly when some segment fails, and then with the error of the first failing segment |
| HeaderDecoder.FailureSticks | eml2pdf/libeml2pdf.py:164-176 | once a segment raises, no later segment changes the outcome |
| HeaderDecoder.JoinedConcatenates | eml2pdf/libeml2pdf.py:164-176 | when every segment decodes, the result is the segment texts in order |
| HeaderDecoder.PlainHeader | eml2pdf/libeml2pdf.py:161-178 | a header without encoded words yields `escape(header)` |
| HeaderDecoder.UnlabelledIsAscii | eml2pdf/libeml2pdf.py:170-171 | a byte segment without a charset is decoded as ASCII and succeeds exactly when every byte is below 128 |
| HeaderDecoder.HeaderHtmlSafe | eml2pdf/libeml2pdf.py:177-178 | a decoded header is safe to place in HTML, and unescaping it gives the decoded text |
| EmailHeader.Header.Init | eml2pdf/libeml2pdf.py:93-133 | the constructor body leaves exactly the state and the escaping exception of the reference outcome |
| EmailHeader.Header.DecodeAddresses | eml2pdf/libeml2pdf.py:109-116 | the `try` block sets From, To and Subject in order and stops at the first error |
| EmailHeader.Header.constructor | eml2pdf/libeml2pdf.py:86-91 | a fresh instance sees the class attributes |
| EmailHeader.FieldsSafe | eml2pdf/libeml2pdf.py:109-112 | every address field is HTML-safe, whether decoded or left at its default |
| EmailHeader.AddressesSafe | eml2pdf/libeml2pdf.py:109-115 | after the `try` block, however it ended, From, To and Subject are HTML-safe |
| EmailHeader.SenderUndecodable | eml2pdf/libeml2pdf.py:109-115 | a UnicodeDecodeError in the sender leaves all three fields "Not decoded." and is not raised |
| EmailHeader.RecipientUndecodable | eml2pdf/libeml2pdf.py:109-115 | a failing recipient keeps the decoded sender and leaves To and Subject at their defaults |
| EmailHeader.UnknownCharsetRaises | eml2pdf/libeml2pdf.py:109-115 | a LookupError is not caught: the constructor raises it |
| EmailHeader.AllDecoded | eml2pdf/libeml2pdf.py:109-112 | when all three decode, the fields are the decoded headers, with absent ones shown by their placeholders |
| EmailHeader.AbsentSender | eml2pdf/libeml2pdf.py:110 | an absent From header shows as "No sender" |
| EmailHeader.EscapedSubjectName | eml2pdf/libeml2pdf.py:109-112 | the subject reaching the file name is the escaped field, so the Subject `a&b` gives the name `D-a&amp;b.pdf` |
| EmailHeader.PlainText | eml2pdf/libeml2pdf.py:161-178 | a header the parser returns as one plain string without `&`, `<`, `>`, `"` or `'` renders as itself |
| EmailHeader.SenderKept | eml2pdf/libeml2pdf.py:110-121 | a decoded sender stays in the state whatever the later headers and the date do |
| EmailHeader.AddressesKept | eml2pdf/libeml2pdf.py:117-133 | the date handling never touches the three address fields |
| EmailHeader.NoDate | eml2pdf/libeml2pdf.py:117-121 | a missing or empty Date gives no date and "No date" in the table |
| EmailHeader.BadDateRaises | eml2pdf/libeml2pdf.py:117-119 | a non-empty Date the parser rejects raises |
| EmailHeader.GoodDate | eml2pdf/libeml2pdf.py:117-121 | a parsed date is kept and shown as `YYYY-MM-DD, HH:MM` |
| CharsetRecovery.DecodeToStr | eml2pdf/libeml2pdf.py:252-276 | non-bytes content gives `""`; bytes fail exactly when the charset is unknown, with LookupError |
| CharsetRecovery.KnownCharset | eml2pdf/libeml2pdf.py:258-274 | for a known charset: strict decode, else the replace decode; unicode-escape only on a match, and its failure keeps the text |
| CharsetRecovery.HasUnicodeEscapeIff | eml2pdf/libeml2pdf.py:267-269 | the `re.search` scan succeeds exactly when some position starts `\uXXXX` or `\UXXXXXXXX` |
| CharsetRecovery.Latin1Text | eml2pdf/libeml2pdf.py:258-276 | Latin-1 bytes without a backslash are returned as their Latin-1 reading |
| ImageEmbedding.EmbedImgs | eml2pdf/libeml2pdf.py:205-213 | the loop gives one replace-all per map entry, in insertion order, and only when the HTML is non-empty |
| ImageEmbedding.EmbedTrivial | eml2pdf/libeml2pdf.py:205-213 | empty HTML stays empty and an empty map changes nothing |
| ImageEmbedding.EmbedUnreferenced | eml2pdf/libeml2pdf.py:206-212 | HTML that mentions none of the map's `cid:` references is returned unchanged |
| ImageEmbedding.DataUriCarriesImage | eml2pdf/libeml2pdf.py:207-209 | the data URI is `data:<type>;base64,` followed by text that decodes to the image bytes (RFC 2397) |
| ImageEmbedding.PrefixReferenceRewritten | eml2pdf/libeml2pdf.py:212 | references are matched as substrings: with key `img1`, `cid:img10` is rewritten to the URI of `img1` followed by `0` |
| ImageEmbedding.GetPut | eml2pdf/libeml2pdf.py:389-393 | dict assignment: the key written reads back the new value and every other key keeps its value |
| ImageEmbedding.PutKeys | eml2pdf/libeml2pdf.py:389-393 | assignment keeps insertion order and key uniqueness: an existing key keeps its place, a new key goes last |
| MimeWalker.WalkEml | eml2pdf/libeml2pdf.py:329-397 | the loop over the parts returns the rendered body and the attachment list of the reference walk, or its first exception |
| MimeWalker.WalkCharacterised | eml2pdf/libeml2pdf.py:334-393 | after the walk, both buffers are the decoded usable bodies of their type in order, the list holds one entry per listed part in order, and each key maps to the last image stored under it |
| MimeWalker.StepEffect | eml2pdf/libeml2pdf.py:340-393 | one part adds its text to one buffer, its entry to the list if listed, and its image under its key if referenced, and changes nothing else |
| MimeWalker.WalkOk | eml2pdf/libeml2pdf.py:352-375 | the walk raises exactly when some part raises: a body with an unknown charset, or a listed attachment whose filename does not decode |
| MimeWalker.WalkFailureSticks | eml2pdf/libeml2pdf.py:334-397 | the first exception is what the whole walk raises |
| MimeWalker.StepOk | eml2pdf/libeml2pdf.py:340-393 | whether a part raises does not depend on the parts before it |
| MimeWalker.IgnoredPart | eml2pdf/libeml2pdf.py:340-361 | a part with an empty or non-bytes payload, or with neither a body nor a file disposition, changes nothing |
| MimeWalker.BodyWins | eml2pdf/libeml2pdf.py:349-361 | a text body marked inline takes the first branch and is never listed or stored as an image |
| MimeWalker.ImageDispositions | eml2pdf/libeml2pdf.py:360-393 | an inline image with an id is stored but not listed; an attachment image with an id and a filename is both; an image without a disposition is neither |
| MimeWalker.WalkKeysDistinct | eml2pdf/libeml2pdf.py:387-393 | the keys of the Content-ID map stay distinct |
| MimeWalker.RenderedBody | eml2pdf/libeml2pdf.py:395-396 | the body is the HTML buffer with images embedded when it is non-empty, else Markdown of the plain buffer |
| AttachmentList.GenerateAttachmentList | eml2pdf/libeml2pdf.py:591-606 | the loop builds the reference table: empty for no attachments, else the header followed by one row per attachment |
| AttachmentList.TableShape | eml2pdf/libeml2pdf.py:591-606 | the table is empty exactly when there is no attachment, and otherwise starts with the opening tag and the header row |
| AttachmentList.RowsAppend | eml2pdf/libeml2pdf.py:601-603 | the rows of two lists are those of the first followed by those of the second |
| AttachmentList.RowAt | eml2pdf/libeml2pdf.py:601-603 | row `i` of the table is the row of attachment `i`, between the rows before and after it |
| OutputNamer.GetOutputBasePath | eml2pdf/libeml2pdf.py:428-438 | the name is the date stamp (or `nodate`), `-`, the cleaned subject and `.pdf` |
| OutputNamer.SafeSubject | eml2pdf/libeml2pdf.py:431-434 | the cleaned subject holds none of `< > : " / \ \| ? *` and no space |
| OutputNamer.SafeSubjectChar | eml2pdf/libeml2pdf.py:431-434 | illegal characters are removed, spaces become `_`, every other character stays |
| OutputNamer.SafeSubjectAppend | eml2pdf/libeml2pdf.py:431-434 | the cleaning works per character, in order |
| OutputNamer.SafeSubjectClean | eml2pdf/libeml2pdf.py:431-434 | a subject already free of those characters is used as it is |
| OutputNamer.BaseFilenameStaysInDir | eml2pdf/libeml2pdf.py:437-438 | the file name holds no `/` or `\`, so it names a file inside the output directory |
| OutputNamer.BaseSplit | eml2pdf/libeml2pdf.py:479-480 | the stem of `D-S.pdf` is `D-S` and its suffix `.pdf`, whatever dots the subject holds |
| OutputNamer.StemSuffix | eml2pdf/libeml2pdf.py:479-480 | stem and suffix split the name |
| OutputNamer.CandidateInjective | eml2pdf/libeml2pdf.py:479-480 | each counter gives a different name |
| OutputNamer.FirstFree | eml2pdf/libeml2pdf.py:477-484 | the counter found has a free name and every smaller counter's name is taken |
| OutputNamer.ExclusiveName | eml2pdf/libeml2pdf.py:471-485 | the name chosen is never an existing one |
| OutputNamer.ExclusiveNameLeast | eml2pdf/libeml2pdf.py:471-485 | the base name when free, else the original stem with the least free counter `k >= 1` |
| OutputNamer.TakenBound | eml2pdf/libeml2pdf.py:477-484 | a directory with `k - 1` taken counters holds at least `k - 1` names, so the search ends |
| OutputNamer.OutputDir.CreateExclusive | eml2pdf/libeml2pdf.py:472 | exclusive creation succeeds exactly when the name is absent, and the name is then present |
| OutputNamer.OutputDir.constructor | eml2pdf/libeml2pdf.py:443 | the directory starts with the existing names |
| OutputNamer.GetExclusiveOutfile | eml2pdf/libeml2pdf.py:471-485 | the file created is the reference name: new, and the only name added |
| Sanitizer.SanitizeHtml | eml2pdf/security.py:45-76 | the five passes with the source's case-sensitive tests give the reference result. In it no risky tag, no image or link whose URL starts with `http://` or `https://`, no style containing `url(` and no `on*` or `data-` attribute is left |
| Sanitizer.AsWrittenSound | eml2pdf/security.py:60-68 | under the tests as written, an emptied style loads nothing, and neither `#` nor a missing href (`''`) is remote |
| Sanitizer.CorrectedSound | eml2pdf/security.py:60-68 | the same holds for the case-insensitive tests |
| Sanitizer.FixAttrsClean | eml2pdf/security.py:60-74 | an element that is not removed is clean after its attribute fixes, for any sound policy |
| Sanitizer.PassesClean | eml2pdf/security.py:48-74 | for any sound policy, no risky element, remote image, URL-loading style, remote link, `on*` or `data-` attribute survives at any depth, judged by that policy's tests |
| Sanitizer.SanitizeClean | eml2pdf/security.py:48-74 | the corrected sanitiser also leaves no `HTTP://` image or link and no `URL(` style |
| Sanitizer.PassesNode | eml2pdf/security.py:48-74 | for any policy, a text node stays, and an element either goes with its whole subtree or stays with its tag, its fixed attributes and its processed children |
| Sanitizer.PassesAppend | eml2pdf/security.py:45-76 | for any policy, top-level nodes are processed independently and keep their order |
| Sanitizer.PassesFixpoint | eml2pdf/security.py:45-76 | for any policy, a tree with nothing to remove or rewrite passes through unchanged |
| Sanitizer.PassesIdempotent | eml2pdf/security.py:45-76 | for any sound policy, running the passes twice is running them once |
| Sanitizer.PassesText | eml2pdf/security.py:45-76 | for any policy, empty input gives empty output and plain text passes unchanged |
| Sanitizer.KeptImage | eml2pdf/security.py:54-57 | an image the policy does not call remote is kept together with its source |
| Sanitizer.EmbeddedImageKept | eml2pdf/security.py:54-57 | an image whose source is `data:` or `cid:` is kept with that source, as written and corrected |
| Sanitizer.RemoteLinkNeutralised | eml2pdf/security.py:65-68 | for any policy, a link the policy calls remote keeps its element and its text, and its `href` becomes `#`. As written, that is an href starting with `http://` or `https://` exactly |
| Sanitizer.FixAttrsGet | eml2pdf/security.py:60-74 | per attribute name: a URL-loading style reads `""`, a remote link's href reads `#`, handler and `data-` names are gone, and all others are unchanged |
| Sanitizer.GetRemoveAttrs | eml2pdf/security.py:71-74 | deleting attributes hides exactly the selected names |
| Sanitizer.GetSetValue | eml2pdf/security.py:62 | assigning an attribute changes what that name reads and no other |
| Sanitizer.PassesFuse | eml2pdf/security.py:48-74 | the five passes are one traversal: an element goes if any pass removes it, otherwise its attributes get the fixes in order |
| Sanitizer.TransformCompose | eml2pdf/security.py:48-74 | two passes in a row are one pass with the combined removal test and the composed fix |
| Sanitizer.TransformAppend | eml2pdf/security.py:48-74 | a pass distributes over concatenation |
| Sanitizer.TransformEstablishes | eml2pdf/security.py:48-74 | whatever a pass keeps satisfies what its fix establishes, at every depth |
| Sanitizer.TransformIdentity | eml2pdf/security.py:48-74 | a pass with nothing to remove or fix changes nothing |
| Sanitizer.TransformForest | eml2pdf/security.py:50-74 | the traversal method computes the reference pass |
| Sanitizer.Soup.DecomposeRisky | eml2pdf/security.py:48-51 | the document loses every risky element with its subtree |
| Sanitizer.Soup.DecomposeRemoteImages | eml2pdf/security.py:54-57 | the document loses every image whose `src` starts with `http://` or `https://`, compared case-sensitively |
| Sanitizer.Soup.ClearUrlStyles | eml2pdf/security.py:60-62 | every style containing the lower-case `url(` becomes `""` |
| Sanitizer.Soup.NeutraliseLinks | eml2pdf/security.py:65-68 | every `a` whose href starts with `http://` or `https://`, compared case-sensitively, gets the href `#` |
| Sanitizer.Soup.StripHandlers | eml2pdf/security.py:71-74 | every `on*` and `data-` attribute is deleted |
| Sanitizer.Soup.constructor | eml2pdf/security.py:45 | the document holds the parsed forest |
| Sanitizer.UppercaseSchemeKept | eml2pdf/security.py:54-57 | with the test as written, an image from `HTTP://t/p` survives; the corrected model removes it |
| Sanitizer.UppercaseUrlKept | eml2pdf/security.py:60-62 | with the test as written, the style `URL(x)` survives; the corrected model clears it |
| Sanitizer.UpperSchemeRemote | eml2pdf/security.py:56 | `HTTP://t/p` fails the case-sensitive test and passes the case-insensitive one |
| Sanitizer.UpperUrlLoads | eml2pdf/security.py:61 | `URL(x)` fails the case-sensitive test and passes the case-insensitive one |
| Sanitizer.UpperImageAttrs | eml2pdf/security.py:54-57 | an `img` with source `HTTP://t/p` keeps its attributes and is not removed by the tests as written, and is removed by the corrected ones |
| Sanitizer.UpperStyleAttrs | eml2pdf/security.py:60-62 | a `div` with style `URL(x)` keeps its style under the tests as written and gets an empty style under the corrected ones |
| LegacyEmlToPdf.HtmlFromEml | eml_to_pdf/eml_to_pdf.py:75-100 | the nested loop returns the content of the first `text/html` part |
| LegacyEmlToPdf.NoHtmlPart | eml_to_pdf/eml_to_pdf.py:75-100 | the result is None exactly when no part is `text/html` |
| LegacyEmlToPdf.FirstHtmlWins | eml_to_pdf/eml_to_pdf.py:77-99 | the first `text/html` part decides and later parts are ignored |
| LegacyEmlToPdf.FallbackOrder | eml_to_pdf/eml_to_pdf.py:83-96 | the encoding list yields the UTF-8 text when the bytes are valid UTF-8, else their Latin-1 reading, so `cp1252` and the `else` branch are never reached |
| LegacyEmlToPdf.HtmlOfFollowsEncodings | eml_to_pdf/eml_to_pdf.py:83-98 | a bytes payload decodes as the encoding list decides; any other payload is returned unchanged |
| LegacyEmlToPdf.GetOutputPath | eml_to_pdf/eml_to_pdf.py:106-124 | `D-S.pdf` if absent, else `D-S_k.pdf` for the least free `k >= 1`; never an existing name |
| Strings.Decimal | eml2pdf/libeml2pdf.py:480 | `str(counter)` is a non-empty run of decimal digits |
| Strings.ParseDecimalInverse | eml2pdf/libeml2pdf.py:480 | the decimal digits give the number back |
| Strings.DecimalInjective | eml2pdf/libeml2pdf.py:480 | different numbers have different decimal forms |
| Strings.RemoveChars | eml2pdf/libeml2pdf.py:431 | `re.sub` with a character class leaves none of its characters |
| Strings.RemoveCharsNone | eml2pdf/libeml2pdf.py:431 | text holding none of the class's characters is returned as it is |
| Strings.ReplaceChar | eml2pdf/libeml2pdf.py:432-434 | `replace(" ", "_")` changes exactly the spaces |
| Strings.ReplaceCharAppend | eml2pdf/libeml2pdf.py:432-434 | replacing one character works piece by piece over a concatenation |
| Strings.LastIndexOf | eml2pdf/libeml2pdf.py:480 | the last dot of the name, as `PurePath.suffix` finds it |
| Strings.StripSurrounded | eml2pdf/libeml2pdf.py:388 | `strip('<>')` removes one layer of angle brackets around an id |
| Strings.ReplaceAllAbsent | eml2pdf/libeml2pdf.py:212 | replacing a pattern that does not occur changes nothing |

## Left out

- `generate_pdf` (both modules), the debug-HTML write and the global `options` mutation: WeasyPrint calls and file I/O.
- `process_eml`: it reads the file, assembles the final HTML and writes the PDF. The model covers each function it calls but not the file handling or the string assembly around them.
- `process_all_emls`: directory creation, `sys.exit` and the `multiprocessing.Pool` are I/O and concurrency. The choice between sequential and pooled processing is not modelled.
- `get_filepaths`, the command-line interface in `eml2pdf/eml2pdf.py` and `eml-to-pdf.py`, the legacy `main()` and all logging: I/O and argument parsing. `docs/conf.py` is not part of this model.
- The `Email` class: it only calls `Header` and `walk_eml`, which are modelled.
- The legacy `Header.__init__` in `eml_to_pdf/eml_to_pdf.py:15-48`: it duplicates the newer constructor. Its absent-header defaults are tuples that only `decode_header` could interpret.
- Foreign libraries are parameters. The model does not reimplement them:
  - `email.header.decode_header`, the MIME walk and payload decoding, `parsedate_to_datetime`;
  - `markdown`, `hashlib.md5`, `sys.getsizeof`, `hurry.filesize.size`;
  - the UTF-8 codec, every named codec other than ASCII and Latin-1, and the `unicode-escape` codec.
- Codecs.Lookup: knows only the lower-case spellings of the built-in names. Python's normalisation of codec names (case, `_` versus `-`) is left to the registry parameter.
- Dates.FormatYmd: prints years below 1000 without zero padding, as glibc's `strftime` does. Other platforms pad them to four digits.
- BeautifulSoup's parser and serialiser are left out. The document is given as a tree, and comments, doctypes and entity handling are not modelled.
- Sanitizer.Soup: the in-place `decompose()` and attribute updates are modelled by reassigning the node forest. Aliasing between tags, and a pass seeing its own earlier mutations within one `find_all`, do not arise in this form.
- CSS in `<style>` elements is not filtered by the source and is not modelled beyond that.
- Sanitizer.Get: reads the first attribute of a given name. The parser keeps one value per name, so duplicate names are not modelled.
- OutputNamer.GetExclusiveOutfile: exclusive creation fails exactly when the name exists. An `OSError` for another reason, which makes the source loop forever, is not modelled.
- OutputNamer.GetOutputBasePath: covers the file name inside the output directory. The directory path itself is left out.
- ImageEmbedding.EmbedUnreferenced: claims only that HTML mentioning no `cid:` reference of the map is unchanged. An id that merely extends a key (`cid:img10` for key `img1`) is rewritten, as `ImageEmbedding.PrefixReferenceRewritten` shows, so "ids not in the map are untouched" does not hold in general.
- `size` in the attachment list is whatever `sys.getsizeof` returns for the payload, not the payload length. The model keeps that quantity abstract.
- The values of `get_filename`, `part.get('Content-ID')` and `get_content_disposition` come with the part records. Content-Disposition values other than `inline` and `attachment` are kept as `OtherDisposition(value)`, which neither branch accepts.

## Findings

| source | as written | input that shows it | evidently intended | confidence | as-written member | corrected member |
|---|---|---|---|---|---|---|
| eml2pdf/security.py:54-57, 65-68 | `src.startswith('http://') or src.startswith('https://')` compares the scheme case-sensitively | `<img src="HTTP://t/p">` survives sanitising and is fetched when the PDF is rendered | URL schemes are case-insensitive (section 3.1 of RFC 3986), so the test should compare after ASCII lower-casing | not executed | Sanitizer.UppercaseSchemeKept | Sanitizer.SanitizeClean |
| eml2pdf/security.py:60-62 | `'url(' in style` matches only the lower-case function name | `<div style="URL(x)">` keeps its style, which still loads the URL | CSS function names are ASCII case-insensitive, so `URL(` must be caught too | not executed | Sanitizer.UppercaseUrlKept | Sanitizer.SanitizeClean |
