/** `decode_to_str`: strict decode, else the `errors='replace'` decode with the
    same charset, then unicode-escape decoding when the text looks like it
    holds `\uXXXX` or `\UXXXXXXXX` sequences. */
module CharsetRecovery {
  import opened Results
  import opened Codecs
  import opened Messages

  predicate IsHex(c: char) {
    '0' <= c <= '9' || 'a' <= c <= 'f' || 'A' <= c <= 'F'
  }

  /** `n` hexadecimal digits from position `start` on. */
  predicate HexRun(s: string, start: nat, n: nat) {
    start + n <= |s| && forall k | start <= k < start + n :: IsHex(s[k])
  }

  /** A match of `\\u[0-9a-fA-F]{4}|\\U[0-9a-fA-F]{8}` starts at `i`. */
  predicate EscapeAt(s: string, i: nat) {
    i + 1 < |s| && s[i] == '\\' &&
    ((s[i + 1] == 'u' && HexRun(s, i + 2, 4)) || (s[i + 1] == 'U' && HexRun(s, i + 2, 8)))
  }

  /** `re.search` of that pattern, scanning from position `from`. */
  predicate SearchFrom(s: string, from: nat)
    decreases |s| - from
  {
    from < |s| && (EscapeAt(s, from) || SearchFrom(s, from + 1))
  }

  predicate HasUnicodeEscape(s: string) {
    SearchFrom(s, 0)
  }

  /** The scan finds a match exactly when one exists at or after `from`. */
  lemma {:induction false} SearchFromFinds(s: string, from: nat)
    ensures SearchFrom(s, from) <==> exists i | from <= i < |s| :: EscapeAt(s, i)
    decreases |s| - from
  {
    if from < |s| {
      SearchFromFinds(s, from + 1);
      if !EscapeAt(s, from) && (exists i | from <= i < |s| :: EscapeAt(s, i)) {
        var i :| from <= i < |s| && EscapeAt(s, i);
        assert from + 1 <= i;
      }
    }
  }

  lemma HasUnicodeEscapeIff(s: string)
    ensures HasUnicodeEscape(s) <==> exists i | 0 <= i < |s| :: EscapeAt(s, i)
  {
    SearchFromFinds(s, 0);
  }

  /** `decoded.encode('utf-8').decode('unicode-escape')`: None when it raises. */
  type UnicodeEscape = string -> Option<string>

  /** The first stage: strict, else replace mode under the same name. An
      unknown name raises LookupError in both attempts, so it escapes. */
  function StrictOrReplace(reg: Registry, b: seq<byte>, charset: string): Result<string, Error> {
    match Decode(reg, b, charset)
    case Success(t) => Success(t)
    case Failure(_) => DecodeReplace(reg, b, charset)
  }

  function DecodeToStr(reg: Registry, unescape: UnicodeEscape, content: Payload, charset: string): (r: Result<string, Error>)
    ensures r.Failure? <==> content.Bytes? && Lookup(reg, charset).None?
    ensures r.Failure? ==> r.error == LookupError(charset)
    ensures !content.Bytes? ==> r == Success("")
  {
    if !content.Bytes? then Success("")
    else
      var decoded :- StrictOrReplace(reg, content.data, charset);
      if HasUnicodeEscape(decoded) then Success(unescape(decoded).GetOr(decoded))
      else Success(decoded)
  }

  /** What a known charset yields, stage by stage. */
  lemma KnownCharset(reg: Registry, unescape: UnicodeEscape, b: seq<byte>, charset: string)
    requires Lookup(reg, charset).Some?
    ensures var c := Lookup(reg, charset).value;
      var first := if c.strict(b).Some? then c.strict(b).value else c.lossy(b);
      DecodeToStr(reg, unescape, Bytes(b), charset) ==
        Success(if HasUnicodeEscape(first) && unescape(first).Some? then unescape(first).value else first)
  {
  }

  /** Latin-1 text never needs the fallback and, without a backslash, is returned as decoded. */
  lemma Latin1Text(reg: Registry, unescape: UnicodeEscape, b: seq<byte>)
    requires forall i | 0 <= i < |b| :: b[i] != '\\' as int
    ensures DecodeToStr(reg, unescape, Bytes(b), "iso-8859-1") == Success(Latin1Decode(b))
  {
    var t := Latin1Decode(b);
    HasUnicodeEscapeIff(t);
  }
}
