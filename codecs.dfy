/** Python's codec machinery as far as the core uses it: looking a codec up
    by name, `bytes.decode(name)` (strict) and
    `bytes.decode(name, errors='replace')`. */
module Codecs {
  import opened Results

  type byte = x: int | 0 <= x < 256

  /** A codec: its strict decoder (None when the bytes are invalid for it,
      which Python reports as UnicodeDecodeError) and its decoder in
      `errors='replace'` mode, which never fails. */
  datatype Codec = Codec(strict: seq<byte> -> Option<string>, lossy: seq<byte> -> string)

  /** The codecs Python knows by name. ASCII and Latin-1 are spelled out;
      the UTF-8 codec and every other codec are given. */
  datatype Registry = Registry(utf8: Codec, others: string -> Option<Codec>)

  /** The two exceptions a decode can raise. */
  datatype Error = LookupError(encoding: string) | UnicodeDecodeError(encoding: string)

  /** U+FFFD REPLACEMENT CHARACTER, what `errors='replace'` substitutes. */
  const Replacement: char := '\U{FFFD}'

  function AsciiStrict(b: seq<byte>): (r: Option<string>)
    ensures r.Some? <==> forall i | 0 <= i < |b| :: b[i] < 128
    ensures r.Some? ==> |r.value| == |b| && forall i | 0 <= i < |b| :: r.value[i] as int == b[i]
    decreases |b|
  {
    if b == [] then Some([])
    else if b[0] >= 128 then None
    else match AsciiStrict(b[1..])
      case None => None
      case Some(t) => Some([b[0] as char] + t)
  }

  function AsciiLossy(b: seq<byte>): (r: string)
    ensures |r| == |b|
    ensures forall i | 0 <= i < |b| :: r[i] == if b[i] < 128 then b[i] as char else Replacement
    decreases |b|
  {
    if b == [] then [] else [if b[0] < 128 then b[0] as char else Replacement] + AsciiLossy(b[1..])
  }

  /** Latin-1 maps every byte to the code point of the same value. */
  function Latin1Decode(b: seq<byte>): (r: string)
    ensures |r| == |b|
    ensures forall i | 0 <= i < |b| :: r[i] as int == b[i]
    decreases |b|
  {
    if b == [] then [] else [b[0] as char] + Latin1Decode(b[1..])
  }

  /** The Latin-1 encoder, defined on code points below 256. */
  function Latin1Encode(s: string): (r: seq<byte>)
    requires forall i | 0 <= i < |s| :: s[i] as int < 256
    ensures |r| == |s|
    decreases |s|
  {
    if s == [] then [] else [s[0] as int as byte] + Latin1Encode(s[1..])
  }

  lemma {:induction false} Latin1RoundTrip(b: seq<byte>)
    ensures Latin1Encode(Latin1Decode(b)) == b
    decreases |b|
  {
    if b != [] {
      Latin1RoundTrip(b[1..]);
    }
  }

  const Ascii := Codec(AsciiStrict, AsciiLossy)
  const Latin1 := Codec(b => Some(Latin1Decode(b)), Latin1Decode)

  /** `codecs.lookup(name)`: None is a LookupError. The names are the
      lower-case spellings `get_content_charset()` hands over. */
  function Lookup(reg: Registry, name: string): (r: Option<Codec>)
    ensures name in {"ascii", "us-ascii", "latin1", "latin-1", "iso-8859-1", "utf-8", "utf8"} ==> r.Some?
  {
    if name == "ascii" || name == "us-ascii" then Some(Ascii)
    else if name == "latin1" || name == "latin-1" || name == "iso-8859-1" then Some(Latin1)
    else if name == "utf-8" || name == "utf8" then Some(reg.utf8)
    else reg.others(name)
  }

  /** `bytes.decode(name)` and `str(bytes, name)`. */
  function Decode(reg: Registry, b: seq<byte>, name: string): (r: Result<string, Error>)
    ensures r.Failure? <==> Lookup(reg, name).None? || Lookup(reg, name).value.strict(b).None?
    ensures r.Failure? && Lookup(reg, name).None? ==> r.error == LookupError(name)
    ensures r.Failure? && Lookup(reg, name).Some? ==> r.error == UnicodeDecodeError(name)
  {
    match Lookup(reg, name)
    case None => Failure(LookupError(name))
    case Some(c) =>
      match c.strict(b)
      case None => Failure(UnicodeDecodeError(name))
      case Some(t) => Success(t)
  }

  /** `bytes.decode(name, errors='replace')`: only an unknown name raises. */
  function DecodeReplace(reg: Registry, b: seq<byte>, name: string): (r: Result<string, Error>)
    ensures r.Failure? <==> Lookup(reg, name).None?
    ensures r.Failure? ==> r.error == LookupError(name)
  {
    match Lookup(reg, name)
    case None => Failure(LookupError(name))
    case Some(c) => Success(c.lossy(b))
  }

  /** ASCII bytes decode strictly exactly when they are all below 128, and
      then to the same code points. */
  lemma AsciiDecode(reg: Registry, b: seq<byte>)
    ensures Decode(reg, b, "ascii").Success? <==> forall i | 0 <= i < |b| :: b[i] < 128
    ensures Decode(reg, b, "ascii").Success? ==>
      Latin1Encode(Decode(reg, b, "ascii").value) == b
  {
    if Decode(reg, b, "ascii").Success? {
      var t := Decode(reg, b, "ascii").value;
      assert t == Latin1Decode(b);
      Latin1RoundTrip(b);
    }
  }

  /** Latin-1 never raises: every byte string is valid. */
  lemma Latin1Total(reg: Registry, b: seq<byte>)
    ensures Decode(reg, b, "latin1") == Success(Latin1Decode(b))
    ensures Decode(reg, b, "iso-8859-1") == Success(Latin1Decode(b))
  {
  }
}
