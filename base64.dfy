/** `base64.b64encode`: the base 64 alphabet and '=' padding of section 4
    of RFC 4648, with the matching decoder as its inverse. */
module Base64 {
  import opened Results
  import opened Codecs

  /** The 6-bit value a character stands for, as indexed in Table 1 of RFC 4648. */
  function CharOf(v: nat): (c: char)
    requires v < 64
  {
    if v < 26 then ('A' as int + v) as char
    else if v < 52 then ('a' as int + (v - 26)) as char
    else if v < 62 then ('0' as int + (v - 52)) as char
    else if v == 62 then '+'
    else '/'
  }

  function ValueOf(c: char): (r: Option<nat>)
    ensures r.Some? ==> r.value < 64 && CharOf(r.value) == c
  {
    if 'A' <= c <= 'Z' then Some(c as int - 'A' as int)
    else if 'a' <= c <= 'z' then Some(c as int - 'a' as int + 26)
    else if '0' <= c <= '9' then Some(c as int - '0' as int + 52)
    else if c == '+' then Some(62)
    else if c == '/' then Some(63)
    else None
  }

  lemma ValueOfChar(v: nat)
    requires v < 64
    ensures ValueOf(CharOf(v)) == Some(v)
  {
  }

  predicate InAlphabet(c: char) {
    ValueOf(c).Some? || c == '='
  }

  /** Three bytes become four characters. */
  function Quantum(a: byte, b: byte, c: byte): string {
    [CharOf(a / 4), CharOf((a % 4) * 16 + b / 16), CharOf((b % 16) * 4 + c / 64), CharOf(c % 64)]
  }

  function Encode(s: seq<byte>): string
    decreases |s|
  {
    if |s| == 0 then []
    else if |s| == 1 then [CharOf(s[0] / 4), CharOf((s[0] % 4) * 16), '=', '=']
    else if |s| == 2 then [CharOf(s[0] / 4), CharOf((s[0] % 4) * 16 + s[1] / 16), CharOf((s[1] % 16) * 4), '=']
    else Quantum(s[0], s[1], s[2]) + Encode(s[3..])
  }

  /** Four alphabet characters back to three bytes. */
  function DecodeQuantum(w: char, x: char, y: char, z: char): Option<seq<byte>> {
    match (ValueOf(w), ValueOf(x), ValueOf(y), ValueOf(z))
    case (Some(v0), Some(v1), Some(v2), Some(v3)) =>
      Some([(v0 * 4 + v1 / 16) as byte, ((v1 % 16) * 16 + v2 / 4) as byte, ((v2 % 4) * 64 + v3) as byte])
    case _ => None
  }

  /** The last quantum, which may carry one or two '=' of padding. */
  function DecodeFinal(w: char, x: char, y: char, z: char): Option<seq<byte>> {
    if y == '=' && z == '=' then
      match (ValueOf(w), ValueOf(x))
      case (Some(v0), Some(v1)) => Some([(v0 * 4 + v1 / 16) as byte])
      case _ => None
    else if z == '=' then
      match (ValueOf(w), ValueOf(x), ValueOf(y))
      case (Some(v0), Some(v1), Some(v2)) => Some([(v0 * 4 + v1 / 16) as byte, ((v1 % 16) * 16 + v2 / 4) as byte])
      case _ => None
    else DecodeQuantum(w, x, y, z)
  }

  /** Strict decoding: padding only at the very end, nothing outside the alphabet. */
  function Decode(t: string): Option<seq<byte>>
    decreases |t|
  {
    if |t| == 0 then Some([])
    else if |t| < 4 then None
    else if |t| == 4 then DecodeFinal(t[0], t[1], t[2], t[3])
    else
      match (DecodeQuantum(t[0], t[1], t[2], t[3]), Decode(t[4..]))
      case (Some(q), Some(rest)) => Some(q + rest)
      case _ => None
  }

  lemma QuantumBits(a: byte, b: byte, c: byte)
    ensures (a / 4) * 4 + ((a % 4) * 16 + b / 16) / 16 == a
    ensures (((a % 4) * 16 + b / 16) % 16) * 16 + ((b % 16) * 4 + c / 64) / 4 == b
    ensures (((b % 16) * 4 + c / 64) % 4) * 64 + c % 64 == c
  {
  }

  lemma DecodeOne(a: byte)
    ensures Decode(Encode([a])) == Some([a])
  {
    ValueOfChar(a / 4);
    ValueOfChar((a % 4) * 16);
    QuantumBits(a, 0, 0);
  }

  lemma DecodeTwo(a: byte, b: byte)
    ensures Decode(Encode([a, b])) == Some([a, b])
  {
    ValueOfChar(a / 4);
    ValueOfChar((a % 4) * 16 + b / 16);
    ValueOfChar((b % 16) * 4);
    QuantumBits(a, b, 0);
  }

  lemma QuantumRoundTrip(a: byte, b: byte, c: byte)
    ensures var q := Quantum(a, b, c);
      q[2] != '=' && q[3] != '=' && DecodeQuantum(q[0], q[1], q[2], q[3]) == Some([a, b, c])
  {
    ValueOfChar(a / 4);
    ValueOfChar((a % 4) * 16 + b / 16);
    ValueOfChar((b % 16) * 4 + c / 64);
    ValueOfChar(c % 64);
    QuantumBits(a, b, c);
  }

  lemma DecodeCons(a: byte, b: byte, c: byte, rest: seq<byte>)
    requires Decode(Encode(rest)) == Some(rest)
    ensures Decode(Quantum(a, b, c) + Encode(rest)) == Some([a, b, c] + rest)
  {
    QuantumRoundTrip(a, b, c);
    var q := Quantum(a, b, c);
    var t := q + Encode(rest);
    assert t[0] == q[0] && t[1] == q[1] && t[2] == q[2] && t[3] == q[3];
    if rest == [] {
      assert t == q;
      assert Decode(t) == DecodeFinal(q[0], q[1], q[2], q[3]);
      assert [a, b, c] + rest == [a, b, c];
    } else {
      assert t[4..] == Encode(rest);
      assert |t| > 4;
    }
  }

  /** The output is padded to whole quanta of four alphabet characters. */
  lemma {:induction false} EncodeShape(s: seq<byte>)
    ensures |Encode(s)| == 4 * ((|s| + 2) / 3)
    ensures forall i | 0 <= i < |Encode(s)| :: InAlphabet(Encode(s)[i])
    decreases |s|
  {
    if |s| >= 3 {
      EncodeShape(s[3..]);
      var q, rest := Quantum(s[0], s[1], s[2]), Encode(s[3..]);
      assert Encode(s) == q + rest;
      QuantumAlphabet(s[0], s[1], s[2]);
      assert (|s| + 2) / 3 == (|s[3..]| + 2) / 3 + 1;
      assert forall i | 0 <= i < |q + rest| :: InAlphabet((q + rest)[i]) by {
        forall i | 0 <= i < |q + rest|
          ensures InAlphabet((q + rest)[i])
        {
          if i >= 4 {
            assert (q + rest)[i] == rest[i - 4];
          }
        }
      }
    }
  }

  lemma QuantumAlphabet(a: byte, b: byte, c: byte)
    ensures var q := Quantum(a, b, c);
      |q| == 4 && forall i | 0 <= i < 4 :: InAlphabet(q[i])
  {
    ValueOfChar(a / 4);
    ValueOfChar((a % 4) * 16 + b / 16);
    ValueOfChar((b % 16) * 4 + c / 64);
    ValueOfChar(c % 64);
  }

  /** Decoding undoes encoding for every byte string. */
  lemma {:induction false} DecodeEncode(s: seq<byte>)
    ensures Decode(Encode(s)) == Some(s)
    decreases |s|
  {
    if |s| >= 3 {
      DecodeEncode(s[3..]);
      DecodeLonger(s);
    } else {
      DecodeShort(s);
    }
  }

  lemma DecodeShort(s: seq<byte>)
    requires |s| < 3
    ensures Decode(Encode(s)) == Some(s)
  {
    if |s| == 1 {
      assert s == [s[0]];
      DecodeOne(s[0]);
    } else if |s| == 2 {
      assert s == [s[0], s[1]];
      DecodeTwo(s[0], s[1]);
    }
  }

  lemma DecodeLonger(s: seq<byte>)
    requires |s| >= 3 && Decode(Encode(s[3..])) == Some(s[3..])
    ensures Decode(Encode(s)) == Some(s)
  {
    DecodeCons(s[0], s[1], s[2], s[3..]);
    assert Encode(s) == Quantum(s[0], s[1], s[2]) + Encode(s[3..]);
    SplitThree(s);
  }

  lemma SplitThree(s: seq<byte>)
    requires |s| >= 3
    ensures s == [s[0], s[1], s[2]] + s[3..]
  {
    var t := [s[0], s[1], s[2]] + s[3..];
    forall i | 0 <= i < |s|
      ensures t[i] == s[i]
    {
      if i >= 3 {
        assert t[i] == s[3..][i - 3];
      }
    }
  }
}
