/**
 * Go's `base64.StdEncoding`: the standard alphabet with `=` padding of
 * section 4 of RFC 4648. Go's decoder is not strict: it skips carriage
 * returns and line feeds wherever they occur and ignores the unused low
 * bits of a padded final quantum. `DecodeString` models
 * `StdEncoding.DecodeString`; `EncodeToString` is its producer-side inverse.
 */
module Base64 {
  import opened Go

  const Pad: char := '='

  /** A character of the standard alphabet (RFC 4648 section 4, table 1). */
  predicate IsAlphabetChar(c: char)
  {
    ('A' <= c <= 'Z') || ('a' <= c <= 'z') || ('0' <= c <= '9') || c == '+' || c == '/'
  }

  predicate IsLineBreak(c: char)
  {
    c == '\n' || c == '\r'
  }

  /** The 6-bit value a character of the alphabet stands for. */
  function CharToSextet(c: char): (v: nat)
    requires IsAlphabetChar(c)
    ensures v < 64
  {
    if 'A' <= c <= 'Z' then c as int - 'A' as int
    else if 'a' <= c <= 'z' then c as int - 'a' as int + 26
    else if '0' <= c <= '9' then c as int - '0' as int + 52
    else if c == '+' then 62
    else 63
  }

  /** The character of the alphabet that stands for a 6-bit value. */
  function SextetToChar(v: nat): (c: char)
    requires v < 64
    ensures IsAlphabetChar(c) && CharToSextet(c) == v
  {
    if v < 26 then (('A' as int) + v) as char
    else if v < 52 then (('a' as int) + (v - 26)) as char
    else if v < 62 then (('0' as int) + (v - 52)) as char
    else if v == 62 then '+'
    else '/'
  }

  /** Four 6-bit values make three bytes, most significant bits first. */
  function QuantumBytes(a: nat, b: nat, c: nat, d: nat): (bs: Bytes)
    requires a < 64 && b < 64 && c < 64 && d < 64
    ensures |bs| == 3
  {
    [a * 4 + b / 16, (b % 16) * 16 + c / 4, (c % 4) * 64 + d]
  }

  /** The input with every line break taken out: Go's decoder skips them wherever they occur. */
  function StripLineBreaks(s: string): (t: string)
    ensures |t| <= |s|
    ensures forall i :: 0 <= i < |t| ==> !IsLineBreak(t[i])
  {
    if s == [] then []
    else if IsLineBreak(s[0]) then StripLineBreaks(s[1..])
    else [s[0]] + StripLineBreaks(s[1..])
  }

  /**
   * Decoding of line-break-free input, quantum by quantum: every quantum has
   * four characters, only the last may end in "=" or "==", and nothing may
   * follow the padding.
   */
  function DecodeQuanta(t: string): (r: Option<Bytes>)
    decreases |t|
  {
    if |t| == 0 then Some([])
    else if |t| < 4 then None
    else if IsAlphabetChar(t[0]) && IsAlphabetChar(t[1]) && IsAlphabetChar(t[2]) && IsAlphabetChar(t[3]) then
      var q := QuantumBytes(CharToSextet(t[0]), CharToSextet(t[1]), CharToSextet(t[2]), CharToSextet(t[3]));
      match DecodeQuanta(t[4..])
      case None => None
      case Some(rest) => Some(q + rest)
    else if |t| == 4 && IsAlphabetChar(t[0]) && IsAlphabetChar(t[1]) && t[2] == Pad && t[3] == Pad then
      Some(QuantumBytes(CharToSextet(t[0]), CharToSextet(t[1]), 0, 0)[..1])
    else if |t| == 4 && IsAlphabetChar(t[0]) && IsAlphabetChar(t[1]) && IsAlphabetChar(t[2]) && t[3] == Pad then
      Some(QuantumBytes(CharToSextet(t[0]), CharToSextet(t[1]), CharToSextet(t[2]), 0)[..2])
    else None
  }

  /** Four characters make at most three bytes: a successful decoding of n quanta has 3n - 2 to 3n bytes. */
  lemma {:induction false} DecodedLength(t: string)
    requires DecodeQuanta(t).Some?
    ensures |t| % 4 == 0 && 3 * |t| - 8 <= 4 * |DecodeQuanta(t).value| <= 3 * |t|
    decreases |t|
  {
    if |t| == 0 {
    } else if IsAlphabetChar(t[0]) && IsAlphabetChar(t[1]) && IsAlphabetChar(t[2]) && IsAlphabetChar(t[3]) {
      var rest := t[4..];
      DecodedLength(rest);
      var q := QuantumBytes(CharToSextet(t[0]), CharToSextet(t[1]), CharToSextet(t[2]), CharToSextet(t[3]));
      assert DecodeQuanta(t).value == q + DecodeQuanta(rest).value;
      LengthStep(|rest|, |DecodeQuanta(rest).value|);
    } else {
      assert |t| == 4;
      assert 1 <= |DecodeQuanta(t).value| <= 2;
    }
  }

  /** The arithmetic of one more full quantum. */
  lemma LengthStep(n: int, m: int)
    requires n % 4 == 0 && 3 * n - 8 <= 4 * m <= 3 * n
    ensures (n + 4) % 4 == 0 && 3 * (n + 4) - 8 <= 4 * (m + 3) <= 3 * (n + 4)
  {
  }

  /** `base64.StdEncoding.DecodeString`: `None` stands for a `CorruptInputError`. */
  function DecodeString(s: string): (r: Option<Bytes>)
    ensures r.Some? ==> 4 * |r.value| <= 3 * |s|
  {
    var t := StripLineBreaks(s);
    if DecodeQuanta(t).Some? then DecodedLength(t); DecodeQuanta(t)
    else DecodeQuanta(t)
  }

  /** `base64.StdEncoding.EncodeToString`: padded, no line breaks. */
  function EncodeToString(bs: Bytes): (s: string)
    ensures 3 * |s| - 8 <= 4 * |bs| <= 3 * |s|
  {
    if |bs| == 0 then ""
    else if |bs| == 1 then EncodeLastOne(bs[0])
    else if |bs| == 2 then EncodeLastTwo(bs[0], bs[1])
    else EncodeQuantum(bs[0], bs[1], bs[2]) + EncodeToString(bs[3..])
  }

  /** The encoding comes in whole quanta: its length is a multiple of 4. */
  lemma {:induction false} EncodedQuanta(bs: Bytes)
    ensures |EncodeToString(bs)| % 4 == 0
    decreases |bs|
  {
    if |bs| >= 3 {
      EncodedQuanta(bs[3..]);
      QuantaStep(|EncodeToString(bs[3..])|);
    }
  }

  lemma QuantaStep(n: int)
    requires n % 4 == 0
    ensures (4 + n) % 4 == 0
  {
  }

  /** A final single byte: two characters and two pad characters. */
  function EncodeLastOne(x: byte): (e: string)
    ensures |e| == 4 && IsAlphabetChar(e[0]) && IsAlphabetChar(e[1]) && e[2] == Pad && e[3] == Pad
  {
    [SextetToChar(x / 4), SextetToChar((x % 4) * 16), Pad, Pad]
  }

  /** Two final bytes: three characters and one pad character. */
  function EncodeLastTwo(x: byte, y: byte): (e: string)
    ensures |e| == 4 && IsAlphabetChar(e[0]) && IsAlphabetChar(e[1]) && IsAlphabetChar(e[2]) && e[3] == Pad
  {
    [SextetToChar(x / 4), SextetToChar((x % 4) * 16 + y / 16), SextetToChar((y % 16) * 4), Pad]
  }

  /** Three bytes make four characters of the alphabet, six bits each, most significant first. */
  function EncodeQuantum(x: byte, y: byte, z: byte): (e: string)
    ensures |e| == 4 && forall i :: 0 <= i < 4 ==> IsAlphabetChar(e[i])
    ensures QuantumBytes(CharToSextet(e[0]), CharToSextet(e[1]), CharToSextet(e[2]), CharToSextet(e[3])) == [x, y, z]
  {
    QuantumRoundTrip(x, y, z);
    [SextetToChar(x / 4), SextetToChar((x % 4) * 16 + y / 16),
     SextetToChar((y % 16) * 4 + z / 64), SextetToChar(z % 64)]
  }

  /** Splitting three bytes into four sextets and joining them again gives back the bytes. */
  lemma QuantumRoundTrip(x: byte, y: byte, z: byte)
    ensures QuantumBytes(x / 4, (x % 4) * 16 + y / 16, (y % 16) * 4 + z / 64, z % 64) == [x, y, z]
  {
    assert ((x % 4) * 16 + y / 16) / 16 == x % 4;
    assert ((x % 4) * 16 + y / 16) % 16 == y / 16;
    assert ((y % 16) * 4 + z / 64) / 4 == y % 16;
    assert ((y % 16) * 4 + z / 64) % 4 == z / 64;
  }

  lemma {:induction false} StripLineBreaksNoop(s: string)
    requires forall i :: 0 <= i < |s| ==> !IsLineBreak(s[i])
    ensures StripLineBreaks(s) == s
  {
    if s != [] {
      StripLineBreaksNoop(s[1..]);
    }
  }

  lemma DecodeOneByte(x: byte)
    ensures DecodeQuanta(EncodeToString([x])) == Some([x])
  {
    var s := EncodeToString([x]);
    var q := QuantumBytes(x / 4, (x % 4) * 16, 0, 0);
    assert CharToSextet(s[0]) == x / 4 && CharToSextet(s[1]) == (x % 4) * 16;
    QuantumRoundTrip(x, 0, 0);
    assert DecodeQuanta(s) == Some(q[..1]);
    assert q[..1] == [x];
  }

  lemma DecodeTwoBytes(x: byte, y: byte)
    ensures DecodeQuanta(EncodeToString([x, y])) == Some([x, y])
  {
    var s := EncodeToString([x, y]);
    var q := QuantumBytes(x / 4, (x % 4) * 16 + y / 16, (y % 16) * 4, 0);
    assert CharToSextet(s[0]) == x / 4 && CharToSextet(s[1]) == (x % 4) * 16 + y / 16;
    assert CharToSextet(s[2]) == (y % 16) * 4 && s[2] != Pad && !IsAlphabetChar(s[3]);
    QuantumRoundTrip(x, y, 0);
    assert DecodeQuanta(s) == Some(q[..2]);
    assert q[..2] == [x, y];
  }

  /** A full quantum in front of the rest decodes to its three bytes in front of the rest's bytes. */
  lemma DecodeQuantaCons(e: string, t: string)
    requires |e| == 4 && forall i :: 0 <= i < 4 ==> IsAlphabetChar(e[i])
    requires DecodeQuanta(t).Some?
    ensures DecodeQuanta(e + t)
         == Some(QuantumBytes(CharToSextet(e[0]), CharToSextet(e[1]), CharToSextet(e[2]), CharToSextet(e[3]))
                 + DecodeQuanta(t).value)
  {
    var u := e + t;
    assert u[0] == e[0] && u[1] == e[1] && u[2] == e[2] && u[3] == e[3];
    assert u[4..] == t;
  }

  lemma DecodeFullQuantum(x: byte, y: byte, z: byte, rest: Bytes)
    requires DecodeQuanta(EncodeToString(rest)) == Some(rest)
    ensures DecodeQuanta(EncodeQuantum(x, y, z) + EncodeToString(rest)) == Some([x, y, z] + rest)
  {
    DecodeQuantaCons(EncodeQuantum(x, y, z), EncodeToString(rest));
  }

  lemma SplitFirstQuantum(bs: Bytes)
    requires |bs| >= 3
    ensures [bs[0], bs[1], bs[2]] + bs[3..] == bs
  {
  }

  lemma {:induction false} DecodeQuantaOfEncoding(bs: Bytes)
    ensures DecodeQuanta(EncodeToString(bs)) == Some(bs)
    decreases |bs|
  {
    if |bs| == 1 {
      DecodeOneByte(bs[0]);
      assert bs == [bs[0]];
    } else if |bs| == 2 {
      DecodeTwoBytes(bs[0], bs[1]);
      assert bs == [bs[0], bs[1]];
    } else if |bs| >= 3 {
      DecodeQuantaOfEncoding(bs[3..]);
      DecodeFullQuantum(bs[0], bs[1], bs[2], bs[3..]);
      SplitFirstQuantum(bs);
    }
  }

  /** The encoder writes only characters of the alphabet and the pad character. */
  lemma {:induction false} EncodedChars(bs: Bytes)
    ensures forall i :: 0 <= i < |EncodeToString(bs)| ==> IsAlphabetChar(EncodeToString(bs)[i]) || EncodeToString(bs)[i] == Pad
  {
    if |bs| >= 3 {
      EncodedChars(bs[3..]);
      var e := EncodeQuantum(bs[0], bs[1], bs[2]);
      var rest := EncodeToString(bs[3..]);
      forall i | 0 <= i < |e + rest|
        ensures IsAlphabetChar((e + rest)[i]) || (e + rest)[i] == Pad
      {
        if i >= 4 {
          assert (e + rest)[i] == rest[i - 4];
        }
      }
    }
  }

  /** Decoding what the encoder produced gives back the original bytes (RFC 4648 section 4). */
  lemma DecodeEncodeRoundTrip(bs: Bytes)
    ensures DecodeString(EncodeToString(bs)) == Some(bs)
  {
    EncodedChars(bs);
    StripLineBreaksNoop(EncodeToString(bs));
    DecodeQuantaOfEncoding(bs);
  }

  /** Line breaks anywhere in the input do not change the outcome of decoding. */
  lemma {:induction false} LineBreaksIgnored(s: string, i: nat, c: char)
    requires i <= |s| && IsLineBreak(c)
    ensures DecodeString(s[..i] + [c] + s[i..]) == DecodeString(s)
  {
    StripAround(s, i, c);
  }

  lemma {:induction false} StripAround(s: string, i: nat, c: char)
    requires i <= |s| && IsLineBreak(c)
    ensures StripLineBreaks(s[..i] + [c] + s[i..]) == StripLineBreaks(s)
  {
    var u := s[..i] + [c] + s[i..];
    if i == 0 {
      assert u[1..] == s;
    } else {
      assert u[0] == s[0];
      assert u[1..] == s[1..][..i - 1] + [c] + s[1..][i - 1..];
      StripAround(s[1..], i - 1, c);
    }
  }

  /**
   * The decoder is not strict: in a quantum ending in "==", only the top two
   * bits of the second character are used, so characters that agree on them
   * decode alike.
   */
  lemma TwoPadUnusedBitsIgnored(a: char, b: char, b2: char)
    requires IsAlphabetChar(a) && IsAlphabetChar(b) && IsAlphabetChar(b2)
    requires CharToSextet(b) / 16 == CharToSextet(b2) / 16
    ensures DecodeQuanta([a, b, Pad, Pad]) == DecodeQuanta([a, b2, Pad, Pad])
    ensures DecodeQuanta([a, b, Pad, Pad]).Some?
  {
    var t, t2 := [a, b, Pad, Pad], [a, b2, Pad, Pad];
    assert !IsAlphabetChar(t[2]) && !IsAlphabetChar(t2[2]);
    assert DecodeQuanta(t) == Some(QuantumBytes(CharToSextet(a), CharToSextet(b), 0, 0)[..1]);
    assert DecodeQuanta(t2) == Some(QuantumBytes(CharToSextet(a), CharToSextet(b2), 0, 0)[..1]);
    assert QuantumBytes(CharToSextet(a), CharToSextet(b), 0, 0)[..1] == [CharToSextet(a) * 4 + CharToSextet(b) / 16];
    assert QuantumBytes(CharToSextet(a), CharToSextet(b2), 0, 0)[..1] == [CharToSextet(a) * 4 + CharToSextet(b2) / 16];
  }

  /**
   * Likewise in a quantum ending in a single "=": only the top four bits of
   * the third character are used.
   */
  lemma OnePadUnusedBitsIgnored(a: char, b: char, c: char, c2: char)
    requires IsAlphabetChar(a) && IsAlphabetChar(b) && IsAlphabetChar(c) && IsAlphabetChar(c2)
    requires CharToSextet(c) / 4 == CharToSextet(c2) / 4
    ensures DecodeQuanta([a, b, c, Pad]) == DecodeQuanta([a, b, c2, Pad])
    ensures DecodeQuanta([a, b, c, Pad]).Some?
  {
    var t, t2 := [a, b, c, Pad], [a, b, c2, Pad];
    assert !IsAlphabetChar(t[3]) && !IsAlphabetChar(t2[3]);
    assert DecodeQuanta(t) == Some(QuantumBytes(CharToSextet(a), CharToSextet(b), CharToSextet(c), 0)[..2]);
    assert DecodeQuanta(t2) == Some(QuantumBytes(CharToSextet(a), CharToSextet(b), CharToSextet(c2), 0)[..2]);
    var sa, sb := CharToSextet(a), CharToSextet(b);
    assert QuantumBytes(sa, sb, CharToSextet(c), 0)[..2] == [sa * 4 + sb / 16, (sb % 16) * 16 + CharToSextet(c) / 4];
    assert QuantumBytes(sa, sb, CharToSextet(c2), 0)[..2] == [sa * 4 + sb / 16, (sb % 16) * 16 + CharToSextet(c2) / 4];
  }

  /** An example of the above: "QQ==" and "QR==" both decode to the byte 65. */
  lemma PaddingBitsIgnored()
    ensures DecodeString("QQ==") == DecodeString("QR==") == Some([65])
  {
    StripLineBreaksNoop("QQ==");
    StripLineBreaksNoop("QR==");
    assert CharToSextet('Q') == 16 && CharToSextet('R') == 17;
    assert QuantumBytes(16, 16, 0, 0)[..1] == [65];
    assert QuantumBytes(16, 17, 0, 0)[..1] == [65];
  }

  /**
   * What the decoder accepts: input without line breaks that decodes holds
   * only alphabet characters, except for padding in its last two places.
   */
  lemma {:induction false} AcceptedCharacters(t: string)
    requires DecodeQuanta(t).Some?
    ensures forall i :: 0 <= i < |t| ==> IsAlphabetChar(t[i]) || (t[i] == Pad && i >= |t| - 2)
    decreases |t|
  {
    if |t| == 0 {
    } else if IsAlphabetChar(t[0]) && IsAlphabetChar(t[1]) && IsAlphabetChar(t[2]) && IsAlphabetChar(t[3]) {
      var rest := t[4..];
      AcceptedCharacters(rest);
      forall i | 4 <= i < |t|
        ensures IsAlphabetChar(t[i]) || (t[i] == Pad && i >= |t| - 2)
      {
        assert t[i] == rest[i - 4];
      }
    } else {
      assert |t| == 4;
    }
  }
}
