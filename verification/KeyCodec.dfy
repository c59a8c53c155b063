/** Percent-encoding of cache keys into file names, and back. Strings stand for their bytes. */
module KeyCodec {
  import opened Basics
  import opened Options

  const PERCENT: byte := 37

  /** The unreserved characters of section 2.3 of RFC 3986: letters, digits, '-', '.', '_' and '~'. */
  predicate KeyCharSafe(b: byte) {
    48 <= b <= 57 || 65 <= b <= 90 || 97 <= b <= 122 || b == 45 || b == 46 || b == 95 || b == 126
  }

  /** The value of an upper-case hexadecimal digit. */
  function HexVal(b: byte): Option<byte> {
    if 48 <= b <= 57 then Some(b - 48)
    else if 65 <= b <= 70 then Some(b - 65 + 10)
    else None
  }

  function HexDigit(v: byte): byte
    requires v < 16
  {
    if v < 10 then 48 + v else 55 + v
  }

  function EncodeByte(b: byte): Bytes {
    if KeyCharSafe(b) then [b] else [PERCENT, HexDigit(b / 16), HexDigit(b % 16)]
  }

  function EncodedKey(key: Bytes): Bytes {
    if key == [] then [] else EncodeByte(key[0]) + EncodedKey(key[1..])
  }

  function Prepend(front: Bytes, r: Option<Bytes>): Option<Bytes> {
    match r case Some(rest) => Some(front + rest) case None => None
  }

  /** High and low half joined in eight bits. */
  function EscapeValue(hi: byte, lo: byte): byte {
    (hi * 16 + lo) % 256
  }

  /** Reads escapes and plain bytes off the front; None if an escape is cut short or not hexadecimal. */
  function DecodedBytes(s: Bytes): Option<Bytes> {
    if s == [] then Some([])
    else if s[0] == PERCENT then
      if |s| < 3 || HexVal(s[1]).None? || HexVal(s[2]).None? then None
      else Prepend([EscapeValue(HexVal(s[1]).value, HexVal(s[2]).value)], DecodedBytes(s[3..]))
    else Prepend([s[0]], DecodedBytes(s[1..]))
  }

  lemma PrependTwice(a: Bytes, b: Bytes, r: Option<Bytes>)
    ensures Prepend(a, Prepend(b, r)) == Prepend(a + b, r) && Prepend([], r) == r
  {
    if r.Some? {
      assert a + (b + r.value) == (a + b) + r.value;
      assert [] + r.value == r.value;
    }
  }

  /** The decoded bytes, if they form valid text. */
  function DecodedKey(isText: Bytes -> bool, s: Bytes): Option<Bytes> {
    match DecodedBytes(s)
    case Some(key) => if isText(key) then Some(key) else None
    case None => None
  }

  lemma EncodeStart(key: Bytes)
    ensures [] + EncodedKey(key[0..]) == EncodedKey(key)
  {
    assert key[0..] == key;
    assert [] + EncodedKey(key) == EncodedKey(key);
  }

  lemma EncodeStep(out: Bytes, key: Bytes, i: nat)
    requires i < |key|
    ensures (out + EncodeByte(key[i])) + EncodedKey(key[i + 1..]) == out + EncodedKey(key[i..])
  {
    assert key[i..][1..] == key[i + 1..];
    ConcatAssoc(out, EncodeByte(key[i]), EncodedKey(key[i + 1..]));
  }

  method EncodeKey(key: Bytes) returns (out: Bytes)
    ensures out == EncodedKey(key)
  {
    out := [];
    EncodeStart(key);
    for i := 0 to |key|
      invariant out + EncodedKey(key[i..]) == EncodedKey(key)
    {
      var b := key[i];
      EncodeStep(out, key, i);
      if KeyCharSafe(b) {
        out := out + [b];
      } else {
        out := out + ([PERCENT] + [HexDigit(b / 16), HexDigit(b % 16)]);
      }
    }
  }

  method DecodeKey(isText: Bytes -> bool, encoded: Bytes) returns (r: Option<Bytes>)
    ensures r == DecodedKey(isText, encoded)
  {
    var out: Bytes := [];
    var i := 0;
    assert encoded[0..] == encoded;
    PrependTwice([], [], DecodedBytes(encoded));
    while i < |encoded|
      invariant i <= |encoded|
      invariant DecodedBytes(encoded) == Prepend(out, DecodedBytes(encoded[i..]))
    {
      ghost var s := encoded[i..];
      if encoded[i] == PERCENT {
        if i + 1 >= |encoded| || HexVal(encoded[i + 1]).None? {
          return None;
        }
        if i + 2 >= |encoded| || HexVal(encoded[i + 2]).None? {
          return None;
        }
        assert s[3..] == encoded[i + 3..];
        var b := EscapeValue(HexVal(encoded[i + 1]).value, HexVal(encoded[i + 2]).value);
        PrependTwice(out, [b], DecodedBytes(encoded[i + 3..]));
        out := out + [b];
        i := i + 3;
      } else {
        assert s[1..] == encoded[i + 1..];
        PrependTwice(out, [encoded[i]], DecodedBytes(encoded[i + 1..]));
        out := out + [encoded[i]];
        i := i + 1;
      }
    }
    assert encoded[i..] == [] && out + [] == out;
    return if isText(out) then Some(out) else None;
  }

  // ---------------------------------------------------------------- the round trip

  lemma EscapeOfDigits(b: byte)
    ensures HexVal(HexDigit(b / 16)).Some? && HexVal(HexDigit(b % 16)).Some?
    ensures EscapeValue(HexVal(HexDigit(b / 16)).value, HexVal(HexDigit(b % 16)).value) == b
  {
  }

  lemma DecodeEscape(hi: byte, lo: byte, rest: Bytes)
    requires HexVal(hi).Some? && HexVal(lo).Some?
    ensures DecodedBytes([PERCENT, hi, lo] + rest) ==
      Prepend([EscapeValue(HexVal(hi).value, HexVal(lo).value)], DecodedBytes(rest))
  {
    assert ([PERCENT, hi, lo] + rest)[3..] == rest;
  }

  lemma DecodeOneByte(b: byte, rest: Bytes)
    ensures DecodedBytes(EncodeByte(b) + rest) == Prepend([b], DecodedBytes(rest))
  {
    if KeyCharSafe(b) {
      assert (EncodeByte(b) + rest)[1..] == rest;
    } else {
      assert EncodeByte(b) == [PERCENT, HexDigit(b / 16), HexDigit(b % 16)];
      EscapeOfDigits(b);
      DecodeEscape(HexDigit(b / 16), HexDigit(b % 16), rest);
    }
  }

  lemma {:induction false} DecodeEncoded(key: Bytes)
    ensures DecodedBytes(EncodedKey(key)) == Some(key)
    decreases |key|
  {
    if key != [] {
      DecodeEncoded(key[1..]);
      DecodeOneByte(key[0], EncodedKey(key[1..]));
      assert key == [key[0]] + key[1..];
    }
  }

  /** Decoding an encoded key gives the key back, for every key that is text and no other. */
  lemma RoundTrip(isText: Bytes -> bool, key: Bytes)
    ensures DecodedKey(isText, EncodedKey(key)) == if isText(key) then Some(key) else None
  {
    DecodeEncoded(key);
  }

  /** Distinct keys never share a file name. */
  lemma EncodingIsInjective(a: Bytes, b: Bytes)
    ensures EncodedKey(a) == EncodedKey(b) <==> a == b
  {
    DecodeEncoded(a);
    DecodeEncoded(b);
  }

  // ---------------------------------------------------------------- the canonical form

  /** Only unreserved characters, and escapes of the others in two upper-case hexadecimal digits. */
  predicate Canonical(s: Bytes) {
    s == [] ||
    (if s[0] == PERCENT then
       |s| >= 3 && HexVal(s[1]).Some? && HexVal(s[2]).Some? &&
       !KeyCharSafe(EscapeValue(HexVal(s[1]).value, HexVal(s[2]).value)) && Canonical(s[3..])
     else KeyCharSafe(s[0]) && Canonical(s[1..]))
  }

  lemma CanonicalByte(b: byte, rest: Bytes)
    requires Canonical(rest)
    ensures Canonical(EncodeByte(b) + rest)
  {
    var s := EncodeByte(b) + rest;
    if KeyCharSafe(b) {
      assert s[0] == b && s[1..] == rest;
    } else {
      EscapeOfDigits(b);
      assert s[0] == PERCENT && s[1] == HexDigit(b / 16) && s[2] == HexDigit(b % 16) && s[3..] == rest;
    }
  }

  lemma {:induction false} EncodedIsCanonical(key: Bytes)
    ensures Canonical(EncodedKey(key))
    decreases |key|
  {
    if key != [] {
      EncodedIsCanonical(key[1..]);
      CanonicalByte(key[0], EncodedKey(key[1..]));
    }
  }

  /** An encoded key is made of unreserved characters and the percent sign only, so it is one file name segment. */
  lemma {:induction false} EncodedAlphabet(key: Bytes)
    ensures forall i :: 0 <= i < |EncodedKey(key)| ==> KeyCharSafe(EncodedKey(key)[i]) || EncodedKey(key)[i] == PERCENT
    decreases |key|
  {
    if key != [] {
      EncodedAlphabet(key[1..]);
      assert EncodedKey(key) == EncodeByte(key[0]) + EncodedKey(key[1..]);
    }
  }

  lemma HexRoundTrip(hi: byte, lo: byte)
    requires HexVal(hi).Some? && HexVal(lo).Some?
    ensures var b := EscapeValue(HexVal(hi).value, HexVal(lo).value);
      HexDigit(b / 16) == hi && HexDigit(b % 16) == lo
  {
  }

  lemma {:induction false} CanonicalReencodes(s: Bytes)
    requires Canonical(s)
    ensures DecodedBytes(s).Some? && EncodedKey(DecodedBytes(s).value) == s
    decreases |s|
  {
    if s != [] {
      if s[0] == PERCENT {
        CanonicalReencodes(s[3..]);
        HexRoundTrip(s[1], s[2]);
        assert DecodedBytes(s).value[1..] == DecodedBytes(s[3..]).value;
        assert s == [PERCENT, s[1], s[2]] + s[3..];
      } else {
        CanonicalReencodes(s[1..]);
        assert DecodedBytes(s).value[1..] == DecodedBytes(s[1..]).value;
        assert s == [s[0]] + s[1..];
      }
    }
  }

  /** Encoding undoes decoding exactly on the canonical strings. */
  lemma ReencodesIffCanonical(s: Bytes)
    ensures Canonical(s) <==> DecodedBytes(s).Some? && EncodedKey(DecodedBytes(s).value) == s
  {
    if Canonical(s) {
      CanonicalReencodes(s);
    } else if DecodedBytes(s).Some? && EncodedKey(DecodedBytes(s).value) == s {
      EncodedIsCanonical(DecodedBytes(s).value);
    }
  }
}
