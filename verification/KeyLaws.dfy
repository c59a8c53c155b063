/** The codec of file names, character by character. */
module KeyLaws {
  import opened Basics
  import opened KeyCodec
  import opened Options

  /** Letters, digits, '-', '.', '_' and '~' are written as they are. */
  predicate Unreserved(c: int) {
    'a' as int <= c <= 'z' as int || 'A' as int <= c <= 'Z' as int || '0' as int <= c <= '9' as int ||
    c == '-' as int || c == '.' as int || c == '_' as int || c == '~' as int
  }

  const HEX := "0123456789ABCDEF"

  lemma HexIsHex(v: byte)
    requires v < 16
    ensures HexDigit(v) == HEX[v] as int
  {
  }

  /** One byte: itself if it is unreserved, else a percent sign and its two hexadecimal digits. */
  lemma OneByte(b: byte)
    ensures EncodedKey([b]) ==
      if Unreserved(b) then [b] else ['%' as int, HEX[b / 16] as int, HEX[b % 16] as int]
  {
    assert [b][1..] == [];
    assert EncodedKey([b]) == EncodeByte(b) + [] == EncodeByte(b);
    HexIsHex(b / 16);
    HexIsHex(b % 16);
  }

  /** Bytes are encoded one by one. */
  lemma {:induction false} EncodedJoin(a: Bytes, b: Bytes)
    ensures EncodedKey(a + b) == EncodedKey(a) + EncodedKey(b)
    decreases |a|
  {
    if a == [] {
      assert a + b == b && [] + EncodedKey(b) == EncodedKey(b);
    } else {
      EncodedJoin(a[1..], b);
      assert (a + b)[1..] == a[1..] + b;
      ConcatAssoc(EncodeByte(a[0]), EncodedKey(a[1..]), EncodedKey(b));
    }
  }

  /** No slash or backslash, and nothing else that is not a letter, a digit or one of "-._~%", gets into a file name. */
  lemma NameIsPlain(key: Bytes)
    ensures forall i :: 0 <= i < |EncodedKey(key)| ==>
      (Unreserved(EncodedKey(key)[i]) || EncodedKey(key)[i] == '%' as int) &&
      EncodedKey(key)[i] != '/' as int && EncodedKey(key)[i] != '\\' as int
  {
    EncodedAlphabet(key);
    forall i | 0 <= i < |EncodedKey(key)|
      ensures Unreserved(EncodedKey(key)[i]) || EncodedKey(key)[i] == '%' as int
    {
      assert KeyCharSafe(EncodedKey(key)[i]) || EncodedKey(key)[i] == PERCENT;
    }
  }

  lemma {:induction false} EncodedLength(key: Bytes)
    ensures |EncodedKey(key)| >= |key|
    ensures |EncodedKey(key)| == |key| <==> forall i :: 0 <= i < |key| ==> Unreserved(key[i])
    decreases |key|
  {
    if key != [] {
      EncodedLength(key[1..]);
      assert key == [key[0]] + key[1..];
      EncodedJoin([key[0]], key[1..]);
      OneByte(key[0]);
    }
  }

  /** A key is its own file name if and only if it has no other characters. */
  lemma {:induction false} PlainKeyIff(key: Bytes)
    ensures EncodedKey(key) == key <==> forall i :: 0 <= i < |key| ==> Unreserved(key[i])
    decreases |key|
  {
    EncodedLength(key);
    if key != [] && forall i :: 0 <= i < |key| ==> Unreserved(key[i]) {
      PlainKeyIff(key[1..]);
      assert key == [key[0]] + key[1..];
      EncodedJoin([key[0]], key[1..]);
      OneByte(key[0]);
    }
  }

  /** The text starts with a percent sign and the two digits of the byte. */
  predicate IsEscapeOf(s: Bytes, b: byte) {
    |s| >= 3 && s[0] == '%' as int && s[1] == HEX[b / 16] as int && s[2] == HEX[b % 16] as int
  }

  /** What decoding takes off the front: an escape in upper-case digits, or any other byte as it is. */
  lemma DecodedFront(s: Bytes)
    requires s != []
    ensures s[0] != '%' as int ==> DecodedBytes(s) == Prepend([s[0]], DecodedBytes(s[1..]))
    ensures s[0] == '%' as int ==>
      (DecodedBytes(s).Some? ==> exists b: byte :: IsEscapeOf(s, b)) &&
      forall b: byte :: IsEscapeOf(s, b) ==> DecodedBytes(s) == Prepend([b], DecodedBytes(s[3..]))
  {
    if s[0] == '%' as int {
      if DecodedBytes(s).Some? {
        HexRoundTrip(s[1], s[2]);
        var b := EscapeValue(HexVal(s[1]).value, HexVal(s[2]).value);
        HexIsHex(b / 16);
        HexIsHex(b % 16);
        assert IsEscapeOf(s, b);
      }
      forall b: byte | IsEscapeOf(s, b) ensures DecodedBytes(s) == Prepend([b], DecodedBytes(s[3..])) {
        HexIsHex(b / 16);
        HexIsHex(b % 16);
        EscapeOfDigits(b);
      }
    }
  }
}
