/** `hash_to_string`: the lowercase hexadecimal spelling of a 16-byte
    digest, as stored in the locale checksum. */
module LocaleHash {

  /** One byte of the digest. */
  type Byte = b: int | 0 <= b < 256

  const HexDigits: seq<char> := "0123456789abcdef"

  /** Length of an MD5 digest in bytes. */
  const HashSize: nat := 16

  predicate IsLowerHex(c: char) {
    c in HexDigits
  }

  /** Value of a lowercase hex digit; the inverse of indexing `HexDigits`. */
  function HexValue(c: char): (v: nat)
    requires IsLowerHex(c)
    ensures v < 16 && HexDigits[v] == c
  {
    if '0' <= c <= '9' then (c as int) - ('0' as int) else (c as int) - ('a' as int) + 10
  }

  /** `hash_to_string`: walks the digest from its last byte down to its
      first, writing each byte as two digits, high nibble first, and then the
      terminator at position 32. */
  method HashToString(hash: seq<Byte>) returns (hex: seq<char>)
    requires |hash| == HashSize
    ensures |hex| == 2 * HashSize + 1 && hex[2 * HashSize] == '\0'
    ensures forall i :: 0 <= i < HashSize ==>
              hex[2 * i] == HexDigits[hash[i] / 16] && hex[2 * i + 1] == HexDigits[hash[i] % 16]
  {
    hex := seq(2 * HashSize + 1, _ => '\0');
    var i := HashSize;
    while i > 0
      invariant 0 <= i <= HashSize
      invariant |hex| == 2 * HashSize + 1 && hex[2 * HashSize] == '\0'
      invariant forall k :: i <= k < HashSize ==>
                  hex[2 * k] == HexDigits[hash[k] / 16] && hex[2 * k + 1] == HexDigits[hash[k] % 16]
    {
      i := i - 1;
      // least significant digit last
      hex := hex[2 * i + 1 := HexDigits[hash[i] % 16]];
      hex := hex[2 * i := HexDigits[hash[i] / 16]];
    }
    hex := hex[2 * HashSize := '\0'];
  }

  /** Reads back a string of lowercase hex digit pairs into bytes. */
  function ParseHex(hex: seq<char>): (bytes: seq<Byte>)
    requires |hex| % 2 == 0
    requires forall i :: 0 <= i < |hex| ==> IsLowerHex(hex[i])
    ensures |bytes| == |hex| / 2
    ensures forall i :: 0 <= i < |bytes| ==> bytes[i] == HexValue(hex[2 * i]) * 16 + HexValue(hex[2 * i + 1])
  {
    seq(|hex| / 2, i requires 0 <= i < |hex| / 2 => HexValue(hex[2 * i]) * 16 + HexValue(hex[2 * i + 1]))
  }

  /** The spelling is lowercase hex and reads back as the digest it came
      from, so no two digests share a checksum string. */
  lemma HashToStringRoundTrip(hash: seq<Byte>, hex: seq<char>)
    requires |hash| == HashSize && |hex| == 2 * HashSize + 1
    requires forall i :: 0 <= i < HashSize ==>
               hex[2 * i] == HexDigits[hash[i] / 16] && hex[2 * i + 1] == HexDigits[hash[i] % 16]
    ensures forall i :: 0 <= i < 2 * HashSize ==> IsLowerHex(hex[i])
    ensures ParseHex(hex[..2 * HashSize]) == hash
  {
    forall i | 0 <= i < 2 * HashSize
      ensures IsLowerHex(hex[i])
    {
      var k := i / 2;
      assert i == 2 * k || i == 2 * k + 1;
    }
    var body := hex[..2 * HashSize];
    var bytes := ParseHex(body);
    forall i | 0 <= i < HashSize
      ensures bytes[i] == hash[i]
    {
      assert HexValue(body[2 * i]) == hash[i] / 16;
      assert HexValue(body[2 * i + 1]) == hash[i] % 16;
    }
  }
}
