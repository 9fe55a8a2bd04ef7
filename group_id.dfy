/**
 * hash_group (main.go:18-27): the default consumer-group id is the first
 * seven characters of the lowercase hexadecimal encoding (RFC 4648,
 * section 8) of a SHA-1 digest.
 *
 * SHA-1 (FIPS 180-4), time.Now and time.Time.String are not modelled: the
 * caller supplies the 20-byte digest of the time's text.
 */
module GroupId {
  import opened Wrappers

  newtype byte = x: int | 0 <= x < 256

  /** Length of a SHA-1 digest in bytes. */
  const Sha1Size: nat := 20

  /** Number of hex characters kept for the group id. */
  const Size: nat := 7

  predicate IsLowerHex(c: char) {
    '0' <= c <= '9' || 'a' <= c <= 'f'
  }

  /** The value of a hexadecimal digit, either case, as hex.DecodeString reads it. */
  function HexValue(c: char): (v: Option<int>)
    ensures v.Some? ==> 0 <= v.value < 16
    ensures IsLowerHex(c) ==> v.Some?
  {
    if '0' <= c <= '9' then Some(c as int - '0' as int)
    else if 'a' <= c <= 'f' then Some(c as int - 'a' as int + 10)
    else if 'A' <= c <= 'F' then Some(c as int - 'A' as int + 10)
    else None
  }

  /** The lowercase hexadecimal digit for a nibble. */
  function HexDigit(n: int): (c: char)
    requires 0 <= n < 16
    ensures IsLowerHex(c)
    ensures HexValue(c) == Some(n)
  {
    if n < 10 then ('0' as int + n) as char else ('a' as int + n - 10) as char
  }

  /** hex.EncodeToString: two lowercase digits per byte, high nibble first. */
  function EncodeToString(src: seq<byte>): (s: string)
    ensures |s| == 2 * |src|
    ensures forall i :: 0 <= i < |s| ==> IsLowerHex(s[i])
  {
    if src == [] then ""
    else [HexDigit(src[0] as int / 16), HexDigit(src[0] as int % 16)] + EncodeToString(src[1..])
  }

  /** hex.DecodeString: the inverse of EncodeToString; odd lengths and non-hex characters fail. */
  function DecodeString(s: string): (r: Option<seq<byte>>)
    ensures r.Some? ==> 2 * |r.value| == |s|
  {
    if s == [] then Some([])
    else if |s| == 1 then None
    else
      match (HexValue(s[0]), HexValue(s[1]), DecodeString(s[2..]))
      case (Some(hi), Some(lo), Some(rest)) => Some([(hi * 16 + lo) as byte] + rest)
      case _ => None
  }

  /** Byte i of the input is found at characters 2i and 2i+1 of the encoding. */
  lemma {:induction false} EncodeAt(src: seq<byte>, i: int)
    requires 0 <= i < |src|
    ensures EncodeToString(src)[2 * i] == HexDigit(src[i] as int / 16)
    ensures EncodeToString(src)[2 * i + 1] == HexDigit(src[i] as int % 16)
  {
    if i > 0 {
      EncodeAt(src[1..], i - 1);
    }
  }

  /** Encoding a concatenation is concatenating the encodings. */
  lemma {:induction false} EncodeAppend(a: seq<byte>, b: seq<byte>)
    ensures EncodeToString(a + b) == EncodeToString(a) + EncodeToString(b)
  {
    if a != [] {
      assert (a + b)[1..] == a[1..] + b;
      EncodeAppend(a[1..], b);
    } else {
      assert a + b == b;
    }
  }

  /** Decoding undoes encoding. */
  lemma {:induction false} DecodeEncode(src: seq<byte>)
    ensures DecodeString(EncodeToString(src)) == Some(src)
  {
    if src != [] {
      var s := EncodeToString(src);
      var b := src[0] as int;
      assert s[2..] == EncodeToString(src[1..]);
      DecodeEncode(src[1..]);
      assert b / 16 * 16 + b % 16 == b;
      assert [src[0]] + src[1..] == src;
    }
  }

  /** Different byte strings have different encodings. */
  lemma EncodeInjective(a: seq<byte>, b: seq<byte>)
    ensures EncodeToString(a) == EncodeToString(b) <==> a == b
  {
    if EncodeToString(a) == EncodeToString(b) {
      DecodeEncode(a);
      DecodeEncode(b);
    }
  }

  /** hash_group: the first seven hex characters of the digest. */
  function HashGroup(digest: seq<byte>): (id: string)
    requires |digest| == Sha1Size
    ensures |id| == Size
    ensures forall i :: 0 <= i < |id| ==> IsLowerHex(id[i])
  {
    EncodeToString(digest)[..Size]
  }

  /** The id keeps the first three bytes of the digest and the high nibble of the fourth. */
  lemma HashGroupDigits(digest: seq<byte>)
    requires |digest| == Sha1Size
    ensures HashGroup(digest) == EncodeToString(digest[..3]) + [HexDigit(digest[3] as int / 16)]
  {
    EncodeAppend(digest[..3], digest[3..]);
    assert digest[..3] + digest[3..] == digest;
    EncodeAt(digest[3..], 0);
  }

  /** Two digests give the same id exactly when they agree on those 28 bits. */
  lemma HashGroupCollision(d1: seq<byte>, d2: seq<byte>)
    requires |d1| == Sha1Size && |d2| == Sha1Size
    ensures HashGroup(d1) == HashGroup(d2) <==>
              d1[..3] == d2[..3] && d1[3] as int / 16 == d2[3] as int / 16
  {
    HashGroupDigits(d1);
    HashGroupDigits(d2);
    var e1, e2 := EncodeToString(d1[..3]), EncodeToString(d2[..3]);
    var h1, h2 := HexDigit(d1[3] as int / 16), HexDigit(d2[3] as int / 16);
    if HashGroup(d1) == HashGroup(d2) {
      assert e1 == (e1 + [h1])[..6] == (e2 + [h2])[..6] == e2;
      assert h1 == (e1 + [h1])[6] == (e2 + [h2])[6] == h2;
      EncodeInjective(d1[..3], d2[..3]);
      assert HexValue(h1) == HexValue(h2);
    }
  }
}
