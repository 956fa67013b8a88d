/** encoding/hex as the refresh-token generator uses it: every byte becomes
    two lowercase hexadecimal digits, high nibble first. */
module HexEncoding {
  import opened Wrappers
  import opened Common

  const HexTable: string := "0123456789abcdef"

  predicate IsLowerHex(s: string)
  {
    forall i :: 0 <= i < |s| ==> '0' <= s[i] <= '9' || 'a' <= s[i] <= 'f'
  }

  function HighDigit(b: byte): char { HexTable[b as int / 16] }

  function LowDigit(b: byte): char { HexTable[b as int % 16] }

  /** hex.EncodeToString, as a specification. */
  function Hex(data: seq<byte>): string
  {
    if data == [] then [] else [HighDigit(data[0]), LowDigit(data[0])] + Hex(data[1..])
  }

  /** The value of one hexadecimal digit of either case, as hex.DecodeString reads it. */
  function DigitValue(c: char): Option<int>
  {
    if '0' <= c <= '9' then Some(c as int - '0' as int)
    else if 'a' <= c <= 'f' then Some(c as int - 'a' as int + 10)
    else if 'A' <= c <= 'F' then Some(c as int - 'A' as int + 10)
    else None
  }

  /** hex.DecodeString: None for an odd length or a character that is not a digit. */
  function Unhex(s: string): Option<seq<byte>>
    decreases |s|
  {
    if s == [] then Some([])
    else if |s| == 1 then None
    else
      match (DigitValue(s[0]), DigitValue(s[1]), Unhex(s[2..]))
      case (Some(hi), Some(lo), Some(rest)) => Some([(hi * 16 + lo) as byte] + rest)
      case _ => None
  }

  /** Position 2k and 2k+1 of the encoding are the two digits of byte k. */
  lemma {:induction false} HexAt(data: seq<byte>, k: nat)
    requires k < |data|
    ensures |Hex(data)| == 2 * |data|
    ensures Hex(data)[2 * k] == HighDigit(data[k]) && Hex(data)[2 * k + 1] == LowDigit(data[k])
    decreases |data|
  {
    HexLength(data[1..]);
    if k > 0 {
      HexAt(data[1..], k - 1);
    }
  }

  lemma {:induction false} HexLength(data: seq<byte>)
    ensures |Hex(data)| == 2 * |data|
    ensures IsLowerHex(Hex(data))
    decreases |data|
  {
    if data != [] {
      HexLength(data[1..]);
      var s := Hex(data);
      forall i | 0 <= i < |s| ensures '0' <= s[i] <= '9' || 'a' <= s[i] <= 'f' {
        if i >= 2 { assert s[i] == Hex(data[1..])[i - 2]; }
      }
    }
  }

  lemma DigitValueOfTable(n: int)
    requires 0 <= n < 16
    ensures DigitValue(HexTable[n]) == Some(n)
  {
    if n < 10 {
      assert HexTable[n] as int == '0' as int + n;
    } else {
      assert HexTable[n] as int == 'a' as int + n - 10;
    }
  }

  lemma ByteDigits(b: byte)
    ensures DigitValue(HighDigit(b)) == Some(b as int / 16)
    ensures DigitValue(LowDigit(b)) == Some(b as int % 16)
    ensures (b as int / 16 * 16 + b as int % 16) as byte == b
  {
    DigitValueOfTable(b as int / 16);
    DigitValueOfTable(b as int % 16);
  }

  /** Decoding an encoding gives the bytes back. */
  lemma {:induction false} UnhexHex(data: seq<byte>)
    ensures Unhex(Hex(data)) == Some(data)
    decreases |data|
  {
    if data != [] {
      var b := data[0];
      var s := Hex(data);
      assert s[2..] == Hex(data[1..]);
      UnhexHex(data[1..]);
      ByteDigits(b);
      assert [b] + data[1..] == data;
    }
  }

  /** The encoding is injective: distinct byte strings give distinct tokens. */
  lemma HexInjective(a: seq<byte>, b: seq<byte>)
    requires Hex(a) == Hex(b)
    ensures a == b
  {
    UnhexHex(a);
    UnhexHex(b);
  }

  /** hex.EncodeToString: fills a buffer of twice the input's length, two
      digits per byte. */
  method EncodeToString(src: seq<byte>) returns (s: string)
    ensures s == Hex(src)
    ensures |s| == 2 * |src| && IsLowerHex(s)
    ensures Unhex(s) == Some(src)
  {
    var dst := new char[2 * |src|];
    var i := 0;
    while i < |src|
      invariant 0 <= i <= |src|
      invariant forall k :: 0 <= k < i ==> dst[2 * k] == HighDigit(src[k]) && dst[2 * k + 1] == LowDigit(src[k])
    {
      dst[2 * i] := HexTable[src[i] as int / 16];
      dst[2 * i + 1] := HexTable[src[i] as int % 16];
      i := i + 1;
    }
    s := dst[..];
    HexLength(src);
    forall j | 0 <= j < |s| ensures s[j] == Hex(src)[j] {
      HexAt(src, j / 2);
    }
    assert s == Hex(src);
    UnhexHex(src);
  }
}
