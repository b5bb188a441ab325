/**
 * The keyring lookup description built by validate_user_key: the key prefix followed by the
 * lowercase hexadecimal encoding ("%*phN") of the master-key descriptor, NUL-terminated.
 */
module KeyDescription {
  import opened FscryptConsts

  /** The lowercase hexadecimal digit of a nibble. */
  function HexDigit(n: int): (c: char)
    requires 0 <= n < 16
    ensures IsLowerHex(c) && HexValue(c) == n
  {
    if n < 10 then (48 + n) as char else (87 + n) as char
  }

  predicate IsLowerHex(c: char) {
    '0' <= c <= '9' || 'a' <= c <= 'f'
  }

  /** The nibble a lowercase hexadecimal digit stands for. */
  function HexValue(c: char): (n: int)
    requires IsLowerHex(c)
    ensures 0 <= n < 16
  {
    if c <= '9' then c as int - 48 else c as int - 87
  }

  /** "%*phN" of a byte sequence: two digits per byte, high nibble first, no separator. */
  function Hex(s: seq<byte>): (r: seq<char>)
    ensures |r| == 2 * |s|
    ensures forall i :: 0 <= i < |r| ==> IsLowerHex(r[i])
  {
    if s == [] then [] else [HexDigit(s[0] as int / 16), HexDigit(s[0] as int % 16)] + Hex(s[1..])
  }

  /** Reads back a sequence of hexadecimal digit pairs. */
  function Unhex(r: seq<char>): (s: seq<byte>)
    requires |r| % 2 == 0
    requires forall i :: 0 <= i < |r| ==> IsLowerHex(r[i])
    ensures |s| == |r| / 2
  {
    if r == [] then [] else [(16 * HexValue(r[0]) + HexValue(r[1])) as byte] + Unhex(r[2..])
  }

  /** The description looked up in the keyring (without its terminating NUL). */
  function Description(prefix: string, d: Descriptor): string {
    prefix + Hex(d)
  }

  /** The two digits at positions 2j and 2j+1 encode byte j. */
  lemma {:induction false} HexAt(s: seq<byte>, j: int)
    requires 0 <= j < |s|
    ensures Hex(s)[2 * j] == HexDigit(s[j] as int / 16)
    ensures Hex(s)[2 * j + 1] == HexDigit(s[j] as int % 16)
  {
    if j > 0 {
      HexAt(s[1..], j - 1);
    }
  }

  /** The hexadecimal encoding loses nothing: the descriptor can be read back from it. */
  lemma {:induction false} UnhexHex(s: seq<byte>)
    ensures Unhex(Hex(s)) == s
  {
    if s != [] {
      var r := Hex(s);
      var b := s[0] as int;
      assert r[2..] == Hex(s[1..]);
      assert 16 * (b / 16) + b % 16 == b;
      UnhexHex(s[1..]);
    }
  }

  /**
   * The lookup description has length strlen(prefix) + 2 * FS_KEY_DESCRIPTOR_SIZE, starts with the
   * prefix and ends with hexadecimal digits that decode to the descriptor.
   */
  lemma DescriptionShape(prefix: string, d: Descriptor)
    ensures |Description(prefix, d)| == |prefix| + 2 * FS_KEY_DESCRIPTOR_SIZE
    ensures Description(prefix, d)[..|prefix|] == prefix
    ensures Unhex(Description(prefix, d)[|prefix|..]) == d
  {
    var r := Description(prefix, d);
    assert r[|prefix|..] == Hex(d);
    UnhexHex(d);
  }

  /**
   * validate_user_key's buffer: memcpy of the prefix, sprintf of the descriptor digits, and the NUL
   * stored at index full_key_len - 1.
   */
  method BuildDescription(prefix: string, d: Descriptor) returns (buf: array<char>)
    ensures fresh(buf)
    ensures buf.Length == |prefix| + FS_KEY_DESCRIPTOR_SIZE * 2 + 1
    ensures buf[..] == Description(prefix, d) + ['\0']
  {
    var prefixSize := |prefix|;
    var fullKeyLen := prefixSize + FS_KEY_DESCRIPTOR_SIZE * 2 + 1;
    buf := new char[fullKeyLen];
    var i := 0;
    while i < prefixSize
      invariant 0 <= i <= prefixSize
      invariant forall k :: 0 <= k < i ==> buf[k] == prefix[k]
    {
      buf[i] := prefix[i];
      i := i + 1;
    }
    var j := 0;
    while j < FS_KEY_DESCRIPTOR_SIZE
      invariant 0 <= j <= FS_KEY_DESCRIPTOR_SIZE
      invariant forall k :: 0 <= k < prefixSize ==> buf[k] == prefix[k]
      invariant forall k :: 0 <= k < 2 * j ==> buf[prefixSize + k] == Hex(d)[k]
    {
      HexAt(d, j);
      buf[prefixSize + 2 * j] := HexDigit(d[j] as int / 16);
      buf[prefixSize + 2 * j + 1] := HexDigit(d[j] as int % 16);
      j := j + 1;
    }
    buf[fullKeyLen - 1] := '\0';
    ghost var want := Description(prefix, d) + ['\0'];
    forall k | 0 <= k < fullKeyLen ensures buf[k] == want[k] {
      if prefixSize <= k < fullKeyLen - 1 {
        assert buf[prefixSize + (k - prefixSize)] == Hex(d)[k - prefixSize];
      }
    }
    assert buf[..] == want;
  }
}
