/**
 * print_sha256: the text form of a SHA-256 digest, two lowercase hex digits
 * per byte, into a buffer of HASH_LEN * 2 + 1 characters that ends in a NUL.
 */
module HashPrint {
  import opened OtaTypes

  /** HASH_LEN: the length of a SHA-256 digest. */
  const HASH_LEN: nat := 32

  /** The digit `%x` prints for a value below 16: '0' to '9', then 'a' to 'f'. */
  function HexDigit(n: nat): char
    requires n < 16
  {
    if n < 10 then ('0' as int + n) as char else ('a' as int + n - 10) as char
  }

  predicate IsHexDigit(c: char)
  {
    ('0' <= c <= '9') || ('a' <= c <= 'f')
  }

  /** The value of a lowercase hex digit (0 for any other character). */
  function DigitValue(c: char): (n: nat)
    ensures n < 16
  {
    if '0' <= c <= '9' then c as int - '0' as int
    else if 'a' <= c <= 'f' then c as int - 'a' as int + 10
    else 0
  }

  /** Reading back a digit gives the value it was printed for, and every printed digit is lowercase hex. */
  lemma HexDigitValue(n: nat)
    requires n < 16
    ensures IsHexDigit(HexDigit(n)) && DigitValue(HexDigit(n)) == n
  {
  }

  /** What `%02x` prints for one byte: the high digit, then the low one. */
  function ByteHex(b: byte): (h: seq<char>)
    ensures |h| == 2 && IsHexDigit(h[0]) && IsHexDigit(h[1])
    ensures 16 * DigitValue(h[0]) + DigitValue(h[1]) == b as int
  {
    HexDigitValue(b as nat / 16);
    HexDigitValue(b as nat % 16);
    [HexDigit(b as nat / 16), HexDigit(b as nat % 16)]
  }

  predicate IsLowerHex(t: seq<char>)
  {
    forall k :: 0 <= k < |t| ==> IsHexDigit(t[k])
  }

  /** The bytes of `s` printed one after the other: two characters per byte. */
  function HexString(s: seq<byte>): (h: seq<char>)
    ensures |h| == 2 * |s|
  {
    if s == [] then [] else HexString(s[..|s| - 1]) + ByteHex(s[|s| - 1])
  }

  /** Every character of a printed digest is a lowercase hex digit. */
  lemma {:induction false} HexStringIsLowerHex(s: seq<byte>)
    ensures IsLowerHex(HexString(s))
    decreases |s|
  {
    if s != [] {
      var front, last := HexString(s[..|s| - 1]), ByteHex(s[|s| - 1]);
      HexStringIsLowerHex(s[..|s| - 1]);
      assert HexString(s) == front + last;
      forall k | 0 <= k < |front| + 2 ensures IsHexDigit((front + last)[k]) {
        if k < |front| {
          assert (front + last)[k] == front[k];
        } else {
          assert (front + last)[k] == last[k - |front|];
        }
      }
    }
  }

  /** Parsing hex text back into bytes, two digits per byte (a trailing odd digit is dropped). */
  function Unhex(t: seq<char>): (s: seq<byte>)
    ensures |s| == |t| / 2
  {
    if |t| < 2 then []
    else
      var n := |t|;
      Unhex(t[..n - 2]) + [(16 * DigitValue(t[n - 2]) + DigitValue(t[n - 1])) as byte]
  }

  /** Parsing the printed digest gives back the digest. */
  lemma {:induction false} UnhexHexString(s: seq<byte>)
    ensures Unhex(HexString(s)) == s
    decreases |s|
  {
    if s != [] {
      var init, b := s[..|s| - 1], s[|s| - 1];
      var digits := ByteHex(b);
      assert HexString(s) == HexString(init) + digits;
      UnhexHexString(init);
      assert digits == [digits[0], digits[1]];
      UnhexAppendPair(HexString(init), digits[0], digits[1]);
      SplitLast(s);
    }
  }

  /** Reading two more digits appends the byte they spell. */
  lemma UnhexAppendPair(u: seq<char>, c: char, d: char)
    ensures Unhex(u + [c, d]) == Unhex(u) + [(16 * DigitValue(c) + DigitValue(d)) as byte]
  {
    var t := u + [c, d];
    assert t[..|t| - 2] == u && t[|t| - 2] == c && t[|t| - 1] == d;
  }

  lemma SplitLast(s: seq<byte>)
    requires s != []
    ensures s == s[..|s| - 1] + [s[|s| - 1]]
  {
  }

  /** Printing parsed text gives back the text: every lowercase hex string of even length is some digest's form. */
  lemma {:induction false} HexStringUnhex(t: seq<char>)
    requires |t| % 2 == 0 && IsLowerHex(t)
    ensures HexString(Unhex(t)) == t
    decreases |t|
  {
    if t == [] {
      assert Unhex(t) == [];
    } else {
      LowerHexPrefix(t, |t| - 2);
      HexStringUnhex(t[..|t| - 2]);
      SplitLastPair(t);
      UnhexPairStep(t[..|t| - 2], t[|t| - 2], t[|t| - 1]);
    }
  }

  /** A prefix of lowercase hex text is lowercase hex. */
  lemma LowerHexPrefix(t: seq<char>, n: nat)
    requires n <= |t| && IsLowerHex(t)
    ensures IsLowerHex(t[..n])
  {
    forall k | 0 <= k < n ensures IsHexDigit(t[..n][k]) {
      assert t[..n][k] == t[k];
    }
  }

  /** The step of HexStringUnhex: two more digits read and printed again come back as themselves. */
  lemma UnhexPairStep(front: seq<char>, c: char, d: char)
    requires IsHexDigit(c) && IsHexDigit(d)
    ensures HexString(Unhex(front + [c, d])) == HexString(Unhex(front)) + [c, d]
  {
    var b := (16 * DigitValue(c) + DigitValue(d)) as byte;
    UnhexAppendPair(front, c, d);
    HexStringAppend(Unhex(front), b);
    PairRoundTrip(c, d, b);
  }

  lemma SplitLastPair(t: seq<char>)
    requires |t| >= 2
    ensures t == t[..|t| - 2] + [t[|t| - 2], t[|t| - 1]]
  {
    assert t[|t| - 2..] == [t[|t| - 2], t[|t| - 1]];
    assert t == t[..|t| - 2] + t[|t| - 2..];
  }

  /** Printing one more byte appends its two digits. */
  lemma HexStringAppend(s: seq<byte>, b: byte)
    ensures HexString(s + [b]) == HexString(s) + ByteHex(b)
  {
    assert (s + [b])[..|s|] == s;
  }

  /** Two lowercase hex digits read as a byte print as themselves. */
  lemma PairRoundTrip(c: char, d: char, b: byte)
    requires IsHexDigit(c) && IsHexDigit(d) && b as int == 16 * DigitValue(c) + DigitValue(d)
    ensures ByteHex(b) == [c, d]
  {
    var last := ByteHex(b);
    HexPairUnique(DigitValue(last[0]), DigitValue(last[1]), DigitValue(c), DigitValue(d));
    DigitValueInjective(last[0], c);
    DigitValueInjective(last[1], d);
  }

  /** A value below 256 has one pair of hex digits. */
  lemma HexPairUnique(a: nat, b: nat, c: nat, d: nat)
    requires a < 16 && b < 16 && c < 16 && d < 16 && 16 * a + b == 16 * c + d
    ensures a == c && b == d
  {
  }

  /** Two lowercase hex digits with the same value are the same digit. */
  lemma DigitValueInjective(c: char, d: char)
    requires IsHexDigit(c) && IsHexDigit(d) && DigitValue(c) == DigitValue(d)
    ensures c == d
  {
  }

  /** Digests that print the same are the same digest. */
  lemma HexStringInjective(s: seq<byte>, s': seq<byte>)
    requires HexString(s) == HexString(s')
    ensures s == s'
  {
    UnhexHexString(s);
    UnhexHexString(s');
  }

  /** What one `sprintf` leaves in the buffer: its two digits after what was there, then its NUL. */
  lemma WriteDigits(b: seq<char>, k: nat, digits: seq<char>)
    requires |digits| == 2 && k + 3 <= |b|
    ensures b[k := digits[0]][k + 1 := digits[1]][k + 2 := '\0'][..k + 2] == b[..k] + digits
  {
  }

  /** Printing one byte more of the digest. */
  lemma HexStringPrefix(s: seq<byte>, i: nat)
    requires i < |s|
    ensures HexString(s[..i + 1]) == HexString(s[..i]) + ByteHex(s[i])
  {
    assert s[..i + 1][..i] == s[..i];
  }

  /**
   * The buffer hash_print: the terminating NUL is stored first, then each
   * `sprintf("%02x")` writes two digits and its own NUL, which the next
   * iteration overwrites. The result is the digest's text form and one NUL.
   */
  method PrintSha256(imageHash: seq<byte>) returns (hashPrint: seq<char>)
    requires |imageHash| == HASH_LEN
    ensures hashPrint == HexString(imageHash) + ['\0']
  {
    var buf := new char[HASH_LEN * 2 + 1];
    buf[HASH_LEN * 2] := '\0';
    for i := 0 to HASH_LEN
      invariant buf[..2 * i] == HexString(imageHash[..i])
      invariant buf[HASH_LEN * 2] == '\0'
    {
      var digits := ByteHex(imageHash[i]);
      ghost var before := buf[..];
      buf[2 * i] := digits[0];
      buf[2 * i + 1] := digits[1];
      buf[2 * i + 2] := '\0';
      assert buf[..] == before[2 * i := digits[0]][2 * i + 1 := digits[1]][2 * i + 2 := '\0'];
      WriteDigits(before, 2 * i, digits);
      HexStringPrefix(imageHash, i);
    }
    assert imageHash[..HASH_LEN] == imageHash;
    assert buf[..] == buf[..2 * HASH_LEN] + [buf[2 * HASH_LEN]];
    hashPrint := buf[..];
  }
}
