/** `bytes.hex()`: two lower-case hexadecimal digits per byte, no separator. */
module Hex {
  import opened Primitives

  const Digits := "0123456789abcdef"

  function Hex(bs: seq<byte>): (s: string)
    ensures |s| == 2 * |bs|
    ensures forall i :: 0 <= i < |s| ==> s[i] in Digits
  {
    if bs == [] then []
    else [Digits[bs[0] as int / 16], Digits[bs[0] as int % 16]] + Hex(bs[1..])
  }

  /** The value of one lower-case hexadecimal digit. */
  function DigitValue(c: char): (v: Option<int>)
    ensures v.Some? ==> 0 <= v.value < 16 && Digits[v.value] == c
    ensures c in Digits ==> v.Some?
  {
    if '0' <= c <= '9' then Some(c as int - '0' as int)
    else if 'a' <= c <= 'f' then Some(c as int - 'a' as int + 10)
    else None
  }

  /** `bytes.fromhex` restricted to the lower-case, unseparated form `Hex` produces. */
  function Unhex(s: string): Option<seq<byte>>
  {
    if |s| < 2 then (if s == [] then Some([]) else None)
    else match (DigitValue(s[0]), DigitValue(s[1]), Unhex(s[2..]))
      case (Some(hi), Some(lo), Some(rest)) => Some([(hi * 16 + lo) as byte] + rest)
      case _ => None
  }

  lemma DigitValueAt(k: int)
    requires 0 <= k < 16
    ensures DigitValue(Digits[k]) == Some(k)
  {
    assert Digits[k] as int == if k < 10 then '0' as int + k else 'a' as int + k - 10;
  }

  /** The dump determines the bytes it was made from. */
  lemma {:induction false} UnhexHex(bs: seq<byte>)
    ensures Unhex(Hex(bs)) == Some(bs)
  {
    if bs != [] {
      UnhexHex(bs[1..]);
      UnhexPair(bs[0], Hex(bs[1..]));
      assert [bs[0]] + bs[1..] == bs;
    }
  }

  /** The two digits of one byte are read back as that byte, ahead of the rest. */
  lemma UnhexPair(b: byte, rest: string)
    ensures Unhex([Digits[b as int / 16], Digits[b as int % 16]] + rest)
         == if Unhex(rest).Some? then Some([b] + Unhex(rest).value) else None
  {
    var hi, lo := b as int / 16, b as int % 16;
    var s := [Digits[hi], Digits[lo]] + rest;
    assert s[0] == Digits[hi] && s[1] == Digits[lo] && s[2..] == rest;
    DigitValueAt(hi);
    DigitValueAt(lo);
    UnhexStep(s, hi, lo);
    assert (hi * 16 + lo) as byte == b;
  }

  /** Two digits at the front are read as one byte, ahead of the rest. */
  lemma UnhexStep(s: string, hi: int, lo: int)
    requires |s| >= 2 && DigitValue(s[0]) == Some(hi) && DigitValue(s[1]) == Some(lo)
    ensures Unhex(s) == if Unhex(s[2..]).Some? then Some([(hi * 16 + lo) as byte] + Unhex(s[2..]).value) else None
  {
  }
}
