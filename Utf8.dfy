/**
 * UTF-8 as defined in section 3 of RFC 3629: the byte form of a string, the
 * validity check that `std::str::from_utf8` performs, and the character
 * boundaries that byte offsets into a Rust `String` must respect.
 */
module Utf8 {
  import opened Wrappers

  type byte = b: int | 0 <= b < 256

  /** Number of bytes the RFC 3629 table uses for one scalar value. */
  function Width(c: char): (n: nat)
    ensures 1 <= n <= 4
    ensures n == 1 <==> c as int < 0x80
  {
    if c as int < 0x80 then 1
    else if c as int < 0x800 then 2
    else if c as int < 0x10000 then 3
    else 4
  }

  /** Byte length of a string, what Rust's `str::len` returns. */
  function ByteLen(s: string): nat
  {
    if s == [] then 0 else Width(s[0]) + ByteLen(s[1..])
  }

  /** True when every character is ASCII, so that bytes and characters coincide. */
  predicate IsAscii(s: string)
  {
    forall i :: 0 <= i < |s| ==> s[i] as int < 0x80
  }

  /** The byte sequence of one character (RFC 3629, section 3). */
  function EncodeChar(c: char): (bs: seq<byte>)
    ensures |bs| == Width(c)
  {
    var n := c as int;
    if n < 0x80 then [n]
    else if n < 0x800 then [0xC0 + n / 0x40, 0x80 + n % 0x40]
    else if n < 0x10000 then [0xE0 + n / 0x1000, 0x80 + (n / 0x40) % 0x40, 0x80 + n % 0x40]
    else [0xF0 + n / 0x40000, 0x80 + (n / 0x1000) % 0x40, 0x80 + (n / 0x40) % 0x40, 0x80 + n % 0x40]
  }

  /** The byte sequence of a string: what `str::as_bytes` returns. */
  function Encode(s: string): (bs: seq<byte>)
    ensures |bs| == ByteLen(s)
  {
    if s == [] then [] else EncodeChar(s[0]) + Encode(s[1..])
  }

  predicate IsContinuation(b: byte)
  {
    0x80 <= b < 0xC0
  }

  /** The value bits of a byte once its marker bits `mark` are taken off. */
  function Payload(b: byte, mark: int): int
  {
    b as int - mark
  }

  /** The sequence length announced by a leading byte; 0 for a byte that cannot lead. */
  function LeadWidth(b: byte): nat
  {
    if b < 0x80 then 1
    else if 0xC2 <= b < 0xE0 then 2
    else if 0xE0 <= b < 0xF0 then 3
    else if 0xF0 <= b < 0xF5 then 4
    else 0
  }

  /**
   * Decodes the character at the front of `bs`, with its byte count, or
   * None when the front is not a well-formed, shortest-form UTF-8 sequence
   * of a scalar value (overlong forms, surrogates and values above U+10FFFF
   * are rejected, as in RFC 3629).
   */
  function DecodeFirst(bs: seq<byte>): (r: Option<(char, nat)>)
    ensures r.Some? ==> 1 <= r.value.1 <= |bs| && r.value.1 == LeadWidth(bs[0])
  {
    if bs == [] then None
    else
      var w := LeadWidth(bs[0]);
      if w == 0 || |bs| < w then None
      else if w == 1 then Some((bs[0] as char, 1))
      else if !IsContinuation(bs[1]) then None
      else if w == 2 then
        Some(((Payload(bs[0], 0xC0) * 0x40 + Payload(bs[1], 0x80)) as char, 2))
      else if !IsContinuation(bs[2]) then None
      else if w == 3 then
        var v := Payload(bs[0], 0xE0) * 0x1000 + Payload(bs[1], 0x80) * 0x40 + Payload(bs[2], 0x80);
        if v < 0x800 || (0xD800 <= v < 0xE000) then None else Some((v as char, 3))
      else if !IsContinuation(bs[3]) then None
      else
        var v := Payload(bs[0], 0xF0) * 0x40000 + Payload(bs[1], 0x80) * 0x1000
          + Payload(bs[2], 0x80) * 0x40 + Payload(bs[3], 0x80);
        if v < 0x10000 || v > 0x10FFFF then None else Some((v as char, 4))
  }

  /** `std::str::from_utf8`: the string the bytes spell, or None when they are not valid UTF-8. */
  function Decode(bs: seq<byte>): Option<string>
    decreases |bs|
  {
    if bs == [] then Some([])
    else match DecodeFirst(bs)
      case None => None
      case Some((c, n)) =>
        match Decode(bs[n..])
        case None => None
        case Some(rest) => Some([c] + rest)
  }

  predicate Valid(bs: seq<byte>)
  {
    Decode(bs).Some?
  }

  /** The longest prefix of `s` whose encoding fits in `budget` bytes. */
  function FitPrefix(s: string, budget: nat): (p: string)
    ensures p <= s
    ensures ByteLen(p) <= budget
    ensures p == s || ByteLen(s[..|p| + 1]) > budget
  {
    if s == [] || Width(s[0]) > budget then []
    else
      var rest := FitPrefix(s[1..], budget - Width(s[0]));
      PrefixCons(s, |rest|);
      [s[0]] + rest
  }

  // ---------------------------------------------------------------- lemmas

  /** A prefix of a non-empty string is its first character then a prefix of the rest. */
  lemma PrefixCons(s: string, n: nat)
    requires n < |s|
    ensures s[..n + 1] == [s[0]] + s[1..][..n]
    ensures n + 1 < |s| ==> s[..n + 2] == [s[0]] + s[1..][..n + 1]
  {
  }

  lemma {:induction false} ByteLenAppend(a: string, b: string)
    ensures ByteLen(a + b) == ByteLen(a) + ByteLen(b)
  {
    if a == [] {
      assert a + b == b;
    } else {
      assert (a + b)[1..] == a[1..] + b;
      ByteLenAppend(a[1..], b);
    }
  }

  lemma {:induction false} EncodeAppend(a: string, b: string)
    ensures Encode(a + b) == Encode(a) + Encode(b)
  {
    if a == [] {
      assert a + b == b;
    } else {
      assert (a + b)[1..] == a[1..] + b;
      EncodeAppend(a[1..], b);
    }
  }

  lemma {:induction false} ByteLenPrefixMonotone(s: string, i: nat, j: nat)
    requires i <= j <= |s|
    ensures ByteLen(s[..i]) <= ByteLen(s[..j])
    ensures i < j ==> ByteLen(s[..i]) < ByteLen(s[..j])
  {
    assert s[..j] == s[..i] + s[i..j];
    ByteLenAppend(s[..i], s[i..j]);
    if i < j {
      assert s[i..j] == [s[i]] + s[i + 1..j];
    }
  }

  lemma AsciiByteLen(s: string)
    requires IsAscii(s)
    ensures ByteLen(s) == |s|
  {
    if s != [] {
      AsciiTail(s);
      AsciiByteLen(s[1..]);
    }
  }

  /** In ASCII text the prefix that fits in `b` bytes has `min(b, |s|)` characters. */
  lemma {:induction false} AsciiFitPrefix(s: string, b: nat)
    requires IsAscii(s)
    ensures |FitPrefix(s, b)| == if b < |s| then b else |s|
  {
    if s != [] && b > 0 {
      AsciiTail(s);
      assert FitPrefix(s, b) == [s[0]] + FitPrefix(s[1..], b - 1);
      AsciiFitPrefix(s[1..], b - 1);
    }
  }

  lemma AsciiTail(s: string)
    requires IsAscii(s) && s != []
    ensures IsAscii(s[1..]) && Width(s[0]) == 1
  {
    forall i | 0 <= i < |s[1..]| ensures s[1..][i] as int < 0x80 { assert s[1..][i] == s[i + 1]; }
  }

  /** A string that fits in the budget is its own fitting prefix. */
  lemma {:induction false} FitPrefixWhole(s: string, budget: nat)
    requires ByteLen(s) <= budget
    ensures FitPrefix(s, budget) == s
  {
    if s != [] {
      FitPrefixWhole(s[1..], budget - Width(s[0]));
    }
  }

  /** The fitting prefix of a prefix-aligned byte count is exactly that prefix. */
  lemma {:induction false} FitPrefixAtBoundary(s: string, k: nat)
    requires k <= |s|
    ensures FitPrefix(s, ByteLen(s[..k])) == s[..k]
  {
    var p := FitPrefix(s, ByteLen(s[..k]));
    if |p| < k {
      ByteLenPrefixMonotone(s, |p| + 1, k);
    } else if |p| > k {
      assert p == s[..|p|];
      ByteLenPrefixMonotone(s, k, |p|);
    }
  }

  /** A larger budget never fits fewer characters. */
  lemma FitPrefixMonotone(s: string, a: nat, b: nat)
    requires a <= b
    ensures |FitPrefix(s, a)| <= |FitPrefix(s, b)|
  {
  }

  lemma Split2(n: int)
    requires 0x80 <= n < 0x800
    ensures 0xC2 <= 0xC0 + n / 0x40 < 0xE0
    ensures (n / 0x40) * 0x40 + n % 0x40 == n
  {
  }

  lemma Split3(n: int)
    requires 0x800 <= n < 0x10000
    ensures 0 <= n / 0x1000 < 0x10
    ensures (n / 0x1000) * 0x1000 + ((n / 0x40) % 0x40) * 0x40 + n % 0x40 == n
  {
    var q := n / 0x40;
    assert q * 0x40 + n % 0x40 == n;
    assert (q / 0x40) * 0x40 + q % 0x40 == q;
    assert q / 0x40 == n / 0x1000;
  }

  lemma Split4(n: int)
    requires 0x10000 <= n <= 0x10FFFF
    ensures 0 <= n / 0x40000 < 5
    ensures (n / 0x40000) * 0x40000 + ((n / 0x1000) % 0x40) * 0x1000
      + ((n / 0x40) % 0x40) * 0x40 + n % 0x40 == n
  {
    var q := n / 0x40;
    var r := q / 0x40;
    assert q * 0x40 + n % 0x40 == n;
    assert r * 0x40 + q % 0x40 == q;
    assert (r / 0x40) * 0x40 + r % 0x40 == r;
    assert r == n / 0x1000;
    assert r / 0x40 == n / 0x40000;
  }

  lemma DecodeFirstEncodeChar(c: char, rest: seq<byte>)
    ensures DecodeFirst(EncodeChar(c) + rest) == Some((c, Width(c)))
  {
    var bs := EncodeChar(c) + rest;
    var n := c as int;
    if n < 0x80 {
    } else if n < 0x800 {
      Split2(n);
      assert Payload(bs[0], 0xC0) * 0x40 + Payload(bs[1], 0x80) == n;
    } else if n < 0x10000 {
      Split3(n);
      assert Payload(bs[0], 0xE0) * 0x1000 + Payload(bs[1], 0x80) * 0x40 + Payload(bs[2], 0x80) == n;
    } else {
      Split4(n);
      assert Payload(bs[0], 0xF0) * 0x40000 + Payload(bs[1], 0x80) * 0x1000
        + Payload(bs[2], 0x80) * 0x40 + Payload(bs[3], 0x80) == n;
    }
  }

  /** Decoding inverts encoding: every encoded string is valid UTF-8. */
  lemma {:induction false} DecodeEncode(s: string)
    ensures Decode(Encode(s)) == Some(s)
  {
    if s != [] {
      var bs := Encode(s);
      DecodeFirstEncodeChar(s[0], Encode(s[1..]));
      assert bs[Width(s[0])..] == Encode(s[1..]);
      DecodeEncode(s[1..]);
      assert [s[0]] + s[1..] == s;
    }
  }

  lemma LeadWidthEncodeChar(c: char)
    ensures LeadWidth(EncodeChar(c)[0]) == Width(c)
  {
  }

  /**
   * A byte prefix of an encoded string is valid UTF-8 only when it ends on a
   * character boundary, and then it spells a character prefix of the string.
   */
  lemma {:induction false} ValidPrefixIsBoundary(s: string, l: nat)
    requires l <= ByteLen(s)
    requires Valid(Encode(s)[..l])
    ensures exists k :: 0 <= k <= |s| && ByteLen(s[..k]) == l && Encode(s)[..l] == Encode(s[..k])
  {
    if l == 0 {
      assert ByteLen(s[..0]) == 0 && Encode(s[..0]) == [];
    } else {
      var w := Width(s[0]);
      ValidPrefixStep(s, l);
      ValidPrefixIsBoundary(s[1..], l - w);
      var k :| 0 <= k <= |s[1..]| && ByteLen(s[1..][..k]) == l - w && Encode(s[1..])[..l - w] == Encode(s[1..][..k]);
      assert s[..k + 1] == [s[0]] + s[1..][..k];
      assert Encode(s[..k + 1]) == EncodeChar(s[0]) + Encode(s[1..][..k]);
    }
  }

  /** A valid non-empty byte prefix holds the whole first character, and what follows it is again valid. */
  lemma ValidPrefixStep(s: string, l: nat)
    requires 0 < l <= ByteLen(s)
    requires Valid(Encode(s)[..l])
    ensures s != [] && Width(s[0]) <= l
    ensures Encode(s)[..l] == EncodeChar(s[0]) + Encode(s[1..])[..l - Width(s[0])]
    ensures Valid(Encode(s[1..])[..l - Width(s[0])])
  {
    var w := Width(s[0]);
    var bs := Encode(s)[..l];
    EncodeFront(s, l);
    LeadWidthEncodeChar(s[0]);
    ValidFront(bs);
  }

  /** The first bytes of an encoded string are its first character's bytes. */
  lemma EncodeFront(s: string, l: nat)
    requires 0 < l <= ByteLen(s)
    ensures s != [] && Encode(s)[..l][0] == EncodeChar(s[0])[0]
    ensures Width(s[0]) <= l ==>
      Encode(s)[..l] == EncodeChar(s[0]) + Encode(s[1..])[..l - Width(s[0])]
      && Encode(s)[..l][Width(s[0])..] == Encode(s[1..])[..l - Width(s[0])]
  {
    var e := Encode(s);
    var c := EncodeChar(s[0]);
    var t := Encode(s[1..]);
    assert e == c + t;
    if |c| <= l {
      assert e[..l] == c + t[..l - |c|];
      assert e[..l][|c|..] == t[..l - |c|];
    }
  }

  /** A valid non-empty byte string starts with a whole character, and the bytes after it are valid. */
  lemma ValidFront(bs: seq<byte>)
    requires bs != [] && Valid(bs)
    ensures LeadWidth(bs[0]) <= |bs| && Valid(bs[LeadWidth(bs[0])..])
  {
    var first := DecodeFirst(bs);
    assert first.Some?;
    assert Decode(bs[first.value.1..]).Some?;
  }

  /** The byte prefix at a character boundary is the encoding of the character prefix. */
  lemma EncodePrefix(s: string, k: nat)
    requires k <= |s|
    ensures Encode(s[..k]) <= Encode(s)
  {
    assert s == s[..k] + s[k..];
    EncodeAppend(s[..k], s[k..]);
  }
}
