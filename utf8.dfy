/**
  UTF-8, the encoding of a Rust `String`. `Encode` gives the bytes of a
  text (`str::as_bytes`), and `Decode` is `String::from_utf8`: it accepts
  exactly the well-formed byte sequences of the Unicode Standard (no
  overlong form, no surrogate, nothing above U+10FFFF) and refuses every
  other.
 */
module Utf8 {
  import opened Wrappers
  import opened Text

  type Byte = x: int | 0 <= x < 0x100

  /** The bytes of one character: as many as its UTF-8 width. */
  function EncodeChar(c: char): (r: seq<Byte>)
    ensures |r| == Utf8Width(c)
  {
    var n := c as int;
    if n < 0x80 then [n]
    else if n < 0x800 then [0xC0 + n / 0x40, 0x80 + n % 0x40]
    else if n < 0x10000 then [0xE0 + n / 0x1000, 0x80 + (n / 0x40) % 0x40, 0x80 + n % 0x40]
    else [0xF0 + n / 0x40000, 0x80 + (n / 0x1000) % 0x40, 0x80 + (n / 0x40) % 0x40, 0x80 + n % 0x40]
  }

  /** `str::as_bytes`: the bytes of every character in turn, `ByteLen` of
      them. */
  function Encode(s: string): (r: seq<Byte>)
    ensures |r| == ByteLen(s)
  {
    if s == [] then [] else EncodeChar(s[0]) + Encode(s[1..])
  }

  /** A byte `10xxxxxx` that continues a character. */
  predicate IsContinuation(b: Byte) {
    0x80 <= b < 0xC0
  }

  /** A character decoded from the front of some bytes, and how many bytes
      it took. */
  datatype Decoded = Decoded(c: char, width: nat)

  /** The character the bytes start with, if they start with a well-formed
      encoding of one. */
  function DecodeChar(bytes: seq<Byte>): (r: Option<Decoded>)
    ensures r.Some? ==> 1 <= r.value.width <= |bytes|
  {
    if bytes == [] then None
    else
      var b0: int := bytes[0];
      if b0 < 0x80 then Some(Decoded(b0 as char, 1))
      else if 0xC0 <= b0 < 0xE0 && |bytes| >= 2 && IsContinuation(bytes[1]) then
        var n := (b0 - 0xC0) * 0x40 + (bytes[1] as int - 0x80);
        if n >= 0x80 then Some(Decoded(n as char, 2)) else None
      else if 0xE0 <= b0 < 0xF0 && |bytes| >= 3 && IsContinuation(bytes[1]) && IsContinuation(bytes[2]) then
        var n := (b0 - 0xE0) * 0x1000 + (bytes[1] as int - 0x80) * 0x40 + (bytes[2] as int - 0x80);
        if n >= 0x800 && !(0xD800 <= n < 0xE000) then Some(Decoded(n as char, 3)) else None
      else if 0xF0 <= b0 < 0xF8 && |bytes| >= 4 && IsContinuation(bytes[1]) && IsContinuation(bytes[2])
              && IsContinuation(bytes[3]) then
        var n := (b0 - 0xF0) * 0x40000 + (bytes[1] as int - 0x80) * 0x1000 + (bytes[2] as int - 0x80) * 0x40 + (bytes[3] as int - 0x80);
        if 0x10000 <= n < 0x110000 then Some(Decoded(n as char, 4)) else None
      else None
  }

  /** `String::from_utf8`: the text the bytes encode, or `None` when they
      are not well-formed UTF-8. */
  function Decode(bytes: seq<Byte>): Option<string>
    decreases |bytes|
  {
    if bytes == [] then Some([])
    else
      match DecodeChar(bytes)
      case None => None
      case Some(d) =>
        match Decode(bytes[d.width..])
        case None => None
        case Some(rest) => Some([d.c] + rest)
  }

  // ---------------------------------------------------------------------
  // Properties
  // ---------------------------------------------------------------------

  /** A character's encoding, whatever follows it, decodes to that
      character. */
  lemma DecodeEncodeChar(c: char, rest: seq<Byte>)
    ensures DecodeChar(EncodeChar(c) + rest) == Some(Decoded(c, Utf8Width(c)))
  {
    var n := c as int;
    if 0x80 <= n < 0x800 {
      DecodeTwo(c, rest);
    } else if 0x800 <= n < 0x10000 {
      DecodeThree(c, rest);
    } else if 0x10000 <= n {
      DecodeFour(c, rest);
    }
  }

  lemma DecodeTwo(c: char, rest: seq<Byte>)
    requires 0x80 <= c as int < 0x800
    ensures DecodeChar(EncodeChar(c) + rest) == Some(Decoded(c, 2))
  {
    var n := c as int;
    var bytes := EncodeChar(c) + rest;
    assert bytes[0] == 0xC0 + n / 0x40 && bytes[1] == 0x80 + n % 0x40;
  }

  lemma DecodeThree(c: char, rest: seq<Byte>)
    requires 0x800 <= c as int < 0x10000
    ensures DecodeChar(EncodeChar(c) + rest) == Some(Decoded(c, 3))
  {
    var n := c as int;
    var bytes := EncodeChar(c) + rest;
    var hi, mid, lo := n / 0x1000, (n / 0x40) % 0x40, n % 0x40;
    assert bytes[0] == 0xE0 + hi && bytes[1] == 0x80 + mid && bytes[2] == 0x80 + lo;
    Digits(n, 0x40);
    Digits(n / 0x40, 0x40);
    assert n / 0x40 / 0x40 == hi;
  }

  lemma DecodeFour(c: char, rest: seq<Byte>)
    requires 0x10000 <= c as int
    ensures DecodeChar(EncodeChar(c) + rest) == Some(Decoded(c, 4))
  {
    var n := c as int;
    var bytes := EncodeChar(c) + rest;
    var top, hi, mid, lo := n / 0x40000, (n / 0x1000) % 0x40, (n / 0x40) % 0x40, n % 0x40;
    assert bytes[0] == 0xF0 + top && bytes[1] == 0x80 + hi && bytes[2] == 0x80 + mid && bytes[3] == 0x80 + lo;
    Digits(n, 0x40);
    Digits(n / 0x40, 0x40);
    Digits(n / 0x40 / 0x40, 0x40);
    assert n / 0x40 / 0x40 == n / 0x1000;
    assert n / 0x1000 / 0x40 == top;
  }

  /** A number is its quotient and remainder recombined. */
  lemma Digits(n: nat, d: nat)
    requires d > 0
    ensures n == (n / d) * d + n % d
  {
  }

  /** The encoding of a concatenation is the concatenation of the
      encodings. */
  lemma {:induction false} EncodeAppend(a: string, b: string)
    ensures Encode(a + b) == Encode(a) + Encode(b)
    decreases |a|
  {
    if a == [] {
      assert a + b == b;
    } else {
      assert (a + b)[0] == a[0] && (a + b)[1..] == a[1..] + b;
      EncodeAppend(a[1..], b);
      Concat3(EncodeChar(a[0]), Encode(a[1..]), Encode(b));
    }
  }

  /** Decoding the bytes of a text gives the text back. */
  lemma {:induction false} DecodeEncode(s: string)
    ensures Decode(Encode(s)) == Some(s)
    decreases |s|
  {
    if s != [] {
      var bytes := Encode(s);
      DecodeEncodeChar(s[0], Encode(s[1..]));
      assert bytes[Utf8Width(s[0])..] == Encode(s[1..]);
      DecodeEncode(s[1..]);
      assert [s[0]] + s[1..] == s;
    }
  }

  /** The bytes before the byte offset of character `i` encode the
      characters before it, and the bytes from it on those from it on. */
  lemma EncodeSplit(s: string, i: nat)
    requires i <= |s|
    ensures Off(s, i) <= |Encode(s)|
    ensures Encode(s)[..Off(s, i)] == Encode(s[..i])
    ensures Encode(s)[Off(s, i)..] == Encode(s[i..])
  {
    assert s == s[..i] + s[i..];
    EncodeAppend(s[..i], s[i..]);
  }

  /** Splicing the bytes of `ins` over the bytes of characters `[i, j)` of
      `p`, in the bytes of `p + q`, gives the bytes of the character-level
      splice. */
  lemma EncodeSplice(p: string, q: string, i: nat, j: nat, ins: string)
    requires i <= j <= |p|
    ensures Off(p, i) <= Off(p, j) <= |Encode(p + q)|
    ensures var t := Encode(p + q);
            t[..Off(p, i)] + Encode(ins) + t[Off(p, j)..] == Encode(p[..i] + (ins + p[j..] + q))
  {
    var t := p + q;
    assert t[..|p|] == p;
    OffAgree(p, t, |p|, i);
    OffAgree(p, t, |p|, j);
    OffMonotone(p, i, j);
    EncodeSplit(t, i);
    EncodeSplit(t, j);
    var front, back := p[..i], p[j..] + q;
    assert t[..i] == front && t[j..] == back;
    assert ins + p[j..] + q == ins + back;
    EncodeAppend(ins, back);
    EncodeAppend(front, ins + back);
    Concat3(Encode(front), Encode(ins), Encode(back));
  }
}
