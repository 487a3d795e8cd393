/** UTF-8 sequences: the strict decoder, the encoder, and the grammar of section 4 of RFC 3629. */
module Utf8Char {
  import opened Base

  /** A Unicode scalar value: a code point that is no surrogate. */
  predicate Scalar(u: int) {
    0 <= u < 0x11_0000 && !(0xD800 <= u < 0xE000)
  }

  // ---- The grammar ----------------------------------------------------------------------

  predicate Tail(b: byte) {
    0x80 <= b <= 0xBF
  }

  /** One character, as the four productions UTF8-1 to UTF8-4 give it. */
  predicate OneChar(s: seq<byte>) {
    || (|s| == 1 && s[0] <= 0x7F)
    || (|s| == 2 && 0xC2 <= s[0] <= 0xDF && Tail(s[1]))
    || (|s| == 3 && Tail(s[2]) &&
        (|| (s[0] == 0xE0 && 0xA0 <= s[1] <= 0xBF)
         || (0xE1 <= s[0] <= 0xEC && Tail(s[1]))
         || (s[0] == 0xED && 0x80 <= s[1] <= 0x9F)
         || (0xEE <= s[0] <= 0xEF && Tail(s[1]))))
    || (|s| == 4 && Tail(s[2]) && Tail(s[3]) &&
        (|| (s[0] == 0xF0 && 0x90 <= s[1] <= 0xBF)
         || (0xF1 <= s[0] <= 0xF3 && Tail(s[1]))
         || (s[0] == 0xF4 && 0x80 <= s[1] <= 0x8F)))
  }

  /** A string of characters. */
  ghost predicate WellFormed(s: seq<byte>) {
    s == [] || exists k :: 1 <= k <= |s| && OneChar(s[..k]) && WellFormed(s[k..])
  }

  // ---- Encoder and decoder --------------------------------------------------------------

  /** The encoder. It writes nothing for what is no code point, and does not refuse surrogates. */
  function EncodeChar(u: int): (s: seq<byte>)
    ensures |s| <= 4
  {
    if u < 0 then []
    else if u < 0x80 then [u]
    else if u < 0x800 then [0xC0 + u / 64, 0x80 + u % 64]
    else if u < 0x1_0000 then [0xE0 + u / 4096, 0x80 + u / 64 % 64, 0x80 + u % 64]
    else if u < 0x11_0000 then [0xF0 + u / 262144, 0x80 + u / 4096 % 64, 0x80 + u / 64 % 64, 0x80 + u % 64]
    else []
  }

  /** The bits so far, followed by the six bits of a continuation byte. */
  function Join(high: int, b: byte): int {
    high * 64 + b as int % 64
  }

  datatype Step = End | Char(u: int, len: nat) | Invalid

  /** A continuation byte: its two highest bits are 10. */
  predicate Cont(b: byte) {
    b / 64 == 2
  }

  /** The decoder's step at the front of `s`. */
  function Iterate(s: seq<byte>): Step {
    if s == [] then End
    else
      var c := s[0];
      if c < 0x80 then Char(c, 1)
      else if c < 0xC2 || c > 0xF4 then Invalid
      else if c < 0xE0 then
        if |s| < 2 || !Cont(s[1]) then Invalid
        else Char(Join(c % 32, s[1]), 2)
      else if c < 0xF0 then
        if |s| < 3 || !Cont(s[1]) || !Cont(s[2]) then Invalid
        else if c == 0xED && s[1] > 0x9F then Invalid
        else
          var u := Join(Join(c % 16, s[1]), s[2]);
          if u < 0x800 then Invalid else Char(u, 3)
      else
        if |s| < 4 || !Cont(s[1]) || !Cont(s[2]) || !Cont(s[3]) then Invalid
        else if c == 0xF0 && s[1] < 0x90 then Invalid
        else if c == 0xF4 && s[1] > 0x8F then Invalid
        else Char(Join(Join(Join(c % 8, s[1]), s[2]), s[3]), 4)
  }

  /** The decoder accepts exactly the characters of the grammar. */
  lemma {:induction false} IterateIff(s: seq<byte>)
    ensures Iterate(s).Char? ==> 1 <= Iterate(s).len <= |s| && OneChar(s[..Iterate(s).len])
    ensures forall k :: 1 <= k <= |s| && OneChar(s[..k]) ==> Iterate(s).Char? && Iterate(s).len == k
  {
  }

  lemma JoinParts(high: int, b: byte)
    requires Cont(b)
    ensures Join(high, b) / 64 == high && 0x80 + Join(high, b) % 64 == b
  {
  }

  lemma Quotients(u: nat)
    ensures u / 4096 == u / 64 / 64 && u / 262144 == u / 64 / 64 / 64
  {
  }

  /** What it decodes is a scalar value, and encodes to exactly the bytes read. */
  lemma {:induction false} EncodeDecoded(s: seq<byte>)
    requires Iterate(s).Char?
    ensures Scalar(Iterate(s).u) && EncodeChar(Iterate(s).u) == s[..Iterate(s).len]
  {
    if s[0] < 0x80 {
      assert s[..1] == [s[0]];
    } else if s[0] < 0xE0 {
      EncodeDecoded2(s);
    } else if s[0] < 0xF0 {
      EncodeDecoded3(s);
    } else {
      EncodeDecoded4(s);
    }
  }

  lemma {:induction false} EncodeDecoded2(s: seq<byte>)
    requires Iterate(s).Char? && 0x80 <= s[0] < 0xE0
    ensures Scalar(Iterate(s).u) && EncodeChar(Iterate(s).u) == s[..Iterate(s).len]
  {
    hide Join;
    var u := Iterate(s).u;
    JoinParts(s[0] % 32, s[1]);
    assert s[..2] == [s[0], s[1]];
  }

  lemma {:induction false} EncodeDecoded3(s: seq<byte>)
    requires Iterate(s).Char? && 0xE0 <= s[0] < 0xF0
    ensures Scalar(Iterate(s).u) && EncodeChar(Iterate(s).u) == s[..Iterate(s).len]
  {
    hide Join;
    var u := Iterate(s).u;
    JoinParts(s[0] % 16, s[1]);
    JoinParts(Join(s[0] % 16, s[1]), s[2]);
    Quotients(u);
    assert s[..3] == [s[0], s[1], s[2]];
  }

  lemma {:induction false} EncodeDecoded4(s: seq<byte>)
    requires Iterate(s).Char? && 0xF0 <= s[0]
    ensures Scalar(Iterate(s).u) && EncodeChar(Iterate(s).u) == s[..Iterate(s).len]
  {
    hide Join;
    var u := Iterate(s).u;
    JoinParts(s[0] % 8, s[1]);
    JoinParts(Join(s[0] % 8, s[1]), s[2]);
    JoinParts(Join(Join(s[0] % 8, s[1]), s[2]), s[3]);
    Quotients(u);
    assert s[..4] == [s[0], s[1], s[2], s[3]];
  }

  lemma Rejoin(u: nat)
    ensures Join(u / 64, 0x80 + u % 64) == u && Cont(0x80 + u % 64)
  {
  }

  /** Every scalar value survives encoding and decoding. */
  lemma {:induction false} DecodeEncoded(u: int, rest: seq<byte>)
    requires Scalar(u)
    ensures Iterate(EncodeChar(u) + rest) == Char(u, |EncodeChar(u)|)
    ensures OneChar(EncodeChar(u))
  {
    if u < 0x800 {
      DecodeEncoded2(u, rest);
    } else if u < 0x1_0000 {
      DecodeEncoded3(u, rest);
    } else {
      DecodeEncoded4(u, rest);
    }
    var s, n := EncodeChar(u) + rest, |EncodeChar(u)|;
    IterateIff(s);
    assert s[..n] == EncodeChar(u);
  }

  lemma {:induction false} DecodeEncoded2(u: int, rest: seq<byte>)
    requires 0 <= u < 0x800
    ensures Iterate(EncodeChar(u) + rest) == Char(u, |EncodeChar(u)|)
  {
    hide Join, Cont;
    Rejoin(u);
  }

  lemma {:induction false} DecodeEncoded3(u: int, rest: seq<byte>)
    requires Scalar(u) && 0x800 <= u < 0x1_0000
    ensures Iterate(EncodeChar(u) + rest) == Char(u, |EncodeChar(u)|)
  {
    hide Join, Cont;
    Rejoin(u);
    Rejoin(u / 64);
    Quotients(u);
  }

  lemma {:induction false} DecodeEncoded4(u: int, rest: seq<byte>)
    requires 0x1_0000 <= u < 0x11_0000
    ensures Iterate(EncodeChar(u) + rest) == Char(u, |EncodeChar(u)|)
  {
    hide Join, Cont;
    Rejoin(u);
    Rejoin(u / 64);
    Rejoin(u / 64 / 64);
    Quotients(u);
  }

  // ---- Order ----------------------------------------------------------------------------

  /** Lexicographic order of byte strings. */
  predicate Before(a: seq<byte>, b: seq<byte>) {
    b != [] && (a == [] || a[0] < b[0] || (a[0] == b[0] && Before(a[1..], b[1..])))
  }

  lemma BeforeOne(a: byte, b: byte)
    ensures Before([a], [b]) <==> a < b
  {
  }

  lemma BeforeCons(x: byte, a: seq<byte>, y: byte, b: seq<byte>)
    ensures Before([x] + a, [y] + b) <==> x < y || (x == y && Before(a, b))
  {
    assert ([x] + a)[1..] == a && ([y] + b)[1..] == b;
  }

  /** A number's leading part decides, and its last six bits on a tie. */
  lemma Digits(u: nat, v: nat)
    ensures u < v <==> u / 64 < v / 64 || (u / 64 == v / 64 && u % 64 < v % 64)
  {
  }

  lemma {:induction false} Before2(a: byte, b: byte, c: byte, d: byte)
    ensures Before([a, b], [c, d]) <==> a < c || (a == c && b < d)
  {
    hide Before;
    assert [a, b] == [a] + [b] && [c, d] == [c] + [d];
    BeforeCons(a, [b], c, [d]);
    BeforeOne(b, d);
  }

  lemma {:induction false} Before3(a: byte, b: byte, c: byte, d: byte, e: byte, f: byte)
    ensures Before([a, b, c], [d, e, f]) <==> a < d || (a == d && (b < e || (b == e && c < f)))
  {
    hide Before;
    assert [a, b, c] == [a] + [b, c] && [d, e, f] == [d] + [e, f];
    BeforeCons(a, [b, c], d, [e, f]);
    Before2(b, c, e, f);
  }

  lemma {:induction false} Before4(a: byte, b: byte, c: byte, d: byte, e: byte, f: byte, g: byte, h: byte)
    ensures Before([a, b, c, d], [e, f, g, h]) <==>
            a < e || (a == e && (b < f || (b == f && (c < g || (c == g && d < h)))))
  {
    hide Before;
    assert [a, b, c, d] == [a] + [b, c, d] && [e, f, g, h] == [e] + [f, g, h];
    BeforeCons(a, [b, c, d], e, [f, g, h]);
    Before3(b, c, d, f, g, h);
  }

  /** How many bytes a code point takes. */
  function Width(u: nat): nat {
    if u < 0x80 then 1 else if u < 0x800 then 2 else if u < 0x1_0000 then 3 else 4
  }

  /** Code points of the same width: by digits. */
  lemma {:induction false} OrderWithin(u: nat, v: nat)
    requires u < 0x11_0000 && v < 0x11_0000 && Width(u) == Width(v)
    ensures u < v <==> Before(EncodeChar(u), EncodeChar(v))
  {
    hide Before;
    Digits(u, v);
    Digits(u / 64, v / 64);
    Digits(u / 64 / 64, v / 64 / 64);
    Quotients(u);
    Quotients(v);
    var s, t := EncodeChar(u), EncodeChar(v);
    if u < 0x80 {
      BeforeOne(s[0], t[0]);
    } else if u < 0x800 {
      Before2(s[0], s[1], t[0], t[1]);
    } else if u < 0x1_0000 {
      Before3(s[0], s[1], s[2], t[0], t[1], t[2]);
    } else {
      Before4(s[0], s[1], s[2], s[3], t[0], t[1], t[2], t[3]);
    }
  }

  /** The first byte tells the width. */
  lemma {:induction false} FirstBytes(u: nat)
    requires u < 0x11_0000
    ensures |EncodeChar(u)| == Width(u)
    ensures var b := EncodeChar(u)[0];
            match Width(u)
            case 1 => b < 0x80
            case 2 => 0xC0 <= b < 0xE0
            case 3 => 0xE0 <= b < 0xF0
            case _ => 0xF0 <= b
  {
  }

  /** Encoding keeps order: of two code points the smaller one's bytes come first. With the grammar as
      the image this leaves only one encoding. */
  lemma {:induction false} EncodingKeepsOrder(u: nat, v: nat)
    requires u < 0x11_0000 && v < 0x11_0000
    ensures u < v <==> Before(EncodeChar(u), EncodeChar(v))
  {
    hide EncodeChar;
    if Width(u) == Width(v) {
      OrderWithin(u, v);
    } else {
      FirstBytes(u);
      FirstBytes(v);
      assert u < v <==> EncodeChar(u)[0] < EncodeChar(v)[0];
    }
  }

  /** The decoder reads off the order of the bytes. */
  lemma {:induction false} DecodingKeepsOrder(s: seq<byte>, t: seq<byte>)
    requires Iterate(s).Char? && Iterate(t).Char?
    ensures Iterate(s).u < Iterate(t).u <==> Before(s[..Iterate(s).len], t[..Iterate(t).len])
  {
    hide EncodeChar, Before, Iterate;
    EncodeDecoded(s);
    EncodeDecoded(t);
    EncodingKeepsOrder(Iterate(s).u, Iterate(t).u);
  }
}
