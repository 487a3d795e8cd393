/** Decoding a string into a buffer of code points and encoding it back over the same buffer.
    The buffer is an array of bytes: code point `r` occupies the four bytes from `4 * r` on,
    least significant first, and one spare byte follows the last. */
module Utf8Map {
  import opened Base
  import opened Utf8Char

  const LIMIT: nat := 0xFFF_FFFF_FFFF_FFFF

  /** A 32-bit word read as a signed number. */
  function Signed(w: u32): int {
    if w < 0x8000_0000 then w else w - 0x1_0000_0000
  }

  /** The code points that fill the buffer from byte 0 on. */
  function Points(b: seq<byte>, n: nat): (us: seq<int>)
    requires 4 * n <= |b|
    ensures |us| == n
    ensures forall r :: 0 <= r < n ==> us[r] == Signed(LoadWord(b[4 * r..4 * r + 4]))
  {
    seq(n, r requires 0 <= r < n => Signed(LoadWord(b[4 * r..4 * r + 4])))
  }

  function EncodeAll(us: seq<int>): seq<byte> {
    if us == [] then [] else EncodeAll(us[..|us| - 1]) + EncodeChar(us[|us| - 1])
  }

  /** Writes the encoding of one code point. */
  method PutChar(b: array<byte>, w: nat, u: int) returns (k: nat)
    requires w + 4 <= b.Length
    modifies b
    ensures k == |EncodeChar(u)|
    ensures b[w..w + k] == EncodeChar(u)
    ensures forall i :: 0 <= i < w || w + k <= i < b.Length ==> b[i] == old(b[i])
  {
    var e := EncodeChar(u);
    forall i | 0 <= i < |e| {
      b[w + i] := e[i];
    }
    k := |e|;
  }

  /** Re-encoding in place. Writing never reaches a code point that has not been read: the bytes
      written stay within the code points already consumed. The result is the encoding of all code
      points, ended by a zero byte inside the buffer. */
  method Reencode(b: array<byte>, n: nat) returns (w: nat)
    requires b.Length == 4 * n + 1
    modifies b
    ensures w <= 4 * n && b[w] == 0
    ensures b[..w] == EncodeAll(Points(old(b[..]), n))
  {
    hide EncodeChar, EncodeAll, LoadWord, Signed;
    ghost var before := b[..];
    ghost var us := Points(before, n);
    w := 0;
    EncodeNone();
    for r := 0 to n
      invariant w <= 4 * r
      invariant b[..w] == EncodeAll(us[..r])
      invariant forall i :: 4 * r <= i < 4 * n ==> b[i] == before[i]
    {
      w := ReencodeOne(b, n, r, w, before, us);
    }
    assert us[..n] == us;
    b[w] := 0;
  }

  /** One code point: read, then written at `w`, which lies at or before the place it was read
      from. */
  method ReencodeOne(b: array<byte>, n: nat, r: nat, w: nat, ghost before: seq<byte>, ghost us: seq<int>)
    returns (w': nat)
    requires b.Length == |before| == 4 * n + 1 && r < n && w <= 4 * r && us == Points(before, n)
    requires b[..w] == EncodeAll(us[..r])
    requires forall i :: 4 * r <= i < 4 * n ==> b[i] == before[i]
    modifies b
    ensures w' <= 4 * r + 4 && b[..w'] == EncodeAll(us[..r + 1])
    ensures forall i :: 4 * r + 4 <= i < 4 * n ==> b[i] == before[i]
  {
    hide EncodeChar, EncodeAll, LoadWord, Signed;
    assert b[4 * r..4 * r + 4] == before[4 * r..4 * r + 4];
    var u := Signed(LoadWord(b[4 * r..4 * r + 4]));
    ghost var done := b[..w];
    EncodeStep(us, r);
    var k := PutChar(b, w, u);
    w' := w + k;
    assert b[..w'] == b[..w] + b[w..w'];
    assert b[..w] == done;
  }

  lemma EncodeNone()
    ensures forall us: seq<int> :: |us| == 0 ==> EncodeAll(us) == []
  {
  }

  lemma EncodeStep(us: seq<int>, r: nat)
    requires r < |us|
    ensures EncodeAll(us[..r + 1]) == EncodeAll(us[..r]) + EncodeChar(us[r])
  {
    assert us[..r + 1][..r] == us[..r];
  }

  // ---- Decoding -------------------------------------------------------------------------

  /** The code points of a string, if it decodes. */
  function DecodeAll(s: seq<byte>): Option<seq<int>> {
    if s == [] then Some([])
    else
      var c := Iterate(s);
      if !c.Char? || c.len == 0 || c.len > |s| then None
      else
        var rest := DecodeAll(s[c.len..]);
        if rest.None? then None else Some([c.u] + rest.value)
  }

  lemma {:induction false} EncodeAllCons(u: int, us: seq<int>)
    ensures EncodeAll([u] + us) == EncodeChar(u) + EncodeAll(us)
  {
    hide EncodeChar;
    if us == [] {
      assert ([u] + us)[..0] == [];
      assert EncodeAll([]) == [];
    } else {
      var n := |us| - 1;
      EncodeAllCons(u, us[..n]);
      assert ([u] + us)[..|us|] == [u] + us[..n];
      assert EncodeChar(u) + (EncodeAll(us[..n]) + EncodeChar(us[n])) ==
             (EncodeChar(u) + EncodeAll(us[..n])) + EncodeChar(us[n]);
    }
  }

  ghost predicate Scalars(us: seq<int>) {
    forall i :: 0 <= i < |us| ==> Scalar(us[i])
  }

  /** A string decodes exactly when it is well formed, into scalar values that encode to it. */
  lemma {:induction false} DecodeAllIff(s: seq<byte>)
    ensures DecodeAll(s).Some? <==> WellFormed(s)
    ensures DecodeAll(s).Some? ==> Scalars(DecodeAll(s).value) && EncodeAll(DecodeAll(s).value) == s
    ensures DecodeAll(s).Some? ==> |DecodeAll(s).value| <= |s|
  {
    hide Iterate, OneChar, EncodeChar, EncodeAll;
    if s == [] {
      EncodeNone();
    } else {
      IterateIff(s);
      WellFormedStep(s);
      var c := Iterate(s);
      if c.Char? {
        DecodeAllIff(s[c.len..]);
        EncodeDecoded(s);
        if DecodeAll(s).Some? {
          EncodeAllCons(c.u, DecodeAll(s[c.len..]).value);
          assert s == s[..c.len] + s[c.len..];
        }
      }
    }
  }

  lemma {:induction false} WellFormedStep(s: seq<byte>)
    requires s != []
    ensures var c := Iterate(s);
            WellFormed(s) <==> c.Char? && 1 <= c.len <= |s| && WellFormed(s[c.len..])
  {
    hide Iterate, OneChar;
    IterateIff(s);
  }

  datatype Result = Ok(value: seq<byte>) | Refused | Overflow

  /** What the code points written so far say about the rest of the string. */
  ghost predicate Decoding(s: seq<byte>, r: nat, us: seq<int>)
    ensures Decoding(s, r, us) ==> r <= |s| && |us| <= r
  {
    && r <= |s| && |us| <= r
    && DecodeAll(s) == (if DecodeAll(s[r..]).None? then None else Some(us + DecodeAll(s[r..]).value))
  }

  lemma {:induction false} DecodingStep(s: seq<byte>, r: nat, us: seq<int>)
    requires Decoding(s, r, us) && r < |s|
    ensures var c := Iterate(s[r..]);
            && (!c.Char? ==> DecodeAll(s).None?)
            && (c.Char? ==> 0 < c.len && 0 <= c.u < 0x11_0000 && Decoding(s, r + c.len, us + [c.u]))
  {
    hide Iterate, OneChar, EncodeChar;
    var t := s[r..];
    IterateIff(t);
    var c := Iterate(t);
    if c.Char? {
      EncodeDecoded(t);
      assert t[c.len..] == s[r + c.len..];
      var rest := DecodeAll(t[c.len..]);
      if rest.Some? {
        assert us + ([c.u] + rest.value) == (us + [c.u]) + rest.value;
      }
    }
  }

  /** Writes code point `w` into the buffer. */
  method PutPoint(b: array<byte>, w: nat, u: int)
    requires 4 * w + 4 <= b.Length && 0 <= u < 0x8000_0000
    modifies b
    ensures Points(b[..], w + 1) == Points(old(b[..]), w) + [u]
  {
    hide StoreWord, LoadWord;
    ghost var before := b[..];
    var e := StoreWord(u);
    forall i | 0 <= i < 4 {
      b[4 * w + i] := e[i];
    }
    assert b[4 * w..4 * w + 4] == e;
    StoreLoadWord(u);
    forall r | 0 <= r < w
      ensures b[4 * r..4 * r + 4] == before[4 * r..4 * r + 4]
    {
    }
  }

  datatype Count = Counted(n: nat) | BadUtf8 | TooLong

  /** The decoding pass with no options set: it counts the code points, and writes those for which
      the buffer has room. */
  method Decompose(s: seq<byte>, b: array<byte>, cap: nat) returns (r: Count)
    requires 4 * cap <= b.Length
    modifies b
    ensures r == BadUtf8 ==> !WellFormed(s)
    ensures r.Counted? ==> WellFormed(s) && DecodeAll(s).Some? && r.n == |DecodeAll(s).value|
    ensures r.Counted? && r.n <= cap ==> Points(b[..], r.n) == DecodeAll(s).value
    ensures r == TooLong ==> |s| > LIMIT
  {
    hide Iterate, DecodeAll, WellFormed, Points, Decoding, Scalars, EncodeAll;
    var rpos, wpos := 0, 0;
    ghost var us: seq<int> := [];
    DecodeAllIff(s);
    DecodingStart(s, b[..]);
    while rpos < |s|
      invariant 0 <= rpos <= |s| && 0 <= wpos == |us| && Decoding(s, rpos, us)
      invariant wpos <= cap ==> Points(b[..], wpos) == us
    {
      var c := Iterate(s[rpos..]);
      DecodingStep(s, rpos, us);
      if !c.Char? {
        return BadUtf8;
      }
      if wpos < cap {
        PutPoint(b, wpos, c.u);
      }
      rpos, wpos := rpos + c.len, wpos + 1;
      us := us + [c.u];
      if wpos > LIMIT {
        return TooLong;
      }
    }
    DecodingDone(s, us);
    return Counted(wpos);
  }

  lemma DecodingStart(s: seq<byte>, b: seq<byte>)
    ensures Decoding(s, 0, []) && Points(b, 0) == []
  {
    assert s[0..] == s;
    if DecodeAll(s).Some? {
      assert [] + DecodeAll(s).value == DecodeAll(s).value;
    }
  }

  lemma DecodingDone(s: seq<byte>, us: seq<int>)
    requires Decoding(s, |s|, us)
    ensures DecodeAll(s) == Some(us)
  {
    assert s[|s|..] == [];
    assert us + [] == us;
  }

  /** Decoding into a buffer and encoding back over it, with no options set: it succeeds exactly on
      the well-formed strings, and gives each one back. */
  method Map(s: seq<byte>) returns (r: Result)
    ensures r.Refused? ==> !WellFormed(s)
    ensures r.Ok? ==> WellFormed(s) && r.value == s
    ensures r.Overflow? ==> |s| > LIMIT
  {
    hide DecodeAll, WellFormed, Points, EncodeAll;
    var none := new byte[0];
    var count := Decompose(s, none, 0);
    if count == TooLong {
      return Overflow;
    }
    if count == BadUtf8 {
      return Refused;
    }
    var b := new byte[4 * count.n + 1];
    var again := Decompose(s, b, count.n);
    if again == TooLong {
      return Overflow;
    }
    if again == BadUtf8 {
      return Refused;
    }
    var w := Reencode(b, again.n);
    DecodeAllIff(s);
    return Ok(b[..w]);
  }
}
