/** CBOR data items in the deterministic encoding of section 4.2.1 of RFC 8949: every head in
    its shortest form, every string with its definite length. */
module WireCbor {
  import opened Base

  /** The items the cache's messages are made of. Map and array items are heads only: their
      contents follow as items of their own. */
  datatype Item = Uint(n: u64) | Bytes(b: seq<byte>) | Text(t: seq<byte>) | Array(len: u64) | Map(len: u64)

  function Major(x: Item): nat {
    match x
    case Uint(_) => 0
    case Bytes(_) => 2
    case Text(_) => 3
    case Array(_) => 4
    case Map(_) => 5
  }

  // ---- Heads ----------------------------------------------------------------------------

  /** `k` bytes, most significant first. */
  function BigEndian(n: nat, k: nat): (b: seq<byte>)
    ensures |b| == k
  {
    if k == 0 then [] else BigEndian(n / 0x100, k - 1) + [n % 0x100]
  }

  function FromBigEndian(b: seq<byte>): nat {
    if b == [] then 0 else FromBigEndian(b[..|b| - 1]) * 0x100 + b[|b| - 1]
  }

  /** How many argument bytes the shortest head of `n` has. */
  function ArgLen(n: u64): nat {
    if n < 24 then 0 else if n < 0x100 then 1 else if n < 0x1_0000 then 2
    else if n < 0x1_0000_0000 then 4 else 8
  }

  /** The additional information that announces `k` argument bytes. */
  function Info(k: nat): byte {
    match k
    case 1 => 24
    case 2 => 25
    case 4 => 26
    case _ => 27
  }

  function Head(major: nat, n: u64): (b: seq<byte>)
    requires major < 8
    ensures |b| == 1 + ArgLen(n)
  {
    if n < 24 then [32 * major + n]
    else [32 * major + Info(ArgLen(n))] + BigEndian(n, ArgLen(n))
  }

  /** A head at the front of `b`, with its length: refused when it is cut short, reserved or longer
      than necessary. */
  function ReadHead(b: seq<byte>): (r: Option<(nat, u64, nat)>)
    ensures r.Some? ==> r.value.0 < 8 && 0 < r.value.2 <= |b|
  {
    if b == [] then None
    else
      var major, info := b[0] / 32, b[0] % 32;
      if info < 24 then Some((major, info, 1))
      else if info > 27 then None
      else
        var k := if info == 24 then 1 else if info == 25 then 2 else if info == 26 then 4 else 8;
        if |b| < 1 + k then None
        else
          var n := FromBigEndian(b[1..1 + k]);
          if n >= TWO64 then None
          else if ArgLen(n) != k then None
          else Some((major, n, 1 + k))
  }

  lemma {:induction false} BigEndianInverse(n: nat, k: nat, bound: nat)
    requires bound == Pow256(k) && n < bound
    ensures FromBigEndian(BigEndian(n, k)) == n
  {
    if k > 0 {
      BigEndianInverse(n / 0x100, k - 1, bound / 0x100);
      var b := BigEndian(n, k);
      assert b[..k - 1] == BigEndian(n / 0x100, k - 1);
    }
  }

  function Pow256(k: nat): nat {
    if k == 0 then 1 else 0x100 * Pow256(k - 1)
  }

  lemma {:induction false} FromBigEndianInverse(b: seq<byte>)
    ensures BigEndian(FromBigEndian(b), |b|) == b
    ensures FromBigEndian(b) < Pow256(|b|)
  {
    if b != [] {
      var n := |b| - 1;
      FromBigEndianInverse(b[..n]);
      var v := FromBigEndian(b[..n]);
      assert FromBigEndian(b) == v * 0x100 + b[n];
      assert (v * 0x100 + b[n]) / 0x100 == v && (v * 0x100 + b[n]) % 0x100 == b[n];
      assert b == b[..n] + [b[n]];
    }
  }

  lemma Pow256Values()
    ensures Pow256(1) == 0x100 && Pow256(2) == 0x1_0000 && Pow256(4) == TWO32 && Pow256(8) == TWO64
  {
    assert Pow256(3) == 0x100_0000;
    assert Pow256(5) == 0x100_0000_0000;
    assert Pow256(6) == 0x1_0000_0000_0000;
    assert Pow256(7) == 0x100_0000_0000_0000;
  }

  /** Reading a head gives back what was written. */
  lemma {:induction false} ReadWritten(major: nat, n: u64, rest: seq<byte>)
    requires major < 8
    ensures ReadHead(Head(major, n) + rest) == Some((major, n, |Head(major, n)|))
  {
    hide FromBigEndian, BigEndian;
    var b, k := Head(major, n) + rest, ArgLen(n);
    if n >= 24 {
      Pow256Values();
      BigEndianInverse(n, k, Pow256(k));
      assert b[1..1 + k] == BigEndian(n, k);
    }
  }

  /** Whatever head is read is the one that would be written. */
  lemma {:induction false} WrittenRead(b: seq<byte>)
    requires ReadHead(b).Some?
    ensures var (major, n, l) := ReadHead(b).value;
            b[..l] == Head(major, n)
  {
    hide FromBigEndian, BigEndian;
    var (major, n, l) := ReadHead(b).value;
    assert b[0] == 32 * (b[0] / 32) + b[0] % 32;
    if n >= 24 {
      var k := l - 1;
      FromBigEndianInverse(b[1..1 + k]);
      assert b[..l] == [b[0]] + b[1..1 + k];
    } else {
      assert b[..1] == [b[0]];
    }
  }

  // ---- Items ----------------------------------------------------------------------------

  /** An item that can be written: a length fits its head, and a text passes the text check. */
  ghost predicate Writable(ok: seq<byte> -> bool, x: Item) {
    Short(x) && (x.Text? ==> ok(x.t))
  }

  /** The length of a string fits its head. */
  predicate Short(x: Item) {
    (x.Bytes? ==> |x.b| < TWO64) && (x.Text? ==> |x.t| < TWO64)
  }

  /** The encoding of an item. */
  function Encode(x: Item): (b: seq<byte>)
    requires Short(x)
    ensures |b| > 0
  {
    match x
    case Uint(n) => Head(0, n)
    case Bytes(s) => Head(2, |s|) + s
    case Text(t) => Head(3, |t|) + t
    case Array(n) => Head(4, n)
    case Map(n) => Head(5, n)
  }

  /** The item of one major type at the front of `b`, with its length. */
  function Read(ok: seq<byte> -> bool, major: nat, b: seq<byte>): (r: Option<(Item, nat)>)
    ensures r.Some? ==> Major(r.value.0) == major && 0 < r.value.1 <= |b|
  {
    var head := ReadHead(b);
    if head.None? || head.value.0 != major then None
    else
      var (_, n, l) := head.value;
      match major
      case 0 => Some((Uint(n), l))
      case 2 => if |b| - l < n then None else Some((Bytes(b[l..l + n]), l + n))
      case 3 => if |b| - l < n || !ok(b[l..l + n]) then None else Some((Text(b[l..l + n]), l + n))
      case 4 => Some((Array(n), l))
      case 5 => Some((Map(n), l))
      case _ => None
  }

  /** Reading an item gives back what was written, whatever follows. */
  lemma {:induction false} ReadEncoded(ok: seq<byte> -> bool, x: Item, rest: seq<byte>)
    requires Writable(ok, x)
    ensures Read(ok, Major(x), Encode(x) + rest) == Some((x, |Encode(x)|))
  {
    hide ReadHead, Head;
    match x
    case Uint(n) => ReadWritten(0, n, rest);
    case Array(n) => ReadWritten(4, n, rest);
    case Map(n) => ReadWritten(5, n, rest);
    case Bytes(s) =>
      ReadWritten(2, |s|, s + rest);
      StringTail(Head(2, |s|), s, rest);
    case Text(t) =>
      ReadWritten(3, |t|, t + rest);
      StringTail(Head(3, |t|), t, rest);
  }

  lemma StringTail(h: seq<byte>, s: seq<byte>, rest: seq<byte>)
    ensures (h + s) + rest == h + (s + rest)
    ensures ((h + s) + rest)[|h|..|h| + |s|] == s
  {
  }

  /** Whatever item is read is writable and encodes to exactly the bytes read. */
  lemma {:induction false} EncodedRead(ok: seq<byte> -> bool, major: nat, b: seq<byte>)
    requires Read(ok, major, b).Some?
    ensures var (x, l) := Read(ok, major, b).value;
            Writable(ok, x) && b[..l] == Encode(x)
  {
    hide ReadHead, Head;
    WrittenRead(b);
    var (_, n, l) := ReadHead(b).value;
    if major == 2 || major == 3 {
      assert b[..l + n] == b[..l] + b[l..l + n];
    }
  }
}
