/** Messages as maps with the keys 1, 2, 3, ... in ascending order and a fixed type per key. */
module WireRecord {
  import opened Base
  import opened WireCbor

  /** What a key's value must be. */
  datatype Field = BytesOf(len: nat) | AnyBytes | TextField | UintUpTo(max: nat)

  function FieldMajor(f: Field): nat {
    match f
    case BytesOf(_) => 2
    case AnyBytes => 2
    case TextField => 3
    case UintUpTo(_) => 0
  }

  predicate Fits(f: Field, x: Item) {
    match f
    case BytesOf(len) => x.Bytes? && |x.b| == len
    case AnyBytes => x.Bytes?
    case TextField => x.Text?
    case UintUpTo(max) => x.Uint? && x.n <= max
  }

  /** The values `xs` suit the keys from `i + 1` on. */
  ghost predicate AllFit(ok: seq<byte> -> bool, schema: seq<Field>, i: nat, xs: seq<Item>) {
    && i + |xs| == |schema| < 24
    && forall k :: 0 <= k < |xs| ==> Fits(schema[i + k], xs[k]) && Writable(ok, xs[k])
  }

  ghost predicate Encodable(xs: seq<Item>) {
    |xs| < 24 && forall k :: 0 <= k < |xs| ==> Short(xs[k])
  }

  /** Keys and values from key `i + 1` on. */
  function Pairs(i: nat, xs: seq<Item>): seq<byte>
    requires Encodable(xs) && i + |xs| < 24
    decreases |xs|
  {
    if xs == [] then []
    else Encode(Uint(i + 1)) + Encode(xs[0]) + Pairs(i + 1, xs[1..])
  }

  /** A whole message. */
  function Record(xs: seq<Item>): seq<byte>
    requires Encodable(xs)
  {
    Encode(Map(|xs|)) + Pairs(0, xs)
  }

  /** The values of the keys from `i + 1` on, and what follows them. */
  function ParsePairs(ok: seq<byte> -> bool, schema: seq<Field>, i: nat, b: seq<byte>)
    : Option<(seq<Item>, seq<byte>)>
    requires i <= |schema|
    decreases |schema| - i
  {
    if i == |schema| then Some(([], b))
    else
      var key := Read(ok, 0, b);
      if key.None? || key.value.0.n != i + 1 then None
      else
        var c := b[key.value.1..];
        var x := Read(ok, FieldMajor(schema[i]), c);
        if x.None? || !Fits(schema[i], x.value.0) then None
        else
          var more := ParsePairs(ok, schema, i + 1, c[x.value.1..]);
          if more.None? then None else Some(([x.value.0] + more.value.0, more.value.1))
  }

  function ParseRecord(ok: seq<byte> -> bool, schema: seq<Field>, b: seq<byte>)
    : Option<(seq<Item>, seq<byte>)>
  {
    var head := Read(ok, 5, b);
    if head.None? || head.value.0.len != |schema| then None
    else ParsePairs(ok, schema, 0, b[head.value.1..])
  }

  lemma FitsMajor(f: Field, x: Item)
    requires Fits(f, x)
    ensures Major(x) == FieldMajor(f)
  {
  }

  lemma {:induction false} Skip(a: seq<byte>, b: seq<byte>, c: seq<byte>)
    ensures ((a + b) + c)[|a|..] == b + c
    ensures (a + b) + c == a + (b + c)
    ensures (a + b)[|a|..] == b
  {
  }

  /** Parsing gives back the values that were written, and what follows. */
  lemma {:induction false} ParseWritten(ok: seq<byte> -> bool, schema: seq<Field>, i: nat,
                                        xs: seq<Item>, rest: seq<byte>)
    requires i <= |schema| && AllFit(ok, schema, i, xs) && Encodable(xs)
    ensures ParsePairs(ok, schema, i, Pairs(i, xs) + rest) == Some((xs, rest))
    decreases |xs|
  {
    hide Read, Encode;
    if xs == [] {
      assert Pairs(i, xs) + rest == rest;
    } else {
      var key, x, more := Encode(Uint(i + 1)), Encode(xs[0]), Pairs(i + 1, xs[1..]);
      assert Pairs(i, xs) + rest == key + (x + (more + rest));
      ReadEncoded(ok, Uint(i + 1), x + (more + rest));
      Skip(key, x + (more + rest), []);
      FitsMajor(schema[i], xs[0]);
      ReadEncoded(ok, xs[0], more + rest);
      Skip(x, more + rest, []);
      ParseWritten(ok, schema, i + 1, xs[1..], rest);
      assert [xs[0]] + xs[1..] == xs;
    }
  }

  /** Whatever values are parsed suit their keys and are written as exactly the bytes parsed. */
  lemma {:induction false} WrittenParse(ok: seq<byte> -> bool, schema: seq<Field>, i: nat, b: seq<byte>)
    requires i <= |schema| < 24 && ParsePairs(ok, schema, i, b).Some?
    ensures var (xs, rest) := ParsePairs(ok, schema, i, b).value;
            AllFit(ok, schema, i, xs) && Encodable(xs) && b == Pairs(i, xs) + rest
    decreases |schema| - i
  {
    hide Read, Encode, Pairs, Short, Fits, FieldMajor, ParsePairs;
    if i == |schema| {
      ParseEnd(ok, schema, b);
      PairsNone(i, b);
    } else {
      ParseUnfold(ok, schema, i, b);
      var key := Read(ok, 0, b).value;
      var c := b[key.1..];
      var x := Read(ok, FieldMajor(schema[i]), c).value;
      var d := c[x.1..];
      EncodedRead(ok, 0, b);
      EncodedRead(ok, FieldMajor(schema[i]), c);
      WrittenParse(ok, schema, i + 1, d);
      var (ys, rest) := ParsePairs(ok, schema, i + 1, d).value;
      assert b == b[..key.1] + c && c == c[..x.1] + d;
      PairsCons(i, x.0, ys, rest);
    }
  }

  lemma PairsNone(i: nat, b: seq<byte>)
    requires i < 24
    ensures Pairs(i, []) + b == b
  {
  }

  lemma {:induction false} PairsCons(i: nat, x: Item, ys: seq<Item>, rest: seq<byte>)
    requires Encodable(ys) && i + 1 + |ys| < 24
    requires Short(x)
    ensures Encodable([x] + ys)
    ensures Pairs(i, [x] + ys) + rest == Encode(Uint(i + 1)) + (Encode(x) + (Pairs(i + 1, ys) + rest))
  {
    hide Encode, Short;
    assert ([x] + ys)[1..] == ys;
  }

  /** A record parses exactly when it begins with the encoding of values that suit the schema. */
  lemma {:induction false} RecordWritten(ok: seq<byte> -> bool, schema: seq<Field>, xs: seq<Item>,
                                         rest: seq<byte>)
    requires AllFit(ok, schema, 0, xs) && Encodable(xs)
    ensures ParseRecord(ok, schema, Record(xs) + rest) == Some((xs, rest))
  {
    hide Read, Encode, Pairs, ParsePairs;
    var head := Encode(Map(|xs|));
    assert Record(xs) + rest == head + (Pairs(0, xs) + rest);
    ReadEncoded(ok, Map(|xs|), Pairs(0, xs) + rest);
    Skip(head, Pairs(0, xs) + rest, []);
    ParseWritten(ok, schema, 0, xs, rest);
  }

  lemma {:induction false} RecordParsed(ok: seq<byte> -> bool, schema: seq<Field>, b: seq<byte>)
    requires |schema| < 24 && ParseRecord(ok, schema, b).Some?
    ensures var (xs, rest) := ParseRecord(ok, schema, b).value;
            AllFit(ok, schema, 0, xs) && Encodable(xs) && b == Record(xs) + rest
  {
    hide Read, Encode, Pairs, ParsePairs;
    var head := Read(ok, 5, b).value;
    EncodedRead(ok, 5, b);
    var c := b[head.1..];
    WrittenParse(ok, schema, 0, c);
    var (xs, rest) := ParseRecord(ok, schema, b).value;
    assert b == b[..head.1] + c;
    assert b[..head.1] == Encode(Map(|xs|));
  }

  // ---- Cursors --------------------------------------------------------------------------

  /** An encoder: items are appended to a buffer of fixed size. */
  class Encoder {
    const buf: array<byte>
    var pos: nat

    constructor (buf: array<byte>)
      ensures this.buf == buf && pos == 0
    {
      this.buf, pos := buf, 0;
    }

    /** Appends an item, or fails when it does not fit or its text is refused. */
    method Emit(ok: seq<byte> -> bool, x: Item) returns (done: bool)
      requires pos <= buf.Length && Short(x)
      modifies this`pos, buf
      ensures pos <= buf.Length && done == (Accepted(ok, x) && old(pos) + |Encode(x)| <= buf.Length)
      ensures done ==> buf[..pos] == old(buf[..pos]) + Encode(x)
    {
      if x.Text? && !ok(x.t) {
        return false;
      }
      var e := Encode(x);
      if buf.Length - pos < |e| {
        return false;
      }
      ghost var before := buf[..pos];
      forall k | 0 <= k < |e| {
        buf[pos + k] := e[k];
      }
      pos := pos + |e|;
      assert buf[..pos] == before + e;
      return true;
    }

    /** Appends a message: the map head, then each key with its value. */
    method EmitRecord(ok: seq<byte> -> bool, xs: seq<Item>) returns (done: bool)
      requires pos <= buf.Length && Encodable(xs)
      modifies this`pos, buf
      ensures pos <= buf.Length
      ensures done == (AllAccepted(ok, xs) && old(pos) + |Record(xs)| <= buf.Length)
      ensures done ==> buf[..pos] == old(buf[..pos]) + Record(xs)
    {
      hide Encode, Accepted;
      ghost var start := buf[..pos];
      var ok1 := Emit(ok, Map(|xs|));
      MapAccepted(ok, |xs|);
      if !ok1 {
        return false;
      }
      done := EmitPairs(ok, xs);
      assert done ==> buf[..pos] == (start + Encode(Map(|xs|))) + Pairs(0, xs)
                                 == start + (Encode(Map(|xs|)) + Pairs(0, xs));
    }

    method EmitPairs(ok: seq<byte> -> bool, xs: seq<Item>) returns (done: bool)
      requires pos <= buf.Length && Encodable(xs)
      modifies this`pos, buf
      ensures pos <= buf.Length
      ensures done == (AllAccepted(ok, xs) && old(pos) + |Pairs(0, xs)| <= buf.Length)
      ensures done ==> buf[..pos] == old(buf[..pos]) + Pairs(0, xs)
    {
      hide Encode, Accepted, Pairs;
      ghost var start, at := buf[..pos], pos;
      assert start + [] == start;
      PairsSplit(xs, 0);
      for i := 0 to |xs|
        invariant pos <= buf.Length && Encodable(xs[..i])
        invariant AllAccepted(ok, xs[..i])
        invariant buf[..pos] == start + Pairs(0, xs[..i])
      {
        PairsSplit(xs, i);
        var key := Uint(i + 1);
        UintAccepted(ok, i + 1);
        assert |buf[..pos]| == at + |Pairs(0, xs[..i])|;
        var ok1 := Emit(ok, key);
        if !ok1 {
          return false;
        }
        var ok2 := Emit(ok, xs[i]);
        if !ok2 {
          return false;
        }
        assert buf[..pos] == ((start + Pairs(0, xs[..i])) + Encode(key)) + Encode(xs[i]);
      }
      assert xs[..|xs|] == xs;
      return true;
    }
  }

  /** A text passes the encoder's check. */
  ghost predicate Accepted(ok: seq<byte> -> bool, x: Item) {
    x.Text? ==> ok(x.t)
  }

  ghost predicate AllAccepted(ok: seq<byte> -> bool, xs: seq<Item>) {
    forall k :: 0 <= k < |xs| ==> Accepted(ok, xs[k])
  }

  lemma MapAccepted(ok: seq<byte> -> bool, n: u64)
    ensures Accepted(ok, Map(n))
  {
  }

  lemma UintAccepted(ok: seq<byte> -> bool, n: u64)
    ensures Accepted(ok, Uint(n))
  {
  }

  /** The pairs up to `i` and the next one; what follows makes the whole no shorter. */
  lemma {:induction false} PairsSplit(xs: seq<Item>, i: nat)
    requires Encodable(xs) && i <= |xs|
    ensures Encodable(xs[..i]) && Pairs(0, []) == []
    ensures i < |xs| ==>
              && Encodable(xs[..i + 1])
              && Pairs(0, xs[..i + 1]) == Pairs(0, xs[..i]) + Encode(Uint(i + 1)) + Encode(xs[i])
              && |Pairs(0, xs)| >= |Pairs(0, xs[..i + 1])|
  {
    hide Encode;
    if i < |xs| {
      assert xs[..i + 1] == xs[..i] + [xs[i]];
      PairsSnoc(0, xs[..i], xs[i]);
      PairsPrefix(0, xs, i + 1);
    }
  }

  lemma {:induction false} PairsSnoc(i: nat, xs: seq<Item>, x: Item)
    requires Encodable(xs) && Short(x) && i + |xs| + 1 < 24
    ensures Encodable(xs + [x])
    ensures Pairs(i, xs + [x]) == Pairs(i, xs) + Encode(Uint(i + |xs| + 1)) + Encode(x)
    decreases |xs|
  {
    hide Encode;
    if xs == [] {
      assert (xs + [x])[1..] == [];
    } else {
      assert (xs + [x])[1..] == xs[1..] + [x] && (xs + [x])[0] == xs[0];
      PairsSnoc(i + 1, xs[1..], x);
    }
  }

  lemma {:induction false} PairsPrefix(i: nat, xs: seq<Item>, n: nat)
    requires Encodable(xs) && n <= |xs| && i + |xs| < 24 && Encodable(xs[..n])
    ensures |Pairs(i, xs)| >= |Pairs(i, xs[..n])|
    decreases |xs|
  {
    hide Encode;
    if n > 0 {
      assert xs[..n][1..] == xs[1..][..n - 1];
      PairsPrefix(i + 1, xs[1..], n - 1);
    }
  }

  /** A decoder: a position in the bytes received. */
  class Decoder {
    const buf: seq<byte>
    var pos: nat

    constructor (buf: seq<byte>)
      ensures this.buf == buf && pos == 0
    {
      this.buf, pos := buf, 0;
    }

    /** What has not been read yet. */
    ghost function Rest(): seq<byte>
      requires pos <= |buf|
      reads this
    {
      buf[pos..]
    }

    method ReadItem(ok: seq<byte> -> bool, major: nat) returns (x: Option<Item>)
      requires pos <= |buf|
      modifies this`pos
      ensures pos <= |buf|
      ensures x.None? <==> Read(ok, major, old(Rest())).None?
      ensures x.Some? ==>
                var r := Read(ok, major, old(Rest())).value;
                x.value == r.0 && Rest() == old(Rest())[r.1..]
    {
      hide Read;
      var r := Read(ok, major, buf[pos..]);
      if r.None? {
        return None;
      }
      pos := pos + r.value.1;
      return Some(r.value.0);
    }

    /** Reads a message: the right number of keys, the keys in ascending order, each value of the
        right type and size. */
    method ConsumeRecord(ok: seq<byte> -> bool, schema: seq<Field>) returns (r: Option<seq<Item>>)
      requires pos <= |buf|
      modifies this`pos
      ensures pos <= |buf|
      ensures r.None? <==> ParseRecord(ok, schema, old(Rest())).None?
      ensures r.Some? ==> ParseRecord(ok, schema, old(Rest())) == Some((r.value, Rest()))
    {
      hide Read, ParsePairs, Fits, FieldMajor;
      ghost var b := Rest();
      var head := ReadItem(ok, 5);
      if head.None? || head.value.len != |schema| {
        return None;
      }
      ghost var c := Rest();
      var xs: seq<Item> := [];
      ParseJoinNone(ParsePairs(ok, schema, 0, c));
      for i := 0 to |schema|
        invariant pos <= |buf| && |xs| == i
        invariant ParsePairs(ok, schema, 0, c) == Join(xs, ParsePairs(ok, schema, i, Rest()))
      {
        ParseUnfold(ok, schema, i, Rest());
        var key := ReadItem(ok, 0);
        if key.None? || key.value.n != i + 1 {
          return None;
        }
        var x := ReadItem(ok, FieldMajor(schema[i]));
        if x.None? || !Fits(schema[i], x.value) {
          return None;
        }
        JoinCons(xs, x.value, ParsePairs(ok, schema, i + 1, Rest()));
        xs := xs + [x.value];
      }
      ParseEnd(ok, schema, Rest());
      assert xs + [] == xs;
      return Some(xs);
    }
  }

  /** Values read before, joined with what is parsed after them. */
  function Join(xs: seq<Item>, r: Option<(seq<Item>, seq<byte>)>): Option<(seq<Item>, seq<byte>)> {
    if r.None? then None else Some((xs + r.value.0, r.value.1))
  }

  lemma ParseJoinNone(r: Option<(seq<Item>, seq<byte>)>)
    ensures Join([], r) == r
  {
    if r.Some? {
      assert [] + r.value.0 == r.value.0;
    }
  }

  lemma JoinCons(xs: seq<Item>, x: Item, r: Option<(seq<Item>, seq<byte>)>)
    ensures Join(xs, Join([x], r)) == Join(xs + [x], r)
  {
    if r.Some? {
      assert xs + ([x] + r.value.0) == (xs + [x]) + r.value.0;
    }
  }

  lemma ParseEnd(ok: seq<byte> -> bool, schema: seq<Field>, b: seq<byte>)
    ensures ParsePairs(ok, schema, |schema|, b) == Some(([], b))
  {
  }

  lemma {:induction false} ParseUnfold(ok: seq<byte> -> bool, schema: seq<Field>, i: nat, b: seq<byte>)
    requires i < |schema|
    ensures var key := Read(ok, 0, b);
            if key.None? || key.value.0.n != i + 1 then ParsePairs(ok, schema, i, b).None?
            else
              var c := b[key.value.1..];
              var x := Read(ok, FieldMajor(schema[i]), c);
              if x.None? || !Fits(schema[i], x.value.0) then ParsePairs(ok, schema, i, b).None?
              else
                ParsePairs(ok, schema, i, b) ==
                Join([x.value.0], ParsePairs(ok, schema, i + 1, c[x.value.1..]))
  {
    hide Read;
  }
}
