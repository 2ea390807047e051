/** Recursive length prefix, Appendix B of the Ethereum Yellow Paper, as the header codec uses it. The
    decoder is lenient: it accepts length prefixes that are longer than they need be, and bytes after
    the first value. */
module Rlp {
  import opened Types

  type byte = x: int | 0 <= x < 256

  datatype Value = Bytes(b: seq<byte>) | List(vs: seq<Value>)

  const MAX := 0x1_0000_0000_0000_0000

  /** Big-endian, without leading zeros; zero is the empty string. */
  function BigEndian(n: nat): seq<byte> {
    if n == 0 then [] else BigEndian(n / 256) + [n % 256]
  }

  function FromBigEndian(s: seq<byte>): nat {
    if s == [] then 0 else FromBigEndian(s[..|s| - 1]) * 256 + s[|s| - 1]
  }

  lemma {:induction false} BigEndianRoundTrip(n: nat)
    ensures FromBigEndian(BigEndian(n)) == n
  {
    if n > 0 {
      BigEndianRoundTrip(n / 256);
      var s := BigEndian(n);
      assert s[..|s| - 1] == BigEndian(n / 256);
    }
  }

  function Pow256(k: nat): nat {
    if k == 0 then 1 else 256 * Pow256(k - 1)
  }

  lemma {:induction false} BigEndianLength(n: nat, k: nat)
    requires n < Pow256(k)
    ensures |BigEndian(n)| <= k
  {
    if n > 0 {
      assert k > 0 && n / 256 < Pow256(k - 1);
      BigEndianLength(n / 256, k - 1);
    }
  }

  lemma MaxIsPow256()
    ensures MAX == Pow256(8)
  {
    assert Pow256(4) == 0x1_0000_0000;
    assert Pow256(8) == 256 * (256 * (256 * (256 * Pow256(4))));
  }

  /** The prefix of a payload of n bytes; base is 0x80 for a string and 0xC0 for a list. A payload of
      2^64 bytes or more has no encoding. */
  function Prefix(n: nat, base: int): seq<byte>
    requires base == 0x80 || base == 0xC0
  {
    if n < 56 then [base + n]
    else if |BigEndian(n)| <= 8 then [base + 55 + |BigEndian(n)|] + BigEndian(n)
    else []
  }

  function Encode(v: Value): seq<byte>
    decreases v, 0
  {
    match v
    case Bytes(b) => if |b| == 1 && b[0] < 0x80 then b else Prefix(|b|, 0x80) + b
    case List(vs) => Prefix(|EncodeAll(vs)|, 0xC0) + EncodeAll(vs)
  }

  function EncodeAll(vs: seq<Value>): seq<byte>
    decreases vs, 1
  {
    if vs == [] then [] else Encode(vs[0]) + EncodeAll(vs[1..])
  }

  /** The forms of the RLP standard: a byte below 128 is itself, up to 55 bytes follow one byte that gives their number,
      and more follow the number, which follows one byte that gives its length; lists alike, with their payload. */
  lemma StringForms(b: seq<byte>)
    ensures var n := BigEndian(|b|);
      && (|b| == 1 && b[0] < 128 ==> Encode(Bytes(b)) == b)
      && (|b| <= 55 && !(|b| == 1 && b[0] < 128) ==> Encode(Bytes(b)) == [128 + |b|] + b)
      && (|b| > 55 && |n| <= 8 ==> Encode(Bytes(b)) == [183 + |n|] + n + b)
  {
  }

  lemma ListForms(vs: seq<Value>)
    ensures var payload := EncodeAll(vs);
      var n := BigEndian(|payload|);
      && (|payload| <= 55 ==> Encode(List(vs)) == [192 + |payload|] + payload)
      && (|payload| > 55 && |n| <= 8 ==> Encode(List(vs)) == [247 + |n|] + n + payload)
  {
  }

  /** Every payload in v is shorter than 2^64 bytes. */
  predicate Encodable(v: Value)
    decreases v, 0
  {
    match v
    case Bytes(b) => |b| < MAX
    case List(vs) => AllEncodable(vs) && |EncodeAll(vs)| < MAX
  }

  predicate AllEncodable(vs: seq<Value>)
    decreases vs, 1
  {
    vs == [] || (Encodable(vs[0]) && AllEncodable(vs[1..]))
  }

  // ----- Decoding -----

  /** How a prefix at the head of s splits it: the kind, the payload and what follows. */
  datatype Item = Item(isList: bool, payload: seq<byte>, rest: seq<byte>)

  function Split(s: seq<byte>, isList: bool, skip: nat, n: nat): Option<Item> {
    if skip + n <= |s| then Some(Item(isList, s[skip..skip + n], s[skip + n..])) else None
  }

  function NextItem(s: seq<byte>): (r: Option<Item>)
    ensures r.Some? ==> |r.value.rest| < |s| && |r.value.payload| <= |s|
    ensures r.Some? && r.value.isList ==> |r.value.payload| < |s|
  {
    if s == [] then None else
    var t := s[0];
    if t < 0x80 then Split(s, false, 0, 1)
    else if t < 0xB8 then Split(s, false, 1, t - 0x80)
    else if t < 0xC0 then
      var k := t - 0xB7;
      if 1 + k <= |s| then Split(s, false, 1 + k, FromBigEndian(s[1..1 + k])) else None
    else if t < 0xF8 then Split(s, true, 1, t - 0xC0)
    else
      var k := t - 0xF7;
      if 1 + k <= |s| then Split(s, true, 1 + k, FromBigEndian(s[1..1 + k])) else None
  }

  function Decode(s: seq<byte>): (r: Option<(Value, seq<byte>)>)
    ensures r.Some? ==> |r.value.1| < |s|
    decreases |s|, 0
  {
    match NextItem(s)
    case None => None
    case Some(Item(isList, payload, rest)) =>
      if !isList then Some((Bytes(payload), rest)) else
      match DecodeAll(payload)
      case None => None
      case Some(vs) => Some((List(vs), rest))
  }

  function DecodeAll(s: seq<byte>): Option<seq<Value>>
    decreases |s|, 1
  {
    if s == [] then Some([]) else
    match Decode(s)
    case None => None
    case Some((v, rest)) =>
      match DecodeAll(rest)
      case None => None
      case Some(vs) => Some([v] + vs)
  }

  // ----- The round trip -----

  lemma ShortPrefixRead(n: nat, base: int, p: seq<byte>, rest: seq<byte>)
    requires n == |p| < 56 && (base == 0x80 || base == 0xC0)
    ensures NextItem(Prefix(n, base) + p + rest) == Some(Item(base == 0xC0, p, rest))
  {
    var s := Prefix(n, base) + p + rest;
    assert s[1..1 + n] == p;
    assert s[1 + n..] == rest;
  }

  lemma NextLong(s: seq<byte>, k: nat, n: nat)
    requires 1 <= k <= 8 && 1 + k <= |s| && (s[0] == 0xB7 + k || s[0] == 0xF7 + k)
    requires FromBigEndian(s[1..1 + k]) == n
    ensures NextItem(s) == Split(s, s[0] >= 0xF8, 1 + k, n)
  {
  }

  lemma SplitAt(head: seq<byte>, p: seq<byte>, rest: seq<byte>, isList: bool)
    ensures Split(head + p + rest, isList, |head|, |p|) == Some(Item(isList, p, rest))
  {
    var s := head + p + rest;
    assert s[|head|..|head| + |p|] == p && s[|head| + |p|..] == rest;
  }

  lemma LengthAt(t: byte, length: seq<byte>, p: seq<byte>, rest: seq<byte>)
    ensures ([t] + length + p + rest)[0] == t && ([t] + length + p + rest)[1..1 + |length|] == length
  {
  }

  lemma LongPrefixRead(n: nat, base: int, p: seq<byte>, rest: seq<byte>)
    requires 56 <= n == |p| < MAX && (base == 0x80 || base == 0xC0)
    ensures NextItem(Prefix(n, base) + p + rest) == Some(Item(base == 0xC0, p, rest))
  {
    MaxIsPow256();
    BigEndianLength(n, 8);
    BigEndianRoundTrip(n);
    var k := |BigEndian(n)|;
    var t: byte := base + 55 + k;
    LengthAt(t, BigEndian(n), p, rest);
    NextLong([t] + BigEndian(n) + p + rest, k, n);
    SplitAt([t] + BigEndian(n), p, rest, base == 0xC0);
  }

  lemma PrefixRead(n: nat, base: int, p: seq<byte>, rest: seq<byte>)
    requires n == |p| < MAX && (base == 0x80 || base == 0xC0)
    ensures NextItem(Prefix(n, base) + p + rest) == Some(Item(base == 0xC0, p, rest))
  {
    if n < 56 {
      ShortPrefixRead(n, base, p, rest);
    } else {
      LongPrefixRead(n, base, p, rest);
    }
  }

  /** Decoding an encoding gives the value back, and leaves whatever follows it. */
  lemma {:induction false} RoundTrip(v: Value, rest: seq<byte>)
    requires Encodable(v)
    ensures Decode(Encode(v) + rest) == Some((v, rest))
    decreases v, 0
  {
    match v
    case Bytes(b) =>
      if |b| == 1 && b[0] < 0x80 {
        assert (b + rest)[..1] == b && (b + rest)[1..] == rest;
      } else {
        PrefixRead(|b|, 0x80, b, rest);
      }
    case List(vs) =>
      RoundTripAll(vs);
      PrefixRead(|EncodeAll(vs)|, 0xC0, EncodeAll(vs), rest);
  }

  lemma {:induction false} RoundTripAll(vs: seq<Value>)
    requires AllEncodable(vs)
    ensures DecodeAll(EncodeAll(vs)) == Some(vs)
    decreases vs, 1
  {
    if vs != [] {
      RoundTrip(vs[0], EncodeAll(vs[1..]));
      RoundTripAll(vs[1..]);
      assert [vs[0]] + vs[1..] == vs;
    }
  }

  /** Different values have different encodings, and none is a prefix of another. */
  lemma EncodeInjective(v: Value, w: Value)
    requires Encodable(v) && Encodable(w) && Encode(v) == Encode(w)
    ensures v == w
  {
    RoundTrip(v, []);
    RoundTrip(w, []);
    assert Encode(v) + [] == Encode(v);
  }

  lemma BigEndianInjective(m: nat, n: nat)
    requires BigEndian(m) == BigEndian(n)
    ensures m == n
  {
    BigEndianRoundTrip(m);
    BigEndianRoundTrip(n);
  }
}
