/**
 * The application/x-www-form-urlencoded format of section 5 of the WHATWG URL
 * Standard: the parser behind `new URLSearchParams(search)` and the serializer
 * behind `searchParams.toString()`.
 */
module FormUrlEncoded {
  import opened Utf8
  import opened Seqs

  /** One name-value pair of a query, in list order. */
  type Pair = (string, string)

  const Ampersand: byte := 0x26
  const EqualsSign: byte := 0x3D
  const Plus: byte := 0x2B
  const Space: byte := 0x20
  const Percent: byte := 0x25

  predicate IsHexDigit(b: byte) {
    (0x30 <= b <= 0x39) || (0x41 <= b <= 0x46) || (0x61 <= b <= 0x66)
  }

  function HexValue(b: byte): (v: nat)
    requires IsHexDigit(b)
    ensures v < 16
  {
    if b <= 0x39 then b - 0x30 else if b <= 0x46 then b - 0x41 + 10 else b - 0x61 + 10
  }

  /** The upper-case hex digit the serializer writes for `v`. */
  function HexDigit(v: nat): (b: byte)
    requires v < 16
    ensures IsHexDigit(b) && HexValue(b) == v
  {
    if v < 10 then 0x30 + v else 0x41 + v - 10
  }

  /** Bytes the serializer writes as they are: `*`, `-`, `.`, `_` and ASCII alphanumerics. */
  predicate IsUnescaped(b: byte) {
    || b == 0x2A || b == 0x2D || b == 0x2E || b == 0x5F
    || (0x30 <= b <= 0x39) || (0x41 <= b <= 0x5A) || (0x61 <= b <= 0x7A)
  }

  /** What the urlencoded byte serializer writes for one byte. */
  function SerializeByte(b: byte): (r: seq<byte>)
    ensures forall i :: 0 <= i < |r| ==> r[i] < 0x80 && r[i] != Ampersand && r[i] != EqualsSign
  {
    if b == Space then [Plus]
    else if IsUnescaped(b) then [b]
    else [Percent, HexDigit(b / 16), HexDigit(b % 16)]
  }

  /** The urlencoded byte serializer. */
  function SerializeBytes(bs: seq<byte>): (r: seq<byte>)
    ensures forall i :: 0 <= i < |r| ==> r[i] < 0x80 && r[i] != Ampersand && r[i] != EqualsSign
  {
    if bs == [] then [] else SerializeByte(bs[0]) + SerializeBytes(bs[1..])
  }

  /** `name=value` with both halves UTF-8 encoded and escaped. */
  function SerializePair(p: Pair): (r: seq<byte>)
    ensures r != []
    ensures forall i :: 0 <= i < |r| ==> r[i] < 0x80 && r[i] != Ampersand
  {
    SerializeBytes(Encode(p.0)) + [EqualsSign] + SerializeBytes(Encode(p.1))
  }

  /** The pairs serialized and joined with `&`. */
  function SerializeList(q: seq<Pair>): (r: seq<byte>)
    ensures forall i :: 0 <= i < |r| ==> r[i] < 0x80
    ensures r == [] <==> q == []
  {
    if q == [] then []
    else if |q| == 1 then SerializePair(q[0])
    else SerializePair(q[0]) + [Ampersand] + SerializeList(q[1..])
  }

  /** The urlencoded serializer; its output is ASCII. */
  function Serialize(q: seq<Pair>): (s: string)
    ensures s == "" <==> q == []
  {
    AsciiString(SerializeList(q))
  }

  /** The index of the first `x` in `bs`, or `|bs|` when there is none. */
  function IndexOf(bs: seq<byte>, x: byte): (k: nat)
    ensures k <= |bs|
    ensures forall i :: 0 <= i < k ==> bs[i] != x
    ensures k < |bs| ==> bs[k] == x
  {
    if bs == [] then 0 else if bs[0] == x then 0 else 1 + IndexOf(bs[1..], x)
  }

  /** Every `+` replaced by a space. */
  function PlusToSpace(bs: seq<byte>): (r: seq<byte>)
    ensures |r| == |bs|
  {
    if bs == [] then [] else [if bs[0] == Plus then Space else bs[0]] + PlusToSpace(bs[1..])
  }

  /**
   * Percent-decoding: `%` followed by two hex digits is the byte they spell;
   * any other byte, a lone `%` included, stands for itself.
   */
  function PercentDecode(bs: seq<byte>): (r: seq<byte>)
    ensures |r| <= |bs|
    decreases |bs|
  {
    if bs == [] then []
    else if bs[0] == Percent && |bs| >= 3 && IsHexDigit(bs[1]) && IsHexDigit(bs[2]) then
      [HexValue(bs[1]) * 16 + HexValue(bs[2])] + PercentDecode(bs[3..])
    else [bs[0]] + PercentDecode(bs[1..])
  }

  /** One name or value: `+` as space, percent-decoded, then UTF-8 decoded. */
  function DecodeComponent(bs: seq<byte>): string {
    Decode(PercentDecode(PlusToSpace(bs)))
  }

  /** One non-empty `&`-separated sequence: split at its first `=`, if any. */
  function ParsePair(seg: seq<byte>): Pair {
    var k := IndexOf(seg, EqualsSign);
    (DecodeComponent(seg[..k]), DecodeComponent(if k < |seg| then seg[k + 1..] else []))
  }

  /** The urlencoded parser over bytes: empty sequences between `&`s are skipped. */
  function ParseBytes(bs: seq<byte>): (q: seq<Pair>)
    ensures |q| <= |bs|
    decreases |bs|
  {
    if bs == [] then []
    else
      var k := IndexOf(bs, Ampersand);
      (if k == 0 then [] else [ParsePair(bs[..k])]) + ParseBytes(if k < |bs| then bs[k + 1..] else [])
  }

  /** The urlencoded string parser: UTF-8 encode, then parse. */
  function Parse(s: string): seq<Pair> {
    ParseBytes(Encode(s))
  }

  lemma {:induction false} PlusToSpaceAppend(a: seq<byte>, b: seq<byte>)
    ensures PlusToSpace(a + b) == PlusToSpace(a) + PlusToSpace(b)
  {
    if a != [] {
      var head := if a[0] == Plus then Space else a[0];
      assert (a + b)[0] == a[0] && (a + b)[1..] == a[1..] + b;
      assert PlusToSpace(a + b) == [head] + PlusToSpace(a[1..] + b);
      PlusToSpaceAppend(a[1..], b);
    } else {
      assert a + b == b;
    }
  }

  /** Undoing the escape of one byte, whatever follows it. */
  lemma DecodeSerializedByte(b: byte, rest: seq<byte>)
    ensures PercentDecode(PlusToSpace(SerializeByte(b)) + rest) == [b] + PercentDecode(rest)
  {
    var e := SerializeByte(b);
    if b == Space || IsUnescaped(b) {
      assert PlusToSpace(e) == [b];
      assert ([b] + rest)[1..] == rest;
    } else {
      var hi, lo := HexDigit(b / 16), HexDigit(b % 16);
      assert PlusToSpace(e) == e by {
        assert e[1..] == [hi, lo] && e[2..] == [lo] && [lo][1..] == [];
        assert PlusToSpace([lo]) == [lo];
        assert PlusToSpace([hi, lo]) == [hi] + PlusToSpace([lo]);
        assert PlusToSpace(e) == [Percent] + PlusToSpace([hi, lo]);
      }
      assert (e + rest)[3..] == rest;
    }
  }

  /** Unescaping inverts the byte serializer. */
  lemma {:induction false} DecodeSerializedBytes(bs: seq<byte>)
    ensures PercentDecode(PlusToSpace(SerializeBytes(bs))) == bs
  {
    if bs != [] {
      var head, tail := SerializeByte(bs[0]), SerializeBytes(bs[1..]);
      PlusToSpaceAppend(head, tail);
      DecodeSerializedByte(bs[0], PlusToSpace(tail));
      DecodeSerializedBytes(bs[1..]);
    }
  }

  /** A serialized pair parses back to the pair. */
  lemma ParseSerializedPair(p: Pair)
    ensures ParsePair(SerializePair(p)) == p
  {
    var name, value := SerializeBytes(Encode(p.0)), SerializeBytes(Encode(p.1));
    var seg := SerializePair(p);
    assert IndexOf(seg, EqualsSign) == |name| by {
      IndexOfAfter(name, EqualsSign, value);
    }
    assert seg[..|name|] == name && seg[|name| + 1..] == value;
    DecodeSerializedBytes(Encode(p.0));
    DecodeSerializedBytes(Encode(p.1));
    DecodeEncode(p.0);
    DecodeEncode(p.1);
  }

  /** The first `x` in `a + [x] + b`, when `a` holds none, ends `a`. */
  lemma {:induction false} IndexOfAfter(a: seq<byte>, x: byte, b: seq<byte>)
    requires forall i :: 0 <= i < |a| ==> a[i] != x
    ensures IndexOf(a + [x] + b, x) == |a|
  {
    if a != [] {
      assert (a + [x] + b)[1..] == a[1..] + [x] + b;
      IndexOfAfter(a[1..], x, b);
    }
  }

  /** A sequence without `x` has its first `x` at its end. */
  lemma {:induction false} IndexOfAbsent(a: seq<byte>, x: byte)
    requires forall i :: 0 <= i < |a| ==> a[i] != x
    ensures IndexOf(a, x) == |a|
  {
    if a != [] {
      IndexOfAbsent(a[1..], x);
    }
  }

  /** Parsing inverts serializing, over bytes. */
  lemma {:induction false} ParseSerializedList(q: seq<Pair>)
    ensures ParseBytes(SerializeList(q)) == q
  {
    if q != [] {
      var head := SerializePair(q[0]);
      ParseSerializedPair(q[0]);
      if |q| == 1 {
        IndexOfAbsent(head, Ampersand);
        assert head[..|head|] == head;
        assert ParseBytes(head) == [ParsePair(head)] + ParseBytes([]);
      } else {
        var tail := SerializeList(q[1..]);
        var bs := head + [Ampersand] + tail;
        IndexOfAfter(head, Ampersand, tail);
        AroundSeparator(head, Ampersand, tail);
        assert ParseBytes(bs) == [ParsePair(head)] + ParseBytes(tail);
        ParseSerializedList(q[1..]);
        ConsSplit(q);
      }
    }
  }

  /** Parsing the serializer's output gives back the same pairs, in the same order. */
  lemma ParseSerialize(q: seq<Pair>)
    ensures Parse(Serialize(q)) == q
  {
    EncodeAscii(SerializeList(q));
    ParseSerializedList(q);
  }
}
