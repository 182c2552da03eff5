/** The parameter packs of the remote calls: their wire format, the two-pass parser, and what goes
    through a channel. */
module ParamPack {
  import opened Base

  const TAG_INT32: uint32 := 0x2604_8027
  const TAG_BUFFER: uint32 := 0x2604_8028
  const TAG_BUFFER_C: uint32 := 0x2604_8029
  const TAG_BUFFERS_LIST: uint32 := 0x2604_8030

  const MAX_PARAMS := 20

  type int32 = x: int | -0x8000_0000 <= x < 0x8000_0000

  // The three kinds of buffer differ in who owns the memory, not in what they hold.
  datatype BufferKind = Owned | Borrowed | FromList

  datatype Param = Int32(v: int32) | Buffer(kind: BufferKind, data: Bytes)

  // A pack has room for twenty parameters.
  type Params = ps: seq<Param> | |ps| <= MAX_PARAMS

  // A pack, built locally or read; a read pack remembers the length of the buffer it came from.
  datatype Pack = Pack(params: Params, readed: bool, wholeLength: nat)

  function Tag(kind: BufferKind): uint32 {
    match kind
    case Owned => TAG_BUFFER
    case Borrowed => TAG_BUFFER_C
    case FromList => TAG_BUFFERS_LIST
  }

  // Little-endian 32-bit fields: the byte of weight 256 to the i stands at index i.
  function ByteAt(n: nat, i: nat): byte {
    if i == 0 then n % 256 else ByteAt(n / 256, i - 1)
  }

  function Le32(n: uint32): (r: Bytes)
    ensures |r| == 4
  {
    seq(4, (i: nat) => ByteAt(n, i))
  }

  function FromLe32(b: Bytes): (n: uint32)
    requires |b| == 4
  {
    b[0] as int + 256 * (b[1] as int + 256 * (b[2] as int + 256 * b[3] as int))
  }

  lemma Le32RoundTrip(n: uint32)
    ensures FromLe32(Le32(n)) == n
  {
    var n1 := n / 256;
    var n2 := n1 / 256;
    assert ByteAt(n, 1) == ByteAt(n1, 0);
    assert ByteAt(n, 2) == ByteAt(n1, 1) == ByteAt(n2, 0);
    assert ByteAt(n, 3) == ByteAt(n1, 2) == ByteAt(n2, 1) == ByteAt(n2 / 256, 0);
  }

  lemma FromLe32RoundTrip(b: Bytes)
    requires |b| == 4
    ensures Le32(FromLe32(b)) == b
  {
    var n3 := b[3] as int;
    var n2 := b[2] as int + 256 * n3;
    var n1 := b[1] as int + 256 * n2;
    Digit(b[2], n3);
    Digit(b[1], n2);
    Digit(b[0], n1);
    var n := FromLe32(b);
    assert ByteAt(n, 1) == ByteAt(n1, 0);
    assert ByteAt(n, 2) == ByteAt(n1, 1) == ByteAt(n2, 0);
    assert ByteAt(n, 3) == ByteAt(n1, 2) == ByteAt(n2, 1) == ByteAt(n3, 0);
  }

  lemma Digit(a: byte, k: nat)
    ensures (a as int + 256 * k) % 256 == a && (a as int + 256 * k) / 256 == k
  {
  }

  function Bits(v: int32): uint32 {
    if v < 0 then v + TWO_32 else v
  }

  function Signed(n: uint32): int32 {
    if n < 0x8000_0000 then n else n - TWO_32
  }

  // What a 32-bit field keeps of a length.
  function Low32(n: nat): uint32 {
    n % TWO_32
  }

  // One parameter with the tag it carries; the length field of a buffer wraps.
  function EncodeRaw(p: Param): Bytes {
    match p
    case Int32(v) => Le32(TAG_INT32) + Le32(Bits(v))
    case Buffer(kind, data) => Le32(Tag(kind)) + Le32(Low32(|data|)) + data
  }

  predicate Fits(ps: seq<Param>) {
    forall i | 0 <= i < |ps| :: ps[i].Buffer? ==> |ps[i].data| < TWO_32
  }

  function EncodeAll(ps: seq<Param>): Bytes {
    if ps == [] then [] else EncodeRaw(ps[0]) + EncodeAll(ps[1..])
  }

  // The count, then the parameters.
  function Encode(ps: seq<Param>): Bytes {
    Le32(Low32(|ps|)) + EncodeAll(ps)
  }

  // The writer sends every buffer as one that the receiver owns.
  function Normal(p: Param): Param {
    if p.Buffer? then p.(kind := Owned) else p
  }

  function Normalised(ps: seq<Param>): (r: seq<Param>)
    ensures |r| == |ps| && forall i | 0 <= i < |ps| :: r[i] == Normal(ps[i])
  {
    seq(|ps|, i requires 0 <= i < |ps| => Normal(ps[i]))
  }

  function KindOf(tag: uint32): Option<BufferKind> {
    if tag == TAG_BUFFER then Some(Owned)
    else if tag == TAG_BUFFER_C then Some(Borrowed)
    else if tag == TAG_BUFFERS_LIST then Some(FromList)
    else None
  }

  // The parameter at the front of `b` and the bytes it takes, when it is well formed and complete.
  function ParseOne(b: Bytes): (r: Option<(Param, nat)>)
    ensures r.Some? ==> 8 <= r.value.1 <= |b|
  {
    if |b| < 8 then None
    else
      var tag, field := FromLe32(b[..4]), FromLe32(b[4..8]);
      if tag == TAG_INT32 then Some((Int32(Signed(field)), 8))
      else if KindOf(tag).None? || 8 + field > |b| then None
      else Some((Buffer(KindOf(tag).value, b[8..8 + field]), 8 + field))
  }

  // The `n` parameters at the front of `b` and the bytes they take.
  function ParseAll(b: Bytes, n: nat): (r: Option<(seq<Param>, nat)>)
    ensures r.Some? ==> |r.value.0| == n && r.value.1 <= |b|
  {
    if n == 0 then Some(([], 0))
    else
      var one := ParseOne(b);
      if one.None? then None
      else
        var rest := ParseAll(b[one.value.1..], n - 1);
        if rest.None? then None else Some(([one.value.0] + rest.value.0, one.value.1 + rest.value.1))
  }

  lemma SignedBits(v: int32, n: uint32)
    ensures Signed(Bits(v)) == v && Bits(Signed(n)) == n
  {
  }

  // What is parsed is exactly what encodes to the bytes taken.
  lemma ParsedEncodes(b: Bytes)
    requires ParseOne(b).Some?
    ensures var (p, len) := ParseOne(b).value;
            (p.Buffer? ==> |p.data| < TWO_32) && |EncodeRaw(p)| == len && b == EncodeRaw(p) + b[len..]
  {
    var (p, len) := ParseOne(b).value;
    FromLe32RoundTrip(b[..4]);
    FromLe32RoundTrip(b[4..8]);
    SignedBits(0, FromLe32(b[4..8]));
    assert b[..len] == b[..4] + b[4..8] + b[8..len];
    assert b == b[..len] + b[len..];
  }

  // An encoding, followed by anything, parses back.
  lemma EncodedParses(p: Param, rest: Bytes)
    requires p.Buffer? ==> |p.data| < TWO_32
    ensures ParseOne(EncodeRaw(p) + rest) == Some((p, |EncodeRaw(p)|))
  {
    var b := EncodeRaw(p) + rest;
    var field := if p.Int32? then Bits(p.v) else |p.data|;
    var tag := if p.Int32? then TAG_INT32 else Tag(p.kind);
    assert b[..4] == Le32(tag);
    assert b[4..8] == Le32(field);
    Le32RoundTrip(tag);
    Le32RoundTrip(field);
    if p.Int32? { SignedBits(p.v, 0); } else { assert b[8..8 + field] == p.data; }
  }

  // Two fronts of a sequence, one after the other.
  lemma Fronts(b: Bytes, x: Bytes, y: Bytes)
    requires |x| <= |b| && b == x + b[|x|..] && |y| <= |b[|x|..]| && b[|x|..] == y + b[|x|..][|y|..]
    ensures |x + y| <= |b| && b == x + y + b[|x + y|..]
  {
    assert b[|x|..][|y|..] == b[|x| + |y|..];
    assert x + (y + b[|x| + |y|..]) == x + y + b[|x| + |y|..];
  }

  lemma {:induction false} AllParsedEncodes(b: Bytes, n: nat)
    requires ParseAll(b, n).Some?
    ensures var (ps, len) := ParseAll(b, n).value;
            Fits(ps) && |EncodeAll(ps)| == len && b == EncodeAll(ps) + b[len..]
  {
    if n > 0 {
      var (p, k) := ParseOne(b).value;
      var (ps, m) := ParseAll(b[k..], n - 1).value;
      ParsedEncodes(b);
      AllParsedEncodes(b[k..], n - 1);
      hide EncodeRaw, ParseOne;
      ConsEncodes(p, ps);
      Fronts(b, EncodeRaw(p), EncodeAll(ps));
    }
  }

  lemma ConsEncodes(p: Param, ps: seq<Param>)
    ensures EncodeAll([p] + ps) == EncodeRaw(p) + EncodeAll(ps)
  {
    assert ([p] + ps)[1..] == ps;
  }

  lemma {:induction false} AllEncodedParses(ps: seq<Param>, rest: Bytes)
    requires Fits(ps)
    ensures ParseAll(EncodeAll(ps) + rest, |ps|) == Some((ps, |EncodeAll(ps)|))
  {
    if ps == [] {
      assert ParseAll(EncodeAll(ps) + rest, 0) == Some(([], 0));
    } else {
      var head, more := EncodeRaw(ps[0]), EncodeAll(ps[1..]);
      EncodedParses(ps[0], more + rest);
      AllEncodedParses(ps[1..], rest);
      ConcatParses(ps, head, more, rest);
    }
  }

  lemma ConcatParses(ps: seq<Param>, head: Bytes, more: Bytes, rest: Bytes)
    requires ps != [] && ParseOne(head + (more + rest)) == Some((ps[0], |head|))
    requires ParseAll(more + rest, |ps| - 1) == Some((ps[1..], |more|))
    ensures ParseAll(head + more + rest, |ps|) == Some((ps, |head + more|))
  {
    Regroup(head, more, rest);
    ConsParses(head + (more + rest), ps, |head|, |more|);
  }

  lemma Regroup(x: Bytes, y: Bytes, z: Bytes)
    ensures x + (y + z) == x + y + z && (x + (y + z))[|x|..] == y + z
  {
  }

  lemma {:induction false} ConsParses(b: Bytes, ps: seq<Param>, k: nat, len: nat)
    requires ps != [] && ParseOne(b) == Some((ps[0], k)) && ParseAll(b[k..], |ps| - 1) == Some((ps[1..], len))
    ensures ParseAll(b, |ps|) == Some((ps, k + len))
  {
    hide ParseOne;
    assert [ps[0]] + ps[1..] == ps;
  }

  // The buffer starts with the encoding of some parameters.
  ghost predicate StartsWellFormed(b: Bytes) {
    exists ps: seq<Param> | |ps| < TWO_32 && Fits(ps) :: Encode(ps) <= b
  }

  predicate Parses(b: Bytes) {
    |b| >= 4 && ParseAll(b[4..], FromLe32(b[..4])).Some?
  }

  // What parses is an encoding, up to what follows it.
  lemma ParsedStarts(b: Bytes) returns (ps: seq<Param>)
    requires Parses(b)
    ensures |ps| < TWO_32 && Fits(ps) && Encode(ps) <= b
  {
    var n := FromLe32(b[..4]);
    ps := ParseAll(b[4..], n).value.0;
    AllParsedEncodes(b[4..], n);
    FromLe32RoundTrip(b[..4]);
    hide *;
    SmallStays(n);
    Fronts(b, b[..4], EncodeAll(ps));
    EncodeIs(ps);
    Front(b, Encode(ps));
  }

  lemma SmallStays(n: nat)
    requires n < TWO_32
    ensures Low32(n) == n
  {
  }

  lemma EncodeIs(ps: seq<Param>)
    ensures Encode(ps) == Le32(Low32(|ps|)) + EncodeAll(ps)
  {
  }

  lemma Front(b: Bytes, x: Bytes)
    requires |x| <= |b| && b == x + b[|x|..]
    ensures x <= b
  {
  }

  // The parser accepts exactly the buffers that start with a well-formed encoding.
  lemma ParsesExactlyWellFormed(b: Bytes)
    ensures Parses(b) <==> StartsWellFormed(b)
  {
    if Parses(b) {
      hide Encode, Parses, Fits;
      var ps := ParsedStarts(b);
      assert Encode(ps) <= b;
    }
    if StartsWellFormed(b) {
      hide Encode, EncodeAll, FromLe32, ParseAll, Fits;
      var ps: seq<Param> :| |ps| < TWO_32 && Fits(ps) && Encode(ps) <= b;
      EncodingParses(ps, b[|Encode(ps)|..]);
      assert Encode(ps) + b[|Encode(ps)|..] == b;
    }
  }

  // An encoding parses back to what was encoded, whatever follows it.
  lemma EncodingParses(ps: seq<Param>, rest: Bytes)
    requires |ps| < TWO_32 && Fits(ps)
    ensures var b := Encode(ps) + rest;
            |b| >= 4 && FromLe32(b[..4]) == |ps| && ParseAll(b[4..], |ps|) == Some((ps, |EncodeAll(ps)|))
  {
    hide EncodeAll, FromLe32, ParseAll, Le32;
    AllEncodedParses(ps, rest);
    var count, tail := Le32(|ps|), EncodeAll(ps) + rest;
    Regroup(count, EncodeAll(ps), rest);
    assert (count + tail)[..4] == count && (count + tail)[4..] == tail;
    Le32RoundTrip(|ps|);
  }
}
