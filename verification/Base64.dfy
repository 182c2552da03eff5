/** The Base64 codec of the examples, against section 4 of RFC 4648. */
module Base64 {
  import opened Base

  type Octets = seq<bv8>

  const ALPHABET := "ABCDEFGHIJKLM" + "NOPQRSTUVWXYZ" + "abcdefghijklm" + "nopqrstuvwxyz" + "0123456789+/"

  const BAD := 0xff

  // What each character from '+' on stands for.
  const MAP2: seq<nat> :=
    [0x3e, 0xff, 0xff, 0xff, 0x3f, 0x34, 0x35, 0x36] +
    [0x37, 0x38, 0x39, 0x3a, 0x3b, 0x3c, 0x3d, 0xff] +
    [0xff, 0xff, 0xff, 0xff, 0xff, 0xff, 0x00, 0x01] +
    [0x02, 0x03, 0x04, 0x05, 0x06, 0x07, 0x08, 0x09] +
    [0x0a, 0x0b, 0x0c, 0x0d, 0x0e, 0x0f, 0x10, 0x11] +
    [0x12, 0x13, 0x14, 0x15, 0x16, 0x17, 0x18, 0x19] +
    [0xff, 0xff, 0xff, 0xff, 0xff, 0xff, 0x1a, 0x1b] +
    [0x1c, 0x1d, 0x1e, 0x1f, 0x20, 0x21, 0x22, 0x23] +
    [0x24, 0x25, 0x26, 0x27, 0x28, 0x29, 0x2a, 0x2b] +
    [0x2c, 0x2d, 0x2e, 0x2f, 0x30, 0x31, 0x32, 0x33]

  function Entry(i: nat): nat
    requires i < 80
  {
    MAP2[i]
  }

  // What a character stands for; the unsigned index wraps for the characters before '+'.
  function Value(c: char): Option<nat> {
    var index := (c as int - 43) % TWO_32;
    if index >= 80 || Entry(index) == BAD then None else Some(Entry(index))
  }

  function Letter(s: nat): char
    requires s < 64
  {
    ALPHABET[s]
  }

  // The letters and the table, by ranges.
  function LetterCode(s: nat): int {
    if s < 26 then 65 + s else if s < 52 then 71 + s else if s < 62 then s - 4 else 4 * s - 205
  }

  function EntryCode(i: nat): nat {
    if i == 0 then 62 else if i == 4 then 63 else if 5 <= i < 15 then i + 47
    else if 22 <= i < 48 then i - 22 else if i >= 54 then i - 28 else 255
  }

  lemma UpperIs(s: nat)
    requires s < 26
    ensures ALPHABET[s] as int == 65 + s
  {
    if s < 13 {}
  }

  lemma LowerIs(s: nat)
    requires 26 <= s < 64
    ensures ALPHABET[s] as int == LetterCode(s)
  {
    if s < 39 {} else if s < 52 {}
  }

  lemma LetterIs(s: nat)
    requires s < 64
    ensures Letter(s) as int == LetterCode(s)
  {
    if s < 26 { UpperIs(s); } else { LowerIs(s); }
  }

  lemma FrontIs(i: nat)
    requires i < 40
    ensures MAP2[i] == EntryCode(i)
  {
    if i < 8 {} else if i < 16 {} else if i < 24 {} else if i < 32 {}
  }

  lemma BackIs(i: nat)
    requires 40 <= i < 80
    ensures MAP2[i] == EntryCode(i)
  {
    if i < 48 {} else if i < 56 {} else if i < 64 {} else if i < 72 {}
  }

  lemma EntryIs(i: nat)
    requires i < 80
    ensures Entry(i) == EntryCode(i)
  {
    if i < 40 { FrontIs(i); } else { BackIs(i); }
  }

  // The two tables are inverse to each other, and everything else is refused.
  lemma TablesAreInverse(c: char, s: nat)
    requires s < 64
    ensures Value(c) == Some(s) <==> c == Letter(s)
  {
    hide Letter, Entry;
    LetterIs(s);
    var index := (c as int - 43) % TWO_32;
    if index < 80 { EntryIs(index); }
  }

  // The byte at `i`, zero past the end.
  function Padded(x: Octets, i: nat): bv8 {
    if i < |x| then x[i] else 0
  }

  // The six bits of the input from bit 6 * k on.
  function Sextet(x: Octets, k: nat): (s: bv8)
    ensures s < 64
  {
    var a, b, c := Padded(x, k / 4 * 3), Padded(x, k / 4 * 3 + 1), Padded(x, k / 4 * 3 + 2);
    if k % 4 == 0 then a >> 2
    else if k % 4 == 1 then ((a & 3) << 4) | (b >> 4)
    else if k % 4 == 2 then ((b & 15) << 2) | (c >> 6)
    else c & 63
  }

  function LetterOf(s: bv8): char
    requires s < 64
  {
    Letter(s as int)
  }

  // Section 4 of RFC 4648: each group of three bytes makes four letters, and a short last group is padded.
  function Rfc(x: Octets): string {
    if x == [] then ""
    else if |x| == 1 then [LetterOf(x[0] >> 2), LetterOf((x[0] & 3) << 4), '=', '=']
    else if |x| == 2 then
      [LetterOf(x[0] >> 2), LetterOf(((x[0] & 3) << 4) | (x[1] >> 4)), LetterOf((x[1] & 15) << 2), '=']
    else
      [LetterOf(x[0] >> 2), LetterOf(((x[0] & 3) << 4) | (x[1] >> 4)), LetterOf(((x[1] & 15) << 2) | (x[2] >> 6)),
       LetterOf(x[2] & 63)] + Rfc(x[3..])
  }

  function TextLength(n: nat): nat {
    (n + 2) / 3 * 4
  }

  // The letter at place `k` of the text.
  function LetterAt(x: Octets, k: nat): char {
    if 6 * k < 8 * |x| then LetterOf(Sextet(x, k)) else '='
  }

  // The text, letter by letter.
  lemma {:induction false} RfcAt(x: Octets, k: nat)
    ensures |Rfc(x)| == TextLength(|x|)
    ensures k < |Rfc(x)| ==> Rfc(x)[k] == LetterAt(x, k)
  {
    hide Letter, LetterOf;
    if k < 4 && 0 < |x| { FirstGroup(x, k); }
    if |x| > 2 {
      RfcAt(x[3..], if k < 4 then k else k - 4);
      if k >= 4 { SextetShifts(x, k); }
    }
  }

  lemma FirstGroup(x: Octets, k: nat)
    requires 0 < |x| && k < 4
    ensures |Rfc(x)| >= 4 && Rfc(x)[k] == LetterAt(x, k)
  {
    hide Letter, LetterOf, Sextet;
    FirstSextets(x);
  }

  lemma FirstSextets(x: Octets)
    requires 0 < |x|
    ensures Sextet(x, 0) == x[0] >> 2
    ensures Sextet(x, 1) == if |x| > 1 then ((x[0] & 3) << 4) | (x[1] >> 4) else (x[0] & 3) << 4
    ensures |x| > 1 ==> Sextet(x, 2) == if |x| > 2 then ((x[1] & 15) << 2) | (x[2] >> 6) else (x[1] & 15) << 2
    ensures |x| > 2 ==> Sextet(x, 3) == x[2] & 63
  {
  }

  lemma SextetShifts(x: Octets, k: nat)
    requires |x| > 2 && k >= 4
    ensures Sextet(x, k) == Sextet(x[3..], k - 4)
  {
    assert k / 4 * 3 == (k - 4) / 4 * 3 + 3;
    assert k % 4 == (k - 4) % 4;
  }

  // What the encoder takes from its 32-bit accumulator.
  function Emit(bits: bv32, shift: nat): (s: bv8)
    requires shift <= 32
    ensures s < 64
  {
    (((bits << 6) >> shift) & 0x3f) as bv8
  }

  // The two bytes last shifted into the accumulator, whatever else is above them.
  predicate LastTwo(bits: bv32, p: bv8, c: bv8) {
    bits & 0xffff == ((p as bv32) << 8) | (c as bv32)
  }

  lemma ShiftIn(bits: bv32, p: bv8, c: bv8, next: bv8)
    requires LastTwo(bits, p, c)
    ensures LastTwo((bits << 8) + (next as bv32), c, next)
  {
  }

  lemma EmitsLow(bits: bv32, p: bv8, c: bv8)
    requires LastTwo(bits, p, c)
    ensures Emit(bits, 2) == (c & 3) << 4
    ensures Emit(bits, 4) == (c & 15) << 2
    ensures Emit(bits, 6) == c & 63
  {
  }

  lemma EmitsAcross(bits: bv32, p: bv8, c: bv8)
    requires LastTwo(bits, p, c)
    ensures Emit(bits, 10) == ((p & 3) << 4) | (c >> 4)
    ensures Emit(bits, 12) == ((p & 15) << 2) | (c >> 6)
  {
  }

  lemma EmitsHigh(bits: bv32, p: bv8, c: bv8)
    requires LastTwo(bits, p, c)
    ensures Emit(bits, 8) == c >> 2
    ensures Emit(bits, 14) == p & 63
  {
  }

  // After `n` bytes and `k` letters, the next letter is the next six bits: there are at least six of
  // them in the accumulator, or the input has ended.
  lemma EmitsSextet(x: Octets, n: nat, k: nat, bits: bv32)
    requires 0 < n <= |x| && 0 < 8 * n - 6 * k <= 14 && (8 * n - 6 * k >= 6 || n == |x|)
    requires LastTwo(bits, if n > 1 then x[n - 2] else 0, x[n - 1])
    ensures Emit(bits, 8 * n - 6 * k) == Sextet(x, k)
  {
    hide Emit, LastTwo;
    var p, c := if n > 1 then x[n - 2] else 0, x[n - 1];
    var j, shift := k / 4, 8 * n - 6 * k;
    EmitsLow(bits, p, c);
    EmitsAcross(bits, p, c);
    EmitsHigh(bits, p, c);
    if k % 4 == 0 {
      assert n == 3 * j + 1 && shift == 8;
    } else if k % 4 == 1 {
      assert if shift >= 6 then n == 3 * j + 2 && shift == 10 else n == 3 * j + 1 && shift == 2;
    } else if k % 4 == 2 {
      assert if shift >= 6 then n == 3 * j + 3 && shift == 12 else n == 3 * j + 2 && shift == 4;
    } else {
      assert if shift > 6 then n == 3 * j + 4 && shift == 14 else n == 3 * j + 3 && shift == 6;
    }
  }

  // The size the header asks of the output buffer: the text and the NUL.
  function Size(n: nat): nat {
    (n + 2) / 3 * 4 + 1
  }

  const UINT_MAX := 0xffff_ffff

  // The byte read `i` before the last of the first `n`, zero before the first.
  function Behind(x: Octets, n: nat, i: nat): bv8
    requires n <= |x|
  {
    if i < n then x[n - 1 - i] else 0
  }

  // The first `k` letters are there, and nothing else was touched.
  twostate predicate Written(out: array<char>, x: Octets, k: nat)
    reads out
  {
    && k <= out.Length
    && (forall j | 0 <= j < k :: out[j] == LetterAt(x, j))
    && (forall j | k <= j < out.Length :: out[j] == old(out[j]))
  }

  // One turn of the inner loop.
  method Put(out: array<char>, x: Octets, n: nat, k: nat, bits: bv32, shift: nat)
    requires 0 < n <= |x| && shift == 8 * n - 6 * k && 0 < shift <= 14 && (shift >= 6 || n == |x|) && k < out.Length
    requires LastTwo(bits, Behind(x, n, 1), Behind(x, n, 0))
    modifies out
    ensures out[k] == LetterAt(x, k)
    ensures forall j | 0 <= j < out.Length && j != k :: out[j] == old(out[j])
  {
    hide LetterOf, LastTwo, Sextet;
    EmitsSextet(x, n, k, bits);
    out[k] := LetterOf(Emit(bits, shift));
  }

  method EncodeBytes(out: array<char>, x: Octets) returns (dst: nat)
    requires Size(|x|) <= out.Length
    modifies out
    ensures 8 * |x| <= 6 * dst < 8 * |x| + 6 && Written(out, x, dst)
  {
    hide LetterAt, LastTwo;
    var bits: bv32, shift, src := 0, 0, 0;
    dst := 0;
    ZeroBits();
    while src < |x|
      invariant src <= |x| && shift == 8 * src - 6 * dst
      invariant if src == |x| then -6 < shift <= 0 else 0 <= shift <= 6
      invariant LastTwo(bits, Behind(x, src, 1), Behind(x, src, 0))
      invariant Written(out, x, dst)
    {
      ShiftIn(bits, Behind(x, src, 1), Behind(x, src, 0), x[src]);
      bits := (bits << 8) + (x[src] as bv32);
      src := src + 1;
      shift := shift + 8;
      var more := true;
      while more
        invariant shift == 8 * src - 6 * dst && -6 < shift <= 14
        invariant more == (shift > 6 || (src == |x| && shift > 0))
        invariant src < |x| ==> shift > 0
        invariant Written(out, x, dst)
        decreases shift + 6
      {
        Put(out, x, src, dst, bits, shift);
        dst := dst + 1;
        shift := shift - 6;
        more := shift > 6 || (src == |x| && shift > 0);
      }
    }
  }

  lemma ZeroBits()
    ensures LastTwo(0, 0, 0)
  {
  }

  lemma Padding(x: Octets)
    ensures forall k: nat :: 6 * k >= 8 * |x| ==> LetterAt(x, k) == '='
  {
  }

  lemma TextIs(x: Octets, text: string)
    requires |text| == TextLength(|x|) && forall k | 0 <= k < |text| :: text[k] == LetterAt(x, k)
    ensures text == Rfc(x)
  {
    hide Rfc, LetterAt;
    RfcAt(x, 0);
    forall k | 0 <= k < |Rfc(x)|
      ensures text[k] == Rfc(x)[k]
    {
      RfcAt(x, k);
    }
  }

  // Encode into a buffer: exactly the text of the standard and a NUL; a buffer too small, or an input
  // too long, is refused and nothing is written.
  method Encode(out: array<char>, x: Octets) returns (ok: bool)
    modifies out
    ensures ok <==> |x| < UINT_MAX / 4 && Size(|x|) <= out.Length
    ensures ok ==> out[..Size(|x|)] == Rfc(x) + [0 as char]
    ensures forall j | (if ok then Size(|x|) else 0) <= j < out.Length :: out[j] == old(out[j])
  {
    if |x| >= UINT_MAX / 4 || out.Length < Size(|x|) {
      return false;
    }
    hide Rfc, LetterAt;
    Padding(x);
    var dst := EncodeBytes(out, x);
    while dst % 4 != 0
      invariant 8 * |x| <= 6 * dst && dst <= TextLength(|x|) && Written(out, x, dst)
      decreases TextLength(|x|) - dst
    {
      out[dst] := '=';
      dst := dst + 1;
    }
    out[dst] := 0 as char;
    TextIs(x, out[..dst]);
    return true;
  }

  predicate Stops(c: char) {
    c == 0 as char || c == '='
  }

  // Where the letters end: at a NUL, a padding character, or the end.
  function BodyEnd(text: string, i: nat): (e: nat)
    requires i <= |text|
    ensures i <= e <= |text|
    decreases |text| - i
  {
    if i == |text| || Stops(text[i]) then i else BodyEnd(text, i + 1)
  }

  predicate AllValued(text: string, e: nat)
    requires e <= |text|
  {
    forall j | 0 <= j < e :: Value(text[j]).Some?
  }

  function AsSextet(n: nat): (s: bv8)
    requires n < 64
    ensures s < 64
  {
    n as bv8
  }

  function SextetAt(text: string, j: nat): (s: bv8)
    requires j < |text| && Value(text[j]).Some?
    ensures s < 64
  {
    ValueFits(text[j]);
    AsSextet(Value(text[j]).value)
  }

  lemma ValueFits(c: char)
    requires Value(c).Some?
    ensures Value(c).value < 64
  {
    hide Entry;
    var index := (c as int - 43) % TWO_32;
    EntryIs(index);
  }

  // The values of the first `e` letters.
  function Values(text: string, e: nat): seq<bv8>
    requires e <= |text| && AllValued(text, e)
  {
    seq(e, j requires 0 <= j < e => SextetAt(text, j))
  }

  // The byte completed by the value at `i`, which is not the first of its four.
  function OctetAt(ss: seq<bv8>, i: nat): bv8
    requires 0 < i < |ss| && i % 4 != 0
  {
    var p, c := ss[i - 1], ss[i];
    if i % 4 == 1 then (p << 2) | (c >> 4) else if i % 4 == 2 then (p << 4) | (c >> 2) else (p << 6) | c
  }

  // How many bytes `e` letters complete, and which letter completes the byte at `m`.
  function Completed(e: nat): nat {
    e - (e + 3) / 4
  }

  function Place(m: nat): (i: nat)
    ensures i > 0 && i % 4 != 0
  {
    m + m / 3 + 1
  }

  function Min(a: nat, b: nat): nat {
    if a < b then a else b
  }

  lemma PlaceOfNext(i: nat)
    ensures Completed(i + 1) == Completed(i) + if i % 4 != 0 then 1 else 0
    ensures i % 4 != 0 ==> Place(Completed(i)) == i
  {
  }

  lemma PlaceWithin(m: nat, e: nat)
    requires m < Completed(e)
    ensures Place(m) < e
  {
  }

  // The bytes that some values make, as many as a buffer takes.
  function Octs(ss: seq<bv8>, cap: nat): Octets {
    var n := Min(Completed(|ss|), cap);
    seq(n, m requires 0 <= m < n => PlaceWithin(m, |ss|); OctetAt(ss, Place(m)))
  }

  // What a text decodes to in a buffer of `cap` bytes.
  function Decoded(text: string, cap: nat): Option<Octets> {
    var e := BodyEnd(text, 0);
    if AllValued(text, e) then Some(Octs(Values(text, e), cap)) else None
  }

  // The two values last shifted in.
  predicate LastSix(v: bv32, p: bv8, c: bv8) {
    v & 0xfff == ((p as bv32) << 6) | (c as bv32)
  }

  lemma ShiftSix(v: bv32, p: bv8, c: bv8, next: bv8)
    requires c < 64 && next < 64 && LastSix(v, p, c)
    ensures LastSix((v << 6) + (next as bv32), c, next)
  {
  }

  // The byte is cut from the low end, where a signed and an unsigned shift agree.
  function Cut(v: bv32, r: nat): bv8
    requires r <= 3
  {
    ((v >> (6 - 2 * r)) & 0xff) as bv8
  }

  lemma Cuts(v: bv32, p: bv8, c: bv8)
    requires p < 64 && c < 64 && LastSix(v, p, c)
    ensures Cut(v, 1) == (p << 2) | (c >> 4)
    ensures Cut(v, 2) == (p << 4) | (c >> 2)
    ensures Cut(v, 3) == (p << 6) | c
  {
  }

  // The value read `k` before the last, zero before the first.
  function SixBehind(ss: seq<bv8>, k: nat): bv8 {
    if k < |ss| then ss[|ss| - 1 - k] else 0
  }

  predicate Small(ss: seq<bv8>) {
    forall i | 0 <= i < |ss| :: ss[i] < 64
  }

  lemma CutIs(ss: seq<bv8>, v: bv32)
    requires ss != [] && Small(ss) && (|ss| - 1) % 4 != 0 && LastSix(v, SixBehind(ss, 1), SixBehind(ss, 0))
    ensures Cut(v, (|ss| - 1) % 4) == OctetAt(ss, |ss| - 1)
  {
    hide LastSix, Cut;
    Cuts(v, SixBehind(ss, 1), SixBehind(ss, 0));
  }

  lemma StartSix(cap: nat)
    ensures LastSix(0, 0, 0) && Completed(0) == 0 && Octs([], cap) == []
  {
  }

  lemma NextValue(text: string, i: nat)
    requires i < |text| && AllValued(text, i) && Value(text[i]).Some?
    ensures AllValued(text, i + 1) && Values(text, i + 1) == Values(text, i) + [SextetAt(text, i)]
    ensures Small(Values(text, i))
    ensures Value(text[i]).value < 64 && SextetAt(text, i) == AsSextet(Value(text[i]).value)
  {
    hide Value;
    ValueFits(text[i]);
  }

  // The bytes made so far are the bytes of the values read so far, as many as the buffer takes.
  ghost predicate Holds(out: array<bv8>, ss: seq<bv8>)
    reads out
  {
    var n := Min(Completed(|ss|), out.Length);
    out[..n] == Octs(ss, out.Length)
  }

  // Store the byte that the last value completes, if it completes one and there is room.
  method Store(out: array<bv8>, v: bv32, i: nat, dst: nat, ghost ss: seq<bv8>) returns (next: nat)
    requires |ss| == i + 1 && Small(ss) && LastSix(v, SixBehind(ss, 1), SixBehind(ss, 0))
    requires dst == Min(Completed(i), out.Length) && Holds(out, ss[..i])
    modifies out
    ensures dst <= next == Min(Completed(i + 1), out.Length) && Holds(out, ss)
    ensures forall j | next <= j < out.Length :: out[j] == old(out[j])
  {
    PlaceOfNext(i);
    next := dst;
    if i % 4 != 0 {
      if dst < out.Length {
        CutIs(ss, v);
        out[dst] := Cut(v, i % 4);
        next := dst + 1;
      }
    }
  }

  // Decode a text that ends in NUL or padding: refused when a letter has no value, and otherwise as
  // many of its bytes as the buffer takes.
  method Decode(out: array<bv8>, text: string) returns (n: int)
    requires 0 as char in text
    modifies out
    ensures n == -1 <==> Decoded(text, out.Length).None?
    ensures n != -1 ==> n == |Decoded(text, out.Length).value| && out[..n] == Decoded(text, out.Length).value
    ensures n != -1 ==> forall j | n <= j < out.Length :: out[j] == old(out[j])
  {
    hide Value, LastSix, Cut, Completed, Octs, SextetAt, OctetAt;
    ghost var e := BodyEnd(text, 0);
    ghost var ss: seq<bv8> := [];
    var v: bv32, i: nat, dst := 0, 0, 0;
    StartSix(out.Length);
    while !Stops(text[i])
      invariant i < |text| && (0 as char) in text[i..] && BodyEnd(text, i) == e
      invariant AllValued(text, i) && ss == Values(text, i) && LastSix(v, SixBehind(ss, 1), SixBehind(ss, 0))
      invariant dst == Min(Completed(i), out.Length) && Holds(out, ss)
      invariant forall j | dst <= j < out.Length :: out[j] == old(out[j])
      decreases |text| - i
    {
      var value := Value(text[i]);
      if value.None? {
        return -1;
      }
      NextValue(text, i);
      var six := AsSextet(value.value);
      ShiftSix(v, SixBehind(ss, 1), SixBehind(ss, 0), six);
      v := (v << 6) + (six as bv32);
      assert (ss + [six])[..i] == ss;
      ss := ss + [six];
      dst := Store(out, v, i, dst, ss);
      i := i + 1;
    }
    return dst;
  }

  // How many letters `n` bytes take, padding not counted.
  function Letters(n: nat): nat {
    (8 * n + 5) / 6
  }

  lemma LettersComplete(n: nat)
    ensures Letters(n) <= TextLength(n) && Completed(Letters(n)) == n
    ensures forall k: nat :: 6 * k < 8 * n <==> k < Letters(n)
  {
  }

  // A letter is read back as the six bits it was made of, and does not end the text.
  lemma LetterReads(s: bv8)
    requires s < 64
    ensures var c := LetterOf(s); !Stops(c) && Value(c).Some? && Value(c).value < 64 && AsSextet(Value(c).value) == s
  {
    hide Letter, Value;
    var c := LetterOf(s);
    TablesAreInverse(c, s as int);
    NotLetters();
  }

  lemma NotLetters()
    ensures Value(0 as char).None? && Value('=').None?
  {
    hide Entry;
    EntryIs(18);
  }

  lemma {:induction false} BodyEndIs(text: string, i: nat, e: nat)
    requires i <= e <= |text| && (forall j | i <= j < e :: !Stops(text[j])) && (e == |text| || Stops(text[e]))
    ensures BodyEnd(text, i) == e
    decreases e - i
  {
    if i < e { BodyEndIs(text, i + 1, e); }
  }

  function Sent(x: Octets, rest: string): string {
    Rfc(x) + [0 as char] + rest
  }

  lemma LetterRead(x: Octets, rest: string, k: nat)
    requires k < Letters(|x|)
    ensures k < |Sent(x, rest)| && !Stops(Sent(x, rest)[k]) && Value(Sent(x, rest)[k]).Some?
    ensures SextetAt(Sent(x, rest), k) == Sextet(x, k)
  {
    hide Letter, LetterOf, Value, Sextet, AsSextet, Rfc, Letters, Stops;
    LettersComplete(|x|);
    RfcAt(x, k);
    LetterReads(Sextet(x, k));
    assert Sent(x, rest)[k] == Rfc(x)[k];
  }

  // Reading an encoding takes its letters and nothing after them.
  lemma EncodingEnds(x: Octets, rest: string)
    ensures var text, e := Sent(x, rest), Letters(|x|);
            BodyEnd(text, 0) == e <= |text| && AllValued(text, e)
  {
    hide Letter, LetterOf, Value, Sextet, AsSextet, SextetAt, Rfc, Letters, Stops;
    var text, e := Sent(x, rest), Letters(|x|);
    LettersComplete(|x|);
    RfcAt(x, 0);
    StopsAt();
    forall k | 0 <= k < e
      ensures k < |text| && !Stops(text[k]) && Value(text[k]).Some?
    {
      LetterRead(x, rest, k);
    }
    assert Stops(text[e]) by {
      if e < |Rfc(x)| { RfcAt(x, e); }
    }
    BodyEndIs(text, 0, e);
  }

  lemma StopsAt()
    ensures Stops(0 as char) && Stops('=')
  {
  }

  lemma SextetsMakeOctet(x: Octets, ss: seq<bv8>, m: nat)
    requires m < |x| && |ss| == Letters(|x|) && forall k | 0 <= k < |ss| :: ss[k] == Sextet(x, k)
    ensures Place(m) < |ss| && OctetAt(ss, Place(m)) == x[m]
  {
    LettersComplete(|x|);
    PlaceWithin(m, |ss|);
    var i := Place(m);
    assert i / 4 == m / 3 && (i - 1) / 4 == m / 3 && i % 4 == m % 3 + 1 && (i - 1) % 4 == m % 3;
  }

  // The round trip: what was encoded decodes to itself, cut to the buffer, whatever follows the NUL.
  lemma RoundTrip(x: Octets, rest: string, cap: nat)
    ensures Decoded(Sent(x, rest), cap) == Some(x[..Min(|x|, cap)])
  {
    hide Letter, LetterOf, Value, Sextet, AsSextet, Rfc, SextetAt, OctetAt, Stops;
    EncodingEnds(x, rest);
    LettersComplete(|x|);
    var text, e := Sent(x, rest), Letters(|x|);
    var ss := Values(text, e);
    forall k | 0 <= k < e
      ensures ss[k] == Sextet(x, k)
    {
      LetterRead(x, rest, k);
    }
    forall m | 0 <= m < |x|
      ensures Place(m) < |ss| && OctetAt(ss, Place(m)) == x[m]
    {
      SextetsMakeOctet(x, ss, m);
    }
    assert Octs(ss, cap) == x[..Min(|x|, cap)];
  }
}
