/** How a user of a block is named in the key store's files, and read back from them. */
module DirectoryNames {
  import opened Base
  import opened Base64

  // The first place from `i` on that is not a separator.
  function Skip(text: string, i: nat): (r: nat)
    requires i <= |text|
    ensures i <= r <= |text| && (forall k | i <= k < r :: text[k] == '/') && (r < |text| ==> text[r] != '/')
    decreases |text| - i
  {
    if i < |text| && text[i] == '/' then Skip(text, i + 1) else i
  }

  // The first separator from `i` on.
  function Until(text: string, i: nat): (r: nat)
    requires i <= |text|
    ensures i <= r <= |text| && (forall k | i <= k < r :: text[k] != '/') && (r < |text| ==> text[r] == '/')
    decreases |text| - i
  {
    if i < |text| && text[i] != '/' then Until(text, i + 1) else i
  }

  // The names that a path is made of.
  function Names(text: string): seq<string>
    decreases |text|
  {
    var start := Skip(text, 0);
    if start == |text| then [] else [text[start..Until(text, start)]] + Names(text[Until(text, start)..])
  }

  const TEXT_BUFFER := 2048

  // The encoder takes the identifier.
  predicate Fits(x: Octets) {
    |x| < UINT_MAX / 4 && Size(|x|) <= TEXT_BUFFER
  }

  // One buffer serves all the parts of a path, and a refusal of the encoder is ignored: the text of
  // the part before it, or whatever was in the buffer, is used again then.
  function Text(before: string, x: Octets): string {
    if Fits(x) then Rfc(x) else before
  }

  // The text that stands for a user in a path through the directory of a block.
  function UserText(stale: string, b: Octets, u: Octets): string {
    Text(Text(stale, b), u)
  }

  // Where the tokens of a user are kept.
  function Directory(stale: string, b: Octets, u: Octets): seq<string> {
    Names(Text(stale, b)) + Names(UserText(stale, b, u))
  }

  // What reading the block's directory shows of a user is the first name in their text: a separator
  // in it starts a directory below.
  function EntryName(text: string): string {
    var start := Skip(text, 0);
    text[start..Until(text, start)]
  }

  // The identifier that a listing makes of the entry.
  function ReadBack(text: string): Option<Octets> {
    Decoded(EntryName(text) + [0 as char], |EntryName(text)|)
  }

  lemma FitsExactlyWhen(x: Octets)
    ensures Fits(x) <==> |x| <= 1533
  {
    if |x| <= 1533 { assert (|x| + 2) / 3 <= 511; }
  }

  lemma EncodingDiffers(u: Octets, v: Octets)
    ensures Rfc(u) == Rfc(v) <==> u == v
  {
    hide Rfc, Decoded;
    var cap := |u| + |v|;
    RoundTrip(u, "", cap);
    RoundTrip(v, "", cap);
  }

  // The identifier whose text is used for a user, when that of the block fits.
  function Named(b: Octets, u: Octets): Octets {
    if Fits(u) then u else b
  }

  // Two users of a block have the same text exactly when they are the same user, or stand under the
  // name of the block both.
  lemma TextsDiffer(stale: string, b: Octets, u: Octets, v: Octets)
    requires Fits(b)
    ensures UserText(stale, b, u) == UserText(stale, b, v) <==> Named(b, u) == Named(b, v)
  {
    EncodingDiffers(Named(b, u), Named(b, v));
  }

  lemma {:induction false} EndsBy(text: string, i: nat, k: nat)
    requires i <= k < |text| && Stops(text[k])
    ensures BodyEnd(text, i) <= k
    decreases k - i
  {
    if i < k { EndsBy(text, i + 1, k); }
  }

  // One letter short is one byte short.
  lemma FewerLetters(n: nat, e: nat)
    requires n > 0 && e < Letters(n)
    ensures Completed(e) < n
  {
  }

  // A letter place holds a letter of the alphabet, the place after the last a padding character.
  lemma Places(u: Octets, k: nat)
    requires k < |Rfc(u)|
    ensures |Rfc(u)| == TextLength(|u|) && Letters(|u|) <= |Rfc(u)|
    ensures k >= Letters(|u|) ==> Rfc(u)[k] == '='
  {
    hide LetterOf, Sextet;
    RfcAt(u, k);
    LettersComplete(|u|);
  }

  // With a separator in its text, an entry has fewer letters than the text.
  lemma EntryIsShort(u: Octets, p: nat)
    requires u != [] && p < |Rfc(u)| && Rfc(u)[p] == '/'
    ensures BodyEnd(EntryName(Rfc(u)) + [0 as char], 0) < Letters(|u|)
  {
    hide Rfc, Letters;
    var text, last := Rfc(u), Letters(|u|);
    Places(u, p);
    var start := Skip(text, 0);
    var end := Until(text, start);
    var name := EntryName(text) + [0 as char];
    assert name[end - start] == 0 as char;
    EndsBy(name, 0, end - start);
    if start == 0 {
      if end < |text| { Places(u, end); }
    } else {
      Places(u, start - 1);
      if end - start > last - start {
        Places(u, last);
        assert name[last - start] == text[last];
        EndsBy(name, 0, last - start);
      }
    }
  }

  // The text of an identifier reads back as the identifier exactly when it has no separator in it.
  lemma ReadsBackExactlyWhen(u: Octets)
    requires u != []
    ensures ReadBack(Rfc(u)) == Some(u) <==> '/' !in Rfc(u)
  {
    hide Rfc, Decoded, Completed;
    var text := Rfc(u);
    var name := EntryName(text);
    if '/' in text {
      var p :| 0 <= p < |text| && text[p] == '/';
      EntryIsShort(u, p);
      FewerLetters(|u|, BodyEnd(name + [0 as char], 0));
      DecodedLength(name + [0 as char], |name|);
    } else {
      assert name == text;
      RoundTrip(u, "", |text|);
      assert Sent(u, "") == text + [0 as char];
      RfcAt(u, 0);
      assert u[..|u|] == u;
    }
  }

  // A user is listed as themselves exactly when the encoder takes their identifier and its text has no
  // separator in it.  When it takes neither theirs nor the block's, the listing shows what was in the
  // buffer before.
  lemma ListedExactlyWhen(stale: string, b: Octets, u: Octets)
    requires u != []
    ensures ReadBack(UserText(stale, b, u)) == Some(u) <==>
            if Fits(u) then '/' !in Rfc(u) else !Fits(b) && ReadBack(stale) == Some(u)
  {
    hide Rfc, ReadBack;
    if Fits(u) {
      ReadsBackExactlyWhen(u);
    } else if Fits(b) {
      FitsExactlyWhen(b);
      FitsExactlyWhen(u);
      RfcAt(b, 0);
      assert (|b| + 2) / 3 <= 511;
      ShortReadBack(Rfc(b));
    }
  }

  lemma ShortReadBack(text: string)
    requires |text| <= 2044
    ensures ReadBack(text).Some? ==> |ReadBack(text).value| <= 1533
  {
    hide Decoded, AllValued;
    DecodedLength(EntryName(text) + [0 as char], |EntryName(text)|);
    LastStops(EntryName(text));
  }

  lemma LastStops(name: string)
    ensures BodyEnd(name + [0 as char], 0) <= |name|
  {
    EndsBy(name + [0 as char], 0, |name|);
  }

  lemma DecodedLength(text: string, cap: nat)
    ensures Decoded(text, cap).Some? ==> |Decoded(text, cap).value| <= Completed(BodyEnd(text, 0))
  {
  }

  // The encoder takes the identifier, and its text is one name.
  predicate Plain(x: Octets) {
    x != [] && Fits(x) && '/' !in Rfc(x)
  }

  lemma NamesOfOne(text: string)
    requires text != "" && '/' !in text
    ensures Names(text) == [text]
  {
    assert text[|text|..] == "" && Names("") == [];
    assert text[0..|text|] == text;
  }

  lemma PlainNames(x: Octets)
    requires Plain(x)
    ensures Names(Rfc(x)) == [Rfc(x)]
  {
    hide Rfc, Names;
    RfcAt(x, 0);
    NamesOfOne(Rfc(x));
  }

  lemma PlainDirectory(stale: string, b: Octets, u: Octets)
    requires Plain(b) && Plain(u)
    ensures Directory(stale, b, u) == [Rfc(b), Rfc(u)]
  {
    hide Rfc, Names;
    PlainNames(b);
    PlainNames(u);
  }

  // The path is that of the directory or leads below it.
  predicate Inside(path: seq<string>, dir: seq<string>) {
    dir <= path
  }

  // Neither directory lies in the other.
  predicate Apart(d: seq<string>, e: seq<string>) {
    !Inside(d, e) && !Inside(e, d)
  }

  // Nothing lies in both of two directories exactly when neither lies in the other.
  lemma ApartExactlyWhen(d: seq<string>, e: seq<string>)
    ensures (forall p :: !(Inside(p, d) && Inside(p, e))) <==> Apart(d, e)
  {
    assert Inside(d, d) && Inside(e, e);
    forall p | Inside(p, d) && Inside(p, e) ensures !Apart(d, e) {
      assert if |d| <= |e| then d <= e else e <= d;
    }
  }

  // For identifiers whose texts are single names, two users of two blocks are kept apart exactly when
  // they are different: the files can be taken for a map.
  lemma PlainApart(stale: string, b: Octets, u: Octets, b': Octets, v: Octets)
    requires Plain(b) && Plain(u) && Plain(b') && Plain(v)
    ensures Apart(Directory(stale, b, u), Directory(stale, b', v)) <==> (b, u) != (b', v)
  {
    hide Rfc, Names, Fits;
    PlainDirectory(stale, b, u);
    PlainDirectory(stale, b', v);
    EncodingDiffers(b, b');
    EncodingDiffers(u, v);
    var d, e := Directory(stale, b, u), Directory(stale, b', v);
    assert d[0] == Rfc(b) && d[1] == Rfc(u) && e[0] == Rfc(b') && e[1] == Rfc(v);
  }

  // The user 255 has the text "/w==" and is read back as an identifier of no bytes, which the
  // listing takes for its end.
  lemma SlashExample(stale: string, b: Octets)
    ensures UserText(stale, b, [255]) == "/w==" && ReadBack("/w==") == Some([])
  {
    hide Rfc, Decoded;
    FitsExactlyWhen([255]);
    SlashText();
    SlashEntry("/w==");
    NothingDecoded();
  }

  // A user of more than 1533 bytes is listed as the block.
  lemma LongExample(stale: string, u: Octets)
    requires |u| == 1534
    ensures UserText(stale, [1], u) == Rfc([1]) && ReadBack(UserText(stale, [1], u)) == Some([1])
  {
    FitsExactlyWhen([1]);
    FitsExactlyWhen(u);
    OneText();
    hide Rfc, ReadBack;
    ReadsBackExactlyWhen([1]);
  }

  lemma OneText()
    ensures Rfc([1]) == "AQ=="
  {
    var x: Octets := [1];
    assert x[0] >> 2 == 0 && (x[0] & 3) << 4 == 16;
    hide Letter;
    LetterIs(0);
    LetterIs(16);
  }

  lemma SlashText()
    ensures Rfc([255]) == "/w=="
  {
    var x: Octets := [255];
    assert x[0] >> 2 == 63 && (x[0] & 3) << 4 == 48;
    hide Letter;
    LetterIs(63);
    LetterIs(48);
  }

  lemma SlashEntry(text: string)
    requires text == "/w=="
    ensures Skip(text, 0) == 1 && Until(text, 1) == 4 && text[1..4] == "w=="
  {
  }

  lemma NothingDecoded()
    ensures Decoded("w==" + [0 as char], 3) == Some([])
  {
    hide Letter, Value, LetterOf, SextetAt, OctetAt;
    var name := "w==" + [0 as char];
    LetterIs(48);
    TablesAreInverse('w', 48);
    assert name[0] == 'w' && name[1] == '=';
    assert BodyEnd(name, 1) == 1;
    assert BodyEnd(name, 0) == 1;
    assert AllValued(name, 1);
    assert Octs(Values(name, 1), 3) == [];
  }

  // Two users with one directory: "AAAA" and "AAAA////" are the same path.
  lemma SharedExample(stale: string)
    ensures UserText(stale, [1], [0, 0, 0]) == "AAAA" && UserText(stale, [1], [0, 0, 0, 255, 255, 255]) == "AAAA////"
    ensures Directory(stale, [1], [0, 0, 0]) == Directory(stale, [1], [0, 0, 0, 255, 255, 255]) == ["AQ==", "AAAA"]
  {
    hide Rfc, Names;
    FitsExactlyWhen([1]);
    FitsExactlyWhen([0, 0, 0]);
    FitsExactlyWhen([0, 0, 0, 255, 255, 255]);
    OneText();
    SharedTexts();
    NamesOfOne("AQ==");
    NamesOfOne("AAAA");
    SlashesAtEnd("AAAA////");
  }

  lemma SharedTexts()
    ensures Rfc([0, 0, 0]) == "AAAA" && Rfc([0, 0, 0, 255, 255, 255]) == "AAAA////"
  {
    var x: Octets := [0, 0, 0, 255, 255, 255];
    assert x[..3] == [0, 0, 0] && x[3..] == [255, 255, 255];
    hide Letter;
    LetterIs(0);
    LetterIs(63);
    assert x[3..][3..] == [];
  }

  lemma SlashesAtEnd(text: string)
    requires text == "AAAA////"
    ensures Names(text) == ["AAAA"]
  {
    assert Skip(text, 0) == 0 && text[0..4] == "AAAA";
    assert Until(text, 4) == 4;
    assert Until(text, 2) == 4;
    assert Until(text, 0) == 4;
    assert text[4..] == "////" && Skip("////", 0) == 4;
  }

  // One directory inside another: "AAAA/AAA" lies in "AAAA".
  lemma NestedExample(stale: string)
    ensures UserText(stale, [1], [0, 0, 0, 252, 0, 0]) == "AAAA/AAA"
    ensures Directory(stale, [1], [0, 0, 0, 252, 0, 0]) == ["AQ==", "AAAA", "AAA"]
  {
    hide Rfc, Names;
    FitsExactlyWhen([1]);
    FitsExactlyWhen([0, 0, 0, 252, 0, 0]);
    OneText();
    NestedText();
    NamesOfOne("AQ==");
    NestedNames("AAAA/AAA");
  }

  lemma NestedText()
    ensures Rfc([0, 0, 0, 252, 0, 0]) == "AAAA/AAA"
  {
    var x: Octets := [0, 0, 0, 252, 0, 0];
    assert x[..3] == [0, 0, 0] && x[3..] == [252, 0, 0];
    hide Letter;
    LetterIs(0);
    LetterIs(63);
    assert x[3..][3..] == [];
  }

  lemma NestedNames(text: string)
    requires text == "AAAA/AAA"
    ensures Names(text) == ["AAAA", "AAA"]
  {
    assert Skip(text, 0) == 0 && text[0..4] == "AAAA";
    assert Until(text, 4) == 4;
    assert Until(text, 2) == 4;
    assert Until(text, 0) == 4;
    var rest := text[4..];
    assert rest == "/AAA" && Skip(rest, 0) == 1;
    assert Until(rest, 3) == 4;
    assert Until(rest, 1) == 4 && rest[1..4] == "AAA" && rest[4..] == "";
    assert Names(rest) == ["AAA"];
  }
}
