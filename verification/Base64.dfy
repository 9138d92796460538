// include/satnogs/base64.h: section 4 of RFC 4648.
module Base64 {
  import opened BitPacking

  // base64_chars[n]: A to Z, a to z, 0 to 9, + and /.
  function CodeAt(n: nat): char
    requires n < 64
  {
    if n < 26 then (n + 65) as char
    else if n < 52 then (n + 71) as char
    else if n < 62 then (n - 4) as char
    else if n == 62 then '+'
    else '/'
  }

  function Code(k: bv8): (c: char)
    requires k < 64
  {
    CodeAt(k as int)
  }

  predicate IsBase64(c: char) {
    'A' <= c <= 'Z' || 'a' <= c <= 'z' || '0' <= c <= '9' || c == '+' || c == '/'
  }

  // base64_chars.find(c) & 0xff
  function Find(c: char): (k: bv8)
    requires IsBase64(c)
    ensures k < 64
  {
    var n := c as int;
    if 'A' <= c <= 'Z' then (n - 65) as bv8
    else if 'a' <= c <= 'z' then (n - 71) as bv8
    else if '0' <= c <= '9' then (n + 4) as bv8
    else if c == '+' then 62
    else 63
  }

  // Table 1 of RFC 4648.
  const ALPHABET: string := "ABCDEFGHIJKLMNOPQRSTUVWXYZ" + "abcdefghijklmnopqrstuvwxyz" + "0123456789+/"

  lemma UpperAt(n: nat)
    requires n < 26
    ensures "ABCDEFGHIJKLMNOPQRSTUVWXYZ"[n] == (n + 65) as char
  {
    if n == 0 {} else if n == 1 {} else if n == 2 {} else if n == 3 {} else if n == 4 {} else if n == 5 {}
    else if n == 6 {} else if n == 7 {} else if n == 8 {} else if n == 9 {} else if n == 10 {} else if n == 11 {}
    else if n == 12 {} else if n == 13 {} else if n == 14 {} else if n == 15 {} else if n == 16 {}
    else if n == 17 {} else if n == 18 {} else if n == 19 {} else if n == 20 {} else if n == 21 {}
    else if n == 22 {} else if n == 23 {} else if n == 24 {} else {}
  }

  lemma LowerAt(n: nat)
    requires n < 26
    ensures "abcdefghijklmnopqrstuvwxyz"[n] == (n + 97) as char
  {
    if n == 0 {} else if n == 1 {} else if n == 2 {} else if n == 3 {} else if n == 4 {} else if n == 5 {}
    else if n == 6 {} else if n == 7 {} else if n == 8 {} else if n == 9 {} else if n == 10 {} else if n == 11 {}
    else if n == 12 {} else if n == 13 {} else if n == 14 {} else if n == 15 {} else if n == 16 {}
    else if n == 17 {} else if n == 18 {} else if n == 19 {} else if n == 20 {} else if n == 21 {}
    else if n == 22 {} else if n == 23 {} else if n == 24 {} else {}
  }

  lemma AlphabetAt(n: nat)
    requires n < 64
    ensures |ALPHABET| == 64 && ALPHABET[n] == CodeAt(n)
  {
    if n < 26 {
      UpperAt(n);
    } else if n < 52 {
      LowerAt(n - 26);
    }
  }

  lemma CodeIsAlphabet(k: bv8)
    requires k < 64
    ensures |ALPHABET| == 64 && Code(k) == ALPHABET[k as int]
  {
    AlphabetAt(k as int);
  }

  // Where a character stands in the alphabet.
  lemma CodeFind(c: char) returns (k: bv8)
    requires IsBase64(c)
    ensures k < 64 && Code(k) == c && Find(c) == k
  {
    hide Find;
    var n := c as int;
    var i :=
      if n >= 97 then n - 71 else if n >= 65 then n - 65 else if n >= 48 then n + 4 else if c == '+' then 62 else 63;
    k := i as bv8;
    assert CodeAt(i) == c;
    FindCode(k);
  }

  // Find gives the only position of a character in the alphabet.
  lemma FindInAlphabet(c: char, k: bv8)
    requires k < 64
    ensures |ALPHABET| == 64 && (ALPHABET[k as int] == c <==> IsBase64(c) && Find(c) == k)
  {
    hide Code, Find, IsBase64, ALPHABET;
    CodeIsAlphabet(k);
    FindCode(k);
    if IsBase64(c) {
      var i := CodeFind(c);
    }
  }

  lemma FindCode(k: bv8)
    requires k < 64
    ensures IsBase64(Code(k)) && Find(Code(k)) == k
  {
  }

  // ---------- Three bytes and four characters ----------

  function Sextet0(a: bv8): (k: bv8)
    ensures k < 64
  {
    (a & 0xFC) >> 2
  }

  function Sextet1(a: bv8, b: bv8): (k: bv8)
    ensures k < 64
  {
    ((a & 0x03) << 4) + ((b & 0xF0) >> 4)
  }

  function Sextet2(b: bv8, c: bv8): (k: bv8)
    ensures k < 64
  {
    ((b & 0x0F) << 2) + ((c & 0xC0) >> 6)
  }

  function Sextet3(c: bv8): (k: bv8)
    ensures k < 64
  {
    c & 0x3F
  }

  function Byte0(k0: bv8, k1: bv8): bv8 { (k0 << 2) + ((k1 & 0x30) >> 4) }

  function Byte1(k1: bv8, k2: bv8): bv8 { ((k1 & 0x0F) << 4) + ((k2 & 0x3C) >> 2) }

  function Byte2(k2: bv8, k3: bv8): bv8 { ((k2 & 0x03) << 6) + k3 }

  lemma BytesBack(a: bv8, b: bv8, c: bv8)
    ensures Byte0(Sextet0(a), Sextet1(a, b)) == a
    ensures Byte1(Sextet1(a, b), Sextet2(b, c)) == b
    ensures Byte2(Sextet2(b, c), Sextet3(c)) == c
  {
  }

  // ---------- Reference definitions ----------

  function Group(a: bv8, b: bv8, c: bv8): (r: string)
    ensures |r| == 4
  {
    [Code(Sextet0(a)), Code(Sextet1(a, b)), Code(Sextet2(b, c)), Code(Sextet3(c))]
  }

  // The encoding, padded to whole groups.
  function Encoded(data: seq<bv8>): string {
    if |data| == 0 then ""
    else if |data| == 1 then Group(data[0], 0, 0)[..2] + "=="
    else if |data| == 2 then Group(data[0], data[1], 0)[..3] + "="
    else Group(data[0], data[1], data[2]) + Encoded(data[3..])
  }

  // The characters up to the first that is not one of the alphabet.
  function Meaningful(s: string): (r: string)
    ensures |r| <= |s| && r == s[..|r|] && forall i :: 0 <= i < |r| ==> IsBase64(r[i])
    ensures |r| < |s| ==> !IsBase64(s[|r|])
  {
    if s == "" || !IsBase64(s[0]) then ""
    else [s[0]] + Meaningful(s[1..])
  }

  predicate AllBase64(s: string) { forall i :: 0 <= i < |s| ==> IsBase64(s[i]) }

  function Triple(s: string): (r: seq<bv8>)
    requires |s| == 4 && AllBase64(s)
    ensures |r| == 3
  {
    [Byte0(Find(s[0]), Find(s[1])), Byte1(Find(s[1]), Find(s[2])), Byte2(Find(s[2]), Find(s[3]))]
  }

  // Four characters give three bytes; what is left over gives one byte less
  // than it has characters.
  function Decoded(s: string): seq<bv8>
    requires AllBase64(s)
  {
    if |s| <= 1 then []
    else if |s| == 2 then [Byte0(Find(s[0]), Find(s[1]))]
    else if |s| == 3 then [Byte0(Find(s[0]), Find(s[1])), Byte1(Find(s[1]), Find(s[2]))]
    else Triple(s[..4]) + Decoded(s[4..])
  }

  // ---------- The round trip ----------

  function Digits(n: nat): nat { n / 3 * 4 + if n % 3 == 0 then 0 else n % 3 + 1 }

  lemma {:induction false} EncodedShape(data: seq<bv8>)
    ensures var r, n := Encoded(data), Digits(|data|);
      && |r| == 4 * ((|data| + 2) / 3) && n <= |r| <= n + 2
      && (forall i :: 0 <= i < n ==> IsBase64(r[i]))
      && (forall i :: n <= i < |r| ==> r[i] == '=')
  {
    hide Code, Find, IsBase64, Sextet0, Sextet1, Sextet2, Sextet3;
    if 0 < |data| {
      var a, b := data[0], if |data| > 1 then data[1] else 0;
      var c := if |data| > 2 then data[2] else 0;
      FindCode(Sextet0(a));
      FindCode(Sextet1(a, b));
      FindCode(Sextet2(b, c));
      FindCode(Sextet3(c));
      if |data| >= 3 {
        EncodedShape(data[3..]);
        var rest := Encoded(data[3..]);
        assert Encoded(data)[4..] == rest;
        assert forall i :: 4 <= i < |Encoded(data)| ==> Encoded(data)[i] == rest[i - 4];
      }
    }
  }

  // Test vectors of section 10 of RFC 4648, and one with the 62nd code.
  lemma TestVectors()
    ensures Encoded([0x66]) == "Zg==" && Encoded([0x66, 0x6F]) == "Zm8=" && Encoded([0x66, 0x6F, 0x6F]) == "Zm9v"
    ensures Encoded([0xFB]) == "+w==" && Encoded([0xFF, 0xFF, 0xFF]) == "////"
  {
    assert Sextet0(0x66) == 25 && Sextet1(0x66, 0) == 32 && Sextet1(0x66, 0x6F) == 38;
    assert Sextet2(0x6F, 0) == 60 && Sextet2(0x6F, 0x6F) == 61 && Sextet3(0x6F) == 47;
    assert Sextet0(0xFB) == 62 && Sextet1(0xFB, 0) == 48;
    assert Sextet0(0xFF) == 63 && Sextet1(0xFF, 0xFF) == 63 && Sextet2(0xFF, 0xFF) == 63 && Sextet3(0xFF) == 63;
    hide Sextet0, Sextet1, Sextet2, Sextet3;
    var three: seq<bv8> := [0x66, 0x6F, 0x6F];
    assert three[3..] == [];
    var ones: seq<bv8> := [0xFF, 0xFF, 0xFF];
    assert ones[3..] == [];
    assert Encoded([]) == "";
  }

  lemma {:induction false} MeaningfulUpTo(s: string, n: nat)
    requires n <= |s| && AllBase64(s[..n]) && (n < |s| ==> !IsBase64(s[n]))
    ensures Meaningful(s) == s[..n]
  {
    hide IsBase64;
    var r := Meaningful(s);
    assert forall i :: 0 <= i < n ==> s[..n][i] == s[i];
    assert forall i :: 0 <= i < |r| ==> r[i] == s[i];
  }

  lemma {:induction false} DecodedEncoded(data: seq<bv8>)
    ensures var n := Digits(|data|);
      && n <= |Encoded(data)| && AllBase64(Encoded(data)[..n]) && Decoded(Encoded(data)[..n]) == data
  {
    hide Code, Find, IsBase64, Sextet0, Sextet1, Sextet2, Sextet3, Byte0, Byte1, Byte2;
    EncodedShape(data);
    var n, r := Digits(|data|), Encoded(data);
    if 0 < |data| {
      var a, b := data[0], if |data| > 1 then data[1] else 0;
      var c := if |data| > 2 then data[2] else 0;
      FindCode(Sextet0(a));
      FindCode(Sextet1(a, b));
      FindCode(Sextet2(b, c));
      FindCode(Sextet3(c));
      BytesBack(a, b, c);
      if |data| >= 3 {
        DecodedEncoded(data[3..]);
        assert r[..n][..4] == Group(a, b, c);
        assert r[..n][4..] == Encoded(data[3..])[..Digits(|data| - 3)];
        assert data == [a, b, c] + data[3..];
      }
    }
  }

  // Decoding the whole text, padding included, gives every byte string back.
  lemma RoundTrip(data: seq<bv8>)
    ensures Decoded(Meaningful(Encoded(data))) == data
  {
    hide Decoded, Encoded, Meaningful, Digits;
    DecodedEncoded(data);
    EncodedShape(data);
    PadIsNot();
    MeaningfulUpTo(Encoded(data), Digits(|data|));
  }

  lemma PadIsNot()
    ensures !IsBase64('=')
  {
  }

  // ---------- Groups of 24 bits ----------

  // The six bits of a sextet, most significant first.
  function Six(k: bv8): (r: seq<bool>)
    ensures |r| == 6
  {
    MsbBits(k)[2..]
  }

  lemma SixAt(k: bv8)
    ensures var x := Six(k);
      && x[0] == (k & 32 != 0) && x[1] == (k & 16 != 0) && x[2] == (k & 8 != 0)
      && x[3] == (k & 4 != 0) && x[4] == (k & 2 != 0) && x[5] == (k & 1 != 0)
  {
  }

  lemma FirstSixMasks(a: bv8)
    ensures var k := Sextet0(a);
      && (k & 32 != 0) == (a & 128 != 0) && (k & 16 != 0) == (a & 64 != 0) && (k & 8 != 0) == (a & 32 != 0)
      && (k & 4 != 0) == (a & 16 != 0) && (k & 2 != 0) == (a & 8 != 0) && (k & 1 != 0) == (a & 4 != 0)
  {
  }

  lemma FirstSix(a: bv8)
    ensures Six(Sextet0(a)) == MsbBits(a)[..6]
  {
    hide Six, MsbBits, Sextet0;
    var x := Six(Sextet0(a));
    FirstSixMasks(a);
    SixAt(Sextet0(a));
    MsbBitsAt(a);
    assert x[0] == MsbBits(a)[0] && x[1] == MsbBits(a)[1] && x[2] == MsbBits(a)[2];
    assert x[3] == MsbBits(a)[3] && x[4] == MsbBits(a)[4] && x[5] == MsbBits(a)[5];
  }

  lemma SecondSixMasks(a: bv8, b: bv8)
    ensures var k := Sextet1(a, b);
      && (k & 32 != 0) == (a & 2 != 0) && (k & 16 != 0) == (a & 1 != 0) && (k & 8 != 0) == (b & 128 != 0)
      && (k & 4 != 0) == (b & 64 != 0) && (k & 2 != 0) == (b & 32 != 0) && (k & 1 != 0) == (b & 16 != 0)
  {
  }

  lemma SecondSix(a: bv8, b: bv8)
    ensures Six(Sextet1(a, b)) == MsbBits(a)[6..] + MsbBits(b)[..4]
  {
    hide Six, MsbBits, Sextet1;
    var x := Six(Sextet1(a, b));
    SecondSixMasks(a, b);
    SixAt(Sextet1(a, b));
    MsbBitsAt(a);
    MsbBitsAt(b);
    assert x[0] == MsbBits(a)[6] && x[1] == MsbBits(a)[7] && x[2] == MsbBits(b)[0];
    assert x[3] == MsbBits(b)[1] && x[4] == MsbBits(b)[2] && x[5] == MsbBits(b)[3];
  }

  lemma ThirdSixMasks(b: bv8, c: bv8)
    ensures var k := Sextet2(b, c);
      && (k & 32 != 0) == (b & 8 != 0) && (k & 16 != 0) == (b & 4 != 0) && (k & 8 != 0) == (b & 2 != 0)
      && (k & 4 != 0) == (b & 1 != 0) && (k & 2 != 0) == (c & 128 != 0) && (k & 1 != 0) == (c & 64 != 0)
  {
  }

  lemma ThirdSix(b: bv8, c: bv8)
    ensures Six(Sextet2(b, c)) == MsbBits(b)[4..] + MsbBits(c)[..2]
  {
    hide Six, MsbBits, Sextet2;
    var x := Six(Sextet2(b, c));
    ThirdSixMasks(b, c);
    SixAt(Sextet2(b, c));
    MsbBitsAt(b);
    MsbBitsAt(c);
    assert x[0] == MsbBits(b)[4] && x[1] == MsbBits(b)[5] && x[2] == MsbBits(b)[6];
    assert x[3] == MsbBits(b)[7] && x[4] == MsbBits(c)[0] && x[5] == MsbBits(c)[1];
  }

  lemma FourthSixMasks(c: bv8)
    ensures var k := Sextet3(c);
      && (k & 32 != 0) == (c & 32 != 0) && (k & 16 != 0) == (c & 16 != 0) && (k & 8 != 0) == (c & 8 != 0)
      && (k & 4 != 0) == (c & 4 != 0) && (k & 2 != 0) == (c & 2 != 0) && (k & 1 != 0) == (c & 1 != 0)
  {
  }

  lemma FourthSix(c: bv8)
    ensures Six(Sextet3(c)) == MsbBits(c)[2..]
  {
    hide Six, MsbBits, Sextet3;
    var x := Six(Sextet3(c));
    FourthSixMasks(c);
    SixAt(Sextet3(c));
    MsbBitsAt(c);
    assert x[0] == MsbBits(c)[2] && x[1] == MsbBits(c)[3] && x[2] == MsbBits(c)[4];
    assert x[3] == MsbBits(c)[5] && x[4] == MsbBits(c)[6] && x[5] == MsbBits(c)[7];
  }

  // The bits that a text of the alphabet stands for, six to a character.
  function TextBits(s: string): (r: seq<bool>)
    requires AllBase64(s)
    ensures |r| == 6 * |s|
  {
    if s == "" then [] else Six(Find(s[0])) + TextBits(s[1..])
  }

  lemma FourCharacters(s: string, rest: string)
    requires |s| == 4 && AllBase64(s) && AllBase64(rest)
    ensures AllBase64(s + rest)
    ensures TextBits(s + rest)
         == (Six(Find(s[0])) + Six(Find(s[1]))) + (Six(Find(s[2])) + Six(Find(s[3]))) + TextBits(rest)
  {
    hide Six, Find, IsBase64;
    var t := s + rest;
    assert t[1..][1..] == t[2..] && t[2..][1..] == t[3..] && t[3..][1..] == t[4..] && t[4..] == rest;
    assert TextBits(t) == Six(Find(s[0])) + TextBits(t[1..]);
    assert TextBits(t[1..]) == Six(Find(s[1])) + TextBits(t[2..]);
    assert TextBits(t[2..]) == Six(Find(s[2])) + TextBits(t[3..]);
    assert TextBits(t[3..]) == Six(Find(s[3])) + TextBits(rest);
  }

  lemma GroupAlphabet(a: bv8, b: bv8, c: bv8)
    ensures var g := Group(a, b, c);
      && AllBase64(g) && Find(g[0]) == Sextet0(a) && Find(g[1]) == Sextet1(a, b)
      && Find(g[2]) == Sextet2(b, c) && Find(g[3]) == Sextet3(c)
  {
    hide Code, Find, IsBase64, Sextet0, Sextet1, Sextet2, Sextet3;
    FindCode(Sextet0(a));
    FindCode(Sextet1(a, b));
    FindCode(Sextet2(b, c));
    FindCode(Sextet3(c));
  }

  lemma Regroup(x: seq<bool>, y: seq<bool>, z: seq<bool>)
    requires |x| == |y| == |z| == 8
    ensures (x[..6] + (x[6..] + y[..4])) + ((y[4..] + z[..2]) + z[2..]) == x + y + z
  {
  }

  // Four characters stand for the 24 bits of three bytes.
  lemma GroupBits(a: bv8, b: bv8, c: bv8, rest: string)
    requires AllBase64(rest)
    ensures var g := Group(a, b, c);
      AllBase64(g + rest) && TextBits(g + rest) == MsbBits(a) + MsbBits(b) + MsbBits(c) + TextBits(rest)
  {
    hide Six, MsbBits, Find, IsBase64, Group, TextBits;
    GroupAlphabet(a, b, c);
    FourCharacters(Group(a, b, c), rest);
    FirstSix(a);
    SecondSix(a, b);
    ThirdSix(b, c);
    FourthSix(c);
    Regroup(MsbBits(a), MsbBits(b), MsbBits(c));
  }

  lemma TextPrefix(s: string, n: nat)
    requires AllBase64(s) && n <= |s|
    ensures AllBase64(s[..n]) && TextBits(s[..n]) == TextBits(s)[..6 * n]
  {
    hide Six, Find, IsBase64;
    if n > 0 {
      TextPrefix(s[1..], n - 1);
      assert s[..n][1..] == s[1..][..n - 1];
    }
  }

  // The zero bits that fill up the last sextet.
  function Filler(n: nat): seq<bool> {
    seq(2 * ((3 - n % 3) % 3), _ => false)
  }

  // The characters before the padding stand for the bits of the data, filled
  // up with zeros to whole sextets.
  lemma {:induction false} EncodedBits(data: seq<bv8>)
    ensures var n, r := Digits(|data|), Encoded(data);
      && n <= |r| && AllBase64(r[..n])
      && TextBits(r[..n]) == Unpack(data) + Filler(|data|)
  {
    hide MsbBits, Code, Find, IsBase64, Six, Group, TextBits, Unpack, Encoded, AllBase64;
    var n, r := Digits(|data|), Encoded(data);
    EncodedShape(data);
    if |data| >= 3 {
      EncodedBits(data[3..]);
      var rest := Encoded(data[3..])[..n - 4];
      GroupBits(data[0], data[1], data[2], rest);
      EncodedHead(data);
      UnpackThree(data);
    } else {
      LastBits(data);
    }
  }

  lemma EncodedHead(data: seq<bv8>)
    requires |data| >= 3
    ensures var n := Digits(|data|);
      && 4 <= n && n - 4 <= |Encoded(data[3..])| && n <= |Encoded(data)| && Digits(|data| - 3) == n - 4
      && Encoded(data)[..n] == Group(data[0], data[1], data[2]) + Encoded(data[3..])[..n - 4]
  {
    hide Group;
    EncodedShape(data[3..]);
  }

  lemma UnpackThree(data: seq<bv8>)
    requires |data| >= 3
    ensures Unpack(data) == MsbBits(data[0]) + MsbBits(data[1]) + MsbBits(data[2]) + Unpack(data[3..])
  {
    hide MsbBits;
    assert data == data[..3] + data[3..];
    UnpackConcat(data[..3], data[3..]);
    assert data[..3][..2] == data[..2] && data[..2][..1] == data[..1] && data[..1][..0] == [];
    assert Unpack(data[..1]) == MsbBits(data[0]);
    assert Unpack(data[..2]) == MsbBits(data[0]) + MsbBits(data[1]);
  }

  lemma ZeroByte()
    ensures MsbBits(0) == seq(8, _ => false)
  {
  }

  lemma NoText()
    ensures AllBase64("") && TextBits("") == []
  {
  }

  // One or two bytes left over are the start of a group filled with zeros.
  lemma LastGroupBits(a: bv8, b: bv8, n: nat)
    requires n <= 4
    ensures AllBase64(Group(a, b, 0)[..n])
    ensures TextBits(Group(a, b, 0)[..n]) == (MsbBits(a) + MsbBits(b) + MsbBits(0))[..6 * n]
  {
    hide MsbBits, Code, Find, IsBase64, Six, Group, TextBits;
    var g := Group(a, b, 0);
    NoText();
    GroupBits(a, b, 0, "");
    assert g + "" == g;
    TextPrefix(g, n);
  }

  lemma LastText(data: seq<bv8>)
    requires 0 < |data| < 3
    ensures Encoded(data)[..Digits(|data|)] == Group(data[0], if |data| == 2 then data[1] else 0, 0)[..|data| + 1]
    ensures Unpack(data) == if |data| == 2 then MsbBits(data[0]) + MsbBits(data[1]) else MsbBits(data[0])
  {
    hide MsbBits, Group;
    assert data[..1][..0] == [] && Unpack(data[..1]) == MsbBits(data[0]);
    if |data| == 1 { assert data[..1] == data; }
  }

  lemma LastBits(data: seq<bv8>)
    requires |data| < 3
    ensures var n, r := Digits(|data|), Encoded(data);
      && n <= |r| && AllBase64(r[..n])
      && TextBits(r[..n]) == Unpack(data) + Filler(|data|)
  {
    if |data| == 0 {
      NoText();
    } else {
      hide MsbBits, Group, TextBits, Encoded, Unpack, AllBase64, Filler;
      var b := if |data| == 2 then data[1] else 0;
      ZeroByte();
      EncodedShape(data);
      LastText(data);
      LastGroupBits(data[0], b, |data| + 1);
      FillWithZeros(MsbBits(data[0]), MsbBits(b), MsbBits(0));
    }
  }

  lemma FillWithZeros(x: seq<bool>, y: seq<bool>, z: seq<bool>)
    requires |x| == |y| == 8 && z == seq(8, _ => false)
    ensures (x + y + z)[..18] == (x + y) + Filler(2)
    ensures y == z ==> (x + y + z)[..12] == x + Filler(1)
  {
  }

  // ---------- base64_encode ----------

  lemma GroupFirst(buf: seq<bv8>, rest: seq<bv8>)
    requires |buf| == 3
    ensures Encoded(buf + rest) == Group(buf[0], buf[1], buf[2]) + Encoded(rest)
  {
    hide Group;
    assert (buf + rest)[3..] == rest;
  }

  method Base64Encode(data: seq<bv8>) returns (ret: string)
    ensures ret == Encoded(data)
  {
    hide Encoded, Code, Sextet0, Sextet1, Sextet2, Sextet3;
    ret := "";
    var buf := new bv8[3];
    var i := 0;
    assert buf[..0] + data[0..] == data;
    for pos := 0 to |data|
      invariant i < 3
      invariant ret + Encoded(buf[..i] + data[pos..]) == Encoded(data)
    {
      ghost var pending := buf[..i] + data[pos..];
      buf[i] := data[pos];
      i := i + 1;
      assert buf[..i] + data[pos + 1..] == pending;
      if i == 3 {
        var code := [Code(Sextet0(buf[0])), Code(Sextet1(buf[0], buf[1])),
                     Code(Sextet2(buf[1], buf[2])), Code(Sextet3(buf[2]))];
        GroupFirst(buf[..3], data[pos + 1..]);
        assert (ret + code) + Encoded(data[pos + 1..]) == ret + (code + Encoded(data[pos + 1..]));
        ret := ret + code;
        i := 0;
        assert buf[..0] + data[pos + 1..] == data[pos + 1..];
      }
    }
    assert buf[..i] + data[|data|..] == buf[..i];
    if i > 0 {
      var tail := Base64Tail(buf, i);
      ret := ret + tail;
    } else {
      LastGroup(buf[..0]);
    }
  }

  // The group that is left over: zero bytes are added for it, and padding.
  method Base64Tail(buf: array<bv8>, i: nat) returns (tail: string)
    requires buf.Length == 3 && 1 <= i <= 2
    modifies buf
    ensures tail == Encoded(old(buf[..i]))
  {
    hide Encoded, Code, Sextet0, Sextet1, Sextet2, Sextet3;
    LastGroup(buf[..i]);
    ghost var left := buf[..i];
    for j := i to 3
      invariant buf[..i] == left && forall k :: i <= k < j ==> buf[k] == 0
    {
      buf[j] := 0;
    }
    assert buf[0] == left[0] && (i == 2 ==> buf[1] == left[1]);
    var code := [Code(Sextet0(buf[0])), Code(Sextet1(buf[0], buf[1])), Code(Sextet2(buf[1], buf[2]))];
    tail := "";
    for j := 0 to i + 1
      invariant tail == code[..j]
    {
      tail := tail + [code[j]];
    }
    ghost var digits := tail;
    var k := i;
    while k < 3
      invariant i <= k <= 3 && tail == digits + seq(k - i, _ => '=')
    {
      tail := tail + ['='];
      k := k + 1;
    }
    assert seq(3 - i, _ => '=') == if i == 1 then "==" else "=";
  }

  // What is encoded of a group that is not full.
  lemma LastGroup(left: seq<bv8>)
    requires |left| < 3
    ensures Encoded(left) ==
      if |left| == 0 then ""
      else if |left| == 1 then [Code(Sextet0(left[0])), Code(Sextet1(left[0], 0))] + "=="
      else [Code(Sextet0(left[0])), Code(Sextet1(left[0], left[1])), Code(Sextet2(left[1], 0))] + "="
  {
    hide Code, Sextet0, Sextet1, Sextet2, Sextet3;
  }

  // ---------- base64_decode ----------

  lemma MeaningfulStep(s: string, pos: nat)
    requires pos < |s|
    ensures Meaningful(s[pos..]) ==
      if IsBase64(s[pos]) then [s[pos]] + Meaningful(s[pos + 1..]) else ""
  {
    hide IsBase64;
    assert s[pos..][1..] == s[pos + 1..];
  }

  lemma TripleFirst(buf: string, rest: string)
    requires |buf| == 4 && AllBase64(buf) && AllBase64(rest)
    ensures AllBase64(buf + rest) && Decoded(buf + rest) == Triple(buf) + Decoded(rest)
  {
    hide IsBase64, Triple;
    assert (buf + rest)[..4] == buf && (buf + rest)[4..] == rest;
  }

  lemma TakeChar(held: string, c: char, rest: string)
    requires AllBase64(held) && IsBase64(c) && AllBase64(rest)
    ensures AllBase64(held + [c]) && AllBase64((held + [c]) + rest)
    ensures held + ([c] + rest) == (held + [c]) + rest
  {
    hide IsBase64;
  }

  lemma NoneHeld(held: string, rest: string)
    requires held == ""
    ensures AllBase64(held) && held + rest == rest
  {
  }

  lemma AllMeaningful(s: string)
    ensures AllBase64(Meaningful(s))
  {
    hide IsBase64;
  }

  method Base64Decode(s: string) returns (ret: seq<bv8>)
    ensures ret == Decoded(Meaningful(s))
  {
    hide Decoded, Meaningful, IsBase64, Find, Byte0, Byte1, Byte2, Triple, AllBase64;
    ret := [];
    var buf := new char[4];
    AllMeaningful(s[0..]);
    var i, pos := 0, 0;
    NoneHeld(buf[..0], Meaningful(s[0..]));
    assert s[0..] == s;
    while pos < |s| && s[pos] != '=' && IsBase64(s[pos])
      invariant pos <= |s| && i < 4 && AllBase64(buf[..i]) && AllBase64(buf[..i] + Meaningful(s[pos..]))
      invariant ret + Decoded(buf[..i] + Meaningful(s[pos..])) == Decoded(Meaningful(s))
    {
      MeaningfulStep(s, pos);
      ghost var rest := Meaningful(s[pos + 1..]);
      ghost var held := buf[..i];
      AllMeaningful(s[pos + 1..]);
      TakeChar(held, s[pos], rest);
      buf[i] := s[pos];
      i := i + 1;
      pos := pos + 1;
      assert buf[..i] == held + [s[pos - 1]];
      if i == 4 {
        assert buf[..] == buf[..i];
        TripleFirst(buf[..], rest);
        var bytes := Triple(buf[..]);
        assert (ret + bytes) + Decoded(rest) == ret + (bytes + Decoded(rest));
        ret := ret + bytes;
        i := 0;
        NoneHeld(buf[..0], rest);
      }
    }
    Stopped(s, pos);
    assert buf[..i] + "" == buf[..i];
    if i > 0 {
      var tail := DecodeTail(buf, i);
      ret := ret + tail;
    } else {
      LastBytes(buf[..0]);
    }
  }

  // The characters that are left over.
  method DecodeTail(buf: array<char>, i: nat) returns (tail: seq<bv8>)
    requires buf.Length == 4 && 1 <= i <= 3 && AllBase64(buf[..i])
    ensures tail == Decoded(buf[..i])
  {
    hide Decoded, IsBase64, Find, Byte0, Byte1;
    LastBytes(buf[..i]);
    assert forall j :: 0 <= j < i ==> buf[..i][j] == buf[j];
    tail := [];
    if i >= 2 {
      tail := tail + [Byte0(Find(buf[0]), Find(buf[1]))];
    }
    if i == 3 {
      tail := tail + [Byte1(Find(buf[1]), Find(buf[2]))];
    }
  }

  lemma Stopped(s: string, pos: nat)
    requires pos <= |s| && (pos < |s| ==> s[pos] == '=' || !IsBase64(s[pos]))
    ensures Meaningful(s[pos..]) == ""
  {
    PadIsNot();
    if pos < |s| { MeaningfulStep(s, pos); }
  }

  lemma LastBytes(left: string)
    requires |left| < 4 && AllBase64(left)
    ensures Decoded(left) ==
      if |left| <= 1 then []
      else if |left| == 2 then [Byte0(Find(left[0]), Find(left[1]))]
      else [Byte0(Find(left[0]), Find(left[1]))] + [Byte1(Find(left[1]), Find(left[2]))]
  {
    hide IsBase64, Find, Byte0, Byte1;
  }
}
