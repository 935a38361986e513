/** Base64 as in section 4 of RFC 4648, encoded and decoded in groups of three and four. */
module Base64 {
  import opened Bytes

  type Sextet = n: nat | n < 64

  /** The alphabet "A-Za-z0-9+/" by position. */
  function CharOf(i: Sextet): char {
    if i < 26 then 'A' + i as char
    else if i < 52 then 'a' + (i - 26) as char
    else if i < 62 then '0' + (i - 52) as char
    else if i == 62 then '+'
    else '/'
  }

  predicate IsBase64(c: char) {
    'A' <= c <= 'Z' || 'a' <= c <= 'z' || '0' <= c <= '9' || c == '+' || c == '/'
  }

  /** The position in the alphabet, kept in an unsigned char: 255 when `find` fails. */
  function IndexOf(c: char): Byte {
    if 'A' <= c <= 'Z' then c as nat - 'A' as nat
    else if 'a' <= c <= 'z' then c as nat - 'a' as nat + 26
    else if '0' <= c <= '9' then c as nat - '0' as nat + 52
    else if c == '+' then 62
    else if c == '/' then 63
    else 255
  }

  lemma IndexOfChar(i: Sextet)
    ensures IsBase64(CharOf(i)) && IndexOf(CharOf(i)) == i
  {
  }

  const UPPER := "ABCDEFGHIJKLMNOPQRSTUVWXYZ"
  const LOWER := "abcdefghijklmnopqrstuvwxyz"
  const DIGITS := "0123456789"

  /** The alphabet of RFC 4648, written out. */
  lemma Alphabet(i: Sextet)
    ensures i < 26 ==> CharOf(i) == UPPER[i]
    ensures 26 <= i < 52 ==> CharOf(i) == LOWER[i - 26]
    ensures 52 <= i < 62 ==> CharOf(i) == DIGITS[i - 52]
    ensures CharOf(62) == '+' && CharOf(63) == '/'
  {
    if i < 26 { UpperAt(i); } else if i < 52 { LowerAt(i - 26); }
  }

  lemma UpperAt(i: nat)
    requires i < 26
    ensures UPPER[i] as int == 'A' as int + i
  {
  }

  lemma LowerAt(i: nat)
    requires i < 26
    ensures LOWER[i] as int == 'a' as int + i
  {
  }

  /** Its characters and no others have a position in it, their own. */
  lemma AlphabetOnly(c: char)
    ensures IsBase64(c) <==> IndexOf(c) < 64
    ensures IsBase64(c) ==> CharOf(IndexOf(c)) == c
    ensures !IsBase64(c) ==> IndexOf(c) == 255
  {
  }

  // ---- groups

  /** The four positions of three bytes. */
  function Quad(a: Byte, b: Byte, c: Byte): (Sextet, Sextet, Sextet, Sextet) {
    (a / 4, a % 4 * 16 + b / 16, b % 16 * 4 + c / 64, c % 64)
  }

  /** The three bytes of four positions, each kept in an unsigned char. */
  function Triple(p: Byte, q: Byte, r: Byte, s: Byte): (Byte, Byte, Byte) {
    ((p * 4 + q % 64 / 16) % 0x100, (q % 16 * 16 + r % 64 / 4) % 0x100, (r % 4 * 64 + s) % 0x100)
  }

  /** Three digits to the base 256 and four to the base 64 of the same number. */
  lemma QuadNumber(a: Byte, b: Byte, c: Byte)
    ensures var (p, q, r, s) := Quad(a, b, c); 262144 * p + 4096 * q + 64 * r + s == 65536 * a + 256 * b + c
  {
    assert a == 4 * (a / 4) + a % 4 && b == 16 * (b / 16) + b % 16 && c == 64 * (c / 64) + c % 64;
  }

  lemma TripleNumber(p: Sextet, q: Sextet, r: Sextet, s: Sextet)
    ensures var (a, b, c) := Triple(p, q, r, s); 65536 * a + 256 * b + c == 262144 * p + 4096 * q + 64 * r + s
  {
    TripleParts(p, q / 16, q % 16, r / 4, r % 4, s);
    assert q == 16 * (q / 16) + q % 16 && r == 4 * (r / 4) + r % 4;
    hide Triple;
  }

  lemma TripleParts(p: nat, q1: nat, q0: nat, r1: nat, r0: nat, s: nat)
    requires p < 64 && q1 < 4 && q0 < 16 && r1 < 16 && r0 < 4 && s < 64
    ensures Triple(p, 16 * q1 + q0, 4 * r1 + r0, s) == (4 * p + q1, 16 * q0 + r1, 64 * r0 + s)
  {
    var q, r := 16 * q1 + q0, 4 * r1 + r0;
    assert q % 64 / 16 == q1 && q % 16 == q0;
    assert r % 64 / 4 == r1 && r % 4 == r0;
  }

  lemma FirstByte(a: Byte, high: nat)
    requires high < 16
    ensures (a / 4 * 4 + (a % 4 * 16 + high) % 64 / 16) % 0x100 == a
  {
    assert (a % 4 * 16 + high) / 16 == a % 4;
  }

  lemma SecondByte(low: nat, b: Byte, high: nat)
    requires low < 4 && high < 4
    ensures ((low * 16 + b / 16) % 16 * 16 + (b % 16 * 4 + high) % 64 / 4) % 0x100 == b
  {
    assert (low * 16 + b / 16) % 16 == b / 16;
    assert (b % 16 * 4 + high) / 4 == b % 16;
  }

  lemma ThirdByte(low: nat, c: Byte)
    requires low < 16
    ensures ((low * 4 + c / 64) % 4 * 64 + c % 64) % 0x100 == c
  {
    assert (low * 4 + c / 64) % 4 == c / 64;
  }

  /** A group of three bytes survives the round trip; so do the bytes that do not need the rest. */
  lemma TripleOfQuad(a: Byte, b: Byte, c: Byte)
    ensures var (p, q, r, s) := Quad(a, b, c); Triple(p, q, r, s) == (a, b, c)
  {
    FirstByte(a, b / 16); SecondByte(a % 4, b, c / 64); ThirdByte(b % 16, c);
  }

  // ---- the code as a function of the whole text

  function EncodeGroup(a: Byte, b: Byte, c: Byte): (s: string)
    ensures |s| == 4
  {
    var (p, q, r, s) := Quad(a, b, c);
    [CharOf(p), CharOf(q), CharOf(r), CharOf(s)]
  }

  function Encode(bytes: seq<Byte>): string {
    if bytes == [] then ""
    else if |bytes| == 1 then EncodeGroup(bytes[0], 0, 0)[..2] + "=="
    else if |bytes| == 2 then EncodeGroup(bytes[0], bytes[1], 0)[..3] + "="
    else EncodeGroup(bytes[0], bytes[1], bytes[2]) + Encode(bytes[3..])
  }

  /** The bytes of a group of one to four alphabet characters; missing ones do not matter. */
  function DecodeGroup(s: string): (b: seq<Byte>)
    requires |s| == 4
    ensures |b| == 3
  {
    var (a, b, c) := Triple(IndexOf(s[0]), IndexOf(s[1]), IndexOf(s[2]), IndexOf(s[3]));
    [a, b, c]
  }

  /** Decodes up to the first character outside the alphabet. */
  function Decode(s: string): seq<Byte> {
    if |s| >= 4 && IsBase64(s[0]) && IsBase64(s[1]) && IsBase64(s[2]) && IsBase64(s[3]) then
      DecodeGroup(s[..4]) + Decode(s[4..])
    else if |s| >= 3 && IsBase64(s[0]) && IsBase64(s[1]) && IsBase64(s[2]) then
      DecodeGroup(s[..3] + "A")[..2]
    else if |s| >= 2 && IsBase64(s[0]) && IsBase64(s[1]) then
      DecodeGroup(s[..2] + "AA")[..1]
    else []
  }

  // ---- round trip

  lemma {:induction false} EncodedLength(bytes: seq<Byte>)
    ensures |Encode(bytes)| == 4 * ((|bytes| + 2) / 3)
  {
    hide EncodeGroup, CharOf, Quad;
    if |bytes| >= 3 { EncodedLength(bytes[3..]); }
  }

  /** Letters of the alphabet, and at the end as many '=' as bytes are missing in the last group. */
  ghost predicate Shaped(text: string, missing: nat) {
    && |text| >= missing
    && (forall i | 0 <= i < |text| - missing :: IsBase64(text[i]))
    && forall i | |text| - missing <= i < |text| :: text[i] == '='
  }

  lemma {:induction false} EncodedShape(bytes: seq<Byte>)
    ensures Shaped(Encode(bytes), (3 - |bytes| % 3) % 3)
    decreases |bytes|
  {
    hide EncodeGroup, IsBase64;
    if bytes != [] {
      var a, b, c := bytes[0], if |bytes| > 1 then bytes[1] else 0, if |bytes| > 2 then bytes[2] else 0;
      GroupLetters(a, b, c);
      if |bytes| >= 3 {
        EncodedShape(bytes[3..]);
        ShapedAfter(EncodeGroup(a, b, c), Encode(bytes[3..]), (3 - |bytes| % 3) % 3);
      }
    }
  }

  lemma ShapedAfter(letters: string, text: string, missing: nat)
    requires (forall c | c in letters :: IsBase64(c)) && Shaped(text, missing)
    ensures Shaped(letters + text, missing)
  {
    hide IsBase64;
  }

  lemma GroupLetters(a: Byte, b: Byte, c: Byte)
    ensures forall x | x in EncodeGroup(a, b, c) :: IsBase64(x)
  {
    hide CharOf, IsBase64;
    var (p, q, r, s) := Quad(a, b, c);
    IndexOfChar(p); IndexOfChar(q); IndexOfChar(r); IndexOfChar(s);
  }

  /** How many letters of the alphabet a text starts with. */
  function Letters(s: string): (n: nat)
    ensures n <= |s|
  {
    if s == "" || !IsBase64(s[0]) then 0 else 1 + Letters(s[1..])
  }

  /** Decoding looks at those letters only: three bytes for four of them, and one less than are left over. */
  lemma {:induction false} DecodedLength(s: string)
    ensures var n := Letters(s);
            && |Decode(s)| == 3 * (n / 4) + (if n % 4 == 0 then 0 else n % 4 - 1)
            && Decode(s) == Decode(s[..n])
    decreases |s|
  {
    hide DecodeGroup, IsBase64;
    var n := Letters(s);
    LettersAt(s);
    var t := s[..n];
    assert forall i | 0 <= i < n :: t[i] == s[i];
    if n >= 4 {
      DecodedLength(s[4..]);
      LettersAfter(s, 4);
      assert s[4..][..n - 4] == t[4..] && t[..4] == s[..4];
    } else if n >= 2 {
      assert t[..n] == s[..n];
    }
  }

  lemma {:induction false} LettersAt(s: string)
    ensures forall i | 0 <= i < Letters(s) :: IsBase64(s[i])
    ensures Letters(s) < |s| ==> !IsBase64(s[Letters(s)])
  {
    if s != "" && IsBase64(s[0]) { LettersAt(s[1..]); }
  }

  lemma {:induction false} LettersAfter(s: string, k: nat)
    requires k <= Letters(s)
    ensures Letters(s[k..]) == Letters(s) - k
  {
    if k == 0 {
      assert s[0..] == s;
    } else {
      LettersAfter(s[1..], k - 1);
      assert s[1..][k - 1..] == s[k..];
    }
  }

  lemma GroupRoundTrip(a: Byte, b: Byte, c: Byte)
    ensures var g := EncodeGroup(a, b, c);
            && IsBase64(g[0]) && IsBase64(g[1]) && IsBase64(g[2]) && IsBase64(g[3])
            && DecodeGroup(g) == [a, b, c]
  {
    hide CharOf, IsBase64, IndexOf, Triple;
    var (p, q, r, s) := Quad(a, b, c);
    TripleOfQuad(a, b, c);
    IndexOfChar(p); IndexOfChar(q); IndexOfChar(r); IndexOfChar(s);
  }

  /** The leading bytes of a group do not depend on the characters after them. */
  lemma GroupPrefix(s: string, t: string)
    requires |s| == 4 && |t| == 4 && s[..2] == t[..2]
    ensures DecodeGroup(s)[0] == DecodeGroup(t)[0]
    ensures s[..3] == t[..3] ==> DecodeGroup(s)[1] == DecodeGroup(t)[1]
  {
    hide IndexOf;
    assert s[0] == s[..2][0] && s[1] == s[..2][1] && t[0] == t[..2][0] && t[1] == t[..2][1];
    if s[..3] == t[..3] { assert s[2] == s[..3][2] && t[2] == t[..3][2]; }
  }

  /** Decoding what was encoded gives every byte string back. */
  lemma {:induction false} RoundTrip(bytes: seq<Byte>)
    ensures Decode(Encode(bytes)) == bytes
  {
    hide EncodeGroup, DecodeGroup;
    if bytes != [] {
      var a, b, c := bytes[0], if |bytes| > 1 then bytes[1] else 0, if |bytes| > 2 then bytes[2] else 0;
      var g := EncodeGroup(a, b, c);
      GroupRoundTrip(a, b, c);
      if |bytes| >= 3 {
        RoundTrip(bytes[3..]);
        assert Encode(bytes)[..4] == g && Encode(bytes)[4..] == Encode(bytes[3..]);
        assert bytes == [a, b, c] + bytes[3..];
      } else if |bytes| == 2 {
        assert Encode(bytes)[..3] == g[..3];
        GroupPrefix(g, g[..3] + "A");
      } else {
        assert Encode(bytes)[..2] == g[..2];
        GroupPrefix(g, g[..2] + "AA");
      }
    }
  }

  lemma Injective(x: seq<Byte>, y: seq<Byte>)
    requires Encode(x) == Encode(y)
    ensures x == y
  {
    RoundTrip(x); RoundTrip(y);
  }

  // ---- the loops

  lemma EncodeFull(group: seq<Byte>, rest: seq<Byte>)
    requires |group| == 3
    ensures Encode(group + rest) == EncodeGroup(group[0], group[1], group[2]) + Encode(rest)
  {
    assert (group + rest)[3..] == rest;
  }

  lemma MoveOne<T>(pending: seq<T>, s: seq<T>, k: nat)
    requires k < |s|
    ensures (pending + [s[k]]) + s[k + 1..] == pending + s[k..]
  {
  }

  /** `base64_encode`: fills a group of three and flushes it as four characters. */
  method EncodeBytes(bytes: seq<Byte>) returns (ret: string)
    ensures ret == Encode(bytes)
  {
    hide Encode, EncodeGroup;
    ret := "";
    var three := new Byte[3](_ => 0);
    var i := 0;
    assert three[..0] + bytes[0..] == bytes;
    for k := 0 to |bytes|
      invariant 0 <= i < 3
      invariant Encode(bytes) == ret + Encode(three[..i] + bytes[k..])
    {
      ghost var pending := three[..i];
      three[i] := bytes[k];
      i := i + 1;
      assert three[..i] == pending + [bytes[k]];
      MoveOne(pending, bytes, k);
      if i == 3 {
        EncodeFull(three[..3], bytes[k + 1..]);
        ret := ret + FourChars(three[0], three[1], three[2], 4);
        i := 0;
        assert three[..0] + bytes[k + 1..] == bytes[k + 1..];
      }
    }
    assert three[..i] + bytes[|bytes|..] == three[..i];
    EncodeEmpty();
    if i > 0 {
      var tail := EncodeTail(three, i);
      ret := ret + tail;
    }
  }

  /** The last, partial group: filled up with zeros, and its missing characters made up with '='. */
  method EncodeTail(three: array<Byte>, i: nat) returns (ret: string)
    requires three.Length == 3 && 0 < i < 3
    modifies three
    ensures ret == Encode(old(three[..i]))
  {
    hide Encode, EncodeGroup;
    var first := three[..i];
    for j := i to 3
      invariant three[..i] == first
      invariant forall m | i <= m < j :: three[m] == 0
    {
      three[j] := 0;
    }
    EncodeRest(first, three[..]);
    ret := FourChars(three[0], three[1], three[2], i + 1);
    ghost var text := ret;
    var n := i;
    while n < 3
      invariant i <= n <= 3
      invariant ret == text + seq(n - i, _ => '=')
    {
      ret := ret + "=";
      n := n + 1;
    }
  }

  /** The first `n` characters of a group, appended one by one. */
  function FourChars(a: Byte, b: Byte, c: Byte, n: nat): string
    requires n <= 4
  {
    EncodeGroup(a, b, c)[..n]
  }

  lemma EncodeEmpty()
    ensures Encode([]) == ""
  {
  }

  lemma EncodeRest(first: seq<Byte>, padded: seq<Byte>)
    requires 0 < |first| < 3 && |padded| == 3 && padded[..|first|] == first
    requires forall m | |first| <= m < 3 :: padded[m] == 0
    ensures Encode(first) == EncodeGroup(padded[0], padded[1], padded[2])[..|first| + 1] + seq(3 - |first|, _ => '=')
  {
    hide EncodeGroup;
    assert forall m | 0 <= m < |first| :: padded[m] == first[m];
    assert seq(1, _ => '=') == "=" && seq(2, _ => '=') == "==";
  }

  lemma DecodeFull(group: string, rest: string)
    requires |group| == 4 && forall m | 0 <= m < 4 :: IsBase64(group[m])
    ensures Decode(group + rest) == DecodeGroup(group) + Decode(rest)
  {
    hide DecodeGroup, IsBase64;
    assert (group + rest)[..4] == group && (group + rest)[4..] == rest;
  }

  /** What is left when the scan stops: the pending characters, then nothing of the alphabet. */
  lemma DecodeRest(group: string, rest: string)
    requires |group| < 4 && (forall m | 0 <= m < |group| :: IsBase64(group[m])) && (rest == "" || !IsBase64(rest[0]))
    ensures Decode(group + rest) ==
            if |group| <= 1 then [] else DecodeGroup(group + seq(4 - |group|, _ => 'A'))[..|group| - 1]
  {
    hide DecodeGroup, IsBase64;
    var s := group + rest;
    assert forall m | 0 <= m < |group| :: s[m] == group[m];
    assert rest != "" ==> s[|group|] == rest[0];
    assert |group| >= 2 ==> s[..|group|] == group;
    assert seq(1, _ => 'A') == "A" && seq(2, _ => 'A') == "AA";
  }

  /**
   `base64_decode`. A last group that is not full is completed with zero characters, which the
   alphabet does not hold: their position is 255, but no byte that is kept depends on it.
   */
  method DecodeText(s: string) returns (ret: seq<Byte>)
    requires |s| < 0x8000_0000
    ensures ret == Decode(s)
  {
    hide Decode, DecodeGroup, IsBase64;
    ret := [];
    var chars := new char[4](_ => 'A');
    var i, k := 0, 0;
    assert chars[..0] + s[0..] == s;
    while k < |s| && s[k] != '=' && IsBase64(s[k])
      invariant 0 <= k <= |s| && 0 <= i < 4
      invariant forall m | 0 <= m < i :: IsBase64(chars[m])
      invariant Decode(s) == ret + Decode(chars[..i] + s[k..])
    {
      ghost var pending := chars[..i];
      chars[i] := s[k];
      i := i + 1;
      k := k + 1;
      assert chars[..i] == pending + [s[k - 1]];
      MoveOne(pending, s, k - 1);
      if i == 4 {
        DecodeFull(chars[..4], s[k..]);
        ret := ret + DecodeGroup(chars[..4]);
        i := 0;
        assert chars[..0] + s[k..] == s[k..];
      }
    }
    EqualsOutside();
    DecodeRest(chars[..i], s[k..]);
    if i > 0 {
      var tail := DecodeTail(chars, i);
      ret := ret + tail;
    }
  }

  /** The last, partial group: completed with zero characters, and one byte less than it has characters kept. */
  method DecodeTail(chars: array<char>, i: nat) returns (ret: seq<Byte>)
    requires chars.Length == 4 && 0 < i < 4
    modifies chars
    ensures ret == if i == 1 then [] else DecodeGroup(old(chars[..i]) + seq(4 - i, _ => 'A'))[..i - 1]
  {
    hide DecodeGroup;
    ghost var group := chars[..i];
    for j := i to 4
      invariant chars[..i] == group
    {
      chars[j] := '\0';
    }
    var bytes := DecodeGroup(chars[..]);
    if i > 1 { GroupPrefix(chars[..], group + seq(4 - i, _ => 'A')); }
    ret := bytes[..i - 1];
  }

  lemma EqualsOutside()
    ensures !IsBase64('=')
  {
  }
}
