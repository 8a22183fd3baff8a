/**
 * Base-58 text with and without a checksum (src/base58.cpp).
 */
module Base58Text {
  import opened Arithmetic
  import opened Common
  import opened Base58

  /** All digits and letters but 0, I, O and l. */
  const NUMBERS := "123456789"
  const A_TO_H := "ABCDEFGH"
  const J_TO_N := "JKLMN"
  const P_TO_Z := "PQRSTUVWXYZ"
  const SMALL_A_TO_K := "abcdefghijk"
  const SMALL_M_TO_Z := "mnopqrstuvwxyz"
  const ALPHABET := NUMBERS + (A_TO_H + (J_TO_N + (P_TO_Z + (SMALL_A_TO_K + SMALL_M_TO_Z))))

  // -------------------------------------------------------------- characters

  function Char(d: Byte): char
    requires d < 58
  {
    ALPHABET[d]
  }

  /** The position of a character in the alphabet, if it has one. */
  function IndexIn(s: string, c: char): (r: nat)
    ensures r <= |s|
    ensures r < |s| ==> s[r] == c
    ensures forall i | 0 <= i < r :: s[i] != c
  {
    if s == "" || s[0] == c then 0 else 1 + IndexIn(s[1..], c)
  }

  function Index(c: char): (r: nat)
    ensures r <= 58
    ensures r < 58 ==> Char(r) == c
    ensures forall i | 0 <= i < r :: Char(i) != c
  {
    IndexIn(ALPHABET, c)
  }

  /** The code of a digit's character, by ranges. */
  function CodeOf(d: Byte): int {
    if d < 9 then '1' as int + d
    else if d < 17 then 'A' as int + d - 9
    else if d < 22 then 'J' as int + d - 17
    else if d < 33 then 'P' as int + d - 22
    else if d < 44 then 'a' as int + d - 33
    else 'm' as int + d - 44
  }

  lemma CapitalCode(d: Byte)
    requires d < 33
    ensures Char(d) as int == CodeOf(d)
  {
    assert d < 9 ==> Char(d) == NUMBERS[d];
    assert 9 <= d < 17 ==> Char(d) == A_TO_H[d - 9];
  }

  lemma SmallCode(d: Byte)
    requires 33 <= d < 58
    ensures Char(d) as int == CodeOf(d)
  {
    assert Char(d) == (SMALL_A_TO_K + SMALL_M_TO_Z)[d - 33];
  }

  lemma CharCode(d: Byte)
    requires d < 58
    ensures Char(d) as int == CodeOf(d)
  {
    hide Char, CodeOf;
    if d < 33 {
      CapitalCode(d);
    } else {
      SmallCode(d);
    }
  }

  predicate IsSpace(c: char) {
    c == ' ' || '\t' as int <= c as int <= '\r' as int
  }

  /** No two digits share a character, and none is a space. */
  lemma CharFacts(d: Byte)
    requires d < 58
    ensures Index(Char(d)) == d && !IsSpace(Char(d))
  {
    CharCode(d);
    var r := Index(Char(d));
    if r < d {
      CharCode(r);
    }
  }

  // -------------------------------------------------------------------- text

  /** Where the white space that starts at p ends. */
  function SpaceEnd(s: string, p: nat): (r: nat)
    requires p <= |s|
    ensures p <= r <= |s| && (forall i | p <= i < r :: IsSpace(s[i])) && (r < |s| ==> !IsSpace(s[r]))
    decreases |s| - p
  {
    if p < |s| && IsSpace(s[p]) then SpaceEnd(s, p + 1) else p
  }

  /** Where the word that starts at p ends. */
  function WordEnd(s: string, p: nat): (r: nat)
    requires p <= |s|
    ensures p <= r <= |s| && (forall i | p <= i < r :: !IsSpace(s[i])) && (r < |s| ==> IsSpace(s[r]))
    decreases |s| - p
  {
    if p < |s| && !IsSpace(s[p]) then WordEnd(s, p + 1) else p
  }

  /** The first word of a text. */
  function Word(s: string): string {
    s[SpaceEnd(s, 0)..WordEnd(s, SpaceEnd(s, 0))]
  }

  predicate InAlphabet(s: string) {
    forall i | 0 <= i < |s| :: Index(s[i]) < 58
  }

  function Indices(s: string): (d: Bytes)
    ensures |d| == |s| && forall i | 0 <= i < |s| :: d[i] == Index(s[i])
  {
    seq(|s|, i requires 0 <= i < |s| => Index(s[i]))
  }

  function Text(d: Bytes): (s: string)
    requires forall i | 0 <= i < |d| :: d[i] < 58
    ensures |s| == |d| && forall i | 0 <= i < |d| :: s[i] == Char(d[i])
  {
    seq(|d|, i requires 0 <= i < |d| => Char(d[i]))
  }

  /** One word of the alphabet and nothing but white space around it. */
  predicate Acceptable(s: string) {
    InAlphabet(Word(s)) && SpaceEnd(s, WordEnd(s, SpaceEnd(s, 0))) == |s|
  }

  ghost function Decoded(s: string): Option<Bytes> {
    if Acceptable(s) then Some(Rebased(Indices(Word(s)), 58, 256)) else None
  }

  ghost function Encoded(b: Bytes): string {
    RebasedTwice(b, 256, 58);
    Text(Rebased(b, 256, 58))
  }

  /** The text of digits is one word, and its characters stand for the digits. */
  lemma TextFacts(d: Bytes)
    requires forall i | 0 <= i < |d| :: d[i] < 58
    ensures Acceptable(Text(d)) && Word(Text(d)) == Text(d) && Indices(Text(d)) == d
  {
    hide Index, Char;
    var s := Text(d);
    forall i | 0 <= i < |d| ensures Index(s[i]) == d[i] && !IsSpace(s[i]) {
      CharFacts(d[i]);
    }
    NoSpaces(s);
  }

  lemma NoSpaces(s: string)
    requires forall i | 0 <= i < |s| :: !IsSpace(s[i])
    ensures SpaceEnd(s, 0) == 0 && WordEnd(s, 0) == |s| && SpaceEnd(s, |s|) == |s|
  {
  }

  /** Decoding an encoding gives the bytes back, whatever they are. */
  lemma DecodeEncoded(b: Bytes)
    ensures Decoded(Encoded(b)) == Some(b)
  {
    hide Rebased, Acceptable, Index, Char;
    RebasedTwice(b, 256, 58);
    TextFacts(Rebased(b, 256, 58));
  }

  /** A text that decodes is the encoding of what it decodes to, between white space. */
  lemma EncodeDecoded(s: string)
    requires Decoded(s).Some?
    ensures Encoded(Decoded(s).value) == Word(s)
  {
    hide Rebased, Index, Char;
    var d := Indices(Word(s));
    RebasedTwice(d, 58, 256);
    assert Text(d) == Word(s);
  }

  // ------------------------------------------------------------ with a checksum

  /** The first four bytes of the double hash of some bytes. */
  type Hasher = Bytes -> Checksum
  type Checksum = c: Bytes | |c| == 4 witness [0, 0, 0, 0]

  ghost function EncodedCheck(h: Hasher, b: Bytes): string {
    Encoded(b + h(b))
  }

  ghost function DecodedCheck(h: Hasher, s: string): Option<Bytes> {
    var d := Decoded(s);
    if d.None? || |d.value| < 4 then None
    else
      var n := |d.value| - 4;
      if h(d.value[..n]) != d.value[n..] then None else Some(d.value[..n])
  }

  lemma DecodeEncodedCheck(h: Hasher, b: Bytes)
    ensures DecodedCheck(h, EncodedCheck(h, b)) == Some(b)
  {
    hide Decoded, Encoded;
    var d := b + h(b);
    DecodeEncoded(d);
    assert d[..|b|] == b && d[|b|..] == h(b);
  }

  lemma EncodeDecodedCheck(h: Hasher, s: string)
    requires DecodedCheck(h, s).Some?
    ensures EncodedCheck(h, DecodedCheck(h, s).value) == Word(s)
  {
    hide Decoded, Encoded, Word;
    var d := Decoded(s).value;
    EncodeDecoded(s);
    assert d == d[..|d| - 4] + d[|d| - 4..];
  }

  // -------------------------------------------------------------------- loops

  method EncodeBase58(b: Bytes) returns (s: string)
    ensures s == Encoded(b)
  {
    hide Val, Digits, Char;
    var zeroes := 0;
    while zeroes < |b| && b[zeroes] == 0
      invariant 0 <= zeroes <= |b|
      invariant Zeros(b) == zeroes + Zeros(b[zeroes..])
    {
      assert b[zeroes..][1..] == b[zeroes + 1..];
      zeroes := zeroes + 1;
    }
    var rest := b[zeroes..];
    assert Zeros(rest) == 0;
    RoomToEncode(|rest|);
    var digits := Rebase(rest, 256, 58, |rest| * 138 / 100 + 1);
    ValDigits(Val(rest, 256), 58);
    s := Ones(zeroes);
    for i := 0 to |digits|
      invariant s == Text(Repeat(zeroes) + digits[..i])
    {
      s := s + [Char(digits[i])];
    }
    assert digits[..|digits|] == digits;
  }

  method Ones(n: nat) returns (s: string)
    ensures s == Text(Repeat(n))
  {
    s := seq(n, _ => '1');
    CapitalCode(0);
    assert Char(0) == '1';
  }

  method SkipSpaces(s: string, start: nat) returns (p: nat)
    requires start <= |s|
    ensures p == SpaceEnd(s, start)
  {
    p := start;
    while p < |s| && IsSpace(s[p])
      invariant start <= p <= |s| && SpaceEnd(s, p) == SpaceEnd(s, start)
    {
      p := p + 1;
    }
  }

  /** Skips and counts the characters that stand for leading zeros. */
  method SkipOnes(s: string, start: nat) returns (p: nat)
    requires start <= |s|
    ensures start <= p <= WordEnd(s, start) == WordEnd(s, p)
    ensures forall i | start <= i < p :: s[i] == '1'
    ensures p < |s| ==> s[p] != '1'
  {
    p := start;
    while p < |s| && s[p] == '1'
      invariant start <= p <= |s| && WordEnd(s, p) == WordEnd(s, start)
      invariant forall i | start <= i < p :: s[i] == '1'
    {
      p := p + 1;
    }
  }

  /** Turns a word into a number, one character at a time, until it ends or is not in the alphabet. */
  method DecodeWord(s: string, start: nat) returns (p: nat, bytes: Option<Bytes>)
    requires start <= |s|
    ensures var word := s[start..WordEnd(s, start)];
            if InAlphabet(word) then p == WordEnd(s, start) && bytes == Some(Digits(Val(Indices(word), 58), 256))
            else bytes == None
  {
    hide Val, Digits, Index, WordEnd, InAlphabet;
    ghost var e := WordEnd(s, start);
    ghost var digits := Indices(s[start..e]);
    var size := (|s| - start) * 733 / 1000 + 1;
    var buf := new Byte[size](_ => 0);
    var length: nat := 0;
    p := start;
    BlankIsZero(buf[..], 256);
    BlankIsZero(digits[..0], 58);
    WordStep(s, p);
    while p < |s| && !IsSpace(s[p])
      invariant start <= p <= e && WordEnd(s, p) == e && (p < |s| && !IsSpace(s[p]) ==> p < e)
      invariant length <= size && forall k | 0 <= k < size - length :: buf[k] == 0
      invariant Small(digits[..p - start])
      invariant Val(buf[..], 256) == Val(digits[..p - start], 58)
    {
      var d := Index(s[p]);
      assert digits[p - start] == d;
      if d == 58 {
        NotInAlphabet(s[start..e], p - start);
        return p, None;
      }
      length := AddCharacter(buf, length, d, digits, p - start, |s| - start);
      WordStep(s, p);
      p := p + 1;
      WordStep(s, p);
    }
    AllInAlphabet(s[start..e]);
    var out := WithoutZeros(buf, length, 256);
    bytes := Some(out);
  }

  ghost predicate Small(d: Bytes) {
    forall i | 0 <= i < |d| :: d[i] < 58
  }

  lemma WordStep(s: string, p: nat)
    requires p <= |s|
    ensures if p < |s| && !IsSpace(s[p]) then p < WordEnd(s, p) == WordEnd(s, p + 1) else WordEnd(s, p) == p
  {
  }

  lemma NotInAlphabet(word: string, i: nat)
    requires i < |word| && Index(word[i]) == 58
    ensures !InAlphabet(word)
  {
    hide Index;
  }

  lemma AllInAlphabet(word: string)
    requires Small(Indices(word)[..|word|])
    ensures InAlphabet(word) && Indices(word)[..|word|] == Indices(word)
  {
    hide Index;
    assert Indices(word)[..|word|] == Indices(word);
    forall i | 0 <= i < |word| ensures Index(word[i]) < 58 {
      assert Index(word[i]) == Indices(word)[i];
    }
  }

  method AddCharacter(buf: array<Byte>, length: nat, d: Byte, ghost digits: Bytes, ghost j: nat, ghost room: nat)
    returns (length': nat)
    requires j < |digits| <= room && d == digits[j] < 58 && Small(digits[..j])
    requires buf.Length == DecodedSize(room) && length <= buf.Length
    requires forall k | 0 <= k < buf.Length - length :: buf[k] == 0
    requires Val(buf[..], 256) == Val(digits[..j], 58)
    modifies buf
    ensures Small(digits[..j + 1])
    ensures length' <= buf.Length && forall k | 0 <= k < buf.Length - length' :: buf[k] == 0
    ensures Val(buf[..], 256) == Val(digits[..j + 1], 58)
  {
    hide Val, Mul, Pow;
    assert forall i | 0 <= i < j :: digits[..j][i] == digits[i];
    NextCharacter(digits, j, room);
    length' := MulAddInPlace(buf, length, 58, 256, d);
  }

  lemma NextCharacter(d: Bytes, j: nat, room: nat)
    requires j < |d| <= room && forall i | 0 <= i <= j :: d[i] < 58
    ensures Val(d[..j + 1], 58) == Mul(58, Val(d[..j], 58)) + d[j] < Pow(256, DecodedSize(room))
  {
    hide Val, Mul, Pow;
    var e := d[..j + 1];
    NextDigit(e, 58, j);
    assert e[..j] == d[..j] && e[..j + 1] == e;
    PowMono(58, j + 1, room);
    RoomToDecode(room);
  }

  method DecodeBase58(s: string) returns (r: Option<Bytes>)
    ensures r == Decoded(s)
  {
    hide Val, Digits, Index, Rebased;
    var first := SkipSpaces(s, 0);
    var start := SkipOnes(s, first);
    var end, bytes := DecodeWord(s, start);
    OnesAndWord(s, first, start);
    if bytes.None? {
      return None;
    }
    var p := SkipSpaces(s, end);
    if p != |s| {
      return None;
    }
    r := Some(Repeat(start - first) + bytes.value);
  }

  /** The leading ones are the leading zeros of the number, and always in the alphabet. */
  lemma OnesAndWord(s: string, first: nat, start: nat)
    requires first == SpaceEnd(s, 0) && first <= start <= WordEnd(s, first) == WordEnd(s, start)
    requires forall i | first <= i < start :: s[i] == '1'
    requires start < |s| ==> s[start] != '1'
    ensures var rest := s[start..WordEnd(s, start)];
            && (InAlphabet(Word(s)) <==> InAlphabet(rest))
            && Rebased(Indices(Word(s)), 58, 256) == Repeat(start - first) + Digits(Val(Indices(rest), 58), 256)
  {
    hide Val, Digits, Index, InAlphabet, Indices, Zeros;
    var word, rest := Word(s), s[start..WordEnd(s, start)];
    var n := start - first;
    assert word[n..] == rest;
    OnesInFront(word, n);
    if rest != "" {
      NonZeroIndex(rest[0]);
      assert rest[0] == s[start];
    }
    FirstIndex(rest);
    ZerosOf(n, Indices(rest));
  }

  lemma FirstIndex(word: string)
    ensures |Indices(word)| == |word|
    ensures word != "" ==> Indices(word)[0] == Index(word[0])
  {
  }

  lemma OnesInFront(word: string, n: nat)
    requires n <= |word| && forall i | 0 <= i < n :: word[i] == '1'
    ensures InAlphabet(word) <==> InAlphabet(word[n..])
    ensures Indices(word) == Repeat(n) + Indices(word[n..])
  {
    hide Index;
    OneIsZero();
    var rest := word[n..];
    assert forall i | 0 <= i < |rest| :: rest[i] == word[n + i];
    assert forall i | n <= i < |word| :: word[i] == rest[i - n];
  }

  lemma OneIsZero()
    ensures Index('1') == 0
  {
    CapitalCode(0);
    CharFacts(0);
    assert Char(0) == '1';
  }

  lemma NonZeroIndex(c: char)
    requires c != '1'
    ensures Index(c) != 0
  {
    CapitalCode(0);
    assert Char(0) == '1';
  }

  method EncodeBase58Check(h: Hasher, b: Bytes) returns (s: string)
    ensures s == EncodedCheck(h, b)
  {
    s := EncodeBase58(b + h(b));
  }

  method DecodeBase58Check(h: Hasher, s: string) returns (r: Option<Bytes>)
    ensures r == DecodedCheck(h, s)
  {
    hide Decoded;
    var d := DecodeBase58(s);
    if d.None? || |d.value| < 4 {
      return None;
    }
    var n := |d.value| - 4;
    if h(d.value[..n]) != d.value[n..] {
      return None;
    }
    r := Some(d.value[..n]);
  }
}
