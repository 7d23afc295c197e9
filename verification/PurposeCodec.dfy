/**
 The printed form of purpose tokens: `name_lookup.secret`, both segments unpadded base64url.
 Base64 decoding is the lenient one of the runtime's library (it skips foreign characters
 and also reads the standard alphabet); the codec makes it canonical by encoding again.
 */
module PurposeCodec {
  import opened Prelude

  const LOOKUP_BYTES := 16
  const SECRET_BYTES := 32
  const LOOKUP_CHARACTERS := 22
  const SECRET_CHARACTERS := 43
  const MAXIMUM_ATTEMPTS := 100

  datatype Purpose = Invitation | Verification | Recovery {
    function Name(): string {
      match this
      case Invitation => "invitation"
      case Verification => "verification"
      case Recovery => "recovery"
    }
  }

  function AsciiBytes(s: string): (bytes: Bytes)
    requires IsAscii(s)
    ensures |bytes| == |s|
  {
    if s == "" then []
    else
      var first: Byte := s[0] as int;
      [first] + AsciiBytes(s[1..])
  }

  // ------------------------------------------------------------------------- base64url

  type Sextet = v: int | 0 <= v < 64

  /** The URL-safe alphabet of section 5 of RFC 4648. */
  function Symbol(v: Sextet): char {
    if v < 26 then 'A' + v as char
    else if v < 52 then 'a' + (v - 26) as char
    else if v < 62 then '0' + (v - 52) as char
    else if v == 62 then '-'
    else '_'
  }

  /** What the lenient decoder reads: both alphabets, nothing for any other character. */
  function Value(c: char): Option<Sextet> {
    if 'A' <= c <= 'Z' then Some(c as int - 'A' as int)
    else if 'a' <= c <= 'z' then Some(c as int - 'a' as int + 26)
    else if '0' <= c <= '9' then Some(c as int - '0' as int + 52)
    else if c == '-' || c == '+' then Some(62)
    else if c == '_' || c == '/' then Some(63)
    else None
  }

  lemma SymbolIsRead(v: Sextet)
    ensures Value(Symbol(v)) == Some(v)
    ensures Symbol(v) != '=' && Symbol(v) != '.' && Symbol(v) as int < 128
  {
    if v < 26 {
      assert Symbol(v) as int == 65 + v;
    } else if v < 52 {
      assert Symbol(v) as int == 97 + v - 26;
    } else if v < 62 {
      assert Symbol(v) as int == 48 + v - 52;
    }
  }

  function Group(a: Byte, b: Byte, c: Byte): string {
    [Symbol(a / 4), Symbol(a % 4 * 16 + b / 16), Symbol(b % 16 * 4 + c / 64), Symbol(c % 64)]
  }

  /** The encoding without its padding. */
  function Symbols(value: Bytes): string {
    if |value| == 0 then ""
    else if |value| == 1 then Group(value[0], 0, 0)[..2]
    else if |value| == 2 then Group(value[0], value[1], 0)[..3]
    else Group(value[0], value[1], value[2]) + Symbols(value[3..])
  }

  function Equals(n: nat): (s: string)
    ensures |s| == n && forall i :: 0 <= i < n ==> s[i] == '='
  {
    seq(n, _ => '=')
  }

  /** How many padding characters the length lacks: `-length % 4`. */
  function Lacking(length: nat): nat {
    (4 - length % 4) % 4
  }

  function UrlsafeEncode(value: Bytes): string {
    Symbols(value) + Equals(Lacking(|Symbols(value)|))
  }

  function StripEquals(s: string): string {
    if s != "" && s[|s| - 1] == '=' then StripEquals(s[..|s| - 1]) else s
  }

  /** `_encode_token_segment`. */
  function EncodeSegment(value: Bytes): string {
    StripEquals(UrlsafeEncode(value))
  }

  /** The library's decoding loop: `quad` symbols of the open group read, `left` their spare bits. */
  function Decode(s: string, quad: nat, left: nat, pads: nat, out: Bytes): Option<Bytes>
    requires quad < 4 && left < 64 && (quad == 2 ==> left < 16) && (quad == 3 ==> left < 4)
    decreases |s|
  {
    if s == "" then (if quad == 0 then Some(out) else None)
    else if s[0] == '=' then
      if quad >= 2 && quad + pads + 1 >= 4 then Some(out)
      else Decode(s[1..], quad, left, if quad >= 2 then pads + 1 else pads, out)
    else match Value(s[0])
      case None => Decode(s[1..], quad, left, pads, out)
      case Some(v) =>
        if quad == 0 then Decode(s[1..], 1, v, 0, out)
        else if quad == 1 then Decode(s[1..], 2, v % 16, 0, out + [left * 4 + v / 16])
        else if quad == 2 then Decode(s[1..], 3, v % 4, 0, out + [left * 16 + v / 4])
        else Decode(s[1..], 0, 0, 0, out + [left * 64 + v])
  }

  /** `_decode_token_segment`: exact length, ASCII, decodable to the length, and canonical. */
  function DecodeSegment(value: string, expected: nat): (r: Option<Bytes>)
    ensures r.Some? ==> |r.value| == expected && EncodeSegment(r.value) == value
  {
    var characters := if expected == LOOKUP_BYTES then LOOKUP_CHARACTERS else SECRET_CHARACTERS;
    if |value| != characters || !IsAscii(value) then None
    else
      match Decode(value + Equals(Lacking(|value|)), 0, 0, 0, [])
      case None => None
      case Some(decoded) =>
        if |decoded| != expected || EncodeSegment(decoded) != value then None else Some(decoded)
  }

  lemma {:induction false} SymbolsShape(value: Bytes)
    ensures |Symbols(value)| == (4 * |value| + 2) / 3
    ensures IsAscii(Symbols(value)) && '=' !in Symbols(value) && '.' !in Symbols(value)
  {
    forall v: Sextet ensures Symbol(v) != '=' && Symbol(v) != '.' && Symbol(v) as int < 128 { SymbolIsRead(v); }
    if |value| > 2 {
      SymbolsShape(value[3..]);
    }
  }

  /** Table 2 of RFC 4648. */
  const UPPER := "ABCDEFGHIJKLMNOPQRSTUVWXYZ"
  const LOWER := "abcdefghijklmnopqrstuvwxyz"
  const ALPHABET := UPPER + LOWER + "0123456789-_"

  function ByteAt(value: Bytes, i: nat): Byte {
    if i < |value| then value[i] else 0
  }

  /** The 24 bits of a group, missing bytes read as zero. */
  function GroupNumber(value: Bytes, group: nat): int {
    ByteAt(value, 3 * group) * 65536 + ByteAt(value, 3 * group + 1) * 256 + ByteAt(value, 3 * group + 2)
  }

  /** One of the four 6-bit numbers of a group, from the left. */
  function SextetOf(n: int, k: nat): (v: Sextet)
    requires 0 <= n < 0x100_0000 && k < 4
  {
    if k == 0 then n / 262144 else if k == 1 then n / 4096 % 64 else if k == 2 then n / 64 % 64 else n % 64
  }

  lemma LettersAreTabled(i: nat)
    requires i < 26
    ensures UPPER[i] as int == 65 + i && LOWER[i] as int == 97 + i
  {
  }

  lemma SymbolIsTabled(v: Sextet)
    ensures Symbol(v) == ALPHABET[v]
  {
    if v < 26 {
      LettersAreTabled(v);
    } else if v < 52 {
      LettersAreTabled(v - 26);
    }
  }

  lemma Sextets(a: Byte, b: Byte, c: Byte)
    ensures var n := a * 65536 + b * 256 + c;
      n / 262144 == a / 4 && n / 4096 % 64 == a % 4 * 16 + b / 16 && n / 64 % 64 == b % 16 * 4 + c / 64 && n % 64 == c % 64
  {
    Split64(a * 1024 + b * 4 + c / 64, c % 64);
    Split64(a * 16 + b / 16, b % 16 * 4 + c / 64);
    Split64(a / 4, a % 4 * 16 + b / 16);
    Nested(a * 65536 + b * 256 + c);
  }

  lemma Split64(q: nat, r: nat)
    requires r < 64
    ensures (q * 64 + r) / 64 == q && (q * 64 + r) % 64 == r
  {
  }

  lemma Nested(n: nat)
    ensures n / 4096 == n / 64 / 64 && n / 262144 == n / 64 / 64 / 64
  {
  }

  lemma GroupIsTabled(a: Byte, b: Byte, c: Byte, k: nat)
    requires k < 4
    ensures Group(a, b, c)[k] == ALPHABET[SextetOf(a * 65536 + b * 256 + c, k)]
  {
    Sextets(a, b, c);
    SymbolIsTabled(SextetOf(a * 65536 + b * 256 + c, k));
  }

  /** The first group of the encoding, as far as it goes. */
  lemma FirstSymbols(value: Bytes, j: nat)
    requires j < 4 && j < |Symbols(value)|
    ensures Symbols(value)[j] == Group(ByteAt(value, 0), ByteAt(value, 1), ByteAt(value, 2))[j]
  {
  }

  lemma LaterGroups(value: Bytes, group: nat)
    requires |value| >= 3 && group >= 1
    ensures GroupNumber(value[3..], group - 1) == GroupNumber(value, group)
  {
    assert forall i: nat :: ByteAt(value[3..], i) == ByteAt(value, i + 3);
  }

  lemma LaterSymbols(value: Bytes, i: nat)
    requires 4 <= i < |Symbols(value)|
    ensures |value| >= 3 && i - 4 < |Symbols(value[3..])| && Symbols(value)[i] == Symbols(value[3..])[i - 4]
  {
    assert |value| >= 3;
    var first := Group(value[0], value[1], value[2]);
    assert Symbols(value) == first + Symbols(value[3..]) && |first| == 4;
  }

  lemma FirstGroup(value: Bytes, k: nat)
    requires k < 4 && k < |Symbols(value)|
    ensures Symbols(value)[k] == ALPHABET[SextetOf(GroupNumber(value, 0), k)]
  {
    var a: int, b: int, c: int := ByteAt(value, 0), ByteAt(value, 1), ByteAt(value, 2);
    assert GroupNumber(value, 0) == a * 65536 + b * 256 + c;
    FirstSymbols(value, k);
    GroupIsTabled(a, b, c, k);
  }

  /** The encoding is base64url of section 5 of RFC 4648: each symbol stands for its six bits of the input. */
  lemma {:induction false} SymbolsAreTabled(value: Bytes, group: nat, k: nat)
    requires k < 4 && 4 * group + k < |Symbols(value)|
    ensures Symbols(value)[4 * group + k] == ALPHABET[SextetOf(GroupNumber(value, group), k)]
    decreases group
  {
    if group == 0 {
      FirstGroup(value, k);
    } else {
      var i := 4 * group + k;
      LaterSymbols(value, i);
      LaterGroups(value, group);
      assert i - 4 == 4 * (group - 1) + k;
      SymbolsAreTabled(value[3..], group - 1, k);
    }
  }

  lemma {:induction false} StripRestores(s: string, n: nat)
    requires '=' !in s
    ensures StripEquals(s + Equals(n)) == s
  {
    if n == 0 {
      assert s + Equals(0) == s;
      if s != "" {
        assert s[|s| - 1] in s;
      }
    } else {
      var padded := s + Equals(n);
      assert padded[|padded| - 1] == Equals(n)[n - 1];
      assert padded[..|padded| - 1] == s + Equals(n - 1);
      StripRestores(s, n - 1);
    }
  }

  lemma {:induction false} EncodeIsSymbols(value: Bytes)
    ensures EncodeSegment(value) == Symbols(value)
  {
    SymbolsShape(value);
    StripRestores(Symbols(value), Lacking(|Symbols(value)|));
  }

  lemma ReadSymbol(v: Sextet, rest: string, quad: nat, left: nat, pads: nat, out: Bytes)
    requires quad < 4 && left < 64 && (quad == 2 ==> left < 16) && (quad == 3 ==> left < 4)
    ensures Decode([Symbol(v)] + rest, quad, left, pads, out)
         == if quad == 0 then Decode(rest, 1, v, 0, out)
            else if quad == 1 then Decode(rest, 2, v % 16, 0, out + [left * 4 + v / 16])
            else if quad == 2 then Decode(rest, 3, v % 4, 0, out + [left * 16 + v / 4])
            else Decode(rest, 0, 0, 0, out + [left * 64 + v])
  {
    SymbolIsRead(v);
    assert ([Symbol(v)] + rest)[1..] == rest;
  }

  lemma ReadPair(v0: Sextet, v1: Sextet, rest: string, out: Bytes)
    ensures Decode([Symbol(v0)] + ([Symbol(v1)] + rest), 0, 0, 0, out) == Decode(rest, 2, v1 % 16, 0, out + [v0 * 4 + v1 / 16])
  {
    ReadSymbol(v0, [Symbol(v1)] + rest, 0, 0, 0, out);
    ReadSymbol(v1, rest, 1, v0, 0, out);
  }

  /** The symbols of a group carry its bytes. */
  lemma GroupBits(a: Byte, b: Byte, c: Byte)
    ensures a / 4 * 4 + (a % 4 * 16 + b / 16) / 16 == a && (a % 4 * 16 + b / 16) % 16 == b / 16
    ensures b / 16 * 16 + (b % 16 * 4 + c / 64) / 4 == b && (b % 16 * 4 + c / 64) % 4 == c / 64
    ensures c / 64 * 64 + c % 64 == c
  {
  }

  lemma ReadTwo(a: Byte, b: Byte, rest: string, out: Bytes)
    ensures Decode(Group(a, b, 0)[..2] + rest, 0, 0, 0, out) == Decode(rest, 2, b / 16, 0, out + [a])
  {
    GroupBits(a, b, 0);
    ReadPair(a / 4, a % 4 * 16 + b / 16, rest, out);
    assert Group(a, b, 0)[..2] + rest == [Symbol(a / 4)] + ([Symbol(a % 4 * 16 + b / 16)] + rest);
  }

  lemma ReadThree(a: Byte, b: Byte, c: Byte, rest: string, out: Bytes)
    ensures Decode(Group(a, b, c)[..3] + rest, 0, 0, 0, out) == Decode(rest, 3, c / 64, 0, out + [a, b])
  {
    GroupBits(a, b, c);
    var third := Symbol(b % 16 * 4 + c / 64);
    ReadTwo(a, b, [third] + rest, out);
    ReadSymbol(b % 16 * 4 + c / 64, rest, 2, b / 16, 0, out + [a]);
    assert out + [a] + [b] == out + [a, b];
    assert Group(a, b, c)[..3] + rest == Group(a, b, 0)[..2] + ([third] + rest);
  }

  /** The four symbols of a group give its three bytes back. */
  lemma ReadGroup(a: Byte, b: Byte, c: Byte, rest: string, out: Bytes)
    ensures Decode(Group(a, b, c) + rest, 0, 0, 0, out) == Decode(rest, 0, 0, 0, out + [a, b, c])
  {
    GroupBits(a, b, c);
    var fourth := Symbol(c % 64);
    ReadThree(a, b, c, [fourth] + rest, out);
    ReadSymbol(c % 64, rest, 3, c / 64, 0, out + [a, b]);
    assert out + [a, b] + [c] == out + [a, b, c];
    assert Group(a, b, c) + rest == Group(a, b, c)[..3] + ([fourth] + rest);
  }

  /** The last, incomplete group. */
  lemma DecodeTail(value: Bytes, out: Bytes)
    requires |value| < 3
    ensures Decode(UrlsafeEncode(value), 0, 0, 0, out) == Some(out + value)
  {
    var padding := Equals(Lacking(|Symbols(value)|));
    if |value| == 0 {
      assert UrlsafeEncode(value) == "" && out + value == out;
    } else if |value| == 1 {
      ReadTwo(value[0], 0, padding, out);
      assert |padding| == 2 && padding[1..][0] == '=';
      assert [value[0]] == value;
    } else {
      ReadThree(value[0], value[1], 0, padding, out);
      assert |padding| == 1;
      assert [value[0], value[1]] == value;
    }
  }

  lemma EncodeGroup(value: Bytes)
    requires |value| >= 3
    ensures UrlsafeEncode(value) == Group(value[0], value[1], value[2]) + UrlsafeEncode(value[3..])
  {
    var group, rest := Group(value[0], value[1], value[2]), Symbols(value[3..]);
    assert Lacking(|group + rest|) == Lacking(|rest|);
  }

  lemma {:induction false} DecodeSymbols(value: Bytes, out: Bytes)
    ensures Decode(UrlsafeEncode(value), 0, 0, 0, out) == Some(out + value)
  {
    if |value| < 3 {
      DecodeTail(value, out);
    } else {
      EncodeGroup(value);
      var taken := out + [value[0], value[1], value[2]];
      ReadGroup(value[0], value[1], value[2], UrlsafeEncode(value[3..]), out);
      DecodeSymbols(value[3..], taken);
      assert taken + value[3..] == out + value;
    }
  }

  /** A segment is accepted exactly when it is the encoding of that many bytes, and then yields them. */
  lemma DecodeSegmentExactly(value: string, expected: nat, bytes: Bytes)
    requires expected == LOOKUP_BYTES || expected == SECRET_BYTES
    ensures DecodeSegment(value, expected) == Some(bytes) <==> value == EncodeSegment(bytes) && |bytes| == expected
  {
    if value == EncodeSegment(bytes) && |bytes| == expected {
      EncodeIsSymbols(bytes);
      SymbolsShape(bytes);
      DecodeSymbols(bytes, []);
      assert [] + bytes == bytes;
    }
  }

  // ------------------------------------------------------------------------- the codec

  /** The text before the first separator, whether there is one, and the text after it. */
  function Partition(s: string, separator: char): (r: (string, bool, string))
    ensures separator !in r.0
    ensures s == if r.1 then r.0 + [separator] + r.2 else r.0
    ensures !r.1 ==> r.2 == ""
  {
    if s == "" then ("", false, "")
    else if s[0] == separator then ("", true, s[1..])
    else
      var (left, found, right) := Partition(s[1..], separator);
      assert s == [s[0]] + s[1..];
      ([s[0]] + left, found, right)
  }

  lemma {:induction false} PartitionFirst(left: string, separator: char, right: string)
    requires separator !in left
    ensures Partition(left + [separator] + right, separator) == (left, true, right)
  {
    var s := left + [separator] + right;
    if left == "" {
      assert s[1..] == right;
    } else {
      assert left[0] in left && s[0] == left[0];
      assert s[1..] == left[1..] + [separator] + right;
      PartitionFirst(left[1..], separator, right);
      assert [left[0]] + left[1..] == left;
    }
  }

  /** A purpose name keeps clear of both separators. */
  predicate CleanName(name: string) {
    IsAscii(name) && '_' !in name && '.' !in name
  }

  lemma NamesAreClean(p: Purpose, q: Purpose)
    ensures CleanName(p.Name()) && (p.Name() == q.Name() ==> p == q)
  {
    assert p.Name()[0] == q.Name()[0] ==> p == q;
  }

  /** What the keyed hash of a token is computed over. */
  function DigestInput(name: string, lookup: Bytes, secret: Bytes): Bytes
    requires IsAscii(name)
  {
    AsciiBytes(name) + lookup + secret
  }

  function TokenId(name: string, lookup: Bytes): string {
    name + "_" + EncodeSegment(lookup)
  }

  /** The printed token. */
  function Printed(name: string, lookup: Bytes, secret: Bytes): string {
    TokenId(name, lookup) + "." + EncodeSegment(secret)
  }

  /** `Raised` is the type error of comparing non-ASCII text in constant time. */
  datatype Parsed = Raised | Malformed | Parts(tokenId: string, lookup: Bytes, secret: Bytes)

  /** The string half of `proof`. */
  function Parse(token: string, name: string): Parsed {
    var (left, dotted, secretSegment) := Partition(token, '.');
    var (prefix, marked, lookupSegment) := Partition(left, '_');
    var lookup := DecodeSegment(lookupSegment, LOOKUP_BYTES);
    var secret := DecodeSegment(secretSegment, SECRET_BYTES);
    if !dotted || '.' in secretSegment || !marked then Malformed
    else if !IsAscii(prefix) then Raised
    else if prefix != name || !(name + "_" <= left) || lookup.None? || secret.None? then Malformed
    else Parts(left, lookup.value, secret.value)
  }

  /** `_valid_token_id`. */
  predicate ValidTokenId(tokenId: string, name: string) {
    name + "_" <= tokenId && DecodeSegment(tokenId[|name| + 1..], LOOKUP_BYTES).Some?
  }

  lemma PrintedParts(name: string, lookup: Bytes, secret: Bytes)
    requires CleanName(name)
    ensures Partition(Printed(name, lookup, secret), '.') == (TokenId(name, lookup), true, EncodeSegment(secret))
    ensures Partition(TokenId(name, lookup), '_') == (name, true, EncodeSegment(lookup))
    ensures '.' !in EncodeSegment(secret)
  {
    EncodeIsSymbols(lookup);
    EncodeIsSymbols(secret);
    SymbolsShape(lookup);
    SymbolsShape(secret);
    PartitionFirst(name, '_', EncodeSegment(lookup));
    PartitionFirst(TokenId(name, lookup), '.', EncodeSegment(secret));
  }

  /** Parsing a printed token gives its parts back, and only under its own name. */
  lemma PrintedIsParsed(name: string, lookup: Bytes, secret: Bytes, other: string)
    requires CleanName(name) && |lookup| == LOOKUP_BYTES && |secret| == SECRET_BYTES
    ensures Parse(Printed(name, lookup, secret), other)
            == if other == name then Parts(TokenId(name, lookup), lookup, secret) else Malformed
    ensures ValidTokenId(TokenId(name, lookup), name)
  {
    PrintedParts(name, lookup, secret);
    DecodeSegmentExactly(EncodeSegment(lookup), LOOKUP_BYTES, lookup);
    DecodeSegmentExactly(EncodeSegment(secret), SECRET_BYTES, secret);
    assert TokenId(name, lookup)[|name| + 1..] == EncodeSegment(lookup);
  }

  /** Whatever parses is the printed form of what it parses to. */
  lemma ParsedIsPrinted(token: string, name: string)
    requires Parse(token, name).Parts?
    ensures var r := Parse(token, name);
      && |r.lookup| == LOOKUP_BYTES && |r.secret| == SECRET_BYTES
      && r.tokenId == TokenId(name, r.lookup) && token == Printed(name, r.lookup, r.secret)
  {
  }

  /** A token is accepted exactly when it is printed from some lookup and some secret of the right sizes. */
  lemma ParsedExactly(token: string, name: string)
    requires CleanName(name)
    ensures Parse(token, name).Parts? <==>
            exists lookup: Bytes, secret: Bytes ::
              |lookup| == LOOKUP_BYTES && |secret| == SECRET_BYTES && token == Printed(name, lookup, secret)
  {
    if Parse(token, name).Parts? {
      ParsedIsPrinted(token, name);
    }
    forall lookup: Bytes, secret: Bytes |
      |lookup| == LOOKUP_BYTES && |secret| == SECRET_BYTES && token == Printed(name, lookup, secret)
      ensures Parse(token, name).Parts?
    {
      PrintedIsParsed(name, lookup, secret, name);
    }
  }

  /**
   The documentation promises a rejection for every bad string; the code raises instead,
   exactly when the dots and the underscore are in order but the text before it is not ASCII.
   */
  lemma RaisesExactly(token: string, name: string)
    ensures Parse(token, name).Raised? <==>
            exists prefix: string, middle: string, last: string ::
              && token == prefix + "_" + middle + "." + last
              && '_' !in prefix && '.' !in prefix && '.' !in middle && '.' !in last && !IsAscii(prefix)
  {
    if Parse(token, name).Raised? {
      var left, secretSegment := Partition(token, '.').0, Partition(token, '.').2;
      var prefix, lookupSegment := Partition(left, '_').0, Partition(left, '_').2;
      assert token == prefix + "_" + lookupSegment + "." + secretSegment;
    }
    forall prefix: string, middle: string, last: string |
      && token == prefix + "_" + middle + "." + last
      && '_' !in prefix && '.' !in prefix && '.' !in middle && '.' !in last && !IsAscii(prefix)
      ensures Parse(token, name).Raised?
    {
      PartitionFirst(prefix + "_" + middle, '.', last);
      PartitionFirst(prefix, '_', middle);
    }
  }

  lemma {:induction false} AsciiInjective(a: string, b: string)
    requires IsAscii(a) && IsAscii(b) && AsciiBytes(a) == AsciiBytes(b)
    ensures a == b
  {
    if a == "" {
      assert |AsciiBytes(b)| == 0;
    } else {
      assert |a| == |b|;
      assert AsciiBytes(a)[0] == AsciiBytes(b)[0];
      assert AsciiBytes(a)[1..] == AsciiBytes(a[1..]) && AsciiBytes(b)[1..] == AsciiBytes(b[1..]);
      AsciiInjective(a[1..], b[1..]);
      assert a == [a[0]] + a[1..] && b == [b[0]] + b[1..];
    }
  }

  /** No two accepted pairs of name and token are authenticated over the same bytes. */
  lemma DigestInputsDiffer(m: string, s: string, n: string, t: string)
    requires CleanName(m) && CleanName(n) && Parse(s, m).Parts? && Parse(t, n).Parts?
    ensures var a, b := Parse(s, m), Parse(t, n);
      DigestInput(m, a.lookup, a.secret) == DigestInput(n, b.lookup, b.secret) <==> m == n && s == t
  {
    var a, b := Parse(s, m), Parse(t, n);
    ParsedIsPrinted(s, m);
    ParsedIsPrinted(t, n);
    var x, y := DigestInput(m, a.lookup, a.secret), DigestInput(n, b.lookup, b.secret);
    if x == y {
      var k := |m|;
      assert |x| == |m| + 48 && |y| == |n| + 48;
      assert AsciiBytes(m) == x[..k] && AsciiBytes(n) == y[..k];
      AsciiInjective(m, n);
      assert a.lookup == x[k..k + LOOKUP_BYTES] && b.lookup == y[k..k + LOOKUP_BYTES];
      assert a.secret == x[k + LOOKUP_BYTES..] && b.secret == y[k + LOOKUP_BYTES..];
    }
  }

  /** A token id is well formed exactly when some 16-byte lookup prints to it. */
  lemma ValidTokenIdExactly(tokenId: string, name: string)
    requires CleanName(name)
    ensures ValidTokenId(tokenId, name) <==>
            exists lookup: Bytes :: |lookup| == LOOKUP_BYTES && tokenId == TokenId(name, lookup)
  {
    if ValidTokenId(tokenId, name) {
      var lookup := DecodeSegment(tokenId[|name| + 1..], LOOKUP_BYTES).value;
      assert tokenId == name + "_" + tokenId[|name| + 1..];
      assert tokenId == TokenId(name, lookup);
    }
    forall lookup: Bytes | |lookup| == LOOKUP_BYTES && tokenId == TokenId(name, lookup) ensures ValidTokenId(tokenId, name) {
      assert tokenId[|name| + 1..] == EncodeSegment(lookup);
      DecodeSegmentExactly(EncodeSegment(lookup), LOOKUP_BYTES, lookup);
    }
  }

  // --------------------------------------------------------------- issuing and proving

  datatype Codec = Codec(pepper: Bytes, hmac: (Bytes, Bytes) -> Bytes) {

    function Digest(purpose: Purpose, lookup: Bytes, secret: Bytes): Bytes {
      NamesAreClean(purpose, purpose);
      hmac(pepper, DigestInput(purpose.Name(), lookup, secret))
    }

    /** `issue`; the two entropy draws are inputs. */
    function IssueToken(purpose: Purpose, now: int, lifetime: int, attempts: int, lookup: Bytes,
                        secret: Bytes): IssueResult {
      if lifetime <= 0 || !(1 <= attempts <= MAXIMUM_ATTEMPTS) then Refused
      else if |lookup| != LOOKUP_BYTES || |secret| != SECRET_BYTES then GenerationFailed
      else
        Issue(TokenId(purpose.Name(), lookup), Printed(purpose.Name(), lookup, secret), Digest(purpose, lookup, secret),
              purpose, now + lifetime, attempts)
    }

    /** `proof` on a string; the hash computed for a rejected one is dropped. */
    function Prove(token: string, expected: Purpose): ProofResult {
      match Parse(token, expected.Name())
      case Raised => TypeError
      case Malformed => Rejected
      case Parts(tokenId, lookup, secret) => Proved(tokenId, Digest(expected, lookup, secret), expected)
    }
  }

  datatype IssueResult =
    | Refused
    | GenerationFailed
    | Issue(tokenId: string, token: string, digest: Bytes, purpose: Purpose, expiresAt: int, maximumAttempts: int)

  datatype ProofResult = TypeError | Rejected | Proved(tokenId: string, digest: Bytes, purpose: Purpose)

  /** A token is issued for any positive lifetime and one to a hundred attempts, on 16 and 32 bytes of entropy, with that deadline. */
  lemma IssuesExactly(codec: Codec, purpose: Purpose, now: int, lifetime: int, attempts: int, lookup: Bytes, secret: Bytes)
    ensures var r := codec.IssueToken(purpose, now, lifetime, attempts, lookup, secret);
      && (r.Refused? <==> lifetime <= 0 || attempts < 1 || 100 < attempts)
      && (r.Issue? <==> !r.Refused? && |lookup| == 16 && |secret| == 32)
      && (r.Issue? ==> r.purpose == purpose && r.maximumAttempts == attempts && now < r.expiresAt && r.expiresAt - now == lifetime)
  {
  }

  /** An issued token proves to its own id and digest, and to nothing under another purpose. */
  lemma IssuedIsProved(codec: Codec, purpose: Purpose, now: int, lifetime: int, attempts: int, lookup: Bytes, secret: Bytes,
                       presented: Purpose)
    ensures var r := codec.IssueToken(purpose, now, lifetime, attempts, lookup, secret);
      r.Issue? ==>
        && codec.Prove(r.token, presented) == (if presented == purpose then Proved(r.tokenId, r.digest, purpose) else Rejected)
        && ValidTokenId(r.tokenId, purpose.Name())
  {
    NamesAreClean(purpose, presented);
    if |lookup| == LOOKUP_BYTES && |secret| == SECRET_BYTES {
      PrintedIsParsed(purpose.Name(), lookup, secret, presented.Name());
    }
  }

  /** Two proofs with one digest are of one token under one purpose, unless the hash collides on distinct inputs. */
  lemma DigestIdentifiesToken(codec: Codec, s: string, p: Purpose, t: string, q: Purpose)
    requires codec.Prove(s, p).Proved? && codec.Prove(t, q).Proved?
    requires codec.Prove(s, p).digest == codec.Prove(t, q).digest
    ensures (p == q && s == t)
         || exists x: Bytes, y: Bytes :: x != y && codec.hmac(codec.pepper, x) == codec.hmac(codec.pepper, y)
  {
    NamesAreClean(p, q);
    NamesAreClean(q, p);
    var a, b := Parse(s, p.Name()), Parse(t, q.Name());
    DigestInputsDiffer(s := s, m := p.Name(), t := t, n := q.Name());
    var x, y := DigestInput(p.Name(), a.lookup, a.secret), DigestInput(q.Name(), b.lookup, b.secret);
    assert codec.hmac(codec.pepper, x) == codec.hmac(codec.pepper, y);
  }
}
