/** `b64_ntop` of ports/netcat-openbsd/netcat_compat.c, against section 4 of RFC 4648.
    Shifts by k bits are written as multiplication and division by powers of two, masks with
    0x3f as remainders by 64, and the bitwise or of disjoint bytes as their sum. */
module Base64 {
  import opened Wrappers

  type Byte = n: nat | n < 256

  /** `size_t` and `int` are 32 bits wide on the target. */
  const SIZE_LIMIT := 0x1_0000_0000
  const INT_LIMIT := 0x8000_0000

  const ALPHABET := "ABCDEFGHIJKLMNOPQRSTUVWXYZ" + "abcdefghijklmnopqrstuvwxyz" + "0123456789+/"

  function Letter(i: nat): char
    requires i < 64
  {
    ALPHABET[i]
  }

  // ---- Bits ----

  function Pow2(k: nat): (p: nat)
    ensures p > 0
  {
    if k == 0 then 1 else 2 * Pow2(k - 1)
  }

  /** The low bits of a number, most significant first. */
  function ToBits(v: nat, width: nat): (b: seq<bool>)
    ensures |b| == width
  {
    if width == 0 then [] else ToBits(v / 2, width - 1) + [v % 2 == 1]
  }

  function FromBits(b: seq<bool>): nat {
    if b == [] then 0 else 2 * FromBits(b[..|b| - 1]) + (if b[|b| - 1] then 1 else 0)
  }

  lemma {:induction false} FromBitsBound(b: seq<bool>)
    ensures FromBits(b) < Pow2(|b|)
  {
    if b != [] {
      FromBitsBound(b[..|b| - 1]);
    }
  }

  lemma {:induction false} BitsReadBack(v: nat, width: nat)
    requires v < Pow2(width)
    ensures FromBits(ToBits(v, width)) == v
  {
    if width > 0 {
      BitsReadBack(v / 2, width - 1);
      assert ToBits(v, width)[..width - 1] == ToBits(v / 2, width - 1);
    }
  }

  lemma {:induction false} BitsWriteBack(b: seq<bool>)
    ensures ToBits(FromBits(b), |b|) == b
  {
    if b != [] {
      BitsWriteBack(b[..|b| - 1]);
      assert b == b[..|b| - 1] + [b[|b| - 1]];
    }
  }

  lemma DoubleProduct(x: nat, p: nat)
    ensures x * (2 * p) == 2 * (x * p)
  {
  }

  lemma {:induction false} FromBitsConcat(a: seq<bool>, b: seq<bool>)
    ensures FromBits(a + b) == FromBits(a) * Pow2(|b|) + FromBits(b)
  {
    if b == [] {
      assert a + b == a;
    } else {
      var k := |b| - 1;
      assert (a + b)[..|a| + k] == a + b[..k];
      FromBitsConcat(a, b[..k]);
      assert (a + b)[|a + b| - 1] == b[k];
      DoubleProduct(FromBits(a), Pow2(k));
    }
  }

  // ---- The encoding that RFC 4648 defines ----

  function BytesToBits(bytes: seq<Byte>): seq<bool> {
    if bytes == [] then [] else ToBits(bytes[0], 8) + BytesToBits(bytes[1..])
  }

  function Zeros(n: nat): seq<bool> {
    seq(n, i => false)
  }

  /** Zero bits on the right up to a whole number of 6-bit groups. */
  function FillUp(bits: seq<bool>): (filled: seq<bool>)
    ensures |filled| % 6 == 0
  {
    bits + Zeros((6 - |bits| % 6) % 6)
  }

  function Character(sextet: seq<bool>): char
    requires |sextet| == 6
  {
    FromBitsBound(sextet);
    assert Pow2(6) == 64;
    Letter(FromBits(sextet))
  }

  function Characters(bits: seq<bool>): string
    requires |bits| % 6 == 0
  {
    if bits == [] then "" else [Character(bits[..6])] + Characters(bits[6..])
  }

  /** One or two pad characters when the last group of 24 bits is incomplete. */
  function PadCharacters(length: nat): string {
    if length % 3 == 1 then "==" else if length % 3 == 2 then "=" else ""
  }

  function Encode(bytes: seq<Byte>): string {
    Characters(FillUp(BytesToBits(bytes))) + PadCharacters(|bytes|)
  }

  lemma {:induction false} BytesToBitsLength(bytes: seq<Byte>)
    ensures |BytesToBits(bytes)| == 8 * |bytes|
  {
    if bytes != [] {
      BytesToBitsLength(bytes[1..]);
    }
  }

  lemma {:induction false} BytesToBitsConcat(a: seq<Byte>, b: seq<Byte>)
    ensures BytesToBits(a + b) == BytesToBits(a) + BytesToBits(b)
  {
    if a == [] {
      assert a + b == b;
    } else {
      assert (a + b)[1..] == a[1..] + b;
      BytesToBitsConcat(a[1..], b);
    }
  }

  lemma {:induction false} CharactersConcat(a: seq<bool>, b: seq<bool>)
    requires |a| % 6 == 0 && |b| % 6 == 0
    ensures Characters(a + b) == Characters(a) + Characters(b)
    decreases |a|
  {
    if a == [] {
      assert a + b == b;
    } else {
      assert (a + b)[..6] == a[..6] && (a + b)[6..] == a[6..] + b;
      CharactersConcat(a[6..], b);
    }
  }

  /** Whole groups of three bytes encode on their own. */
  lemma EncodeByGroups(bytes: seq<Byte>, more: seq<Byte>)
    requires |bytes| % 3 == 0
    ensures Encode(bytes + more) == Encode(bytes) + Encode(more)
  {
    hide Characters, BytesToBits;
    BytesToBitsConcat(bytes, more);
    BytesToBitsLength(bytes);
    var a, b := BytesToBits(bytes), BytesToBits(more);
    WholeGroups(|bytes|, |more|);
    FillUpAfterWhole(a, b);
    hide FillUp;
    CharactersConcat(a, FillUp(b));
  }

  lemma WholeGroups(n: nat, more: nat)
    requires n % 3 == 0
    ensures 8 * n % 6 == 0
    ensures PadCharacters(n + more) == PadCharacters(more) && PadCharacters(n) == ""
  {
    assert 8 * n == 6 * (4 * (n / 3));
  }

  lemma FillUpAfterWhole(a: seq<bool>, b: seq<bool>)
    requires |a| % 6 == 0
    ensures FillUp(a) == a
    ensures FillUp(a + b) == a + FillUp(b)
  {
    assert |a + b| % 6 == |b| % 6;
  }

  // ---- The four characters of one group, as the code computes them ----

  /** `alphabet[(value >> shift) & 0x3f]` for a shift of 18, 12, 6 or 0, given as its power of two. */
  function Lookup(value: nat, power: nat): char
    requires power > 0
  {
    Letter(value / power % 64)
  }

  /** Twenty-four bits are four 6-bit groups. */
  lemma FourSextets(bits: seq<bool>)
    requires |bits| == 24
    ensures var v := FromBits(bits);
            Characters(bits) == [Lookup(v, 0x4_0000), Lookup(v, 0x1000), Lookup(v, 0x40), Lookup(v, 1)]
  {
    hide Characters, FromBits, Pow2, Letter;
    var s0, s1, s2, s3 := bits[..6], bits[6..12], bits[12..18], bits[18..];
    assert bits == s0 + s1 + s2 + s3;
    CharactersConcat(s0 + s1 + s2, s3);
    CharactersConcat(s0 + s1, s2);
    CharactersConcat(s0, s1);
    OneCharacter(s0);
    OneCharacter(s1);
    OneCharacter(s2);
    OneCharacter(s3);
    FromBitsConcat(s0 + s1 + s2, s3);
    FromBitsConcat(s0 + s1, s2);
    FromBitsConcat(s0, s1);
    SextetsOfSum(FromBits(s0), FromBits(s1), FromBits(s2), FromBits(s3));
  }

  lemma OneCharacter(sextet: seq<bool>)
    requires |sextet| == 6
    ensures Pow2(6) == 64 && FromBits(sextet) < 64
    ensures Characters(sextet) == [Letter(FromBits(sextet))]
  {
    FromBitsBound(sextet);
    assert sextet[..6] == sextet && sextet[6..] == [];
  }

  lemma SextetsOfSum(a: nat, b: nat, c: nat, d: nat)
    requires a < 64 && b < 64 && c < 64 && d < 64
    ensures var v := ((a * 64 + b) * 64 + c) * 64 + d;
            v / 0x4_0000 % 64 == a && v / 0x1000 % 64 == b && v / 0x40 % 64 == c && v / 1 % 64 == d
  {
  }

  lemma GroupValue(x: Byte, y: Byte, z: Byte)
    ensures |BytesToBits([x, y, z])| == 24
    ensures FromBits(BytesToBits([x, y, z])) == x * 0x1_0000 + y * 0x100 + z
  {
    assert [x, y, z][1..] == [y, z] && [y, z][1..] == [z] && [z][1..] == [];
    assert BytesToBits([z]) == ToBits(z, 8) + [] == ToBits(z, 8);
    assert Pow2(8) == 256;
    BitsReadBack(x, 8);
    BitsReadBack(y, 8);
    BitsReadBack(z, 8);
    FromBitsConcat(ToBits(y, 8), ToBits(z, 8));
    FromBitsConcat(ToBits(x, 8), ToBits(y, 8) + ToBits(z, 8));
    assert Pow2(16) == 0x1_0000;
  }

  /** What the loop body writes for a group whose missing bytes are zero. */
  function GroupOutput(value: nat, remaining: nat): string {
    [Lookup(value, 0x4_0000), Lookup(value, 0x1000),
     if remaining >= 1 then Lookup(value, 0x40) else '=',
     if remaining >= 2 then Lookup(value, 1) else '=']
  }

  lemma {:induction false} ZeroByteBits()
    ensures ToBits(0, 8) == Zeros(8)
  {
    assert ToBits(0, 1) == [false] && ToBits(0, 2) == [false, false];
    assert ToBits(0, 4) == ToBits(0, 3) + [false] == [false, false, false, false];
    assert ToBits(0, 6) == ToBits(0, 5) + [false] == [false, false, false, false, false, false];
    assert ToBits(0, 8) == ToBits(0, 7) + [false];
  }

  lemma EncodeFullGroup(x: Byte, y: Byte, z: Byte)
    ensures Encode([x, y, z]) == GroupOutput(x * 0x1_0000 + y * 0x100 + z, 2)
  {
    hide Characters, BytesToBits, FromBits, Letter;
    GroupValue(x, y, z);
    var bits := BytesToBits([x, y, z]);
    assert FillUp(bits) == bits;
    FourSextets(bits);
  }

  lemma EncodeTwoBytes(x: Byte, y: Byte)
    ensures Encode([x, y]) == GroupOutput(x * 0x1_0000 + y * 0x100, 1)
  {
    hide Characters, FromBits, Letter;
    GroupValue(x, y, 0);
    BytesToBitsConcat([x, y], [0]);
    BytesToBitsLength([x, y]);
    ZeroByteBits();
    var bits := BytesToBits([x, y, 0]);
    assert [x, y] + [0] == [x, y, 0];
    assert BytesToBits([0]) == ToBits(0, 8) + BytesToBits([]) == Zeros(8);
    FourSextets(bits);
    CharactersOfPrefix(FillUp(BytesToBits([x, y])), bits, 3);
  }

  lemma EncodeOneByte(x: Byte)
    ensures Encode([x]) == GroupOutput(x * 0x1_0000, 0)
  {
    hide Characters, FromBits, Letter;
    GroupValue(x, 0, 0);
    BytesToBitsConcat([x], [0, 0]);
    BytesToBitsLength([x]);
    ZeroByteBits();
    var bits := BytesToBits([x, 0, 0]);
    assert [x] + [0, 0] == [x, 0, 0];
    assert [0, 0][1..] == [0] && [0][1..] == [];
    assert BytesToBits([0, 0]) == Zeros(8) + (Zeros(8) + []) == Zeros(16);
    FourSextets(bits);
    CharactersOfPrefix(FillUp(BytesToBits([x])), bits, 2);
  }

  lemma CharactersOfPrefix(part: seq<bool>, bits: seq<bool>, k: nat)
    requires |part| == 6 * k && |bits| == 24 && k <= 4 && part == bits[..6 * k]
    ensures |Characters(bits)| == 4 && |Characters(part)| == k
    ensures Characters(part) == Characters(bits)[..k]
  {
    var rest := bits[6 * k..];
    assert bits == part + rest;
    CharactersConcat(part, rest);
    CharactersLength(part);
    CharactersLength(rest);
  }

  lemma {:induction false} CharactersLength(bits: seq<bool>)
    requires |bits| % 6 == 0
    ensures |Characters(bits)| == |bits| / 6
    decreases |bits|
  {
    if bits != [] {
      CharactersLength(bits[6..]);
    }
  }

  // ---- The size test ----

  function EncodedLength(n: nat): nat {
    4 * ((n + 2) / 3)
  }

  /** `4 * ((source_length + 2) / 3) + 1` in `size_t` arithmetic. */
  function SizeNeeded(n: nat): nat {
    (4 * ((n + 2) % SIZE_LIMIT / 3) % SIZE_LIMIT + 1) % SIZE_LIMIT
  }

  predicate PassesTest(n: nat, targetSize: nat) {
    targetSize >= SizeNeeded(n)
  }

  /** The size test guards the buffer for exactly the source lengths whose test does not wrap. */
  lemma SizeTestGuardsExactly(n: nat)
    requires n < SIZE_LIMIT
    ensures (forall size: nat :: size < SIZE_LIMIT && PassesTest(n, size) ==> EncodedLength(n) + 1 <= size)
            <==> EncodedLength(n) + 1 < SIZE_LIMIT
    ensures EncodedLength(n) + 1 < SIZE_LIMIT <==> n <= 3_221_225_469
  {
    assert PassesTest(n, SizeNeeded(n));
  }

  lemma SizeTestIsTheBound(n: nat)
    requires EncodedLength(n) + 1 < SIZE_LIMIT
    ensures SizeNeeded(n) == EncodedLength(n) + 1
    ensures EncodedLength(0) == 0
  {
    assert (n + 2) % SIZE_LIMIT == n + 2;
    SmallRemainder(4 * ((n + 2) / 3));
    SmallRemainder(4 * ((n + 2) / 3) + 1);
  }

  lemma SmallRemainder(v: nat)
    requires v < SIZE_LIMIT
    ensures v % SIZE_LIMIT == v
  {
  }

  /** Each group of up to three bytes adds four characters. */
  lemma NextGroupLength(start: nat, next: nat, n: nat)
    requires start % 3 == 0 && start < n
    requires next == if start + 3 <= n then start + 3 else n
    ensures EncodedLength(next) == EncodedLength(start) + 4 <= EncodedLength(n)
    ensures next % 3 == 0 || next == n
  {
    var k := start / 3;
    assert start == 3 * k;
    assert (next + 2) / 3 == k + 1 && (start + 2) / 3 == k;
    assert (n + 2) / 3 >= k + 1;
  }

  /** `(int)output` */
  function ToInt(output: nat): int
    requires output < SIZE_LIMIT
  {
    if output < INT_LIMIT then output else output - SIZE_LIMIT
  }

  /** The returned `int` is the number of characters for exactly these source lengths. */
  lemma ReturnIsLengthExactly(n: nat)
    requires EncodedLength(n) + 1 < SIZE_LIMIT
    ensures ToInt(EncodedLength(n)) == EncodedLength(n) <==> n <= 1_610_612_733
  {
  }

  // ---- The function ----

  datatype Errno = Unset | EMSGSIZE

  /** The buffers are as long as the caller says, and the size test does not wrap. */
  method B64Ntop(source: array<Byte>, sourceLength: nat, target: array<char>, targetSize: nat)
      returns (r: int, errno: Errno)
    requires sourceLength <= source.Length && targetSize <= target.Length
    requires sourceLength < SIZE_LIMIT && targetSize < SIZE_LIMIT
    requires EncodedLength(sourceLength) + 1 < SIZE_LIMIT
    modifies target
    ensures targetSize < EncodedLength(sourceLength) + 1 ==>
              r == -1 && errno == EMSGSIZE && target[..] == old(target[..])
    ensures targetSize >= EncodedLength(sourceLength) + 1 ==>
              && r == ToInt(EncodedLength(sourceLength)) && errno == Unset
              && target[..] == Encode(old(source[..sourceLength])) + ['\0']
                               + old(target[EncodedLength(sourceLength) + 1..])
  {
    hide Encode, EncodedLength, SizeNeeded;
    SizeTestIsTheBound(sourceLength);
    if !PassesTest(sourceLength, targetSize) {
      return -1, EMSGSIZE;
    }
    ghost var text, rest := Encode(source[..sourceLength]), target[EncodedLength(sourceLength)..];
    EncodeHasEncodedLength(source[..sourceLength]);
    var output := EncodeInto(source, sourceLength, target);
    assert target[..] == text + rest;
    target[output] := '\0';
    Terminated(text, rest, target[..]);
    return ToInt(output), Unset;
  }

  lemma Terminated(text: string, rest: string, all: string)
    requires rest != "" && all == (text + rest)[|text| := '\0']
    ensures all == text + ['\0'] + rest[1..]
  {
  }

  /** The loop. */
  method EncodeInto(source: array<Byte>, sourceLength: nat, target: array<char>) returns (output: nat)
    requires sourceLength <= source.Length && EncodedLength(sourceLength) <= target.Length
    modifies target
    ensures output == EncodedLength(sourceLength)
    ensures target[..] == Encode(source[..sourceLength]) + old(target[EncodedLength(sourceLength)..])
  {
    hide Encode, GroupOutput, EncodedLength, SizeNeeded, Letter, IsGroup;
    ghost var bytes, before := source[..sourceLength], target[..];
    NothingEncodesToNothing();
    assert bytes[..0] == [];
    var input := 0;
    output := 0;
    while input < sourceLength
      invariant input <= sourceLength && (input % 3 == 0 || input == sourceLength)
      invariant output == EncodedLength(input) && output <= EncodedLength(sourceLength)
      invariant |Encode(bytes[..input])| == output
      invariant target[..] == Encode(bytes[..input]) + before[output..]
    {
      ghost var start := input;
      WrittenSoFar(target[..], Encode(bytes[..input]), before[output..]);
      var value, remaining;
      value, remaining, input := ReadGroup(source, sourceLength, input);
      GroupEnd(bytes, start, input, value, remaining);
      NextGroupLength(start, input, sourceLength);
      GroupEncoded(bytes, start, input, value, remaining);
      EncodeHasEncodedLength(bytes[..input]);
      output := WriteGroup(target, output, value, remaining);
    }
    assert bytes[..sourceLength] == bytes;
  }

  /** The value of the group that starts at the given index, with zeros for missing bytes. */
  ghost predicate IsGroup(bytes: seq<Byte>, start: nat, next: nat, value: nat, remaining: nat) {
    && start < |bytes|
    && next == (if start + 3 <= |bytes| then start + 3 else |bytes|)
    && remaining == next - start - 1
    && value == bytes[start] as int * 0x1_0000
                + (if remaining >= 1 then bytes[start + 1] as int * 0x100 else 0)
                + (if remaining >= 2 then bytes[start + 2] as int else 0)
  }

  lemma GroupEnd(bytes: seq<Byte>, start: nat, next: nat, value: nat, remaining: nat)
    requires IsGroup(bytes, start, next, value, remaining)
    ensures next == if start + 3 <= |bytes| then start + 3 else |bytes|
  {
  }

  /** The reads of the loop body. */
  method ReadGroup(source: array<Byte>, sourceLength: nat, start: nat)
      returns (value: nat, remaining: nat, input: nat)
    requires start < sourceLength <= source.Length
    ensures IsGroup(source[..sourceLength], start, input, value, remaining)
  {
    input := start;
    value := source[input] as int * 0x1_0000;
    input := input + 1;
    remaining := 0;
    if input < sourceLength {
      value := value + source[input] as int * 0x100;
      input := input + 1;
      remaining := 1;
    }
    if input < sourceLength {
      value := value + source[input] as int;
      input := input + 1;
      remaining := 2;
    }
  }

  /** The four assignments of the loop body. */
  method WriteGroup(target: array<char>, start: nat, value: nat, remaining: nat) returns (output: nat)
    requires start + 4 <= target.Length
    modifies target
    ensures output == start + 4
    ensures target[..] == old(target[..start]) + GroupOutput(value, remaining) + old(target[start + 4..])
  {
    output := start;
    target[output] := Lookup(value, 0x4_0000);
    output := output + 1;
    target[output] := Lookup(value, 0x1000);
    output := output + 1;
    target[output] := if remaining >= 1 then Lookup(value, 0x40) else '=';
    output := output + 1;
    target[output] := if remaining >= 2 then Lookup(value, 1) else '=';
    output := output + 1;
  }

  lemma NothingEncodesToNothing()
    ensures Encode([]) == "" && EncodedLength(0) == 0
  {
  }

  lemma WrittenSoFar(all: string, written: string, rest: string)
    requires all == written + rest
    ensures all[..|written|] == written && all[|written|..] == rest
  {
  }

  lemma GroupEncoded(bytes: seq<Byte>, start: nat, next: nat, value: nat, remaining: nat)
    requires start % 3 == 0 && IsGroup(bytes, start, next, value, remaining)
    ensures Encode(bytes[..next]) == Encode(bytes[..start]) + GroupOutput(value, remaining)
  {
    hide Encode, GroupOutput, Letter;
    var group := bytes[start..next];
    assert bytes[..next] == bytes[..start] + group;
    EncodeByGroups(bytes[..start], group);
    if remaining == 0 {
      assert group == [bytes[start]];
      EncodeOneByte(bytes[start]);
    } else if remaining == 1 {
      assert group == [bytes[start], bytes[start + 1]];
      EncodeTwoBytes(bytes[start], bytes[start + 1]);
    } else {
      assert group == [bytes[start], bytes[start + 1], bytes[start + 2]];
      EncodeFullGroup(bytes[start], bytes[start + 1], bytes[start + 2]);
    }
  }

  lemma EncodeHasEncodedLength(bytes: seq<Byte>)
    ensures |Encode(bytes)| == EncodedLength(|bytes|)
  {
    hide Characters, BytesToBits;
    BytesToBitsLength(bytes);
    CharactersLength(FillUp(BytesToBits(bytes)));
  }

  // ---- A decoder that undoes the encoding ----

  /** The value of a character of the alphabet, by the table of RFC 4648. */
  function SextetValue(c: char): Option<nat> {
    if 'A' <= c <= 'Z' then Some(c as int - 'A' as int)
    else if 'a' <= c <= 'z' then Some(c as int - 'a' as int + 26)
    else if '0' <= c <= '9' then Some(c as int - '0' as int + 52)
    else if c == '+' then Some(62)
    else if c == '/' then Some(63)
    else None
  }

  /** The bits that the characters stand for. */
  function DecodeBits(s: string): Option<seq<bool>> {
    if s == "" then Some([])
    else
      var first, rest := SextetValue(s[0]), DecodeBits(s[1..]);
      if first.Some? && rest.Some? then Some(ToBits(first.value, 6) + rest.value) else None
  }

  /** Whole bytes from the left; fewer than eight bits are dropped. */
  function BitsToBytes(bits: seq<bool>): seq<Byte> {
    if |bits| < 8 then []
    else
      FromBitsBound(bits[..8]);
      assert Pow2(8) == 256;
      [FromBits(bits[..8])] + BitsToBytes(bits[8..])
  }

  function WithoutPad(s: string): string {
    if |s| >= 2 && s[|s| - 2..] == "==" then s[..|s| - 2]
    else if |s| >= 1 && s[|s| - 1..] == "=" then s[..|s| - 1]
    else s
  }

  function Decode(s: string): Option<seq<Byte>> {
    if |s| % 4 != 0 then None
    else
      var bits := DecodeBits(WithoutPad(s));
      if bits.Some? then Some(BitsToBytes(bits.value)) else None
  }

  lemma AlphabetValues(i: nat)
    requires i < 64
    ensures SextetValue(Letter(i)) == Some(i)
    ensures Letter(i) != '='
  {
    assert forall k :: 0 <= k < 26 ==> ALPHABET[k] as int == 'A' as int + k;
    assert forall k :: 26 <= k < 52 ==> ALPHABET[k] as int == 'a' as int + k - 26;
    assert forall k :: 52 <= k < 62 ==> ALPHABET[k] as int == '0' as int + k - 52;
  }

  lemma {:induction false} DecodeCharacters(bits: seq<bool>)
    requires |bits| % 6 == 0
    ensures DecodeBits(Characters(bits)) == Some(bits)
    ensures '=' !in Characters(bits)
    decreases |bits|
  {
    hide Letter, SextetValue, ToBits;
    if bits != [] {
      DecodeCharacters(bits[6..]);
      FromBitsBound(bits[..6]);
      assert Pow2(6) == 64;
      AlphabetValues(FromBits(bits[..6]));
      BitsWriteBack(bits[..6]);
      assert Characters(bits)[1..] == Characters(bits[6..]);
      assert bits == bits[..6] + bits[6..];
    }
  }

  lemma {:induction false} BytesFromBits(bytes: seq<Byte>, extra: seq<bool>)
    requires |extra| < 8
    ensures BitsToBytes(BytesToBits(bytes) + extra) == bytes
  {
    if bytes == [] {
      assert BytesToBits(bytes) + extra == extra;
    } else {
      var bits := BytesToBits(bytes) + extra;
      assert bits[..8] == ToBits(bytes[0], 8) && bits[8..] == BytesToBits(bytes[1..]) + extra;
      assert Pow2(8) == 256;
      BitsReadBack(bytes[0], 8);
      BytesFromBits(bytes[1..], extra);
    }
  }

  lemma PadIsRemoved(text: string, length: nat)
    requires '=' !in text
    ensures WithoutPad(text + PadCharacters(length)) == text
  {
    var s := text + PadCharacters(length);
    if length % 3 == 1 {
      assert s[|s| - 2..] == "==" && s[..|s| - 2] == text;
    } else if length % 3 == 2 {
      assert s[|s| - 1..] == "=" && s[..|s| - 1] == text;
      assert |text| >= 1 ==> s[|s| - 2] == text[|text| - 1] && text[|text| - 1] in text;
    } else {
      assert s == text;
      assert |s| >= 1 ==> s[|s| - 1] in text;
      assert |s| >= 2 ==> s[|s| - 2..][1] == s[|s| - 1];
    }
  }

  /** Decoding an encoding gives the bytes back, for every byte sequence. */
  lemma DecodeEncode(bytes: seq<Byte>)
    ensures Decode(Encode(bytes)) == Some(bytes)
  {
    hide Characters, BytesToBits, DecodeBits, BitsToBytes, WithoutPad, FillUp, PadCharacters, EncodedLength;
    var filled := FillUp(BytesToBits(bytes));
    EncodeHasEncodedLength(bytes);
    LengthInFours(|bytes|);
    DecodeCharacters(filled);
    PadIsRemoved(Characters(filled), |bytes|);
    var extra := FillUpAppends(BytesToBits(bytes));
    BytesFromBits(bytes, extra);
  }

  lemma LengthInFours(n: nat)
    ensures EncodedLength(n) % 4 == 0
  {
  }

  lemma FillUpAppends(bits: seq<bool>) returns (extra: seq<bool>)
    ensures |extra| < 6 && FillUp(bits) == bits + extra
  {
    extra := Zeros((6 - |bits| % 6) % 6);
  }
}
