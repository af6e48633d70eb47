/** Base64 (include/cloudevents/format/base64.hpp): sections 3.5 and 4 of RFC 4648. */
module Base64 {
  import opened Wrappers
  import opened Arithmetic

  const PAD: byte := '=' as int
  const NOT_IN_ALPHABET := 0xFF
  const MAX_PADDING := 2

  type sextet = v: int | 0 <= v < 64

  function Value(c: byte): (v: byte)
    ensures v < 64 || v == NOT_IN_ALPHABET
  {
    if 'A' as int <= c <= 'Z' as int then c - 'A' as int
    else if 'a' as int <= c <= 'z' as int then c - 'a' as int + 26
    else if '0' as int <= c <= '9' as int then c - '0' as int + 52
    else if c == '+' as int then 62
    else if c == '/' as int then 63
    else NOT_IN_ALPHABET
  }

  /** The character of the alphabet at an index. */
  function Character(v: sextet): (c: byte)
    ensures Value(c) == v && c < 0x80
  {
    if v < 26 then v + 'A' as int
    else if v < 52 then v - 26 + 'a' as int
    else if v < 62 then v - 52 + '0' as int
    else if v == 62 then '+' as int
    else '/' as int
  }

  lemma CharacterOfValue(c: byte)
    requires Value(c) != NOT_IN_ALPHABET
    ensures Character(Value(c)) == c && c != PAD
  {
  }

  // The encoding: three octets are four sextets, a last shorter group is completed with zero bits, and
  // padding completes the last quantum of four characters.

  function Quantum(a: byte, b: byte, c: byte): (q: seq<sextet>)
    ensures |q| == 4
  {
    [a / 4, a % 4 * 16 + b / 16, b % 16 * 4 + c / 64, c % 64]
  }

  function SextetsOf(data: bytes): (vs: seq<sextet>)
    decreases |data|
  {
    if |data| == 0 then []
    else if |data| == 1 then Quantum(data[0], 0, 0)[..2]
    else if |data| == 2 then Quantum(data[0], data[1], 0)[..3]
    else Quantum(data[0], data[1], data[2]) + SextetsOf(data[3..])
  }

  function Characters(vs: seq<sextet>): (text: bytes)
    ensures |text| == |vs|
  {
    seq(|vs|, i requires 0 <= i < |vs| => Character(vs[i]))
  }

  function Padding(octets: nat): bytes {
    if octets % 3 == 1 then [PAD, PAD] else if octets % 3 == 2 then [PAD] else []
  }

  /** The encoding with all of its padding taken off. */
  function Unpadded(data: bytes): bytes {
    Characters(SextetsOf(data))
  }

  function Encode(data: bytes): bytes {
    Unpadded(data) + Padding(|data|)
  }

  /** Up to three octets side by side in one word. */
  function Packed(octets: bytes): nat
    requires |octets| <= 3
  {
    if |octets| == 0 then 0
    else if |octets| == 1 then octets[0]
    else if |octets| == 2 then octets[0] as int * 256 + octets[1]
    else (octets[0] as int * 256 + octets[1]) * 256 + octets[2]
  }

  /** `pack`: shifts a 32-bit group left by an octet for each octet it takes in. */
  method Pack(octets: bytes) returns (group: nat)
    requires |octets| <= 3
    ensures group == Packed(octets)
  {
    group := 0;
    for i := 0 to |octets|
      invariant group == Packed(octets[..i])
    {
      group := group * 256 + octets[i];
    }
    assert octets[..|octets|] == octets;
  }

  /** `emit`: the character of the six bits above the given weight. */
  function Emitted(group: nat, weight: nat): byte
    requires weight > 0
  {
    Character(group / weight % 64)
  }

  lemma Sextets(w: sextet, x: sextet, y: sextet, z: sextet, g: nat)
    requires g == ((w * 64 + x) * 64 + y) * 64 + z
    ensures g / 262144 % 64 == w && g / 4096 % 64 == x && g / 64 % 64 == y && g % 64 == z
  {
    assert g / 64 == (w * 64 + x) * 64 + y;
    assert g / 4096 == w * 64 + x;
    assert g / 262144 == w;
  }

  lemma PackedQuantum(a: byte, b: byte, c: byte)
    ensures var g, q := (a * 256 + b) * 256 + c, Quantum(a, b, c);
            g / 262144 % 64 == q[0] && g / 4096 % 64 == q[1] && g / 64 % 64 == q[2] && g % 64 == q[3]
  {
    var q := Quantum(a, b, c);
    Sextets(q[0], q[1], q[2], q[3], (a * 256 + b) * 256 + c);
  }

  /** With fewer octets the group is shifted to a sextet border, and its sextets are the first ones of
      the quantum that zeros complete. */
  lemma ShortQuanta(a: byte, b: byte)
    ensures var g, q := a * 16, Quantum(a, 0, 0); g / 64 % 64 == q[0] && g % 64 == q[1]
    ensures var g, q := (a * 256 + b) * 4, Quantum(a, b, 0);
            g / 4096 % 64 == q[0] && g / 64 % 64 == q[1] && g % 64 == q[2]
  {
    var q, r := Quantum(a, 0, 0), Quantum(a, b, 0);
    Sextets(0, 0, q[0], q[1], a * 16);
    Sextets(0, r[0], r[1], r[2], (a * 256 + b) * 4);
  }

  method EncodeStream(data: bytes) returns (text: bytes)
    ensures text == Encode(data)
  {
    hide Quantum, Character, Packed;
    var rest := data;
    text := [];
    while |rest| >= 3
      invariant text + Encode(rest) == Encode(data)
      decreases |rest|
    {
      var group := Pack(rest[..3]);
      ghost var four := FullQuantum(rest);
      text := text + [Emitted(group, 262144), Emitted(group, 4096), Emitted(group, 64), Emitted(group, 1)];
      assert four + Encode(rest[3..]) == Encode(rest);
      rest := rest[3..];
    }
    ghost var last := LastQuantum(rest);
    if |rest| == 1 {
      var group := Pack(rest);
      group := group * 16;
      text := text + [Emitted(group, 64), Emitted(group, 1)] + [PAD, PAD];
    } else if |rest| == 2 {
      var group := Pack(rest);
      group := group * 4;
      text := text + [Emitted(group, 4096), Emitted(group, 64), Emitted(group, 1)] + [PAD];
    }
  }

  lemma CharactersConcat(us: seq<sextet>, vs: seq<sextet>)
    ensures Characters(us + vs) == Characters(us) + Characters(vs)
  {
    hide Character;
  }

  lemma {:induction false} EncodeUnfolds(rest: bytes)
    requires |rest| >= 3
    ensures Encode(rest) == Characters(Quantum(rest[0], rest[1], rest[2])) + Encode(rest[3..])
  {
    hide Characters, Quantum, SextetsOf;
    SextetsUnfoldAt(rest);
    CharactersConcat(Quantum(rest[0], rest[1], rest[2]), SextetsOf(rest[3..]));
    assert (|rest| - 3) % 3 == |rest| % 3;
  }

  lemma FullQuantum(rest: bytes) returns (four: bytes)
    requires |rest| >= 3
    ensures var g := Packed(rest[..3]);
            four == [Emitted(g, 262144), Emitted(g, 4096), Emitted(g, 64), Emitted(g, 1)]
    ensures Encode(rest) == four + Encode(rest[3..])
  {
    hide Character, Quantum, Encode;
    PackedQuantum(rest[0], rest[1], rest[2]);
    four := Characters(Quantum(rest[0], rest[1], rest[2]));
    EncodeUnfolds(rest);
  }

  lemma LastQuantum(rest: bytes) returns (last: bytes)
    requires |rest| < 3
    ensures last == Encode(rest)
    ensures |rest| == 1 ==> var g := Packed(rest) * 16; last == [Emitted(g, 64), Emitted(g, 1)] + [PAD, PAD]
    ensures |rest| == 2 ==> var g := Packed(rest) * 4;
                            last == [Emitted(g, 4096), Emitted(g, 64), Emitted(g, 1)] + [PAD]
  {
    hide Character;
    if rest != [] {
      ShortQuanta(rest[0], if |rest| == 2 then rest[1] else 0);
    }
    last := Encode(rest);
  }

  // Decoding, as a function of the whole text.

  function Stripped(text: bytes): (body: bytes)
    ensures body <= text
    ensures body != [] ==> body[|body| - 1] != PAD
    ensures forall i :: |body| <= i < |text| ==> text[i] == PAD
  {
    if text != [] && text[|text| - 1] == PAD then Stripped(text[..|text| - 1]) else text
  }

  predicate InAlphabet(text: bytes) {
    forall i :: 0 <= i < |text| ==> Value(text[i]) != NOT_IN_ALPHABET
  }

  function Values(text: bytes): (vs: seq<sextet>)
    requires InAlphabet(text)
    ensures |vs| == |text|
  {
    seq(|text|, i requires 0 <= i < |text| => Value(text[i]))
  }

  // The octets that four sextets carry.

  function High(w: sextet, x: sextet): byte {
    w as int * 4 + x / 16
  }

  function Middle(x: sextet, y: sextet): byte {
    x % 16 * 16 + y / 4
  }

  function Low(y: sextet, z: sextet): byte {
    y % 4 * 64 + z
  }

  lemma OctetsCarry(w: sextet, x: sextet, y: sextet, z: sextet)
    ensures High(w, x) / 4 == w && High(w, x) % 4 == x / 16
    ensures Middle(x, y) / 16 == x % 16 && Middle(x, y) % 16 == y / 4
    ensures Low(y, z) / 64 == y % 4 && Low(y, z) % 64 == z
  {
  }

  lemma QuantumOfOctets(w: sextet, x: sextet, y: sextet, z: sextet)
    ensures Quantum(High(w, x), Middle(x, y), Low(y, z)) == [w, x, y, z]
    ensures x % 16 == 0 ==> Quantum(High(w, x), 0, 0)[..2] == [w, x]
    ensures y % 4 == 0 ==> Quantum(High(w, x), Middle(x, y), 0)[..3] == [w, x, y]
  {
    hide High, Middle, Low;
    OctetsCarry(w, x, y, z);
    SplitDigits(x, y);
  }

  lemma SplitDigits(x: sextet, y: sextet)
    ensures x / 16 * 16 + x % 16 == x && y / 4 * 4 + y % 4 == y
  {
  }

  lemma OctetsOfQuantum(a: byte, b: byte, c: byte)
    ensures var q := Quantum(a, b, c); High(q[0], q[1]) == a && Middle(q[1], q[2]) == b && Low(q[2], q[3]) == c
    ensures Quantum(a, 0, 0)[1] % 16 == 0 && Quantum(a, b, 0)[2] % 4 == 0
  {
  }

  /** The whole octets in a run of sextets; bits left over are dropped. */
  function Octets(vs: seq<sextet>): bytes {
    if |vs| < 2 then []
    else if |vs| == 2 then [High(vs[0], vs[1])]
    else if |vs| == 3 then [High(vs[0], vs[1]), Middle(vs[1], vs[2])]
    else [High(vs[0], vs[1]), Middle(vs[1], vs[2]), Low(vs[2], vs[3])] + Octets(vs[4..])
  }

  /** The bits left over after the last whole octet are zero. */
  predicate TrailingClear(vs: seq<sextet>) {
    && (|vs| % 4 == 2 ==> vs[|vs| - 1] % 16 == 0)
    && (|vs| % 4 == 3 ==> vs[|vs| - 1] % 4 == 0)
  }

  function Decode(text: bytes): Result<bytes> {
    var body := Stripped(text);
    var padding := |text| - |body|;
    if padding > MAX_PADDING || (padding > 0 && |text| % 4 != 0) || |body| % 4 == 1 then Err(InvalidBase64)
    else if !InAlphabet(body) || !TrailingClear(Values(body)) then Err(InvalidBase64)
    else Ok(Octets(Values(body)))
  }

  lemma {:induction false} SextetsUnfold(a: byte, b: byte, c: byte, rest: bytes)
    ensures SextetsOf([a, b, c] + rest) == Quantum(a, b, c) + SextetsOf(rest)
  {
    hide Quantum;
    assert ([a, b, c] + rest)[3..] == rest;
  }

  lemma {:induction false} OctetsUnfold(q: seq<sextet>, rest: seq<sextet>)
    requires |q| == 4
    ensures Octets(q + rest) == [High(q[0], q[1]), Middle(q[1], q[2]), Low(q[2], q[3])] + Octets(rest)
  {
    hide High, Middle, Low;
    assert (q + rest)[4..] == rest;
  }

  lemma {:induction false} SextetsUnfoldAt(data: bytes)
    requires |data| >= 3
    ensures SextetsOf(data) == Quantum(data[0], data[1], data[2]) + SextetsOf(data[3..])
  {
    hide *;
    assert data == [data[0], data[1], data[2]] + data[3..];
    SextetsUnfold(data[0], data[1], data[2], data[3..]);
  }

  lemma {:induction false} WholeQuantum(data: bytes)
    requires |data| >= 3
    ensures Octets(SextetsOf(data)) == [data[0], data[1], data[2]] + Octets(SextetsOf(data[3..]))
  {
    hide *;
    SextetsUnfoldAt(data);
    OctetsOfQuantum(data[0], data[1], data[2]);
    OctetsUnfold(Quantum(data[0], data[1], data[2]), SextetsOf(data[3..]));
  }

  lemma TrailingClearUnfold(q: seq<sextet>, rest: seq<sextet>)
    requires |q| == 4
    ensures TrailingClear(rest) ==> TrailingClear(q + rest)
  {
    assert |q + rest| % 4 == |rest| % 4;
  }

  lemma {:induction false} OctetsOfSextets(data: bytes)
    ensures Octets(SextetsOf(data)) == data && TrailingClear(SextetsOf(data))
    decreases |data|
  {
    hide High, Middle, Low, Quantum;
    if |data| >= 3 {
      hide Octets, SextetsOf, TrailingClear;
      OctetsOfSextets(data[3..]);
      WholeQuantum(data);
      SextetsUnfoldAt(data);
      TrailingClearUnfold(Quantum(data[0], data[1], data[2]), SextetsOf(data[3..]));
      assert data == [data[0], data[1], data[2]] + data[3..];
    } else if |data| > 0 {
      OctetsOfQuantum(data[0], if |data| > 1 then data[1] else 0, 0);
    }
  }

  lemma {:induction false} SextetsOfOctets(vs: seq<sextet>)
    requires |vs| % 4 != 1 && TrailingClear(vs)
    ensures SextetsOf(Octets(vs)) == vs
    decreases |vs|
  {
    hide High, Middle, Low, Quantum;
    if |vs| >= 4 {
      SextetsOfOctets(vs[4..]);
      QuantumOfOctets(vs[0], vs[1], vs[2], vs[3]);
      SextetsUnfold(High(vs[0], vs[1]), Middle(vs[1], vs[2]), Low(vs[2], vs[3]), Octets(vs[4..]));
      assert vs == [vs[0], vs[1], vs[2], vs[3]] + vs[4..];
    } else if |vs| > 0 {
      QuantumOfOctets(vs[0], vs[1], if |vs| > 2 then vs[2] else 0, 0);
    }
  }

  lemma ValuesOfCharacters(vs: seq<sextet>)
    ensures InAlphabet(Characters(vs)) && Values(Characters(vs)) == vs
  {
  }

  lemma CharactersOfValues(text: bytes)
    requires InAlphabet(text)
    ensures Characters(Values(text)) == text
  {
    forall i | 0 <= i < |text|
      ensures Character(Value(text[i])) == text[i]
    {
      CharacterOfValue(text[i]);
    }
  }

  lemma {:induction false} StrippedOf(body: bytes, pads: bytes)
    requires InAlphabet(body) && forall i :: 0 <= i < |pads| ==> pads[i] == PAD
    ensures Stripped(body + pads) == body
    decreases |pads|
  {
    if pads == [] {
      assert body + pads == body;
      if body != [] {
        CharacterOfValue(body[|body| - 1]);
      }
    } else {
      StrippedOf(body, pads[..|pads| - 1]);
      assert (body + pads)[..|body + pads| - 1] == body + pads[..|pads| - 1];
    }
  }

  lemma DecodedIsEncoding(text: bytes)
    requires Decode(text).Ok?
    ensures var data := Decode(text).value; text == Encode(data) || text == Unpadded(data)
  {
    hide SextetsOf, Value, Character, Octets, TrailingClear, InAlphabet, Stripped, Characters, Values;
    var body := Stripped(text);
    var data := Decode(text).value;
    SextetsOfOctets(Values(body));
    CharactersOfValues(body);
    assert text == body + text[|body|..];
    if text[|body|..] == [] {
      assert body + [] == body;
    } else {
      SextetsNumber(data);
      PaddingIs(|data|, |body|, |text| - |body|);
      PadsAre(text[|body|..], Padding(|data|));
    }
  }

  /** Padding that completes the last quantum is the padding of the octets. */
  lemma PaddingIs(octets: nat, body: nat, padding: nat)
    requires body == octets + (octets + 2) / 3 && 0 < padding <= MAX_PADDING && (body + padding) % 4 == 0
    ensures |Padding(octets)| == padding
  {
    SextetCount(octets);
  }

  lemma PadsAre(pads: bytes, padding: bytes)
    requires |pads| == |padding| && forall i :: 0 <= i < |pads| ==> pads[i] == PAD
    requires exists octets :: padding == Padding(octets)
    ensures pads == padding
  {
  }

  lemma EncodingDecodes(data: bytes, pads: bytes)
    requires pads == [] || pads == Padding(|data|)
    ensures Decode(Unpadded(data) + pads) == Ok(data)
  {
    hide SextetsOf, Value, Character, Octets, TrailingClear, Stripped, Unpadded, Values, InAlphabet;
    UnpaddedIs(data);
    PaddingFits(data, pads);
    StrippedOf(Unpadded(data), pads);
    OctetsOfSextets(data);
  }

  lemma UnpaddedIs(data: bytes)
    ensures InAlphabet(Unpadded(data)) && Values(Unpadded(data)) == SextetsOf(data)
  {
    hide SextetsOf, Value, Character, Characters, Values, InAlphabet;
    ValuesOfCharacters(SextetsOf(data));
  }

  lemma {:induction false} SextetsNumber(data: bytes)
    ensures |SextetsOf(data)| == |data| + (|data| + 2) / 3
    decreases |data|
  {
    hide Quantum;
    if |data| >= 3 {
      SextetsNumber(data[3..]);
      assert (|data| + 2) / 3 == (|data| - 3 + 2) / 3 + 1;
    }
  }

  /** No character stands alone in the last quantum, and the padding fills it. */
  lemma PaddingFits(data: bytes, pads: bytes)
    requires pads == [] || pads == Padding(|data|)
    ensures |Unpadded(data)| % 4 != 1 && |pads| <= MAX_PADDING
    ensures forall i :: 0 <= i < |pads| ==> pads[i] == PAD
    ensures pads != [] ==> |Unpadded(data) + pads| % 4 == 0
  {
    hide Character, SextetsOf;
    SextetsNumber(data);
    SextetCount(|data|);
  }

  lemma SextetCount(n: nat)
    ensures var m := n + (n + 2) / 3;
            m % 4 == if n % 3 == 0 then 0 else n % 3 + 1
  {
    var q, r := n / 3, n % 3;
    assert n == 3 * q + r;
    assert (n + 2) / 3 == if r == 0 then q else q + 1;
  }

  /** The decoder accepts exactly the encodings, fully padded or with no padding at all. */
  lemma DecodeExactly(text: bytes, data: bytes)
    ensures Decode(text) == Ok(data) <==> text == Encode(data) || text == Unpadded(data)
  {
    if Decode(text).Ok? {
      DecodedIsEncoding(text);
    }
    EncodingDecodes(data, []);
    EncodingDecodes(data, Padding(|data|));
    assert Unpadded(data) + [] == Unpadded(data);
  }

  lemma RoundTrip(data: bytes)
    ensures Decode(Encode(data)) == Ok(data)
  {
    DecodeExactly(Encode(data), data);
  }

  // The streaming decoder: a 32-bit accumulator takes six bits a character and gives up eight as soon
  // as it has them.

  /** Shifting six bits in loses the accumulator's high bits and nothing else. */
  function ShiftIn(accumulator: nat, v: sextet): (r: nat)
    ensures r < 0x1_0000_0000
  {
    accumulator * 64 % 0x1_0000_0000 + v
  }

  function Mask(bits: nat): nat {
    if bits == 2 then 4 else if bits == 4 then 16 else if bits == 6 then 64 else 1
  }

  /** The low bits of the accumulator are those of the last character not yet given up. */
  predicate Holding(vs: seq<sextet>, accumulator: nat, bits: nat) {
    && bits == (if |vs| % 4 == 0 then 0 else 8 - 2 * (|vs| % 4))
    && (bits != 0 ==> accumulator % Mask(bits) == vs[|vs| - 1] % Mask(bits))
  }

  lemma ShiftInDrops(accumulator: nat, v: sextet) returns (q: nat, low: nat)
    ensures ShiftIn(accumulator, v) == low * 64 + v && accumulator == q * 0x400_0000 + low
  {
    q, low := accumulator / 0x400_0000, accumulator % 0x400_0000;
    Euclid(accumulator * 64, q, low * 64, 0x1_0000_0000);
  }

  /** `(accumulator >> bits) & 0xFF`. */
  function TopOctet(accumulator: nat, bits: nat): byte {
    accumulator / Mask(bits) % 256
  }

  /** The octet given up at each place of a quantum is the one the sextets carry there. */
  lemma OctetGivenUp(accumulator: nat, last: sextet, v: sextet)
    ensures accumulator % 64 == last ==> TopOctet(ShiftIn(accumulator, v), 4) == High(last, v)
    ensures accumulator % 16 == last % 16 ==> TopOctet(ShiftIn(accumulator, v), 2) == Middle(last, v)
    ensures accumulator % 4 == last % 4 ==> TopOctet(ShiftIn(accumulator, v), 0) == Low(last, v)
  {
    hide ShiftIn, TopOctet;
    if accumulator % 64 == last {
      GivenUpHigh(accumulator, v);
    }
    if accumulator % 16 == last % 16 {
      GivenUpMiddle(accumulator, v);
    }
    if accumulator % 4 == last % 4 {
      GivenUpLow(accumulator, v);
    }
  }

  lemma GivenUpHigh(accumulator: nat, v: sextet)
    ensures TopOctet(ShiftIn(accumulator, v), 4) == accumulator % 64 * 4 + v / 16
  {
    hide ShiftIn;
    var q, low := ShiftInDrops(accumulator, v);
    var k, r := low / 64, low % 64;
    Euclid(accumulator, q * 0x10_0000 + k, r, 64);
    Euclid(low * 64 + v, k * 256 + (r * 4 + v / 16), v % 16, 16);
    Euclid(k * 256 + (r * 4 + v / 16), k, r * 4 + v / 16, 256);
  }

  lemma GivenUpMiddle(accumulator: nat, v: sextet)
    ensures TopOctet(ShiftIn(accumulator, v), 2) == accumulator % 16 * 16 + v / 4
  {
    hide ShiftIn;
    var q, low := ShiftInDrops(accumulator, v);
    var k, r := low / 16, low % 16;
    Euclid(accumulator, q * 0x40_0000 + k, r, 16);
    Euclid(low * 64 + v, k * 256 + (r * 16 + v / 4), v % 4, 4);
    Euclid(k * 256 + (r * 16 + v / 4), k, r * 16 + v / 4, 256);
  }

  lemma GivenUpLow(accumulator: nat, v: sextet)
    ensures TopOctet(ShiftIn(accumulator, v), 0) == accumulator % 4 * 64 + v
  {
    hide ShiftIn;
    var q, low := ShiftInDrops(accumulator, v);
    var k, r := low / 4, low % 4;
    Euclid(accumulator, q * 0x100_0000 + k, r, 4);
    Euclid(low * 64 + v, k, r * 64 + v, 256);
  }

  /** The bits not given up are those of the character just shifted in. */
  lemma LastHeld(accumulator: nat, v: sextet)
    ensures ShiftIn(accumulator, v) % 64 == v
    ensures ShiftIn(accumulator, v) % 16 == v % 16
    ensures ShiftIn(accumulator, v) % 4 == v % 4
  {
    hide ShiftIn;
    var q, low := ShiftInDrops(accumulator, v);
    Euclid(low * 64 + v, low, v, 64);
    Euclid(low * 64 + v, low * 4 + v / 16, v % 16, 16);
    Euclid(low * 64 + v, low * 16 + v / 4, v % 4, 4);
  }

  lemma {:induction false} OctetsAppend(vs: seq<sextet>, v: sextet)
    ensures Octets(vs + [v]) == Octets(vs) + (
              if |vs| % 4 == 0 then []
              else if |vs| % 4 == 1 then [High(vs[|vs| - 1], v)]
              else if |vs| % 4 == 2 then [Middle(vs[|vs| - 1], v)]
              else [Low(vs[|vs| - 1], v)])
    decreases |vs|
  {
    hide High, Middle, Low;
    if |vs| >= 4 {
      assert |vs[4..]| % 4 == |vs| % 4;
      OctetsAppend(vs[4..], v);
      OctetsUnfold(vs[..4], vs[4..]);
      OctetsUnfold(vs[..4], vs[4..] + [v]);
      assert vs == vs[..4] + vs[4..];
      assert vs + [v] == vs[..4] + (vs[4..] + [v]);
    }
  }

  method DecodeStream(text: bytes) returns (r: Result<bytes>)
    ensures r == Decode(text)
    ensures r.Ok? ==> text == Encode(r.value) || text == Unpadded(r.value)
    ensures r.Err? ==> forall data: bytes :: text != Encode(data) && text != Unpadded(data)
  {
    forall data: bytes {
      DecodeExactly(text, data);
    }
    var body := text;
    var padding := 0;
    while body != [] && body[|body| - 1] == PAD
      invariant Stripped(text) == Stripped(body) && padding == |text| - |body|
      decreases |body|
    {
      body := body[..|body| - 1];
      padding := padding + 1;
    }
    if padding > MAX_PADDING {
      return Err(InvalidBase64);
    }
    if padding > 0 && |text| % 4 != 0 {
      return Err(InvalidBase64);
    }
    if |body| % 4 == 1 {
      return Err(InvalidBase64);
    }
    r := DecodeBody(body);
  }

  function Remaining(bits: nat): nat {
    if bits + 6 < 8 then bits + 6 else bits + 6 - 8
  }

  lemma NextPlaceInQuantum(n: nat)
    ensures (n + 1) % 4 == if n % 4 == 3 then 0 else n % 4 + 1
  {
  }

  /** One character more keeps the octets given up those of all characters so far. */
  lemma DecodeStep(vs: seq<sextet>, v: sextet, accumulator: nat, bits: nat)
    requires Holding(vs, accumulator, bits)
    ensures Holding(vs + [v], ShiftIn(accumulator, v), Remaining(bits))
    ensures Octets(vs + [v])
            == Octets(vs) + if bits + 6 < 8 then [] else [TopOctet(ShiftIn(accumulator, v), Remaining(bits))]
  {
    hide High, Middle, Low, ShiftIn, TopOctet, Octets;
    OctetsAppend(vs, v);
    LastHeld(accumulator, v);
    NextPlaceInQuantum(|vs|);
    if |vs| % 4 != 0 {
      OctetGivenUp(accumulator, vs[|vs| - 1], v);
    }
  }

  method DecodeBody(body: bytes) returns (r: Result<bytes>)
    requires |body| % 4 != 1
    ensures r == if InAlphabet(body) && TrailingClear(Values(body)) then Ok(Octets(Values(body))) else Err(InvalidBase64)
  {
    hide ShiftIn, TopOctet, Octets, Value, Holding;
    var out: bytes := [];
    var accumulator: nat, bits: nat := 0, 0;
    NothingHeld();
    assert body[..0] == [];
    for i := 0 to |body|
      invariant InAlphabet(body[..i])
      invariant out == Octets(Values(body[..i]))
      invariant Holding(Values(body[..i]), accumulator, bits) && bits < 8
    {
      var v := Value(body[i]);
      if v == NOT_IN_ALPHABET {
        return Err(InvalidBase64);
      }
      ghost var vs := Values(body[..i]);
      assert Values(body[..i + 1]) == vs + [v];
      DecodeStep(vs, v, accumulator, bits);
      accumulator := ShiftIn(accumulator, v);
      bits := bits + 6;
      if bits >= 8 {
        bits := bits - 8;
        out := out + [TopOctet(accumulator, bits)];
      }
    }
    assert body[..|body|] == body;
    TrailingIsHeld(Values(body), accumulator, bits);
    if bits > 0 && accumulator % Mask(bits) != 0 {
      return Err(InvalidBase64);
    }
    r := Ok(out);
  }

  lemma NothingHeld()
    ensures Octets(Values([])) == [] && Holding(Values([]), 0, 0)
  {
  }

  /** The trailing-bit check sees the bits of the last character that no octet took. */
  lemma TrailingIsHeld(vs: seq<sextet>, accumulator: nat, bits: nat)
    requires Holding(vs, accumulator, bits) && |vs| % 4 != 1
    ensures TrailingClear(vs) <==> !(bits > 0 && accumulator % Mask(bits) != 0)
  {
  }
}
