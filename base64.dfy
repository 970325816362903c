/**
 * The base64 codec that the repository writes out by hand three times
 * (section 4 of RFC 4648: the standard alphabet, `=` padding), stated once as
 * a specification that the per-file loops are proved against.
 *
 * Encoding is split into the bit level (ToSextets: every 3 bytes become four
 * 6-bit groups, a trailing partial group is filled with zero bits) and the
 * text level (Symbols, Padding). Decoding is split into the character level
 * (Sextets: skip whitespace, stop at the first `=`, look every other character
 * up) and the bit level (Pack: reassemble bytes, drop leftover bits). The
 * character lookup is a parameter because the two decoders of the repository
 * look characters up differently.
 */
module Base64 {
  import opened Wrappers
  import opened Ints

  /** A 6-bit group of the bit stream, that is, an index into the alphabet. */
  type Sextet = v: bv8 | v < 64

  /** A decoder's character lookup: the 6-bit value of a character, if it has one. */
  type Lookup = char -> Option<Sextet>

  /** The standard alphabet of section 4 of RFC 4648, built by ranges (see UpperRange). */
  const CHARS: string := Alphabet()
  const PAD: char := '='

  /** The data-URI header the repository puts in front of an encoded JPEG image. */
  const JPEG_PREFIX: string := "data:image/jpeg;base64,"

  /** The alphabet by ranges: 'A'-'Z', 'a'-'z', '0'-'9', '+', '/'. */
  function RangeSymbol(v: nat): char
    requires v < 64
  {
    if v < 26 then (65 + v) as char
    else if v < 52 then (97 + v - 26) as char
    else if v < 62 then (48 + v - 52) as char
    else if v == 62 then '+'
    else '/'
  }

  function Alphabet(): (s: string)
    ensures |s| == 64
    ensures forall v | 0 <= v < 64 :: s[v] == RangeSymbol(v)
  {
    seq(64, v requires 0 <= v < 64 => RangeSymbol(v))
  }

  /**
   * The alphabet is the string every copy of the codec in the repository
   * spells out: the upper-case letters, the lower-case letters, the digits,
   * '+' and '/'.
   */
  lemma UpperRange() ensures CHARS[..26] == "ABCDEFGHIJKLMNOPQRSTUVWXYZ" { }
  lemma LowerRange() ensures CHARS[26..52] == "abcdefghijklmnopqrstuvwxyz" { }
  lemma DigitRange() ensures CHARS[52..] == "0123456789+/" { }

  /** No symbol occurs twice in the alphabet, and none is ASCII whitespace or `=`. */
  lemma CharsDistinctData()
    ensures forall i, j | 0 <= i < j < 64 :: CHARS[i] != CHARS[j]
    ensures forall i | 0 <= i < 64 :: CHARS[i] as int < 128 && !IsSkipped(CHARS[i]) && CHARS[i] != PAD
  {
  }

  /** An index into the alphabet, as a 6-bit value. */
  function AsSextet(p: nat): (v: Sextet)
    requires p < 64
    ensures v as int == p
  {
    p as bv8
  }

  function Symbol(v: Sextet): char
  {
    CHARS[v as int]
  }

  /** The characters every decoder of the repository skips: space, line feed, carriage return (not tab). */
  predicate IsSkipped(ch: char)
  {
    ch == ' ' || ch == '\n' || ch == '\r'
  }

  // ---------------------------------------------------------------- bit level

  function Hi6(b0: Byte): Sextet { b0 >> 2 }
  function Mid6a(b0: Byte, b1: Byte): Sextet { ((b0 & 0x03) << 4) | (b1 >> 4) }
  function Mid6b(b1: Byte, b2: Byte): Sextet { ((b1 & 0x0f) << 2) | (b2 >> 6) }
  function Lo6(b2: Byte): Sextet { b2 & 0x3f }

  /**
   * The bit stream of `b` cut into 6-bit groups; a final group that is not
   * full is filled with zero bits. 8 bits per byte, 6 per group, rounded up.
   */
  function ToSextets(b: seq<Byte>): seq<Sextet>
    decreases |b|
  {
    if |b| == 0 then []
    else if |b| == 1 then [Hi6(b[0]), Mid6a(b[0], 0)]
    else if |b| == 2 then [Hi6(b[0]), Mid6a(b[0], b[1]), Mid6b(b[1], 0)]
    else [Hi6(b[0]), Mid6a(b[0], b[1]), Mid6b(b[1], b[2]), Lo6(b[2])] + ToSextets(b[3..])
  }

  function Byte0(s0: Sextet, s1: Sextet): Byte { (s0 << 2) | (s1 >> 4) }
  function Byte1(s1: Sextet, s2: Sextet): Byte { ((s1 & 0x0f) << 4) | (s2 >> 2) }
  function Byte2(s2: Sextet, s3: Sextet): Byte { ((s2 & 0x03) << 6) | s3 }

  /**
   * The bytes that a sequence of 6-bit groups spells out: every 4 groups give
   * 3 bytes, and the bits left over after the last whole byte are dropped.
   */
  function Pack(v: seq<Sextet>): seq<Byte>
    decreases |v|
  {
    if |v| < 2 then []
    else if |v| == 2 then [Byte0(v[0], v[1])]
    else if |v| == 3 then [Byte0(v[0], v[1]), Byte1(v[1], v[2])]
    else [Byte0(v[0], v[1]), Byte1(v[1], v[2]), Byte2(v[2], v[3])] + Pack(v[4..])
  }

  /** 8 bits per byte, 6 per group, rounded up. */
  lemma {:induction false} ToSextetsLength(b: seq<Byte>)
    ensures |ToSextets(b)| == (4 * |b| + 2) / 3
    decreases |b|
  {
    if |b| >= 3 {
      ToSextetsLength(b[3..]);
    }
  }

  /** 6 bits per group, 8 per byte, rounded down. */
  lemma {:induction false} PackLength(v: seq<Sextet>)
    ensures |Pack(v)| == 6 * |v| / 8
    decreases |v|
  {
    if |v| >= 4 {
      PackLength(v[4..]);
    }
  }

  /** Packing undoes the cut: the zero bits added to a partial group are exactly the ones dropped. */
  lemma {:induction false} PackToSextets(b: seq<Byte>)
    ensures Pack(ToSextets(b)) == b
    decreases |b|
  {
    if |b| >= 3 {
      var g := [Hi6(b[0]), Mid6a(b[0], b[1]), Mid6b(b[1], b[2]), Lo6(b[2])];
      var rest := ToSextets(b[3..]);
      assert ToSextets(b) == g + rest;
      assert (g + rest)[4..] == rest;
      PackToSextets(b[3..]);
      assert b == b[..3] + b[3..];
    }
  }

  /** Cutting is done 3 bytes at a time, so it distributes over 3-byte-aligned concatenation. */
  lemma {:induction false} ToSextetsAppend(p: seq<Byte>, q: seq<Byte>)
    requires |p| % 3 == 0
    ensures ToSextets(p + q) == ToSextets(p) + ToSextets(q)
    decreases |p|
  {
    if |p| == 0 {
      assert p + q == q;
    } else {
      assert (p + q)[3..] == p[3..] + q;
      assert (p + q)[..3] == p[..3];
      ToSextetsAppend(p[3..], q);
    }
  }

  // --------------------------------------------------------------- text level

  function Symbols(v: seq<Sextet>): (r: string)
    ensures |r| == |v|
  {
    seq(|v|, i requires 0 <= i < |v| => Symbol(v[i]))
  }

  /** The `=` characters that fill the last group of four: two after 1 byte, one after 2 bytes. */
  function Padding(n: nat): string
  {
    if n % 3 == 1 then "==" else if n % 3 == 2 then "=" else ""
  }

  /** The encoding of `b`: the alphabet symbols of its 6-bit groups, then the padding. */
  function Encode(b: seq<Byte>): string
  {
    Symbols(ToSextets(b)) + Padding(|b|)
  }

  /** Output length is 4 characters per started 3-byte group; the empty input encodes to "". */
  lemma EncodeLength(b: seq<Byte>)
    ensures |Encode(b)| == 4 * ((|b| + 2) / 3)
    ensures |Encode(b)| % 4 == 0
    ensures b == [] <==> Encode(b) == ""
  {
    ToSextetsLength(b);
  }

  /**
   * The shape of an encoding: `=` stands exactly at the last position when the
   * length is not a multiple of 3, and also at the one before when it leaves
   * 1 byte over; every other character is an alphabet symbol.
   */
  lemma EncodeShape(b: seq<Byte>)
    ensures var r := Encode(b);
      forall i | 0 <= i < |r| ::
        && (r[i] == PAD <==> (i == |r| - 1 && |b| % 3 != 0) || (i == |r| - 2 && |b| % 3 == 1))
        && (r[i] != PAD ==> r[i] in CHARS)
  {
    CharsDistinctData();
    var r := Encode(b);
    var s := Symbols(ToSextets(b));
    EncodeLength(b);
    forall i | 0 <= i < |r|
      ensures r[i] == PAD <==> (i == |r| - 1 && |b| % 3 != 0) || (i == |r| - 2 && |b| % 3 == 1)
      ensures r[i] != PAD ==> r[i] in CHARS
    {
      if i < |s| {
        assert r[i] == Symbol(ToSextets(b)[i]);
      }
    }
  }

  lemma SymbolsAppend(v: seq<Sextet>, w: seq<Sextet>)
    ensures Symbols(v + w) == Symbols(v) + Symbols(w)
  {
  }

  lemma PaddingAligned(m: nat, n: nat)
    requires m % 3 == 0
    ensures Padding(m) == "" && Padding(m + n) == Padding(n)
  {
    assert (m + n) % 3 == n % 3;
  }

  /** Encoding is done 3 bytes at a time, so it distributes over 3-byte-aligned concatenation. */
  lemma EncodeAppend(p: seq<Byte>, q: seq<Byte>)
    requires |p| % 3 == 0
    ensures Encode(p + q) == Encode(p) + Encode(q)
  {
    ToSextetsAppend(p, q);
    SymbolsAppend(ToSextets(p), ToSextets(q));
    PaddingAligned(|p|, |q|);
  }

  /** The four characters the encoder loops push for one group `g` of 1 to 3 bytes, zero-filled into `x0`, `x1`, `x2`. */
  ghost predicate PushedFor(g: seq<Byte>, x0: Byte, x1: Byte, x2: Byte)
  {
    && 1 <= |g| <= 3
    && x0 == g[0]
    && x1 == (if |g| >= 2 then g[1] else 0)
    && x2 == (if |g| >= 3 then g[2] else 0)
  }

  function GroupText(n: nat, x0: Byte, x1: Byte, x2: Byte): string
  {
    [Symbol(Hi6(x0)), Symbol(Mid6a(x0, x1)),
     if n >= 2 then Symbol(Mid6b(x1, x2)) else PAD,
     if n >= 3 then Symbol(Lo6(x2)) else PAD]
  }

  lemma GroupChars1(g: seq<Byte>, x0: Byte, x1: Byte, x2: Byte)
    requires PushedFor(g, x0, x1, x2) && |g| == 1
    ensures Encode(g) == GroupText(1, x0, x1, x2)
  {
    assert ToSextets(g) == [Hi6(x0), Mid6a(x0, 0)];
  }

  lemma GroupChars2(g: seq<Byte>, x0: Byte, x1: Byte, x2: Byte)
    requires PushedFor(g, x0, x1, x2) && |g| == 2
    ensures Encode(g) == GroupText(2, x0, x1, x2)
  {
    assert ToSextets(g) == [Hi6(x0), Mid6a(x0, x1), Mid6b(x1, 0)];
  }

  lemma GroupChars3(g: seq<Byte>, x0: Byte, x1: Byte, x2: Byte)
    requires PushedFor(g, x0, x1, x2) && |g| == 3
    ensures Encode(g) == GroupText(3, x0, x1, x2)
  {
    assert g[3..] == [];
    assert ToSextets(g) == [Hi6(x0), Mid6a(x0, x1), Mid6b(x1, x2), Lo6(x2)];
  }

  /**
   * The four characters the encoder loops push for one group of 1 to 3
   * bytes are that group's encoding.
   */
  lemma GroupChars(g: seq<Byte>, x0: Byte, x1: Byte, x2: Byte)
    requires PushedFor(g, x0, x1, x2)
    ensures Encode(g) == GroupText(|g|, x0, x1, x2)
  {
    if |g| == 1 {
      GroupChars1(g, x0, x1, x2);
    } else if |g| == 2 {
      GroupChars2(g, x0, x1, x2);
    } else {
      GroupChars3(g, x0, x1, x2);
    }
  }

  /**
   * One turn of the encoder loops: the group of (up to) 3 bytes at `i`,
   * zero-filled into `x0`, `x1`, `x2`, extends the encoding of what precedes
   * it by exactly the four characters the loops push.
   */
  lemma EncodeGroupStep(data: seq<Byte>, i: nat, filled: nat, x0: Byte, x1: Byte, x2: Byte)
    requires i % 3 == 0 && i < |data| && filled == Min(3, |data| - i)
    requires x0 == data[i]
    requires x1 == if filled >= 2 then data[i + 1] else 0
    requires x2 == if filled >= 3 then data[i + 2] else 0
    ensures Encode(data[..Min(i + 3, |data|)]) == Encode(data[..i]) + GroupText(filled, x0, x1, x2)
  {
    var group := data[i..i + filled];
    GroupChars(group, x0, x1, x2);
    EncodeAppend(data[..i], group);
    assert data[..i] + group == data[..Min(i + 3, |data|)];
  }

  // ------------------------------------------- the encoder loops' two steps

  /**
   * The inner loop of the encoders: `for j in 0..3`, copy the byte at
   * `i + j` into a fresh zeroed 3-byte buffer if there is one, and count it.
   */
  method FillGroup(data: seq<Byte>, i: nat) returns (buffer: array<Byte>, filled: nat)
    requires i < |data|
    ensures fresh(buffer) && buffer.Length == 3
    ensures filled == Min(3, |data| - i)
    ensures buffer[0] == data[i]
    ensures buffer[1] == if filled >= 2 then data[i + 1] else 0
    ensures buffer[2] == if filled >= 3 then data[i + 2] else 0
  {
    buffer := new Byte[3][0, 0, 0];
    filled := 0;
    for j := 0 to 3
      invariant filled == Min(j, |data| - i)
      invariant forall k | 0 <= k < 3 :: buffer[k] == if k < filled then data[i + k] else 0
    {
      if i + j < |data| {
        buffer[j] := data[i + j];
        filled := filled + 1;
      }
    }
  }

  /**
   * The rest of an encoder turn: split the buffer into four 6-bit values
   * and push their symbols, with `=` for the values past the `filled` bytes.
   */
  method PushGroup(result: string, buffer: array<Byte>, filled: nat) returns (r: string)
    requires buffer.Length == 3
    ensures r == result + GroupText(filled, buffer[0], buffer[1], buffer[2])
  {
    var b1: Sextet := buffer[0] >> 2;
    var b2: Sextet := ((buffer[0] & 0x03) << 4) | (buffer[1] >> 4);
    var b3: Sextet := ((buffer[1] & 0x0f) << 2) | (buffer[2] >> 6);
    var b4: Sextet := buffer[2] & 0x3f;

    assert b1 == Hi6(buffer[0]) && b2 == Mid6a(buffer[0], buffer[1]);
    assert b3 == Mid6b(buffer[1], buffer[2]) && b4 == Lo6(buffer[2]);
    r := result;
    r := r + [CHARS[b1 as int]];
    r := r + [CHARS[b2 as int]];
    assert r == result + [Symbol(b1), Symbol(b2)];
    if filled >= 2 {
      r := r + [CHARS[b3 as int]];
    } else {
      r := r + ['='];
    }
    ghost var c3 := if filled >= 2 then Symbol(b3) else PAD;
    assert r == result + [Symbol(b1), Symbol(b2), c3];
    if filled >= 3 {
      r := r + [CHARS[b4 as int]];
    } else {
      r := r + ['='];
    }
    ghost var c4 := if filled >= 3 then Symbol(b4) else PAD;
    assert r == result + [Symbol(b1), Symbol(b2), c3, c4];
  }

  /** One turn of the encoder loops: the group of up to 3 bytes at `i` becomes four characters. */
  method EncodeTurn(data: seq<Byte>, i: nat, result: string) returns (r: string)
    requires i % 3 == 0 && i < |data|
    requires result == Encode(data[..i])
    ensures r == Encode(data[..Min(i + 3, |data|)])
  {
    var buffer, filled := FillGroup(data, i);
    r := PushGroup(result, buffer, filled);
    EncodeGroupStep(data, i, filled, buffer[0], buffer[1], buffer[2]);
  }

  /** The test vectors of section 10 of RFC 4648: "f" -> "Zg==", "fo" -> "Zm8=", "foo" -> "Zm9v". */
  lemma EncodeRfcVectors()
    ensures Encode([]) == ""
    ensures Encode([0x66]) == "Zg=="
    ensures Encode([0x66, 0x6f]) == "Zm8="
    ensures Encode([0x66, 0x6f, 0x6f]) == "Zm9v"
  {
    EncodeF();
    EncodeFo();
    EncodeFoo();
  }

  lemma EncodeF() ensures Encode([0x66]) == "Zg=="
  {
    assert ToSextets([0x66]) == [25, 32];
    assert Symbols([25, 32]) == [CHARS[25], CHARS[32]];
  }

  lemma EncodeFo() ensures Encode([0x66, 0x6f]) == "Zm8="
  {
    assert ToSextets([0x66, 0x6f]) == [25, 38, 60];
    assert Symbols([25, 38, 60]) == [CHARS[25], CHARS[38], CHARS[60]];
  }

  lemma EncodeFoo() ensures Encode([0x66, 0x6f, 0x6f]) == "Zm9v"
  {
    var b: seq<Byte> := [0x66, 0x6f, 0x6f];
    assert b[3..] == [];
    assert ToSextets(b) == [25, 38, 61, 47];
    assert Symbols([25, 38, 61, 47]) == [CHARS[25], CHARS[38], CHARS[61], CHARS[47]];
  }

  /** The bytes "Man" encode to "TWFu". */
  lemma EncodeMan() ensures Encode([0x4d, 0x61, 0x6e]) == "TWFu"
  {
    var b: seq<Byte> := [0x4d, 0x61, 0x6e];
    assert b[3..] == [];
    assert ToSextets(b) == [19, 22, 5, 46];
    assert Symbols([19, 22, 5, 46]) == [CHARS[19], CHARS[22], CHARS[5], CHARS[46]];
  }

  // ---------------------------------------------------------- character level

  function Prepend(p: seq<Sextet>, r: Result<seq<Sextet>, char>): Result<seq<Sextet>, char>
  {
    match r
    case Ok(v) => Ok(p + v)
    case Err(c) => Err(c)
  }

  /** Prepending twice is prepending the concatenation. */
  lemma PrependTwice(p: seq<Sextet>, q: seq<Sextet>, r: Result<seq<Sextet>, char>)
    ensures Prepend(p, Prepend(q, r)) == Prepend(p + q, r)
  {
    if r.Ok? {
      assert p + (q + r.value) == (p + q) + r.value;
    }
  }

  lemma PrependNothing(r: Result<seq<Sextet>, char>)
    ensures Prepend([], r) == r
  {
    if r.Ok? {
      assert [] + r.value == r.value;
    }
  }

  /**
   * What the decoder loops read from `s`: the 6-bit values of its characters,
   * skipping whitespace, up to the first `=`; or the first character (before
   * any `=`) that `lookup` rejects.
   */
  function Sextets(s: string, lookup: Lookup): Result<seq<Sextet>, char>
    decreases |s|
  {
    if s == [] then Ok([])
    else if IsSkipped(s[0]) then Sextets(s[1..], lookup)
    else if s[0] == PAD then Ok([])
    else match lookup(s[0])
      case None => Err(s[0])
      case Some(v) => Prepend([v], Sextets(s[1..], lookup))
  }

  /** Decoding: the bytes the read 6-bit values spell, or the first character rejected. */
  function Decode(s: string, lookup: Lookup): Result<seq<Byte>, char>
  {
    match Sextets(s, lookup)
    case Ok(v) => Ok(Pack(v))
    case Err(c) => Err(c)
  }

  /** What reading resumes with after the character at `i`, in each of the decoder loops' four cases. */
  lemma SextetsAt(s: string, i: nat, lookup: Lookup)
    requires i < |s|
    ensures IsSkipped(s[i]) ==> Sextets(s[i..], lookup) == Sextets(s[i + 1..], lookup)
    ensures !IsSkipped(s[i]) && s[i] == PAD ==> Sextets(s[i..], lookup) == Ok([])
    ensures !IsSkipped(s[i]) && s[i] != PAD && lookup(s[i]).None? ==> Sextets(s[i..], lookup) == Err(s[i])
    ensures !IsSkipped(s[i]) && s[i] != PAD && lookup(s[i]).Some? ==>
      Sextets(s[i..], lookup) == Prepend([lookup(s[i]).value], Sextets(s[i + 1..], lookup))
  {
    assert s[i..][0] == s[i] && s[i..][1..] == s[i + 1..];
  }

  /** A lookup that gives every alphabet symbol its index. */
  ghost predicate InvertsTable(lookup: Lookup)
  {
    forall v: Sextet :: lookup(Symbol(v)) == Some(v)
  }

  lemma {:induction false} SymbolsThen(v: seq<Sextet>, t: string, lookup: Lookup)
    requires InvertsTable(lookup)
    ensures Sextets(Symbols(v) + t, lookup) == Prepend(v, Sextets(t, lookup))
    decreases |v|
  {
    CharsDistinctData();
    if v == [] {
      assert Symbols(v) + t == t;
      match Sextets(t, lookup)
      case Ok(w) => assert v + w == w;
      case Err(_) =>
    } else {
      var s := Symbols(v) + t;
      assert s[0] == Symbol(v[0]);
      assert s[1..] == Symbols(v[1..]) + t;
      SymbolsThen(v[1..], t, lookup);
      match Sextets(t, lookup)
      case Ok(w) => assert [v[0]] + (v[1..] + w) == v + w;
      case Err(_) =>
    }
  }

  /** Round trip: decoding an encoding gives back the bytes, for every lookup that inverts the alphabet. */
  lemma RoundTrip(b: seq<Byte>, lookup: Lookup)
    requires InvertsTable(lookup)
    ensures Decode(Encode(b), lookup) == Ok(b)
  {
    var v := ToSextets(b);
    SymbolsThen(v, Padding(|b|), lookup);
    assert Sextets(Padding(|b|), lookup) == Ok([]);
    assert v + [] == v;
    PackToSextets(b);
  }

  /** The characters of `s` that the decoders do not skip. */
  function WithoutSkipped(s: string): (r: string)
    ensures |r| <= |s|
  {
    if s == [] then []
    else if IsSkipped(s[0]) then WithoutSkipped(s[1..])
    else [s[0]] + WithoutSkipped(s[1..])
  }

  /** Removing space, line feed and carriage return never changes what is read. */
  lemma {:induction false} SkippedIgnored(s: string, lookup: Lookup)
    ensures Sextets(WithoutSkipped(s), lookup) == Sextets(s, lookup)
    decreases |s|
  {
    if s != [] {
      SkippedIgnored(s[1..], lookup);
      if !IsSkipped(s[0]) {
        var w := WithoutSkipped(s);
        assert w[0] == s[0] && w[1..] == WithoutSkipped(s[1..]);
      }
    }
  }

  /** Reading ends at the first `=`: nothing after it is examined, not even an invalid character. */
  lemma {:induction false} StopsAtFirstPad(p: string, t: string, lookup: Lookup)
    requires PAD !in p
    ensures Sextets(p + [PAD] + t, lookup) == Sextets(p, lookup)
    decreases |p|
  {
    if p != [] {
      assert (p + [PAD] + t)[1..] == p[1..] + [PAD] + t;
      StopsAtFirstPad(p[1..], t, lookup);
    }
  }

  /**
   * The first character before any `=` that is neither skipped nor known to
   * the lookup is reported, whatever follows it.
   */
  lemma {:induction false} FirstInvalidReported(p: string, c: char, t: string, lookup: Lookup)
    requires forall i | 0 <= i < |p| :: IsSkipped(p[i]) || (p[i] != PAD && lookup(p[i]).Some?)
    requires !IsSkipped(c) && c != PAD && lookup(c) == None
    ensures Sextets(p + [c] + t, lookup) == Err(c)
    decreases |p|
  {
    if p != [] {
      assert (p + [c] + t)[1..] == p[1..] + [c] + t;
      FirstInvalidReported(p[1..], c, t, lookup);
    }
  }

  /** The part of `s` before its first `=`. */
  function BeforePad(s: string): (r: string)
    ensures PAD !in r
  {
    if s == [] || s[0] == PAD then [] else [s[0]] + BeforePad(s[1..])
  }

  /** Every character read before the first `=` contributes exactly one 6-bit value. */
  lemma {:induction false} SextetCount(s: string, lookup: Lookup)
    requires Sextets(s, lookup).Ok?
    ensures |Sextets(s, lookup).value| == |WithoutSkipped(BeforePad(s))|
    decreases |s|
  {
    if s != [] && s[0] != PAD {
      SextetCount(s[1..], lookup);
      var bp := BeforePad(s);
      assert bp[0] == s[0] && bp[1..] == BeforePad(s[1..]);
    }
  }

  /** k characters read decode to floor(6k/8) bytes; leftover bits are dropped without error. */
  lemma DecodedLength(s: string, lookup: Lookup)
    requires Decode(s, lookup).Ok?
    ensures |Decode(s, lookup).value| == 6 * |WithoutSkipped(BeforePad(s))| / 8
  {
    SextetCount(s, lookup);
    PackLength(Sextets(s, lookup).value);
  }

  /** Two lookups that agree on every character of `s` read `s` alike. */
  lemma {:induction false} SameLookupOn(s: string, l1: Lookup, l2: Lookup)
    requires forall i | 0 <= i < |s| :: l1(s[i]) == l2(s[i])
    ensures Sextets(s, l1) == Sextets(s, l2)
    decreases |s|
  {
    if s != [] {
      assert l1(s[0]) == l2(s[0]);
      SameLookupOn(s[1..], l1, l2);
    }
  }

  // -------------------------------------------- the decoder loops' bit buffer

  /** The number of bits a decoder loop holds back after reading k 6-bit values. */
  function PendingBits(k: nat): nat
  {
    if k % 4 == 1 then 6 else if k % 4 == 2 then 4 else if k % 4 == 3 then 2 else 0
  }

  /**
   * The decoder loops' `buffer`/`bits` state after reading `acc`: `bits` is
   * the number of low bits of `buffer` not yet emitted, and they are the
   * low bits of the last value read.
   */
  ghost predicate Pending(buffer: bv32, bits: int, acc: seq<Sextet>)
  {
    && bits == PendingBits(|acc|)
    && (|acc| % 4 == 1 ==> buffer & 0x3f == acc[|acc| - 1] as bv32)
    && (|acc| % 4 == 2 ==> buffer & 0x0f == (acc[|acc| - 1] & 0x0f) as bv32)
    && (|acc| % 4 == 3 ==> buffer & 0x03 == (acc[|acc| - 1] & 0x03) as bv32)
  }

  /** Unfolding Pack once on a sequence of at least four values. */
  lemma PackFront(v: seq<Sextet>)
    requires |v| >= 4
    ensures Pack(v) == [Byte0(v[0], v[1]), Byte1(v[1], v[2]), Byte2(v[2], v[3])] + Pack(v[4..])
  {
  }

  /** The byte that reading `v` after `acc` completes, if any. */
  function Completed(acc: seq<Sextet>, v: Sextet): seq<Byte>
  {
    if |acc| % 4 == 1 then [Byte0(acc[|acc| - 1], v)]
    else if |acc| % 4 == 2 then [Byte1(acc[|acc| - 1], v)]
    else if |acc| % 4 == 3 then [Byte2(acc[|acc| - 1], v)]
    else []
  }

  lemma PackSnoc0(acc: seq<Sextet>, v: Sextet)
    requires |acc| == 0
    ensures Pack(acc + [v]) == Pack(acc) + Completed(acc, v)
  {
    assert acc + [v] == [v];
  }

  lemma PackSnoc1(acc: seq<Sextet>, v: Sextet)
    requires |acc| == 1
    ensures Pack(acc + [v]) == Pack(acc) + Completed(acc, v)
  {
    assert acc + [v] == [acc[0], v];
  }

  lemma PackSnoc2(acc: seq<Sextet>, v: Sextet)
    requires |acc| == 2
    ensures Pack(acc + [v]) == Pack(acc) + Completed(acc, v)
  {
    assert acc + [v] == [acc[0], acc[1], v];
  }

  lemma PackSnoc3(acc: seq<Sextet>, v: Sextet)
    requires |acc| == 3
    ensures Pack(acc + [v]) == Pack(acc) + Completed(acc, v)
  {
    var next := [acc[0], acc[1], acc[2], v];
    assert acc + [v] == next;
    PackFront(next);
    assert next[4..] == [];
  }

  lemma CompletedShift(acc: seq<Sextet>, v: Sextet)
    requires |acc| >= 4
    ensures Completed(acc, v) == Completed(acc[4..], v)
  {
    if |acc| > 4 {
      assert acc[4..][|acc| - 5] == acc[|acc| - 1];
    }
  }

  /** Packing one more value adds the byte it completes, if any. */
  lemma {:induction false} PackSnoc(acc: seq<Sextet>, v: Sextet)
    ensures Pack(acc + [v]) == Pack(acc) + Completed(acc, v)
    decreases |acc|
  {
    if |acc| == 0 {
      PackSnoc0(acc, v);
    } else if |acc| == 1 {
      PackSnoc1(acc, v);
    } else if |acc| == 2 {
      PackSnoc2(acc, v);
    } else if |acc| == 3 {
      PackSnoc3(acc, v);
    } else {
      var next := acc + [v];
      PackFront(acc);
      PackFront(next);
      assert next[4..] == acc[4..] + [v];
      assert next[..4] == acc[..4];
      PackSnoc(acc[4..], v);
      CompletedShift(acc, v);
    }
  }

  lemma StepFrom6(buffer: bv32, s0: Sextet, v: Sextet)
    requires buffer & 0x3f == s0 as bv32
    ensures var nb := (buffer << 6) | v as bv32;
      ((nb >> 4) & 0xff) as bv8 == Byte0(s0, v) && nb & 0x0f == (v & 0x0f) as bv32
  {
  }

  lemma StepFrom4(buffer: bv32, s1: Sextet, v: Sextet)
    requires buffer & 0x0f == (s1 & 0x0f) as bv32
    ensures var nb := (buffer << 6) | v as bv32;
      ((nb >> 2) & 0xff) as bv8 == Byte1(s1, v) && nb & 0x03 == (v & 0x03) as bv32
  {
  }

  lemma StepFrom2(buffer: bv32, s2: Sextet, v: Sextet)
    requires buffer & 0x03 == (s2 & 0x03) as bv32
    ensures var nb := (buffer << 6) | v as bv32;
      (nb & 0xff) as bv8 == Byte2(s2, v)
  {
  }

  lemma StepFrom0(buffer: bv32, v: Sextet)
    ensures ((buffer << 6) | v as bv32) & 0x3f == v as bv32
  {
  }

  /** The byte the decoder loops push when `bits` reaches 8 or more: `(buffer >> bits) as u8`. */
  function Emitted(buffer: bv32, bits: nat): Byte
    requires bits < 32
  {
    ((buffer >> bits) & 0xff) as bv8
  }

  /** Emitted at the three shift amounts the decoder loops use. */
  lemma EmittedAt(nb: bv32)
    ensures Emitted(nb, 4) == ((nb >> 4) & 0xff) as bv8
    ensures Emitted(nb, 2) == ((nb >> 2) & 0xff) as bv8
    ensures Emitted(nb, 0) == (nb & 0xff) as bv8
  {
  }

  lemma Pending1(buffer: bv32, acc: seq<Sextet>, v: Sextet)
    requires |acc| % 4 == 1 && Pending(buffer, 6, acc)
    ensures Pending((buffer << 6) | v as bv32, 4, acc + [v])
  {
    assert (acc + [v])[|acc|] == v;
    StepFrom6(buffer, acc[|acc| - 1], v);
  }

  lemma Pending2(buffer: bv32, acc: seq<Sextet>, v: Sextet)
    requires |acc| % 4 == 2 && Pending(buffer, 4, acc)
    ensures Pending((buffer << 6) | v as bv32, 2, acc + [v])
  {
    assert (acc + [v])[|acc|] == v;
    StepFrom4(buffer, acc[|acc| - 1], v);
  }

  lemma Pending0(buffer: bv32, acc: seq<Sextet>, v: Sextet)
    requires |acc| % 4 == 0 && Pending(buffer, 0, acc)
    ensures Pending((buffer << 6) | v as bv32, 6, acc + [v])
  {
    assert (acc + [v])[|acc|] == v;
    StepFrom0(buffer, v);
  }

  lemma Packed1(buffer: bv32, acc: seq<Sextet>, v: Sextet)
    requires |acc| % 4 == 1 && Pending(buffer, 6, acc)
    ensures Pack(acc + [v]) == Pack(acc) + [((((buffer << 6) | v as bv32) >> 4) & 0xff) as bv8]
  {
    PackSnoc(acc, v);
    StepFrom6(buffer, acc[|acc| - 1], v);
  }

  lemma Packed2(buffer: bv32, acc: seq<Sextet>, v: Sextet)
    requires |acc| % 4 == 2 && Pending(buffer, 4, acc)
    ensures Pack(acc + [v]) == Pack(acc) + [((((buffer << 6) | v as bv32) >> 2) & 0xff) as bv8]
  {
    PackSnoc(acc, v);
    StepFrom4(buffer, acc[|acc| - 1], v);
  }

  lemma Packed3(buffer: bv32, acc: seq<Sextet>, v: Sextet)
    requires |acc| % 4 == 3 && Pending(buffer, 2, acc)
    ensures Pack(acc + [v]) == Pack(acc) + [(((buffer << 6) | v as bv32) & 0xff) as bv8]
  {
    PackSnoc(acc, v);
    StepFrom2(buffer, acc[|acc| - 1], v);
  }

  lemma Packed0(acc: seq<Sextet>, v: Sextet)
    requires |acc| % 4 == 0
    ensures Pack(acc + [v]) == Pack(acc)
  {
    PackSnoc(acc, v);
  }

  /**
   * One step of the decoder loops on 32-bit wrapping arithmetic: the new
   * value is shifted into the low end of the buffer and six more bits are
   * pending; once eight or more are, the eight just above the rest are
   * emitted. The step keeps the state invariant and pushes exactly the byte
   * that packing adds.
   */
  lemma AccumulateStep(buffer: bv32, bits: nat, acc: seq<Sextet>, v: Sextet)
    requires Pending(buffer, bits, acc)
    ensures var nb := (buffer << 6) | v as bv32;
      if bits + 6 >= 8 then
        && Pending(nb, bits + 6 - 8, acc + [v])
        && Pack(acc + [v]) == Pack(acc) + [Emitted(nb, bits + 6 - 8)]
      else
        && Pending(nb, bits + 6, acc + [v])
        && Pack(acc + [v]) == Pack(acc)
  {
    EmittedAt((buffer << 6) | v as bv32);
    if |acc| % 4 == 1 {
      Pending1(buffer, acc, v);
      Packed1(buffer, acc, v);
    } else if |acc| % 4 == 2 {
      Pending2(buffer, acc, v);
      Packed2(buffer, acc, v);
    } else if |acc| % 4 == 3 {
      assert Pending((buffer << 6) | v as bv32, 0, acc + [v]);
      Packed3(buffer, acc, v);
    } else {
      Pending0(buffer, acc, v);
      Packed0(acc, v);
    }
  }

  /**
   * One accepted character in the decoder loops: shift its 6 bits into the
   * 32-bit buffer and, once 8 or more bits are pending, push the top byte.
   */
  method Accumulate(buffer: bv32, bits: nat, result: seq<Byte>, ghost read: seq<Sextet>, value: Sextet)
    returns (buffer': bv32, bits': nat, result': seq<Byte>)
    requires result == Pack(read) && Pending(buffer, bits, read)
    ensures result' == Pack(read + [value]) && Pending(buffer', bits', read + [value])
  {
    AccumulateStep(buffer, bits, read, value);
    buffer' := (buffer << 6) | value as bv32;
    bits' := bits + 6;
    result' := result;
    if bits' >= 8 {
      bits' := bits' - 8;
      result' := result' + [Emitted(buffer', bits')];
    }
  }
}
