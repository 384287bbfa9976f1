/** Base64 text to bytes as Python's `base64.b64decode(text)` does it with
    its default, non-validating settings: the text must be ASCII; every
    character outside the alphabet of section 4 of RFC 4648 is skipped;
    a pad sequence `=` that completes a quantum ends decoding; and a
    leftover partial quantum is an "Incorrect padding" error. The encoder
    of RFC 4648 section 4 is the decoder's partner: decoding its output
    gives the bytes back. */
module Base64 {
  import opened Wrappers

  type Byte = b: int | 0 <= b < 256

  /** The 6-bit value of an alphabet character, `None` for any other. */
  function SextetOf(c: char): (v: Option<int>)
    ensures v.Some? ==> 0 <= v.value < 64
  {
    if 'A' <= c <= 'Z' then Some(c as int - 'A' as int)
    else if 'a' <= c <= 'z' then Some(c as int - 'a' as int + 26)
    else if '0' <= c <= '9' then Some(c as int - '0' as int + 52)
    else if c == '+' then Some(62)
    else if c == '/' then Some(63)
    else None
  }

  /** The alphabet character for a 6-bit value. */
  function AlphabetChar(v: int): (c: char)
    requires 0 <= v < 64
    ensures SextetOf(c) == Some(v) && c != '=' && (c as int) < 128
  {
    if v < 26 then ('A' as int + v) as char
    else if v < 52 then ('a' as int + v - 26) as char
    else if v < 62 then ('0' as int + v - 52) as char
    else if v == 62 then '+'
    else '/'
  }

  /** The decoder's position within the current 4-character quantum, the
      bits carried over from the previous character, the number of `=`
      seen since the last data character, and the bytes produced so far. */
  datatype DecodeState = DecodeState(quad: int, left: int, pads: int, out: seq<Byte>)

  predicate Valid(st: DecodeState) {
    && 0 <= st.quad < 4 && 0 <= st.left && 0 <= st.pads
    && (st.quad == 1 ==> st.left < 64)
    && (st.quad == 2 ==> st.left < 16)
    && (st.quad == 3 ==> st.left < 4)
  }

  const Start := DecodeState(0, 0, 0, [])

  /** Consumes one data character of value `v`. */
  function Feed(st: DecodeState, v: int): (r: DecodeState)
    requires Valid(st) && 0 <= v < 64
    ensures Valid(r) && r.pads == 0
  {
    match st.quad
    case 0 => DecodeState(1, v, 0, st.out)
    case 1 => DecodeState(2, v % 16, 0, st.out + [st.left * 4 + v / 16])
    case 2 => DecodeState(3, v % 4, 0, st.out + [st.left * 16 + v / 4])
    case 3 => DecodeState(0, 0, 0, st.out + [st.left * 64 + v])
  }

  /** Counts one more `=`. */
  function MorePads(st: DecodeState): (r: DecodeState)
    requires Valid(st)
    ensures Valid(r)
  {
    DecodeState(st.quad, st.left, st.pads + 1, st.out)
  }

  /** Runs the decoder over the rest of the text. The bytes decoded so
      far are kept, and each character adds at most one byte. */
  function Run(s: string, st: DecodeState): (r: Option<seq<Byte>>)
    requires Valid(st)
    ensures r.Some? ==> st.out <= r.value && |r.value| <= |st.out| + |s|
  {
    if |s| == 0 then
      if st.quad != 0 then None else Some(st.out)
    else if s[0] == '=' then
      if st.quad >= 2 && st.quad + st.pads + 1 >= 4 then Some(st.out)
      else Run(s[1..], if st.quad >= 2 then MorePads(st) else st)
    else
      match SextetOf(s[0])
      case None => Run(s[1..], st)
      case Some(v) => Run(s[1..], Feed(st, v))
  }

  predicate IsAscii(s: string) {
    forall i :: 0 <= i < |s| ==> (s[i] as int) < 128
  }

  /** `base64.b64decode(text)`: `None` where it raises. Only ASCII text
      decodes, and never to more bytes than it has characters. */
  function Decode(text: string): (r: Option<seq<Byte>>)
    ensures r.Some? ==> IsAscii(text) && |r.value| <= |text|
  {
    if IsAscii(text) then Run(text, Start) else None
  }

  /** The four characters encoding three bytes. */
  function Quantum(b0: Byte, b1: Byte, b2: Byte): string {
    [AlphabetChar(b0 / 4), AlphabetChar((b0 % 4) * 16 + b1 / 16),
     AlphabetChar((b1 % 16) * 4 + b2 / 64), AlphabetChar(b2 % 64)]
  }

  /** Base64 encoding with padding, section 4 of RFC 4648. */
  function Encode(b: seq<Byte>): (s: string)
    ensures |s| == (|b| + 2) / 3 * 4
    ensures IsAscii(s)
  {
    if |b| == 0 then ""
    else if |b| == 1 then
      [AlphabetChar(b[0] / 4), AlphabetChar((b[0] % 4) * 16), '=', '=']
    else if |b| == 2 then
      [AlphabetChar(b[0] / 4), AlphabetChar((b[0] % 4) * 16 + b[1] / 16),
       AlphabetChar((b[1] % 16) * 4), '=']
    else
      var q, e := Quantum(b[0], b[1], b[2]), Encode(b[3..]);
      assert (|b| + 2) / 3 == (|b[3..]| + 2) / 3 + 1;
      AsciiConcat(q, e);
      q + e
  }

  lemma AsciiConcat(a: string, b: string)
    requires IsAscii(a) && IsAscii(b)
    ensures IsAscii(a + b)
  {
    forall i | 0 <= i < |a + b| ensures ((a + b)[i] as int) < 128 {
      if i >= |a| {
        assert (a + b)[i] == b[i - |a|];
      }
    }
  }

  lemma RunData(c: char, rest: string, st: DecodeState)
    requires Valid(st) && c != '=' && SextetOf(c).Some?
    ensures Run([c] + rest, st) == Run(rest, Feed(st, SextetOf(c).value))
  {
    assert ([c] + rest)[1..] == rest;
  }

  lemma RunPad(rest: string, st: DecodeState)
    requires Valid(st)
    ensures Run(['='] + rest, st) ==
      if st.quad >= 2 && st.quad + st.pads + 1 >= 4 then Some(st.out)
      else Run(rest, if st.quad >= 2 then MorePads(st) else st)
  {
    assert (['='] + rest)[1..] == rest;
  }

  /** The bit arithmetic of one quantum: the sextets put back together
      give the three bytes. */
  lemma QuantumArithmetic(b0: Byte, b1: Byte, b2: Byte)
    ensures (b0 / 4) * 4 + ((b0 % 4) * 16 + b1 / 16) / 16 == b0
    ensures (((b0 % 4) * 16 + b1 / 16) % 16) * 16 + ((b1 % 16) * 4 + b2 / 64) / 4 == b1
    ensures (((b1 % 16) * 4 + b2 / 64) % 4) * 64 + b2 % 64 == b2
  {
  }

  /** Feeding the four sextets of a quantum completes three bytes. */
  lemma FeedQuantum(b0: Byte, b1: Byte, b2: Byte, st: DecodeState)
    requires Valid(st) && st.quad == 0
    ensures var c1, c2 := (b0 % 4) * 16 + b1 / 16, (b1 % 16) * 4 + b2 / 64;
      Feed(Feed(Feed(Feed(st, b0 / 4), c1), c2), b2 % 64) == DecodeState(0, 0, 0, st.out + [b0, b1, b2])
  {
    QuantumArithmetic(b0, b1, b2);
  }

  /** Four data characters feed their four values. */
  lemma RunFour(c0: char, c1: char, c2: char, c3: char, v0: int, v1: int, v2: int, v3: int,
                rest: string, st: DecodeState)
    requires Valid(st) && st.quad == 0
    requires c0 != '=' && SextetOf(c0) == Some(v0) && c1 != '=' && SextetOf(c1) == Some(v1)
    requires c2 != '=' && SextetOf(c2) == Some(v2) && c3 != '=' && SextetOf(c3) == Some(v3)
    ensures Run([c0, c1, c2, c3] + rest, st) == Run(rest, Feed(Feed(Feed(Feed(st, v0), v1), v2), v3))
  {
    var s1 := Feed(st, v0);
    var s2 := Feed(s1, v1);
    var s3 := Feed(s2, v2);
    assert [c0, c1, c2, c3] + rest == [c0] + ([c1] + ([c2] + ([c3] + rest)));
    RunData(c0, [c1] + ([c2] + ([c3] + rest)), st);
    RunData(c1, [c2] + ([c3] + rest), s1);
    RunData(c2, [c3] + rest, s2);
    RunData(c3, rest, s3);
  }

  lemma QuantumDecodes(b0: Byte, b1: Byte, b2: Byte, rest: string, st: DecodeState)
    requires Valid(st) && st.quad == 0
    ensures Run(Quantum(b0, b1, b2) + rest, st) == Run(rest, DecodeState(0, 0, 0, st.out + [b0, b1, b2]))
  {
    var v0, v1, v2, v3 := b0 / 4, (b0 % 4) * 16 + b1 / 16, (b1 % 16) * 4 + b2 / 64, b2 % 64;
    RunFour(AlphabetChar(v0), AlphabetChar(v1), AlphabetChar(v2), AlphabetChar(v3), v0, v1, v2, v3, rest, st);
    FeedQuantum(b0, b1, b2, st);
  }

  lemma PadPairEnds(st: DecodeState)
    requires Valid(st) && st.quad == 2 && st.pads == 0
    ensures Run(['='] + ['='], st) == Some(st.out)
  {
    var one: string := ['='];
    RunPad(one, st);
    assert one == ['='] + [];
    RunPad([], MorePads(st));
  }

  /** Two data characters and two pads end the text after one byte. */
  lemma RunTwoPads(c0: char, c1: char, v0: int, v1: int, st: DecodeState)
    requires Valid(st) && st.quad == 0
    requires c0 != '=' && SextetOf(c0) == Some(v0) && c1 != '=' && SextetOf(c1) == Some(v1)
    ensures Run([c0, c1, '=', '='], st) == Some(Feed(Feed(st, v0), v1).out)
  {
    var s1 := Feed(st, v0);
    assert [c0, c1, '=', '='] == [c0] + [c1, '=', '='];
    RunData(c0, [c1, '=', '='], st);
    assert [c1, '=', '='] == [c1] + (['='] + ['=']);
    RunData(c1, ['='] + ['='], s1);
    PadPairEnds(Feed(s1, v1));
  }

  /** Three data characters and one pad end the text after two bytes. */
  lemma RunOnePad(c0: char, c1: char, c2: char, v0: int, v1: int, v2: int, st: DecodeState)
    requires Valid(st) && st.quad == 0
    requires c0 != '=' && SextetOf(c0) == Some(v0) && c1 != '=' && SextetOf(c1) == Some(v1)
    requires c2 != '=' && SextetOf(c2) == Some(v2)
    ensures Run([c0, c1, c2, '='], st) == Some(Feed(Feed(Feed(st, v0), v1), v2).out)
  {
    var s1 := Feed(st, v0);
    var s2 := Feed(s1, v1);
    var pad: string := ['='];
    assert [c0, c1, c2, '='] == [c0] + ([c1] + ([c2] + pad));
    RunData(c0, [c1] + ([c2] + pad), st);
    RunData(c1, [c2] + pad, s1);
    RunData(c2, pad, s2);
    assert pad == ['='] + [];
    RunPad([], Feed(s2, v2));
  }

  lemma OneByteDecodes(b: seq<Byte>, out: seq<Byte>)
    requires |b| == 1
    ensures Run(Encode(b), DecodeState(0, 0, 0, out)) == Some(out + b)
  {
    var st := DecodeState(0, 0, 0, out);
    var v0, v1 := b[0] / 4, (b[0] % 4) * 16;
    assert Encode(b) == [AlphabetChar(v0), AlphabetChar(v1), '=', '='];
    RunTwoPads(AlphabetChar(v0), AlphabetChar(v1), v0, v1, st);
    FeedOne(b[0], st);
    assert b == [b[0]];
  }

  /** Feeding the two sextets of a final single byte completes it. */
  lemma FeedOne(b0: Byte, st: DecodeState)
    requires Valid(st) && st.quad == 0
    ensures Feed(Feed(st, b0 / 4), (b0 % 4) * 16).out == st.out + [b0]
  {
    assert ((b0 % 4) * 16) / 16 == b0 % 4;
  }

  /** Feeding the three sextets of a final byte pair completes both. */
  lemma FeedTwo(b0: Byte, b1: Byte, st: DecodeState)
    requires Valid(st) && st.quad == 0
    ensures Feed(Feed(Feed(st, b0 / 4), (b0 % 4) * 16 + b1 / 16), (b1 % 16) * 4).out == st.out + [b0, b1]
  {
    QuantumArithmetic(b0, b1, 0);
  }

  lemma TwoBytesDecode(b: seq<Byte>, out: seq<Byte>)
    requires |b| == 2
    ensures Run(Encode(b), DecodeState(0, 0, 0, out)) == Some(out + b)
  {
    var st := DecodeState(0, 0, 0, out);
    var v0, v1, v2 := b[0] / 4, (b[0] % 4) * 16 + b[1] / 16, (b[1] % 16) * 4;
    assert Encode(b) == [AlphabetChar(v0), AlphabetChar(v1), AlphabetChar(v2), '='];
    RunOnePad(AlphabetChar(v0), AlphabetChar(v1), AlphabetChar(v2), v0, v1, v2, st);
    FeedTwo(b[0], b[1], st);
    assert b == [b[0], b[1]];
  }

  /** Decoding the encoding of `b` appends `b` to what was decoded before. */
  lemma {:induction false} RunEncode(b: seq<Byte>, out: seq<Byte>)
    ensures Run(Encode(b), DecodeState(0, 0, 0, out)) == Some(out + b)
    decreases |b|
  {
    if |b| == 0 {
      assert out + b == out;
    } else if |b| == 1 {
      OneByteDecodes(b, out);
    } else if |b| == 2 {
      TwoBytesDecode(b, out);
    } else {
      RunQuantum(b, out);
      RunEncode(b[3..], out + [b[0], b[1], b[2]]);
      assert out + [b[0], b[1], b[2]] + b[3..] == out + b;
    }
  }

  /** Decoding a leading quantum appends its three bytes, and the rest of
      the run goes on from there. */
  lemma RunQuantum(b: seq<Byte>, out: seq<Byte>)
    requires |b| >= 3
    ensures Run(Encode(b), DecodeState(0, 0, 0, out))
            == Run(Encode(b[3..]), DecodeState(0, 0, 0, out + [b[0], b[1], b[2]]))
  {
    EncodeQuantum(b);
    QuantumDecodes(b[0], b[1], b[2], Encode(b[3..]), DecodeState(0, 0, 0, out));
  }

  /** Three or more bytes encode as the quantum of the first three and the
      encoding of the rest. */
  lemma EncodeQuantum(b: seq<Byte>)
    requires |b| >= 3
    ensures Encode(b) == Quantum(b[0], b[1], b[2]) + Encode(b[3..])
  {
  }

  /** Every byte string survives an encode/decode round trip. */
  lemma DecodeEncode(b: seq<Byte>)
    ensures Decode(Encode(b)) == Some(b)
  {
    RunEncode(b, []);
    assert [] + b == b;
  }

  /** A character that is neither in the alphabet nor `=` is ignored. */
  lemma {:induction false} RunSkipsForeign(a: string, c: char, b: string, st: DecodeState)
    requires Valid(st) && c != '=' && SextetOf(c).None?
    ensures Run(a + [c] + b, st) == Run(a + b, st)
    decreases |a|
  {
    if |a| == 0 {
      assert (a + [c] + b)[1..] == b && a + b == b;
    } else {
      assert (a + [c] + b)[1..] == a[1..] + [c] + b;
      assert (a + b)[1..] == a[1..] + b;
      assert (a + [c] + b)[0] == (a + b)[0] == a[0];
      if a[0] == '=' {
        if !(st.quad >= 2 && st.quad + st.pads + 1 >= 4) {
          RunSkipsForeign(a[1..], c, b, if st.quad >= 2 then st.(pads := st.pads + 1) else st);
        }
      } else if SextetOf(a[0]).None? {
        RunSkipsForeign(a[1..], c, b, st);
      } else {
        RunSkipsForeign(a[1..], c, b, Feed(st, SextetOf(a[0]).value));
      }
    }
  }

  /** Text that is not pure ASCII does not decode. */
  lemma DecodeRejectsNonAscii(text: string, i: int)
    requires 0 <= i < |text| && (text[i] as int) >= 128
    ensures Decode(text) == None
  {
  }
}
