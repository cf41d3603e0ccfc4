/** Base 64 encoding as defined in section 4 of RFC 4648 (the standard
    alphabet, with '=' padding), which is what Node's
    `buffer.toString('base64')` produces, together with its decoding. */
module Base64 {

  import opened Wrappers

  newtype byte = x: int | 0 <= x < 256

  /** A 6-bit group: the value one base 64 character stands for. */
  type Sextet = x: int | 0 <= x < 64

  /** The character for a 6-bit value (Table 1 of RFC 4648): 'A'..'Z' for
      0..25, 'a'..'z' for 26..51, '0'..'9' for 52..61, '+' and '/'. */
  function Char(v: Sextet): (c: char)
    ensures c != '='
  {
    if v < 26 then ('A' as int + v) as char
    else if v < 52 then ('a' as int + v - 26) as char
    else if v < 62 then ('0' as int + v - 52) as char
    else if v == 62 then '+'
    else '/'
  }

  /** The 6-bit value of an alphabet character; None for any other. */
  function Value(c: char): (v: Option<Sextet>)
    ensures v.Some? ==> Char(v.value) == c
  {
    if 'A' <= c <= 'Z' then Some(c as int - 'A' as int)
    else if 'a' <= c <= 'z' then Some(c as int - 'a' as int + 26)
    else if '0' <= c <= '9' then Some(c as int - '0' as int + 52)
    else if c == '+' then Some(62)
    else if c == '/' then Some(63)
    else None
  }

  /** Every 6-bit value has exactly one character. */
  lemma ValueOfChar(v: Sextet)
    ensures Value(Char(v)) == Some(v)
  {
  }

  /** The four characters for three bytes: their 24 bits in four groups of
      six, most significant first. */
  function Quantum(b0: byte, b1: byte, b2: byte): string
  {
    var x0, x1, x2 := b0 as int, b1 as int, b2 as int;
    [Char(x0 / 4), Char(x0 % 4 * 16 + x1 / 16), Char(x1 % 16 * 4 + x2 / 64), Char(x2 % 64)]
  }

  /** Base 64 text of `data`: one quantum per three bytes, and a final
      quantum padded with "==" for one left-over byte or "=" for two. */
  function Encode(data: seq<byte>): (s: string)
    ensures |s| == 4 * ((|data| + 2) / 3)
    decreases |data|
  {
    if |data| == 0 then ""
    else if |data| == 1 then
      var x0 := data[0] as int;
      [Char(x0 / 4), Char(x0 % 4 * 16), '=', '=']
    else if |data| == 2 then
      var x0, x1 := data[0] as int, data[1] as int;
      [Char(x0 / 4), Char(x0 % 4 * 16 + x1 / 16), Char(x1 % 16 * 4), '=']
    else
      QuantumCount(|data|);
      Quantum(data[0], data[1], data[2]) + Encode(data[3..])
  }

  /** Three bytes more make one quantum more. */
  lemma QuantumCount(n: nat)
    requires n >= 3
    ensures (n + 2) / 3 == (n - 3 + 2) / 3 + 1
  {
  }

  /** The three bytes whose 24 bits four 6-bit groups spell. */
  function Byte0(v0: Sextet, v1: Sextet): byte
  {
    (v0 as int * 4 + v1 as int / 16) as byte
  }

  function Byte1(v1: Sextet, v2: Sextet): byte
  {
    (v1 as int % 16 * 16 + v2 as int / 4) as byte
  }

  function Byte2(v2: Sextet, v3: Sextet): byte
  {
    (v2 as int % 4 * 64 + v3 as int) as byte
  }

  /** The bytes of one four-character group; padding is accepted only in
      the last group. */
  function DecodeQuantum(q: string, last: bool): (r: Option<seq<byte>>)
    requires |q| == 4
    ensures r.Some? ==> 1 <= |r.value| <= 3
  {
    match (Value(q[0]), Value(q[1]), Value(q[2]), Value(q[3]))
    case (Some(v0), Some(v1), Some(v2), Some(v3)) =>
      Some([Byte0(v0, v1), Byte1(v1, v2), Byte2(v2, v3)])
    case (Some(v0), Some(v1), Some(v2), None) =>
      if last && q[3] == '=' then Some([Byte0(v0, v1), Byte1(v1, v2)]) else None
    case (Some(v0), Some(v1), None, None) =>
      if last && q[2] == '=' && q[3] == '=' then Some([Byte0(v0, v1)]) else None
    case _ => None
  }

  /** The bytes a base 64 text stands for; None when it is not base 64. */
  function Decode(s: string): Option<seq<byte>>
    decreases |s|
  {
    if s == [] then Some([])
    else if |s| < 4 then None
    else
      match DecodeQuantum(s[..4], |s| == 4)
      case None => None
      case Some(head) =>
        match Decode(s[4..])
        case None => None
        case Some(tail) => Some(head + tail)
  }

  /** The 6-bit groups of two bytes give back the first byte. */
  lemma Byte0Of(b0: byte, b1: byte)
    ensures Byte0(b0 as int / 4, b0 as int % 4 * 16 + b1 as int / 16) == b0
  {
    var x0, x1 := b0 as int, b1 as int;
    var hi, lo := x0 % 4, x1 / 16;
    assert 0 <= lo < 16;
    assert (hi * 16 + lo) / 16 == hi;
  }

  /** ... the middle byte of three. */
  lemma Byte1Of(b0: byte, b1: byte, b2: byte)
    ensures Byte1(b0 as int % 4 * 16 + b1 as int / 16, b1 as int % 16 * 4 + b2 as int / 64) == b1
  {
    var x0, x1, x2 := b0 as int, b1 as int, b2 as int;
    var y1, y2 := x0 % 4 * 16 + x1 / 16, x1 % 16 * 4 + x2 / 64;
    assert 0 <= x1 / 16 < 16 && 0 <= x2 / 64 < 4;
    assert y1 % 16 == x1 / 16;
    assert y2 / 4 == x1 % 16;
  }

  /** ... the last byte of three. */
  lemma Byte2Of(b1: byte, b2: byte)
    ensures Byte2(b1 as int % 16 * 4 + b2 as int / 64, b2 as int % 64) == b2
  {
    var x1, x2 := b1 as int, b2 as int;
    assert 0 <= x2 / 64 < 4;
    assert (x1 % 16 * 4 + x2 / 64) % 4 == x2 / 64;
  }

  /** One quantum decodes to the three bytes it encodes. */
  lemma DecodeOfQuantum(b0: byte, b1: byte, b2: byte, last: bool)
    ensures DecodeQuantum(Quantum(b0, b1, b2), last) == Some([b0, b1, b2])
  {
    var x0, x1, x2 := b0 as int, b1 as int, b2 as int;
    ValueOfChar(x0 / 4);
    ValueOfChar(x0 % 4 * 16 + x1 / 16);
    ValueOfChar(x1 % 16 * 4 + x2 / 64);
    ValueOfChar(x2 % 64);
    Byte0Of(b0, b1);
    Byte1Of(b0, b1, b2);
    Byte2Of(b1, b2);
  }

  /** A single left-over byte comes back from its "xy==" group. */
  lemma DecodeOfOne(b0: byte)
    ensures Decode(Encode([b0])) == Some([b0])
  {
    var x0 := b0 as int;
    var s := Encode([b0]);
    ValueOfChar(x0 / 4);
    ValueOfChar(x0 % 4 * 16);
    Byte0Of(b0, 0);
    assert DecodeQuantum(s, true) == Some([b0]);
    assert s[..4] == s && s[4..] == [];
    assert Decode(s[4..]) == Some([]);
    assert [b0] + [] == [b0];
  }

  /** Two left-over bytes come back from their "xyz=" group. */
  lemma DecodeOfTwo(b0: byte, b1: byte)
    ensures Decode(Encode([b0, b1])) == Some([b0, b1])
  {
    var x0, x1 := b0 as int, b1 as int;
    var s := Encode([b0, b1]);
    ValueOfChar(x0 / 4);
    ValueOfChar(x0 % 4 * 16 + x1 / 16);
    ValueOfChar(x1 % 16 * 4);
    Byte0Of(b0, b1);
    Byte1Of(b0, b1, 0);
    assert DecodeQuantum(s, true) == Some([b0, b1]);
    assert s[..4] == s && s[4..] == [];
    assert Decode(s[4..]) == Some([]);
    assert [b0, b1] + [] == [b0, b1];
  }

  /** A text that starts with a decodable group decodes to that group's
      bytes followed by the rest's. */
  lemma DecodeCons(q: string, rest: string, head: seq<byte>, tail: seq<byte>)
    requires |q| == 4
    requires DecodeQuantum(q, rest == []) == Some(head)
    requires Decode(rest) == Some(tail)
    ensures Decode(q + rest) == Some(head + tail)
  {
    var s := q + rest;
    assert s[..4] == q;
    assert s[4..] == rest;
  }

  /** Decoding undoes encoding: the payload of a data URI gives back the
      file's bytes. */
  lemma {:induction false} DecodeEncode(data: seq<byte>)
    ensures Decode(Encode(data)) == Some(data)
    decreases |data|
  {
    if |data| == 1 {
      assert data == [data[0]];
      DecodeOfOne(data[0]);
    } else if |data| == 2 {
      assert data == [data[0], data[1]];
      DecodeOfTwo(data[0], data[1]);
    } else if |data| >= 3 {
      DecodeEncode(data[3..]);
      DecodeEncodeStep(data);
    }
  }

  /** Three bytes in front add one quantum in front. */
  lemma EncodeFront(data: seq<byte>)
    requires |data| >= 3
    ensures Encode(data) == Quantum(data[0], data[1], data[2]) + Encode(data[3..])
  {
    assert |data| != 0 && |data| != 1 && |data| != 2;
  }

  /** The inductive step: a full quantum in front of an encoding that
      decodes. */
  lemma DecodeEncodeStep(data: seq<byte>)
    requires |data| >= 3
    requires Decode(Encode(data[3..])) == Some(data[3..])
    ensures Decode(Encode(data)) == Some(data)
  {
    var back := data[3..];
    var head := [data[0], data[1], data[2]];
    var q := Quantum(data[0], data[1], data[2]);
    var rest := Encode(back);
    assert Encode(data) == q + rest by {
      EncodeFront(data);
    }
    assert DecodeQuantum(q, rest == []) == Some(head) by {
      DecodeOfQuantum(data[0], data[1], data[2], rest == []);
    }
    assert Decode(q + rest) == Some(head + back) by {
      DecodeCons(q, rest, head, back);
    }
    FrontAndBack(data);
  }

  /** A sequence of three or more is its first three elements followed by
      the rest. */
  lemma FrontAndBack(data: seq<byte>)
    requires |data| >= 3
    ensures data == [data[0], data[1], data[2]] + data[3..]
  {
    assert data[..3] == [data[0], data[1], data[2]];
    assert data == data[..3] + data[3..];
  }

  /** The characters an encoding may contain: the alphabet and the pad. */
  predicate InAlphabet(c: char)
  {
    c == '=' || Value(c).Some?
  }

  /** Every character of an encoding is an alphabet character or '='. */
  lemma {:induction false} EncodeAlphabet(data: seq<byte>)
    ensures forall i :: 0 <= i < |Encode(data)| ==> InAlphabet(Encode(data)[i])
    decreases |data|
  {
    var s := Encode(data);
    if |data| < 3 {
      FinalAlphabet(data);
    } else {
      var q := Quantum(data[0], data[1], data[2]);
      var rest := Encode(data[3..]);
      assert s == q + rest by {
        EncodeFront(data);
      }
      QuantumAlphabet(data[0], data[1], data[2]);
      EncodeAlphabet(data[3..]);
      forall i | 0 <= i < |s| ensures InAlphabet(s[i]) {
        if i < |q| {
          assert s[i] == q[i];
        } else {
          assert s[i] == rest[i - |q|];
        }
      }
    }
  }

  /** The padded final quantum is spelt in the alphabet and the pad. */
  lemma FinalAlphabet(data: seq<byte>)
    requires |data| < 3
    ensures forall i :: 0 <= i < |Encode(data)| ==> InAlphabet(Encode(data)[i])
  {
    if |data| == 1 {
      var x0 := data[0] as int;
      ValueOfChar(x0 / 4);
      ValueOfChar(x0 % 4 * 16);
    } else if |data| == 2 {
      var x0, x1 := data[0] as int, data[1] as int;
      ValueOfChar(x0 / 4);
      ValueOfChar(x0 % 4 * 16 + x1 / 16);
      ValueOfChar(x1 % 16 * 4);
    }
  }

  /** A full quantum is spelt in the alphabet. */
  lemma QuantumAlphabet(b0: byte, b1: byte, b2: byte)
    ensures forall i :: 0 <= i < |Quantum(b0, b1, b2)| ==> InAlphabet(Quantum(b0, b1, b2)[i])
  {
    var x0, x1, x2 := b0 as int, b1 as int, b2 as int;
    ValueOfChar(x0 / 4);
    ValueOfChar(x0 % 4 * 16 + x1 / 16);
    ValueOfChar(x1 % 16 * 4 + x2 / 64);
    ValueOfChar(x2 % 64);
  }
}
