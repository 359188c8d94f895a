/**
  Base64 as defined in section 4 of RFC 4648 (the encoding Python's
  `base64.b64encode` produces): every 3 input bytes become 4 characters of
  the 64-character alphabet, and a final group of 1 or 2 bytes is padded
  with `=` to 4 characters.
 */
module Base64 {
  import opened Outcomes

  type byte = x: int | 0 <= x < 256
  type sextet = x: int | 0 <= x < 64

  /**
    The character that encodes the 6-bit value `v` (Table 1 in section 4 of
    RFC 4648: A-Z, a-z, 0-9, then `+` and `/`).
   */
  function CharOf(v: sextet): char {
    if v < 26 then ('A' as int + v) as char
    else if v < 52 then ('a' as int + (v - 26)) as char
    else if v < 62 then ('0' as int + (v - 52)) as char
    else if v == 62 then '+'
    else '/'
  }

  /** The 6-bit value a character encodes, if it is in the alphabet. */
  function ValueOf(c: char): Option<sextet> {
    if 'A' <= c <= 'Z' then Some(c as int - 'A' as int)
    else if 'a' <= c <= 'z' then Some(c as int - 'a' as int + 26)
    else if '0' <= c <= '9' then Some(c as int - '0' as int + 52)
    else if c == '+' then Some(62)
    else if c == '/' then Some(63)
    else None
  }

  predicate InAlphabet(c: char) {
    ValueOf(c).Some?
  }

  /** `ValueOf` reads back what `CharOf` writes. */
  lemma CharOfMatchesTable(v: sextet)
    ensures ValueOf(CharOf(v)) == Some(v)
  {
  }

  /** Packing `lo` below `hi` in base `k` (16 or 4) and unpacking it again. */
  lemma Pack16(hi: nat, lo: nat)
    requires lo < 16
    ensures (hi * 16 + lo) / 16 == hi && (hi * 16 + lo) % 16 == lo
  {
  }

  lemma Pack4(hi: nat, lo: nat)
    requires lo < 4
    ensures (hi * 4 + lo) / 4 == hi && (hi * 4 + lo) % 4 == lo
  {
  }

  /** The bit arithmetic of one group undoes itself. */
  lemma GroupArithmetic(a: byte, b: byte, c: byte)
    ensures (a / 4) * 4 + ((a % 4) * 16 + b / 16) / 16 == a
    ensures (((a % 4) * 16 + b / 16) % 16) * 16 + ((b % 16) * 4 + c / 64) / 4 == b
    ensures (((b % 16) * 4 + c / 64) % 4) * 64 + c % 64 == c
  {
    Pack16(a % 4, b / 16);
    Pack4(b % 16, c / 64);
  }

  /** The four characters that encode the three bytes `a`, `b`, `c`. */
  function EncodeGroup(a: byte, b: byte, c: byte): (r: string)
    ensures |r| == 4 && forall i :: 0 <= i < 4 ==> InAlphabet(r[i])
  {
    CharOfMatchesTable(a / 4);
    CharOfMatchesTable((a % 4) * 16 + b / 16);
    CharOfMatchesTable((b % 16) * 4 + c / 64);
    CharOfMatchesTable(c % 64);
    [CharOf(a / 4), CharOf((a % 4) * 16 + b / 16), CharOf((b % 16) * 4 + c / 64), CharOf(c % 64)]
  }

  /** The last group for one leftover byte: two characters and two `=`. */
  function EncodeTail1(a: byte): (r: string)
    ensures |r| == 4 && InAlphabet(r[0]) && InAlphabet(r[1]) && r[2] == '=' && r[3] == '='
  {
    CharOfMatchesTable(a / 4);
    CharOfMatchesTable((a % 4) * 16);
    [CharOf(a / 4), CharOf((a % 4) * 16), '=', '=']
  }

  /** The last group for two leftover bytes: three characters and one `=`. */
  function EncodeTail2(a: byte, b: byte): (r: string)
    ensures |r| == 4 && InAlphabet(r[0]) && InAlphabet(r[1]) && InAlphabet(r[2]) && r[3] == '='
  {
    CharOfMatchesTable(a / 4);
    CharOfMatchesTable((a % 4) * 16 + b / 16);
    CharOfMatchesTable((b % 16) * 4);
    [CharOf(a / 4), CharOf((a % 4) * 16 + b / 16), CharOf((b % 16) * 4), '=']
  }

  /** Three more bytes take one more group of four characters. */
  lemma GroupsStep(n: nat)
    requires n >= 3
    ensures 4 * ((n + 2) / 3) == 4 + 4 * ((n - 3 + 2) / 3)
  {
  }

  /** `base64.b64encode(data)` as text. */
  function Encode(data: seq<byte>): (r: string)
    ensures |r| == 4 * ((|data| + 2) / 3)
    ensures forall i :: 0 <= i < |r| ==> InAlphabet(r[i]) || (r[i] == '=' && i >= |r| - 2)
    decreases |data|
  {
    if |data| == 0 then ""
    else if |data| == 1 then EncodeTail1(data[0])
    else if |data| == 2 then EncodeTail2(data[0], data[1])
    else
      var g, rest := EncodeGroup(data[0], data[1], data[2]), Encode(data[3..]);
      GroupsStep(|data|);
      assert forall i :: 4 <= i < |g + rest| ==> (g + rest)[i] == rest[i - 4];
      g + rest
  }

  /** Decodes one group of four characters; `last` allows `=` padding. */
  function DecodeGroup(q: string, last: bool): (r: Option<seq<byte>>)
    requires |q| == 4
    ensures r.Some? ==> 1 <= |r.value| <= 3
  {
    var v0, v1, v2, v3 := ValueOf(q[0]), ValueOf(q[1]), ValueOf(q[2]), ValueOf(q[3]);
    if v0.None? || v1.None? then None
    else
      var x0, x1 := v0.value as int, v1.value as int;
      if v2.Some? && v3.Some? then
        var x2, x3 := v2.value as int, v3.value as int;
        var g: seq<byte> := [x0 * 4 + x1 / 16, (x1 % 16) * 16 + x2 / 4, (x2 % 4) * 64 + x3];
        Some(g)
      else if v2.Some? && last && q[3] == '=' then
        var x2 := v2.value as int;
        var g: seq<byte> := [x0 * 4 + x1 / 16, (x1 % 16) * 16 + x2 / 4];
        Some(g)
      else if v2.None? && last && q[2] == '=' && q[3] == '=' then
        var g: seq<byte> := [x0 * 4 + x1 / 16];
        Some(g)
      else None
  }

  /** The inverse of `Encode`: `None` for text that is not Base64. */
  function Decode(s: string): (r: Option<seq<byte>>)
    decreases |s|
  {
    if |s| == 0 then Some([])
    else if |s| < 4 then None
    else if |s| == 4 then DecodeGroup(s, true)
    else
      match (DecodeGroup(s[..4], false), Decode(s[4..]))
      case (Some(g), Some(rest)) => Some(g + rest)
      case _ => None
  }

  /** A group of four alphabet characters decodes to the three bytes their values pack. */
  lemma DecodeFullGroup(q: string, last: bool, x0: sextet, x1: sextet, x2: sextet, x3: sextet)
    requires |q| == 4
    requires ValueOf(q[0]) == Some(x0) && ValueOf(q[1]) == Some(x1)
    requires ValueOf(q[2]) == Some(x2) && ValueOf(q[3]) == Some(x3)
    ensures DecodeGroup(q, last) == Some([x0 * 4 + x1 / 16, (x1 % 16) * 16 + x2 / 4, (x2 % 4) * 64 + x3])
  {
  }

  lemma GroupRoundTrip(a: byte, b: byte, c: byte, last: bool)
    ensures DecodeGroup(EncodeGroup(a, b, c), last) == Some([a, b, c])
  {
    var q := EncodeGroup(a, b, c);
    var x0, x1, x2, x3 := a / 4, (a % 4) * 16 + b / 16, (b % 16) * 4 + c / 64, c % 64;
    assert q == [CharOf(x0), CharOf(x1), CharOf(x2), CharOf(x3)];
    CharOfMatchesTable(x0);
    CharOfMatchesTable(x1);
    CharOfMatchesTable(x2);
    CharOfMatchesTable(x3);
    DecodeFullGroup(q, last, x0, x1, x2, x3);
    GroupArithmetic(a, b, c);
  }

  lemma TailOneRoundTrip(a: byte)
    ensures Decode(Encode([a])) == Some([a])
  {
    var q := Encode([a]);
    var c0, c1 := CharOf(a / 4), CharOf((a % 4) * 16);
    assert q == [c0, c1, '=', '='];
    CharOfMatchesTable(a / 4);
    CharOfMatchesTable((a % 4) * 16);
    Pack16(a % 4, 0);
    assert DecodeGroup(q, true) == Some([a]);
  }

  lemma TailTwoRoundTrip(a: byte, b: byte)
    ensures Decode(Encode([a, b])) == Some([a, b])
  {
    var q := Encode([a, b]);
    var c0, c1, c2 := CharOf(a / 4), CharOf((a % 4) * 16 + b / 16), CharOf((b % 16) * 4);
    assert q == [c0, c1, c2, '='];
    CharOfMatchesTable(a / 4);
    CharOfMatchesTable((a % 4) * 16 + b / 16);
    CharOfMatchesTable((b % 16) * 4);
    GroupArithmetic(a, b, 0);
    assert DecodeGroup(q, true) == Some([a, b]);
  }

  /** Decoding an encoding gives back the bytes. */
  lemma {:induction false} RoundTrip(data: seq<byte>)
    ensures Decode(Encode(data)) == Some(data)
    decreases |data|
  {
    if |data| == 1 {
      TailOneRoundTrip(data[0]);
      assert data == [data[0]];
    } else if |data| == 2 {
      TailTwoRoundTrip(data[0], data[1]);
      assert data == [data[0], data[1]];
    } else if |data| >= 3 {
      var g := EncodeGroup(data[0], data[1], data[2]);
      var rest := Encode(data[3..]);
      var s := g + rest;
      assert s[..4] == g;
      assert data == [data[0], data[1], data[2]] + data[3..];
      if |rest| > 0 {
        GroupRoundTrip(data[0], data[1], data[2], false);
        assert s[4..] == rest;
        RoundTrip(data[3..]);
        assert Decode(s) == Some([data[0], data[1], data[2]] + data[3..]);
      } else {
        GroupRoundTrip(data[0], data[1], data[2], true);
        assert s == g && Encode(data) == s;
        assert Decode(s) == DecodeGroup(g, true);
        assert data == [data[0], data[1], data[2]];
      }
    }
  }
}
