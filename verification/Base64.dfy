/**
 * Base 64 encoding with the standard alphabet of section 4 of RFC 4648,
 * as accepted by the platform decoder that turns the text of a key element
 * into bytes. Decoding is partial: text that is not a padded sequence of
 * four-character groups over the alphabet is rejected.
 */
module Base64 {
  import opened Wrappers
  import opened Bytes

  /** Why a text is not base 64. */
  datatype DecodeFailure = InvalidLength | InvalidEncoding

  /** The padding character. */
  const Pad: char := '='

  /** The 64 characters of the alphabet of Table 1 of RFC 4648. */
  predicate IsAlphabetChar(c: char) {
    || ('A' <= c <= 'Z')
    || ('a' <= c <= 'z')
    || ('0' <= c <= '9')
    || c == '+'
    || c == '/'
  }

  /** The 6-bit value a character of the alphabet stands for. */
  function CharValue(c: char): (v: nat)
    requires IsAlphabetChar(c)
    ensures v < 64
  {
    if 'A' <= c <= 'Z' then c as int - 'A' as int
    else if 'a' <= c <= 'z' then c as int - 'a' as int + 26
    else if '0' <= c <= '9' then c as int - '0' as int + 52
    else if c == '+' then 62
    else 63
  }

  /** The character of the alphabet that stands for a 6-bit value. */
  function ValueChar(v: nat): (c: char)
    requires v < 64
    ensures IsAlphabetChar(c)
    ensures CharValue(c) == v
  {
    if v < 26 then ('A' as int + v) as char
    else if v < 52 then ('a' as int + (v - 26)) as char
    else if v < 62 then ('0' as int + (v - 52)) as char
    else if v == 62 then '+'
    else '/'
  }

  // ---------------------------------------------------------------------
  // Reference description of the texts the decoder accepts
  // ---------------------------------------------------------------------

  /** Number of padding characters that close the text (at most two). */
  function PadCount(s: string): (n: nat)
    ensures n <= 2 && n <= |s|
  {
    if |s| >= 2 && s[|s| - 2] == Pad && s[|s| - 1] == Pad then 2
    else if |s| >= 1 && s[|s| - 1] == Pad then 1
    else 0
  }

  /**
   * A text in the format of section 4 of RFC 4648: whole four-character
   * groups, every character an alphabet character except for one or two
   * padding characters at the very end.
   */
  predicate WellFormed(s: string) {
    && |s| % 4 == 0
    && forall i :: 0 <= i < |s| - PadCount(s) ==> IsAlphabetChar(s[i])
  }

  /** Number of octets a well-formed text carries. */
  function DecodedLength(s: string): int {
    |s| / 4 * 3 - PadCount(s)
  }

  // ---------------------------------------------------------------------
  // Encoding
  // ---------------------------------------------------------------------

  /** Three octets as four characters. */
  function EncodeTriple(a: byte, b: byte, c: byte): string {
    [ValueChar(a / 4), ValueChar((a % 4) * 16 + b / 16), ValueChar((b % 16) * 4 + c / 64), ValueChar(c % 64)]
  }

  /** A final group of two octets: three characters and one padding character. */
  function EncodePair(a: byte, b: byte): string {
    [ValueChar(a / 4), ValueChar((a % 4) * 16 + b / 16), ValueChar((b % 16) * 4), Pad]
  }

  /** A final group of one octet: two characters and two padding characters. */
  function EncodeSingle(a: byte): string {
    [ValueChar(a / 4), ValueChar((a % 4) * 16), Pad, Pad]
  }

  /** The canonical base 64 text of an octet sequence. */
  function Encode(b: seq<byte>): (s: string)
    ensures |s| == 0 <==> |b| == 0
    decreases |b|
  {
    if |b| == 0 then []
    else if |b| == 1 then EncodeSingle(b[0])
    else if |b| == 2 then EncodePair(b[0], b[1])
    else EncodeTriple(b[0], b[1], b[2]) + Encode(b[3..])
  }

  // ---------------------------------------------------------------------
  // Decoding
  // ---------------------------------------------------------------------

  /** The three octets packed in four 6-bit values. */
  function Unpack(w: nat, x: nat, y: nat, z: nat): (r: seq<byte>)
    requires w < 64 && x < 64 && y < 64 && z < 64
    ensures |r| == 3
  {
    [w * 4 + x / 16, (x % 16) * 16 + y / 4, (y % 4) * 64 + z]
  }

  /** A group that is not the last one: four alphabet characters. */
  function DecodeInnerGroup(c0: char, c1: char, c2: char, c3: char): (r: Result<seq<byte>, DecodeFailure>)
    ensures r.Success? <==> IsAlphabetChar(c0) && IsAlphabetChar(c1) && IsAlphabetChar(c2) && IsAlphabetChar(c3)
    ensures r.Success? ==> |r.value| == 3
  {
    if IsAlphabetChar(c0) && IsAlphabetChar(c1) && IsAlphabetChar(c2) && IsAlphabetChar(c3) then
      Success(Unpack(CharValue(c0), CharValue(c1), CharValue(c2), CharValue(c3)))
    else
      Failure(InvalidEncoding)
  }

  /**
   * The last group, which may end in one or two padding characters. The
   * bits of the last character that fall beyond the final octet are
   * discarded, whatever their value.
   */
  function DecodeLastGroup(c0: char, c1: char, c2: char, c3: char): (r: Result<seq<byte>, DecodeFailure>)
  {
    if !IsAlphabetChar(c0) || !IsAlphabetChar(c1) then Failure(InvalidEncoding)
    else if IsAlphabetChar(c2) && IsAlphabetChar(c3) then
      Success(Unpack(CharValue(c0), CharValue(c1), CharValue(c2), CharValue(c3)))
    else if IsAlphabetChar(c2) && c3 == Pad then
      Success(Unpack(CharValue(c0), CharValue(c1), CharValue(c2), 0)[..2])
    else if c2 == Pad && c3 == Pad then
      Success(Unpack(CharValue(c0), CharValue(c1), 0, 0)[..1])
    else Failure(InvalidEncoding)
  }

  /** Decodes whole four-character groups, front to back. */
  function DecodeGroups(s: string): (r: Result<seq<byte>, DecodeFailure>)
    requires |s| % 4 == 0
    decreases |s|
  {
    if |s| == 0 then Success([])
    else if |s| == 4 then DecodeLastGroup(s[0], s[1], s[2], s[3])
    else
      match DecodeInnerGroup(s[0], s[1], s[2], s[3])
      case Failure(e) => Failure(e)
      case Success(head) =>
        match DecodeGroups(s[4..])
        case Failure(e) => Failure(e)
        case Success(tail) => Success(head + tail)
  }

  /**
   * Decodes a base 64 text. It succeeds exactly on the well-formed texts,
   * and then yields as many octets as the text carries.
   */
  function Decode(s: string): (r: Result<seq<byte>, DecodeFailure>)
    ensures r.Success? <==> WellFormed(s)
    ensures r.Success? ==> |r.value| == DecodedLength(s)
    ensures |s| % 4 != 0 ==> r == Failure(InvalidLength)
  {
    if |s| % 4 != 0 then Failure(InvalidLength)
    else
      DecodeGroupsCharacterized(s);
      DecodeGroups(s)
  }

  /** A non-empty text never decodes to zero octets. */
  lemma DecodeNonEmpty(s: string)
    requires |s| > 0
    requires Decode(s).Success?
    ensures |Decode(s).value| > 0
  {
  }

  // ---------------------------------------------------------------------
  // Proofs
  // ---------------------------------------------------------------------

  /** The last group decodes exactly when it is well formed. */
  lemma DecodeLastGroupCharacterized(s: string)
    requires |s| == 4
    ensures DecodeLastGroup(s[0], s[1], s[2], s[3]).Success? <==> WellFormed(s)
    ensures DecodeLastGroup(s[0], s[1], s[2], s[3]).Success? ==>
              |DecodeLastGroup(s[0], s[1], s[2], s[3]).value| == DecodedLength(s)
  {
    if WellFormed(s) {
      assert IsAlphabetChar(s[0]) && IsAlphabetChar(s[1]);
      if PadCount(s) == 0 {
        assert IsAlphabetChar(s[2]) && IsAlphabetChar(s[3]);
      } else if PadCount(s) == 1 {
        assert IsAlphabetChar(s[2]);
      }
    }
  }

  /** The characterisation of `Decode`, by induction over the groups. */
  lemma {:induction false} DecodeGroupsCharacterized(s: string)
    requires |s| % 4 == 0
    ensures DecodeGroups(s).Success? <==> WellFormed(s)
    ensures DecodeGroups(s).Success? ==> |DecodeGroups(s).value| == DecodedLength(s)
    decreases |s|
  {
    if |s| == 0 {
    } else if |s| == 4 {
      DecodeLastGroupCharacterized(s);
    } else {
      var rest := s[4..];
      DecodeGroupsCharacterized(rest);
      assert PadCount(s) == PadCount(rest) by {
        assert s[|s| - 1] == rest[|rest| - 1];
        assert s[|s| - 2] == rest[|rest| - 2];
      }
      var quad := IsAlphabetChar(s[0]) && IsAlphabetChar(s[1]) && IsAlphabetChar(s[2]) && IsAlphabetChar(s[3]);
      if WellFormed(s) {
        assert quad by {
          assert 0 < 4 <= |s| - PadCount(s);
        }
        forall i | 0 <= i < |rest| - PadCount(rest)
          ensures IsAlphabetChar(rest[i])
        {
          assert rest[i] == s[i + 4];
        }
      }
      if quad && WellFormed(rest) {
        forall i | 0 <= i < |s| - PadCount(s)
          ensures IsAlphabetChar(s[i])
        {
          if i >= 4 {
            assert s[i] == rest[i - 4];
          }
        }
      }
    }
  }

  /** Integer packing used by the group round trips: a multiple of 16 plus a smaller remainder. */
  lemma Split16(q: int, r: int)
    requires 0 <= q < 16 && 0 <= r < 16
    ensures (q * 16 + r) / 16 == q
    ensures (q * 16 + r) % 16 == r
  {
  }

  /** Integer packing used by the group round trips: a multiple of 4 plus a smaller remainder. */
  lemma Split4(q: int, r: int)
    requires 0 <= q < 16 && 0 <= r < 4
    ensures (q * 4 + r) / 4 == q
    ensures (q * 4 + r) % 4 == r
  {
  }

  /** Four characters of a full group give back the three octets. */
  lemma UnpackTriple(a: byte, b: byte, c: byte)
    ensures Unpack(a / 4, (a % 4) * 16 + b / 16, (b % 16) * 4 + c / 64, c % 64) == [a, b, c]
  {
    Split16(a % 4, b / 16);
    Split4(b % 16, c / 64);
  }

  /** The characters of an encoded triple stand for the 6-bit values they were made from. */
  lemma TripleValues(a: byte, b: byte, c: byte)
    ensures var g := EncodeTriple(a, b, c);
      && IsAlphabetChar(g[0]) && IsAlphabetChar(g[1]) && IsAlphabetChar(g[2]) && IsAlphabetChar(g[3])
      && CharValue(g[0]) == a / 4 && CharValue(g[1]) == (a % 4) * 16 + b / 16
      && CharValue(g[2]) == (b % 16) * 4 + c / 64 && CharValue(g[3]) == c % 64
  {
  }

  /** An encoded triple decodes back as a group that is not the last one. */
  lemma DecodeTripleInner(a: byte, b: byte, c: byte)
    ensures var g := EncodeTriple(a, b, c);
      DecodeInnerGroup(g[0], g[1], g[2], g[3]) == Success([a, b, c])
  {
    TripleValues(a, b, c);
    UnpackTriple(a, b, c);
  }

  /** An encoded triple decodes back as the last group. */
  lemma DecodeTripleLast(a: byte, b: byte, c: byte)
    ensures var g := EncodeTriple(a, b, c);
      DecodeLastGroup(g[0], g[1], g[2], g[3]) == Success([a, b, c])
  {
    TripleValues(a, b, c);
    UnpackTriple(a, b, c);
  }

  /** An encoded final pair decodes back. */
  lemma DecodePair(a: byte, b: byte)
    ensures var g := EncodePair(a, b);
      DecodeLastGroup(g[0], g[1], g[2], g[3]) == Success([a, b])
  {
    var g := EncodePair(a, b);
    var w, x, y := a / 4, (a % 4) * 16 + b / 16, (b % 16) * 4;
    assert CharValue(g[0]) == w && CharValue(g[1]) == x && CharValue(g[2]) == y;
    assert !IsAlphabetChar(g[3]);
    Split16(a % 4, b / 16);
    Split4(b % 16, 0);
    assert w * 4 + x / 16 == a;
    assert (x % 16) * 16 + y / 4 == b;
    assert Unpack(w, x, y, 0)[..2] == [a, b];
  }

  /** An encoded final single octet decodes back. */
  lemma DecodeSingle(a: byte)
    ensures var g := EncodeSingle(a);
      DecodeLastGroup(g[0], g[1], g[2], g[3]) == Success([a])
  {
    var g := EncodeSingle(a);
    var w, x := a / 4, (a % 4) * 16;
    assert CharValue(g[0]) == w && CharValue(g[1]) == x;
    assert !IsAlphabetChar(g[2]) && !IsAlphabetChar(g[3]);
    Split16(a % 4, 0);
    assert w * 4 + x / 16 == a;
    assert Unpack(w, x, 0, 0)[..1] == [a];
  }

  /** Decoding undoes encoding: every octet sequence survives the round trip. */
  lemma {:induction false} DecodeEncode(b: seq<byte>)
    ensures Decode(Encode(b)) == Success(b)
    decreases |b|
  {
    DecodeGroupsEncode(b);
  }

  /** The round trip at the level of groups, by induction on the octets. */
  lemma {:induction false} DecodeGroupsEncode(b: seq<byte>)
    ensures |Encode(b)| % 4 == 0
    ensures DecodeGroups(Encode(b)) == Success(b)
    decreases |b|
  {
    if |b| == 0 {
    } else if |b| <= 3 {
      DecodeGroupsEncodeLast(b);
    } else {
      DecodeGroupsEncode(b[3..]);
      DecodeGroupsStep(b[0], b[1], b[2], b[3..]);
      SplitFront(b);
    }
  }

  /** The round trip for a sequence that fits in the last group. */
  lemma {:induction false} DecodeGroupsEncodeLast(b: seq<byte>)
    requires 1 <= |b| <= 3
    ensures |Encode(b)| == 4
    ensures DecodeGroups(Encode(b)) == Success(b)
  {
    ShortSeq(b);
    if |b| == 1 {
      RoundTripSingle(b[0]);
    } else if |b| == 2 {
      RoundTripPair(b[0], b[1]);
    } else {
      RoundTripTriple(b[0], b[1], b[2]);
    }
  }

  /** One octet encodes to one padded group that decodes back to it. */
  lemma RoundTripSingle(a: byte)
    ensures |Encode([a])| == 4
    ensures DecodeGroups(Encode([a])) == Success([a])
  {
    DecodeSingle(a);
    LastGroupOnly(EncodeSingle(a));
  }

  /** Two octets encode to one padded group that decodes back to them. */
  lemma RoundTripPair(a: byte, b: byte)
    ensures |Encode([a, b])| == 4
    ensures DecodeGroups(Encode([a, b])) == Success([a, b])
  {
    DecodePair(a, b);
    LastGroupOnly(EncodePair(a, b));
  }

  /** Three octets encode to one unpadded group that decodes back to them. */
  lemma RoundTripTriple(a: byte, b: byte, c: byte)
    ensures |Encode([a, b, c])| == 4
    ensures DecodeGroups(Encode([a, b, c])) == Success([a, b, c])
  {
    EncodeOneTriple(a, b, c);
    DecodeTripleLast(a, b, c);
    LastGroupOnly(EncodeTriple(a, b, c));
  }

  /** Exactly three octets encode to a single group. */
  lemma EncodeOneTriple(a: byte, b: byte, c: byte)
    ensures Encode([a, b, c]) == EncodeTriple(a, b, c)
  {
    assert [a, b, c][3..] == [];
  }

  /** A sequence of at most three elements is the display of its elements. */
  lemma ShortSeq<T>(b: seq<T>)
    requires 1 <= |b| <= 3
    ensures |b| == 1 ==> b == [b[0]]
    ensures |b| == 2 ==> b == [b[0], b[1]]
    ensures |b| == 3 ==> b == [b[0], b[1], b[2]]
  {
  }

  /** A sequence of more than three elements is its first three in front of the rest. */
  lemma SplitFront<T>(b: seq<T>)
    requires |b| > 3
    ensures b == [b[0], b[1], b[2]] + b[3..]
  {
  }

  /** A text of one group is decoded as the last group. */
  lemma LastGroupOnly(g: string)
    requires |g| == 4
    ensures DecodeGroups(g) == DecodeLastGroup(g[0], g[1], g[2], g[3])
  {
  }

  /** One inductive step: a full group in front of a non-empty encoded rest. */
  lemma {:induction false} DecodeGroupsStep(a0: byte, a1: byte, a2: byte, rest: seq<byte>)
    requires |rest| > 0
    requires |Encode(rest)| % 4 == 0
    requires DecodeGroups(Encode(rest)) == Success(rest)
    ensures |Encode([a0, a1, a2] + rest)| % 4 == 0
    ensures DecodeGroups(Encode([a0, a1, a2] + rest)) == Success([a0, a1, a2] + rest)
  {
    EncodeCons(a0, a1, a2, rest);
    DecodeTripleInner(a0, a1, a2);
    GroupThenRest(EncodeTriple(a0, a1, a2), Encode(rest), [a0, a1, a2], rest);
  }

  /** A decodable inner group in front of decodable further groups. */
  lemma {:induction false} GroupThenRest(g: string, tail: string, head: seq<byte>, rest: seq<byte>)
    requires |g| == 4
    requires |tail| > 0 && |tail| % 4 == 0
    requires DecodeInnerGroup(g[0], g[1], g[2], g[3]) == Success(head)
    requires DecodeGroups(tail) == Success(rest)
    ensures |g + tail| % 4 == 0
    ensures DecodeGroups(g + tail) == Success(head + rest)
  {
    var s := g + tail;
    GroupInFront(g, tail);
    GroupShift(|tail|);
    DecodeGroupsCons(s, head, rest);
  }

  /** A length of whole groups beyond the first group holds a second group. */
  lemma MoreThanOneGroup(n: nat)
    requires n > 4 && n % 4 == 0
    ensures n >= 8
  {
  }

  /** One group more or less does not change a length's remainder modulo four. */
  lemma GroupShift(n: nat)
    ensures (n + 4) % 4 == n % 4
  {
  }

  /** A group of four in front of a sequence: its first four elements, then the sequence. */
  lemma GroupInFront<T>(g: seq<T>, tail: seq<T>)
    requires |g| == 4
    ensures |g + tail| == |tail| + 4
    ensures (g + tail)[0] == g[0] && (g + tail)[1] == g[1] && (g + tail)[2] == g[2] && (g + tail)[3] == g[3]
    ensures (g + tail)[4..] == tail
  {
  }

  /** Encoding emits one group per three octets, front to back. */
  lemma {:induction false} EncodeCons(a0: byte, a1: byte, a2: byte, rest: seq<byte>)
    requires |rest| > 0
    ensures Encode([a0, a1, a2] + rest) == EncodeTriple(a0, a1, a2) + Encode(rest)
  {
    var b := [a0, a1, a2] + rest;
    assert b[3..] == rest;
  }

  /** Decoding consumes a full group in front of further groups. */
  lemma {:induction false} DecodeGroupsCons(s: string, head: seq<byte>, rest: seq<byte>)
    requires |s| > 4 && |s| % 4 == 0 && |s[4..]| % 4 == 0
    requires DecodeInnerGroup(s[0], s[1], s[2], s[3]) == Success(head)
    requires DecodeGroups(s[4..]) == Success(rest)
    ensures DecodeGroups(s) == Success(head + rest)
  {
  }

  // ---------------------------------------------------------------------
  // Bits under the padding
  // ---------------------------------------------------------------------

  /**
   * The value of the last alphabet character of a padded text with the
   * bits that fall beyond the final octet cleared: the low four bits
   * under two pads, the low two bits under one pad.
   */
  function ClearedValue(v: nat, pads: nat): (r: nat)
    requires v < 64 && 1 <= pads <= 2
    ensures r < 64
  {
    if pads == 2 then v / 16 * 16 else v / 4 * 4
  }

  /**
   * The decoder ignores the bits under the padding: clearing them in the
   * last alphabet character of a padded well-formed text leaves the
   * decoded octets unchanged, so "QR==" decodes as "QQ==" does.
   */
  lemma {:induction false} PadBitsIgnored(s: string)
    requires WellFormed(s) && PadCount(s) > 0
    ensures var k := |s| - PadCount(s) - 1;
      Decode(s[k := ValueChar(ClearedValue(CharValue(s[k]), PadCount(s)))]) == Decode(s)
  {
    var n := |s|;
    var k := n - PadCount(s) - 1;
    var t := s[k := ValueChar(ClearedValue(CharValue(s[k]), PadCount(s)))];
    UpdateInLastGroup(s, k, t[k]);
    assert IsAlphabetChar(s[n - 4]) && IsAlphabetChar(s[n - 3]);
    if PadCount(s) == 2 {
      PadTwoGroup(s[n - 4], s[n - 3]);
    } else {
      assert IsAlphabetChar(s[n - 2]) && s[n - 1] == Pad;
      PadOneGroup(s[n - 4], s[n - 3], s[n - 2]);
    }
    SameLastGroup(t, s);
  }

  /** A last group closed by two pads decodes the same with the discarded bits cleared. */
  lemma PadTwoGroup(c0: char, c1: char)
    requires IsAlphabetChar(c0) && IsAlphabetChar(c1)
    ensures DecodeLastGroup(c0, c1, Pad, Pad) == DecodeLastGroup(c0, ValueChar(ClearedValue(CharValue(c1), 2)), Pad, Pad)
  {
    var w, x := CharValue(c0), CharValue(c1);
    var x' := x / 16 * 16;
    UnpackPrefix(w, x, 0, 0);
    UnpackPrefix(w, x', 0, 0);
    Split16(x / 16, 0);
  }

  /** A last group closed by one pad decodes the same with the discarded bits cleared. */
  lemma PadOneGroup(c0: char, c1: char, c2: char)
    requires IsAlphabetChar(c0) && IsAlphabetChar(c1) && IsAlphabetChar(c2)
    ensures DecodeLastGroup(c0, c1, c2, Pad) == DecodeLastGroup(c0, c1, ValueChar(ClearedValue(CharValue(c2), 1)), Pad)
  {
    var w, x, y := CharValue(c0), CharValue(c1), CharValue(c2);
    var y' := y / 4 * 4;
    UnpackPrefix(w, x, y, 0);
    UnpackPrefix(w, x, y', 0);
    Split4(y / 4, 0);
  }

  /** Replacing an element of the last group of four changes nothing before it and nothing else in that group. */
  lemma UpdateInLastGroup<T>(s: seq<T>, k: nat, c: T)
    requires |s| >= 4 && |s| - 4 <= k < |s|
    ensures |s[k := c]| == |s|
    ensures s[k := c][..|s| - 4] == s[..|s| - 4]
    ensures s[k := c][k] == c
    ensures forall i :: |s| - 4 <= i < |s| && i != k ==> s[k := c][i] == s[i]
  {
  }

  /** The first one and the first two octets of an unpacked group. */
  lemma UnpackPrefix(w: nat, x: nat, y: nat, z: nat)
    requires w < 64 && x < 64 && y < 64 && z < 64
    ensures Unpack(w, x, y, z)[..1] == [w * 4 + x / 16]
    ensures Unpack(w, x, y, z)[..2] == [w * 4 + x / 16, (x % 16) * 16 + y / 4]
  {
  }

  /** Texts that agree up to their last group, whose last groups decode alike, decode alike. */
  lemma {:induction false} SameLastGroup(s: string, t: string)
    requires |s| == |t| && |s| >= 4 && |s| % 4 == 0
    requires s[..|s| - 4] == t[..|t| - 4]
    requires DecodeLastGroup(s[|s| - 4], s[|s| - 3], s[|s| - 2], s[|s| - 1]) ==
             DecodeLastGroup(t[|t| - 4], t[|t| - 3], t[|t| - 2], t[|t| - 1])
    ensures DecodeGroups(s) == DecodeGroups(t)
    decreases |s|
  {
    if |s| > 4 {
      MoreThanOneGroup(|s|);
      SameFront(s, t);
      GroupShift(|s| - 4);
      SameLastGroup(s[4..], t[4..]);
    }
  }

  /** Two sequences that agree before their last four elements, seen one group further on. */
  lemma SameFront<T>(s: seq<T>, t: seq<T>)
    requires |s| == |t| && |s| >= 8
    requires s[..|s| - 4] == t[..|t| - 4]
    ensures s[0] == t[0] && s[1] == t[1] && s[2] == t[2] && s[3] == t[3]
    ensures |s[4..]| == |t[4..]| == |s| - 4
    ensures s[4..][..|s| - 8] == t[4..][..|t| - 8]
    ensures var n := |s|;
      && s[4..][n - 8] == s[n - 4] && s[4..][n - 7] == s[n - 3] && s[4..][n - 6] == s[n - 2] && s[4..][n - 5] == s[n - 1]
      && t[4..][n - 8] == t[n - 4] && t[4..][n - 7] == t[n - 3] && t[4..][n - 6] == t[n - 2] && t[4..][n - 5] == t[n - 1]
  {
    var n := |s|;
    assert s[0] == s[..n - 4][0] && t[0] == t[..n - 4][0];
    assert s[1] == s[..n - 4][1] && t[1] == t[..n - 4][1];
    assert s[2] == s[..n - 4][2] && t[2] == t[..n - 4][2];
    assert s[3] == s[..n - 4][3] && t[3] == t[..n - 4][3];
    assert s[4..][..n - 8] == s[..n - 4][4..];
    assert t[4..][..n - 8] == t[..n - 4][4..];
  }

  /** Every encoded text is well formed. */
  lemma EncodeWellFormed(b: seq<byte>)
    ensures WellFormed(Encode(b))
  {
    DecodeEncode(b);
  }
}
