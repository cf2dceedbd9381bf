/**
 The terminal's byte-at-a-time UTF-8 decoder against the grammar of section 4 of RFC 3629: what it dispatches, for
 any stream of bytes.
 */
module Utf8 {
  import opened Options

  /** Continuation bytes still to come, and the bits of the code point so far; fewer than 32 are ever used. */
  datatype Decoder = Decoder(remaining: nat, codePoint: bv32)

  /** A byte, and whether the escape parser has asked for it to be discarded. */
  datatype Input = Input(byte: bv8, discard: bool)

  const AT_REST := Decoder(0, 0)

  // ---------- the decoder ----------

  function Wide(c: bv8): bv32 {
    c as bv32
  }

  /** Starting afresh on a byte: a lead byte, or anything else. */
  function Start(c: bv8): Decoder {
    if 0xc2 <= c <= 0xdf then Decoder(1, (Wide(c) & 0x1f) << 6)
    else if 0xe0 <= c <= 0xef then Decoder(2, (Wide(c) & 0x0f) << 12)
    else if 0xf0 <= c <= 0xf4 then Decoder(3, (Wide(c) & 0x07) << 18)
    else AT_REST
  }

  /** The bits of a continuation byte, in their place when `left` more are to come. */
  function Bits(c: bv8, left: nat): bv32
    requires left <= 2
  {
    var b := Wide(c) & 0x3f;
    if left == 0 then b else if left == 1 then b << 6 else b << 12
  }

  /** One byte of flanterm_putchar: the decoder's new state, and the code point it dispatches. */
  function Step(d: Decoder, x: Input): (Decoder, Option<bv32>) {
    var c := x.byte;
    if x.discard || c == 0x18 || c == 0x1a then (AT_REST, None)
    else if d.remaining == 0 || d.remaining > 3 then (Start(c), None)
    else if c & 0xc0 != 0x80 then (Start(c), None)
    else
      var left := d.remaining - 1;
      var cp := d.codePoint | Bits(c, left);
      if left == 1 && cp < 0x800 then (Start(c), None)
      else if left == 2 && (cp < 0x10000 || cp > 0x10ffff) then (Start(c), None)
      else if left != 0 then (Decoder(left, cp), None)
      else if 0xd800 <= cp <= 0xdfff then (Start(c), None)
      else (AT_REST, Some(cp))
  }

  function Run(xs: seq<Input>): Decoder {
    if xs == [] then AT_REST else Step(Run(xs[..|xs| - 1]), xs[|xs| - 1]).0
  }

  /** What the last byte of a stream makes the decoder dispatch. */
  function Dispatched(xs: seq<Input>): Option<bv32> {
    if xs == [] then None else Step(Run(xs[..|xs| - 1]), xs[|xs| - 1]).1
  }

  // ---------- the grammar ----------

  predicate Tail(c: bv8) {
    0x80 <= c <= 0xbf
  }

  /** UTF8-2, UTF8-3 and UTF8-4 of the grammar. */
  predicate WellFormed(s: seq<bv8>) {
    if |s| == 2 then 0xc2 <= s[0] <= 0xdf && Tail(s[1])
    else if |s| == 3 then
      && Tail(s[2])
      && ((s[0] == 0xe0 && 0xa0 <= s[1] <= 0xbf)
          || (0xe1 <= s[0] <= 0xec && Tail(s[1]))
          || (s[0] == 0xed && 0x80 <= s[1] <= 0x9f)
          || (0xee <= s[0] <= 0xef && Tail(s[1])))
    else if |s| == 4 then
      && Tail(s[2]) && Tail(s[3])
      && ((s[0] == 0xf0 && 0x90 <= s[1] <= 0xbf)
          || (0xf1 <= s[0] <= 0xf3 && Tail(s[1]))
          || (s[0] == 0xf4 && 0x80 <= s[1] <= 0x8f))
    else false
  }

  /** All but the last six bits of a three-byte or four-byte sequence's number. */
  function Upper3(b0: bv8, b1: bv8): bv32 {
    (Wide(b0) - 0xe0) * 0x1000 + (Wide(b1) - 0x80) * 0x40
  }

  function Upper4(b0: bv8, b1: bv8, b2: bv8): bv32 {
    (Wide(b0) - 0xf0) * 0x40000 + (Wide(b1) - 0x80) * 0x1000 + (Wide(b2) - 0x80) * 0x40
  }

  /** The character number a sequence stands for. */
  function Scalar(s: seq<bv8>): bv32
    requires 2 <= |s| <= 4
  {
    if |s| == 2 then (Wide(s[0]) - 0xc0) * 0x40 + (Wide(s[1]) - 0x80)
    else if |s| == 3 then Upper3(s[0], s[1]) + (Wide(s[2]) - 0x80)
    else Upper4(s[0], s[1], s[2]) + (Wide(s[3]) - 0x80)
  }

  // ---------- what the decoder is in the middle of ----------

  /** The bytes so far of a sequence the decoder goes on with; it notices surrogates only at their last byte. */
  predicate Begun(s: seq<bv8>) {
    if |s| == 1 then 0xc2 <= s[0] <= 0xf4
    else if |s| == 2 then
      && Tail(s[1])
      && ((s[0] == 0xe0 && 0xa0 <= s[1]) || 0xe1 <= s[0] <= 0xef
          || (s[0] == 0xf0 && 0x90 <= s[1]) || 0xf1 <= s[0] <= 0xf3 || (s[0] == 0xf4 && s[1] <= 0x8f))
    else |s| == 3 && 0xf0 <= s[0] && Begun(s[..2]) && Tail(s[2])
  }

  /** How many bytes are missing and the number so far, the missing ones counting as zero. */
  function Pending(s: seq<bv8>): Decoder
    requires 1 <= |s| <= 3
  {
    var b0 := Wide(s[0]);
    if |s| == 1 then
      if s[0] < 0xe0 then Decoder(1, (b0 - 0xc0) * 0x40)
      else if s[0] < 0xf0 then Decoder(2, (b0 - 0xe0) * 0x1000)
      else Decoder(3, (b0 - 0xf0) * 0x40000)
    else if |s| == 2 then
      if s[0] < 0xf0 then Decoder(1, Upper3(s[0], s[1]))
      else Decoder(2, (b0 - 0xf0) * 0x40000 + (Wide(s[1]) - 0x80) * 0x1000)
    else Decoder(1, Upper4(s[0], s[1], s[2]))
  }

  lemma StartIs(c: bv8)
    ensures if Begun([c]) then Start(c) == Pending([c]) else Start(c) == AT_REST
  {
  }

  lemma SecondByte(b0: bv8, c: bv8)
    requires Begun([b0])
    ensures var s, r := [b0, c], Step(Pending([b0]), Input(c, false));
            r == if Begun(s) then (Pending(s), None)
                 else if WellFormed(s) then (AT_REST, Some(Scalar(s)))
                 else (Start(c), None)
  {
  }

  lemma TailBits(c: bv8)
    ensures c & 0xc0 == 0x80 <==> Tail(c)
    ensures Tail(c) ==> Wide(c) & 0x3f == Wide(c) - 0x80 && Wide(c) - 0x80 < 0x40
  {
  }

  lemma OrIsPlus(x: bv32, y: bv32)
    requires x & 0x3f == 0 && y < 0x40
    ensures x | y == x + y
  {
  }

  /** The number so far, when one byte is missing, leaves room for six bits. */
  lemma LowBitsClear(s: seq<bv8>)
    requires 2 <= |s| <= 3 && (|s| == 2 ==> s[0] < 0xf0)
    ensures Pending(s).codePoint & 0x3f == 0
  {
    if |s| == 2 {
      ThreeClear(Wide(s[0]) - 0xe0, Wide(s[1]) - 0x80);
    } else {
      FourClear(Wide(s[0]) - 0xf0, Wide(s[1]) - 0x80, Wide(s[2]) - 0x80);
    }
    hide Wide;
  }

  lemma ThreeClear(a: bv32, b: bv32)
    ensures (a * 0x1000 + b * 0x40) & 0x3f == 0
  {
  }

  lemma FourClear(a: bv32, b: bv32, c: bv32)
    ensures (a * 0x40000 + b * 0x1000 + c * 0x40) & 0x3f == 0
  {
  }

  /** The last byte adds its bits. */
  lemma ThreeAdds(b0: bv8, b1: bv8, c: bv8)
    requires 0xe0 <= b0 < 0xf0
    ensures Pending([b0, b1]) == Decoder(1, Upper3(b0, b1))
    ensures Scalar([b0, b1, c]) == Upper3(b0, b1) + (Wide(c) - 0x80)
  {
  }

  lemma FourAdds(b0: bv8, b1: bv8, b2: bv8, c: bv8)
    ensures Pending([b0, b1, b2]) == Decoder(1, Upper4(b0, b1, b2))
    ensures Scalar([b0, b1, b2, c]) == Upper4(b0, b1, b2) + (Wide(c) - 0x80)
  {
  }

  /** Which three-byte sequences the decoder goes on with stand for surrogates. */
  lemma SurrogateForm(b0: bv8, b1: bv8, low: bv32)
    requires Begun([b0, b1]) && b0 < 0xf0 && low < 0x40
    ensures 0xd800 <= Pending([b0, b1]).codePoint + low <= 0xdfff <==> b0 == 0xed && b1 >= 0xa0
  {
  }

  lemma ThreeForm(b0: bv8, b1: bv8, c: bv8)
    requires Begun([b0, b1]) && b0 < 0xf0
    ensures WellFormed([b0, b1, c]) <==> Tail(c) && !(b0 == 0xed && b1 >= 0xa0)
  {
  }

  /** The last byte of any sequence. */
  lemma LastByte(cp: bv32, c: bv8)
    requires cp & 0x3f == 0
    ensures Step(Decoder(1, cp), Input(c, false)) ==
            if !Tail(c) then (Start(c), None)
            else
              var sum := cp + (Wide(c) - 0x80);
              if 0xd800 <= sum <= 0xdfff then (Start(c), None) else (AT_REST, Some(sum))
  {
    TailBits(c);
    if Tail(c) {
      OrIsPlus(cp, Wide(c) - 0x80);
      assert Bits(c, 0) == Wide(c) - 0x80;
    }
    assert c == 0x18 || c == 0x1a ==> Start(c) == AT_REST;
    hide Wide, Tail, Start, Bits;
  }

  lemma ThirdOfThree(b0: bv8, b1: bv8, c: bv8)
    requires Begun([b0, b1]) && b0 < 0xf0
    ensures var s, r := [b0, b1, c], Step(Pending([b0, b1]), Input(c, false));
            r == if WellFormed(s) then (AT_REST, Some(Scalar(s))) else (Start(c), None)
  {
    ThreeForm(b0, b1, c);
    ThreeAdds(b0, b1, c);
    LowBitsClear([b0, b1]);
    TailBits(c);
    if Tail(c) {
      SurrogateForm(b0, b1, Wide(c) - 0x80);
    }
    var cp := Pending([b0, b1]).codePoint;
    assert Pending([b0, b1]) == Decoder(1, cp);
    hide *;
    LastByte(cp, c);
  }

  lemma MiddleIsPlus(x: bv32, y: bv32, z: bv32)
    requires 0x10000 <= x * 0x40000 + y * 0x1000 && x <= 4 && y < 0x40 && z < 0x40
    ensures (x * 0x40000 + y * 0x1000) | (z << 6) == x * 0x40000 + y * 0x1000 + z * 0x40
    ensures x * 0x40000 + y * 0x1000 + z * 0x40 >= 0x10000
  {
  }

  lemma ThirdOfFour(b0: bv8, b1: bv8, c: bv8)
    requires Begun([b0, b1]) && b0 >= 0xf0
    ensures var s, r := [b0, b1, c], Step(Pending([b0, b1]), Input(c, false));
            r == if Begun(s) then (Pending(s), None) else (Start(c), None)
  {
    assert [b0, b1, c][..2] == [b0, b1];
    TailBits(c);
    assert Begun([b0, b1, c]) <==> Tail(c);
    if Tail(c) {
      FourRange(b0, b1);
      MiddleIsPlus(Wide(b0) - 0xf0, Wide(b1) - 0x80, Wide(c) - 0x80);
    }
    hide WellFormed, Begun, Wide, Tail;
  }

  lemma FourRange(b0: bv8, b1: bv8)
    requires Begun([b0, b1]) && b0 >= 0xf0
    ensures var x, y := Wide(b0) - 0xf0, Wide(b1) - 0x80;
            x <= 4 && y < 0x40 && 0x10000 <= x * 0x40000 + y * 0x1000
  {
  }

  lemma ThirdByte(b0: bv8, b1: bv8, c: bv8)
    requires Begun([b0, b1])
    ensures var s, r := [b0, b1, c], Step(Pending([b0, b1]), Input(c, false));
            r == if Begun(s) then (Pending(s), None)
                 else if WellFormed(s) then (AT_REST, Some(Scalar(s)))
                 else (Start(c), None)
  {
    if b0 < 0xf0 {
      ThirdOfThree(b0, b1, c);
    } else {
      ThirdOfFour(b0, b1, c);
    }
    hide Step, Pending, Scalar, Start;
  }

  /** A four-byte sequence begun stands for a number past the surrogates. */
  lemma FourIsHigh(b0: bv8, b1: bv8, b2: bv8, low: bv32)
    requires Begun([b0, b1, b2]) && low < 0x40
    ensures Pending([b0, b1, b2]).codePoint + low > 0xdfff
  {
    assert [b0, b1, b2][..2] == [b0, b1];
    var x, y, z := Wide(b0) - 0xf0, Wide(b1) - 0x80, Wide(b2) - 0x80;
    assert x <= 4 && y < 0x40 && z < 0x40 && (x == 0 ==> y >= 0x10);
    HighSum(x, y, z, low);
  }

  lemma HighSum(x: bv32, y: bv32, z: bv32, low: bv32)
    requires x <= 4 && y < 0x40 && z < 0x40 && low < 0x40 && (x == 0 ==> y >= 0x10)
    ensures x * 0x40000 + y * 0x1000 + z * 0x40 + low > 0xdfff
  {
  }

  lemma FourthByte(b0: bv8, b1: bv8, b2: bv8, c: bv8)
    requires Begun([b0, b1, b2])
    ensures var s, r := [b0, b1, b2, c], Step(Pending([b0, b1, b2]), Input(c, false));
            r == if WellFormed(s) then (AT_REST, Some(Scalar(s))) else (Start(c), None)
  {
    FourForm(b0, b1, b2, c);
    FourAdds(b0, b1, b2, c);
    LowBitsClear([b0, b1, b2]);
    TailBits(c);
    if Tail(c) {
      FourIsHigh(b0, b1, b2, Wide(c) - 0x80);
    }
    var cp := Pending([b0, b1, b2]).codePoint;
    assert Pending([b0, b1, b2]) == Decoder(1, cp);
    hide *;
    LastByte(cp, c);
  }

  lemma FourForm(b0: bv8, b1: bv8, b2: bv8, c: bv8)
    requires Begun([b0, b1, b2])
    ensures WellFormed([b0, b1, b2, c]) <==> Tail(c)
    ensures b0 >= 0xf0
  {
    assert [b0, b1, b2][..2] == [b0, b1];
  }

  /** One more byte of a sequence begun: further on, dispatched, or dropped and the byte looked at afresh. */
  lemma NextByte(s: seq<bv8>, c: bv8)
    requires 1 <= |s| <= 3 && Begun(s)
    ensures Step(Pending(s), Input(c, false)) ==
            if |s| < 3 && Begun(s + [c]) then (Pending(s + [c]), None)
            else if WellFormed(s + [c]) then (AT_REST, Some(Scalar(s + [c])))
            else (Start(c), None)
  {
    if |s| == 1 {
      assert s == [s[0]];
      assert s + [c] == [s[0], c];
      hide *;
      SecondByte(s[0], c);
    } else if |s| == 2 {
      assert s == [s[0], s[1]];
      assert s + [c] == [s[0], s[1], c];
      hide *;
      ThirdByte(s[0], s[1], c);
    } else {
      assert s == [s[0], s[1], s[2]];
      assert s + [c] == [s[0], s[1], s[2], c];
      hide *;
      FourthByte(s[0], s[1], s[2], c);
    }
  }

  // ---------- streams ----------

  /** The stream ends with these bytes, none of them to be discarded. */
  ghost predicate Ends(xs: seq<Input>, s: seq<bv8>) {
    |s| <= |xs| && forall i :: 0 <= i < |s| ==> xs[|xs| - |s| + i] == Input(s[i], false)
  }

  /** In the middle of a sequence: the stream ends with what has been begun. */
  ghost predicate Explains(xs: seq<Input>, s: seq<bv8>) {
    1 <= |s| <= 3 && Begun(s) && Ends(xs, s) && Run(xs) == Pending(s)
  }

  lemma EndsOne(xs: seq<Input>)
    requires xs != [] && !xs[|xs| - 1].discard
    ensures Ends(xs, [xs[|xs| - 1].byte])
  {
  }

  lemma EndsMore(xs: seq<Input>, s: seq<bv8>)
    requires xs != [] && !xs[|xs| - 1].discard && Ends(xs[..|xs| - 1], s)
    ensures Ends(xs, s + [xs[|xs| - 1].byte])
  {
  }

  lemma EndsLess(xs: seq<Input>, s: seq<bv8>)
    requires s != [] && Ends(xs, s)
    ensures xs != [] && xs[|xs| - 1] == Input(s[|s| - 1], false) && Ends(xs[..|xs| - 1], s[..|s| - 1])
  {
  }

  /** A decoder that waits for more bytes is in the middle of a sequence the stream ends with. */
  lemma {:induction false} WaitingExplained(xs: seq<Input>)
    ensures Run(xs) == AT_REST || exists s :: Explains(xs, s)
  {
    if xs != [] {
      var before, x := xs[..|xs| - 1], xs[|xs| - 1];
      WaitingExplained(before);
      StartIs(x.byte);
      if x.discard || x.byte == 0x18 || x.byte == 0x1a {
      } else if Run(before) == AT_REST {
        StartExplained(xs);
      } else {
        var s :| Explains(before, s);
        NextByte(s, x.byte);
        EndsMore(xs, s);
        if |s| < 3 && Begun(s + [x.byte]) {
          assert Explains(xs, s + [x.byte]);
        } else if !WellFormed(s + [x.byte]) {
          StartExplained(xs);
        }
      }
    }
  }

  lemma StartExplained(xs: seq<Input>)
    requires xs != [] && !xs[|xs| - 1].discard && Run(xs) == Start(xs[|xs| - 1].byte)
    ensures Run(xs) == AT_REST || exists s :: Explains(xs, s)
  {
    var c := xs[|xs| - 1].byte;
    StartIs(c);
    EndsOne(xs);
    if Begun([c]) {
      assert Explains(xs, [c]);
    }
  }

  /** Whatever came before, a lead byte starts a sequence. */
  lemma LeadStarts(d: Decoder, c: bv8)
    requires 0xc2 <= c <= 0xf4
    ensures Step(d, Input(c, false)) == (Start(c), None)
  {
    assert c & 0xc0 != 0x80;
  }

  /** Whatever came before, a stream that ends with the beginning of a sequence leaves the decoder in its middle. */
  lemma {:induction false} BegunReached(xs: seq<Input>, s: seq<bv8>)
    requires 1 <= |s| <= 3 && Begun(s) && Ends(xs, s)
    ensures Run(xs) == Pending(s)
    decreases |s|
  {
    EndsLess(xs, s);
    var c := s[|s| - 1];
    if |s| == 1 {
      assert s == [c];
      LeadStarts(Run(xs[..|xs| - 1]), c);
      StartIs(c);
    } else {
      var t := s[..|s| - 1];
      BegunPrefix(s);
      BegunReached(xs[..|xs| - 1], t);
      NextByte(t, c);
      assert t + [c] == s;
    }
    hide *;
  }

  lemma BegunPrefix(s: seq<bv8>)
    requires 2 <= |s| <= 3 && Begun(s)
    ensures Begun(s[..|s| - 1])
  {
  }

  /** A well-formed sequence is one byte more than a sequence begun, and is not itself one. */
  lemma WellFormedPrefix(s: seq<bv8>)
    requires WellFormed(s)
    ensures 2 <= |s| <= 4 && Begun(s[..|s| - 1]) && !(|s| < 4 && Begun(s))
  {
    assert |s| == 4 ==> s[..3][..2] == s[..2];
  }

  /**
   The decoder dispatches a code point exactly when the bytes just consumed are a well-formed sequence none of which
   was discarded, and it dispatches the character number that sequence stands for.
   */
  lemma DispatchesWellFormed(xs: seq<Input>, cp: bv32)
    ensures Dispatched(xs) == Some(cp) <==>
            exists s :: WellFormed(s) && 2 <= |s| <= 4 && Ends(xs, s) && Scalar(s) == cp
  {
    if Dispatched(xs) == Some(cp) {
      var before, x := xs[..|xs| - 1], xs[|xs| - 1];
      assert Step(Run(before), x).1 == Some(cp) && Run(before) != AT_REST && !x.discard;
      hide *;
      WaitingExplained(before);
      var s :| Explains(before, s);
      CompletesSequence(xs, s, cp);
    }
    if s :| WellFormed(s) && 2 <= |s| <= 4 && Ends(xs, s) && Scalar(s) == cp {
      SequenceDispatched(xs, s);
    }
  }

  lemma CompletesSequence(xs: seq<Input>, s: seq<bv8>, cp: bv32)
    requires xs != [] && Explains(xs[..|xs| - 1], s) && !xs[|xs| - 1].discard
    requires Step(Run(xs[..|xs| - 1]), xs[|xs| - 1]).1 == Some(cp)
    ensures exists s :: WellFormed(s) && 2 <= |s| <= 4 && Ends(xs, s) && Scalar(s) == cp
  {
    var x := xs[|xs| - 1];
    var all := s + [x.byte];
    NextByte(s, x.byte);
    EndsMore(xs, s);
    assert x == Input(x.byte, false);
    hide *;
    assert WellFormed(all) && 2 <= |all| <= 4 && Ends(xs, all) && Scalar(all) == cp;
  }

  lemma SequenceDispatched(xs: seq<Input>, s: seq<bv8>)
    requires WellFormed(s) && 2 <= |s| <= 4 && Ends(xs, s)
    ensures Dispatched(xs) == Some(Scalar(s))
  {
    WellFormedPrefix(s);
    EndsLess(xs, s);
    var before, t, c := xs[..|xs| - 1], s[..|s| - 1], s[|s| - 1];
    BegunReached(before, t);
    NextByte(t, c);
    assert t + [c] == s;
    assert Dispatched(xs) == Step(Run(before), Input(c, false)).1;
    hide *;
  }

  /** No surrogate, overlong form or number past 0x10FFFF is ever dispatched. */
  lemma DispatchesScalars(xs: seq<Input>, cp: bv32)
    requires Dispatched(xs) == Some(cp)
    ensures 0x80 <= cp <= 0x10ffff && !(0xd800 <= cp <= 0xdfff)
    ensures exists s :: WellFormed(s) && Ends(xs, s) && (|s| == 2 <==> cp < 0x800) && (|s| == 4 <==> cp >= 0x10000)
  {
    DispatchesWellFormed(xs, cp);
    var s :| WellFormed(s) && 2 <= |s| <= 4 && Ends(xs, s) && Scalar(s) == cp;
    ScalarRange(s);
    hide *;
  }

  lemma ScalarRange(s: seq<bv8>)
    requires WellFormed(s) && 2 <= |s| <= 4
    ensures var cp := Scalar(s);
            && 0x80 <= cp <= 0x10ffff && !(0xd800 <= cp <= 0xdfff)
            && (|s| == 2 <==> cp < 0x800) && (|s| == 4 <==> cp >= 0x10000)
  {
  }
}
