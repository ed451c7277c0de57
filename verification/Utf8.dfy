/** UTF-8 as section 3 of RFC 3629 defines it, and the repair of ill-formed text. */
module Utf8 {
  import opened Common

  newtype Byte = b: int | 0 <= b < 256

  predicate IsContinuation(b: Byte) {
    0x80 <= b <= 0xBF
  }

  /** A byte a character may start with (utf8.RuneStart). */
  predicate RuneStart(b: Byte) {
    !IsContinuation(b)
  }

  /** The range the second byte must lie in, by first byte. */
  predicate SecondByteOk(b0: Byte, b1: Byte) {
    if b0 == 0xE0 then 0xA0 <= b1 <= 0xBF
    else if b0 == 0xED then 0x80 <= b1 <= 0x9F
    else if b0 == 0xF0 then 0x90 <= b1 <= 0xBF
    else if b0 == 0xF4 then 0x80 <= b1 <= 0x8F
    else IsContinuation(b1)
  }

  /** Length of the character `s` starts with, 0 when it starts with none. */
  function RuneLen(s: seq<Byte>): (n: nat)
    ensures n <= |s| && n <= 4
    ensures n > 0 ==> RuneStart(s[0])
    ensures forall i | 0 < i < n :: IsContinuation(s[i])
  {
    if s == [] then 0
    else if s[0] < 0x80 then 1
    else if 0xC2 <= s[0] <= 0xDF then
      if |s| >= 2 && SecondByteOk(s[0], s[1]) then 2 else 0
    else if 0xE0 <= s[0] <= 0xEF then
      if |s| >= 3 && SecondByteOk(s[0], s[1]) && IsContinuation(s[2]) then 3 else 0
    else if 0xF0 <= s[0] <= 0xF4 then
      if |s| >= 4 && SecondByteOk(s[0], s[1]) && IsContinuation(s[2]) && IsContinuation(s[3]) then 4 else 0
    else 0
  }

  /** A concatenation of characters. */
  predicate Valid(s: seq<Byte>) {
    s == [] || (RuneLen(s) > 0 && Valid(s[RuneLen(s)..]))
  }

  // ------------------------------------------------- the characters themselves

  /** A Unicode scalar value: a code point that is not a surrogate. */
  ghost predicate IsScalar(c: int) {
    0 <= c <= 0x10FFFF && !(0xD800 <= c <= 0xDFFF)
  }

  /** The bytes of a scalar value, as the table in section 3 of RFC 3629 lays them out. */
  ghost function Encoded(c: int): seq<Byte>
    requires IsScalar(c)
  {
    if c < 0x80 then [c as Byte]
    else if c < 0x800 then [(0xC0 + c / 64) as Byte, Payload(c)]
    else if c < 0x1_0000 then [(0xE0 + c / 64 / 64) as Byte, Payload(c / 64), Payload(c)]
    else [(0xF0 + c / 64 / 64 / 64) as Byte, Payload(c / 64 / 64), Payload(c / 64), Payload(c)]
  }

  /** A continuation byte with the low six bits of `c`. */
  ghost function Payload(c: nat): Byte {
    (0x80 + c % 64) as Byte
  }

  ghost function EncodedAll(cs: seq<int>): seq<Byte>
    requires forall i | 0 <= i < |cs| :: IsScalar(cs[i])
  {
    if cs == [] then [] else Encoded(cs[0]) + EncodedAll(cs[1..])
  }

  lemma EncodedIsRune(c: int)
    requires IsScalar(c)
    ensures RuneLen(Encoded(c)) == |Encoded(c)| > 0
  {
  }

  /** The number whose low six bits are those of the continuation byte `b`. */
  ghost function Shifted(q: nat, b: Byte): nat
    requires IsContinuation(b)
  {
    64 * q + (b as int - 0x80)
  }

  lemma ShiftedBack(q: nat, b: Byte)
    requires IsContinuation(b)
    ensures Payload(Shifted(q, b)) == b && Shifted(q, b) / 64 == q
  {
  }

  lemma RuneIsEncoded(s: seq<Byte>) returns (c: int)
    requires RuneLen(s) > 0
    ensures IsScalar(c) && s[..RuneLen(s)] == Encoded(c)
  {
    var n := RuneLen(s);
    if n == 1 {
      c := s[0] as int;
    } else if n == 2 {
      c := Shifted(s[0] as int - 0xC0, s[1]);
      ShiftedBack(s[0] as int - 0xC0, s[1]);
      assert Encoded(c) == [s[0], s[1]];
    } else if n == 3 {
      c := ThreeBytes(s[0], s[1], s[2]);
      assert Encoded(c) == [s[0], s[1], s[2]];
    } else {
      c := FourBytes(s[0], s[1], s[2], s[3]);
      assert Encoded(c) == [s[0], s[1], s[2], s[3]];
    }
  }

  lemma ThreeBytes(b0: Byte, b1: Byte, b2: Byte) returns (c: int)
    requires 0xE0 <= b0 <= 0xEF && IsContinuation(b1) && SecondByteOk(b0, b1) && IsContinuation(b2)
    ensures IsScalar(c) && Encoded(c) == [b0, b1, b2]
  {
    var high := Shifted(b0 as int - 0xE0, b1);
    c := Shifted(high, b2);
    ShiftedBack(b0 as int - 0xE0, b1);
    ShiftedBack(high, b2);
    assert 0x800 <= c < 0x1_0000;
  }

  lemma FourBytes(b0: Byte, b1: Byte, b2: Byte, b3: Byte) returns (c: int)
    requires 0xF0 <= b0 <= 0xF4 && IsContinuation(b1) && SecondByteOk(b0, b1) && IsContinuation(b2) && IsContinuation(b3)
    ensures IsScalar(c) && Encoded(c) == [b0, b1, b2, b3]
  {
    var top := Shifted(b0 as int - 0xF0, b1);
    var high := Shifted(top, b2);
    c := Shifted(high, b3);
    ShiftedBack(b0 as int - 0xF0, b1);
    ShiftedBack(top, b2);
    ShiftedBack(high, b3);
    assert 0x1_0000 <= c <= 0x10FFFF;
  }

  /** The accepted texts are exactly the encodings of sequences of scalar values. */
  lemma ValidIff(s: seq<Byte>)
    ensures Valid(s) <==> exists cs: seq<int> :: (forall i | 0 <= i < |cs| :: IsScalar(cs[i])) && EncodedAll(cs) == s
  {
    if Valid(s) {
      var cs := ValidIsEncoded(s);
    }
    forall cs: seq<int> | (forall i | 0 <= i < |cs| :: IsScalar(cs[i])) && EncodedAll(cs) == s
      ensures Valid(s)
    {
      EncodedIsValid(cs);
    }
  }

  lemma {:induction false} EncodedIsValid(cs: seq<int>)
    requires forall i | 0 <= i < |cs| :: IsScalar(cs[i])
    ensures Valid(EncodedAll(cs))
    decreases |cs|
  {
    if cs != [] {
      var first, rest := Encoded(cs[0]), EncodedAll(cs[1..]);
      EncodedIsValid(cs[1..]);
      EncodedIsRune(cs[0]);
      RunePrefix(first, rest);
      assert (first + rest)[|first|..] == rest;
    }
  }

  lemma {:induction false} ValidIsEncoded(s: seq<Byte>) returns (cs: seq<int>)
    requires Valid(s)
    ensures forall i | 0 <= i < |cs| :: IsScalar(cs[i])
    ensures EncodedAll(cs) == s
    decreases |s|
  {
    cs := [];
    if s != [] {
      var n := RuneLen(s);
      var rest := ValidIsEncoded(s[n..]);
      var c := RuneIsEncoded(s);
      cs := [c] + rest;
      Rejoined(s, n);
    }
  }

  // ------------------------------------------------------------------ repair

  const QUESTION_MARK: Byte := 0x3F

  /** strings.ToValidUTF8(s, "?"): each run of ill-formed bytes becomes one "?".
      `inRun` says the byte before `s` was ill-formed. */
  function Repair(s: seq<Byte>, inRun: bool): (r: seq<Byte>)
    ensures |r| <= |s|
  {
    if s == [] then []
    else if RuneLen(s) == 0 then (if inRun then [] else [QUESTION_MARK]) + Repair(s[1..], true)
    else s[..RuneLen(s)] + Repair(s[RuneLen(s)..], false)
  }

  /** A complete character does not depend on what follows it. */
  lemma RunePrefix(a: seq<Byte>, b: seq<Byte>)
    requires RuneLen(a) > 0
    ensures RuneLen(a + b) == RuneLen(a)
  {
    var s := a + b;
    assert s[0] == a[0] && (|a| > 1 ==> s[1] == a[1]) && (|a| > 2 ==> s[2] == a[2]) && (|a| > 3 ==> s[3] == a[3]);
  }

  lemma {:induction false} ValidConcat(a: seq<Byte>, b: seq<Byte>)
    requires Valid(a) && Valid(b)
    ensures Valid(a + b)
    decreases |a|
  {
    if a == [] {
      assert a + b == b;
    } else {
      var n := RuneLen(a);
      RunePrefix(a, b);
      ConcatDrops(a, b, n);
      ValidConcat(a[n..], b);
    }
  }

  lemma RuneIsValid(s: seq<Byte>)
    requires RuneLen(s) > 0
    ensures Valid(s[..RuneLen(s)])
  {
    var n := RuneLen(s);
    assert s[..n][n..] == [];
  }

  lemma {:induction false} RepairedIsValid(s: seq<Byte>, inRun: bool)
    ensures Valid(Repair(s, inRun))
    decreases |s|
  {
    if s == [] {
    } else if RuneLen(s) == 0 {
      RepairedIsValid(s[1..], true);
      assert [QUESTION_MARK][1..] == [];
      ValidConcat([QUESTION_MARK], Repair(s[1..], true));
      assert [] + Repair(s[1..], true) == Repair(s[1..], true);
    } else {
      var n := RuneLen(s);
      RepairedIsValid(s[n..], false);
      RuneIsValid(s);
      ValidConcat(s[..n], Repair(s[n..], false));
    }
  }

  /** Well-formed text is left alone. */
  lemma {:induction false} RepairKeepsValid(s: seq<Byte>)
    requires Valid(s)
    ensures Repair(s, false) == s
    decreases |s|
  {
    if s != [] {
      RepairKeepsValid(s[RuneLen(s)..]);
      assert s == s[..RuneLen(s)] + s[RuneLen(s)..];
    }
  }

  /** With `b` behind it, no character starts anywhere in `x`. */
  ghost predicate NoneStarts(x: seq<Byte>, b: seq<Byte>) {
    x == [] || (RuneLen(x + b) == 0 && NoneStarts(x[1..], b))
  }

  /** A whole run of ill-formed bytes, with `b` behind it. */
  ghost predicate IllFormedRun(x: seq<Byte>, b: seq<Byte>) {
    x != [] && NoneStarts(x, b) && (b == [] || RuneLen(b) > 0)
  }

  /** Behind well-formed text, a whole run of ill-formed bytes becomes one "?", and the
      repair goes on with what follows. */
  lemma {:induction false} RepairRun(a: seq<Byte>, x: seq<Byte>, b: seq<Byte>)
    requires Valid(a) && IllFormedRun(x, b)
    ensures Repair(a + (x + b), false) == a + ([0x3F] + Repair(b, false))
    decreases |a|
  {
    if a == [] {
      assert a + (x + b) == x + b;
      RepairFirstRun(x, b);
    } else {
      var n := RuneLen(a);
      RepairRune(a, x + b);
      RepairRun(a[n..], x, b);
      SplitConcat(a, n, [0x3F] + Repair(b, false));
    }
  }

  lemma RepairRune(a: seq<Byte>, t: seq<Byte>)
    requires RuneLen(a) > 0
    ensures Repair(a + t, false) == a[..RuneLen(a)] + Repair(a[RuneLen(a)..] + t, false)
  {
    var n := RuneLen(a);
    RunePrefix(a, t);
    ConcatDrops(a, t, n);
    assert (a + t)[..n] == a[..n];
  }

  lemma RepairFirstRun(x: seq<Byte>, b: seq<Byte>)
    requires IllFormedRun(x, b)
    ensures Repair(x + b, false) == [0x3F] + Repair(b, false)
  {
    ConcatDrops(x, b, 1);
    RestOfRun(x[1..], b);
  }

  lemma {:induction false} RestOfRun(x: seq<Byte>, b: seq<Byte>)
    requires NoneStarts(x, b) && (b == [] || RuneLen(b) > 0)
    ensures Repair(x + b, true) == Repair(b, false)
    decreases |x|
  {
    if x == [] {
      assert x + b == b;
    } else {
      ConcatDrops(x, b, 1);
      RestOfRun(x[1..], b);
    }
  }

  /** Every text is well-formed, or splits at its first run of ill-formed bytes: so this
      law and RepairKeepsValid say what the repair of every text is. */
  lemma {:induction false} FirstRun(s: seq<Byte>) returns (a: seq<Byte>, x: seq<Byte>, b: seq<Byte>)
    requires !Valid(s)
    ensures s == a + (x + b) && Valid(a) && IllFormedRun(x, b)
    decreases |s|
  {
    var n := RuneLen(s);
    if n == 0 {
      x, b := RunFrom(s);
      a := [];
      assert a + (x + b) == x + b;
    } else {
      var rest;
      rest, x, b := FirstRun(s[n..]);
      RuneIsValid(s);
      ValidConcat(s[..n], rest);
      a := s[..n] + rest;
      Rejoined(s, n);
      ConcatAssociates(s[..n], rest, x + b);
    }
  }

  lemma {:induction false} RunFrom(s: seq<Byte>) returns (x: seq<Byte>, b: seq<Byte>)
    requires s != [] && RuneLen(s) == 0
    ensures s == x + b && IllFormedRun(x, b)
    decreases |s|
  {
    if |s| == 1 || RuneLen(s[1..]) > 0 {
      x, b := s[..1], s[1..];
      assert x + b == s && x[1..] == [];
    } else {
      var y;
      y, b := RunFrom(s[1..]);
      x := [s[0]] + y;
      assert x + b == s && x[1..] == y;
    }
  }

  /** Between well-formed texts a run becomes one "?". */
  lemma RepairBetween(a: seq<Byte>, x: seq<Byte>, b: seq<Byte>)
    requires Valid(a) && Valid(b) && IllFormedRun(x, b)
    ensures Repair(a + x + b, false) == a + [0x3F] + b
  {
    RepairRun(a, x, b);
    RepairKeepsValid(b);
    ConcatAssociates(a, x, b);
    ConcatAssociates(a, [0x3F], b);
  }

  /** Repair cannot produce ASCII text without "?" that was not there before. */
  lemma {:induction false} RepairedPrefix(p: seq<Byte>, s: seq<Byte>)
    requires p <= Repair(s, false)
    requires forall i | 0 <= i < |p| :: p[i] < 0x80 && p[i] != QUESTION_MARK
    ensures p <= s
    decreases |p|
  {
    if p != [] {
      var r := Repair(s, false);
      assert p[0] == r[0];
      if RuneLen(s) != 0 {
        assert r[0] == s[0];
        assert r == [s[0]] + Repair(s[1..], false);
        assert p[1..] <= r[1..] == Repair(s[1..], false);
        RepairedPrefix(p[1..], s[1..]);
        assert p == [p[0]] + p[1..] && s == [s[0]] + s[1..];
      }
    }
  }

  /** Cutting well-formed text where a character starts leaves it well-formed. */
  lemma {:induction false} ValidFrom(s: seq<Byte>, i: nat)
    requires Valid(s) && i <= |s| && (i < |s| ==> RuneStart(s[i]))
    ensures Valid(s[i..])
    decreases |s|
  {
    var n := RuneLen(s);
    if i >= n && n > 0 {
      ValidFrom(s[n..], i - n);
      assert s[n..][i - n..] == s[i..];
    } else {
      assert i == 0;
      assert s[0..] == s;
    }
  }

  /** One-byte characters may be dropped from the front. */
  lemma ValidAfterAscii(s: seq<Byte>, i: nat)
    requires Valid(s) && i < |s| && s[i] < 0x80
    ensures Valid(s[i + 1..])
  {
    ValidFrom(s, i);
    assert s[i..][1..] == s[i + 1..];
  }

  lemma ValidStart(s: seq<Byte>)
    requires Valid(s) && s != []
    ensures RuneStart(s[0])
  {
  }
}
