/** Bounded command output (internal/outputtail/buffer.go), on bytes. */
module OutputTail {
  import opened Common
  import opened Utf8

  const NEWLINE: Byte := 0x0A

  const MARKER_TEXT: string := "...[truncated]...\n"

  /** The bytes of ASCII text ("?" stands in for anything else). */
  function Ascii(s: string): (t: seq<Byte>)
    ensures |t| == |s| && forall i | 0 <= i < |s| :: t[i] < 0x80
  {
    seq(|s|, i requires 0 <= i < |s| => if s[i] < '\U{0080}' then s[i] as int as Byte else QUESTION_MARK)
  }

  const MARKER: seq<Byte> := Ascii(MARKER_TEXT)

  // ------------------------------------------------------------- line limit

  /** `s` without one trailing newline: where the line count stops looking. */
  function TextEnd(s: seq<Byte>): (end: nat)
    ensures end <= |s|
  {
    if s != [] && s[|s| - 1] == NEWLINE then |s| - 1 else |s|
  }

  function Newlines(s: seq<Byte>): nat {
    if s == [] then 0 else (if s[0] == NEWLINE then 1 else 0) + Newlines(s[1..])
  }

  /** Number of log lines; a trailing newline ends the last one. */
  function Lines(s: seq<Byte>): nat {
    1 + Newlines(s[..TextEnd(s)])
  }

  /** Walking left from `i`, the position behind the newline that would be one
      newline too many, or 0 when there is none; `spare` newlines are allowed. */
  function LineStart(s: seq<Byte>, i: nat, spare: nat): (p: nat)
    requires i <= |s|
    ensures p <= i
    ensures p > 0 ==> s[p - 1] == NEWLINE
  {
    if i == 0 then 0
    else if s[i - 1] == NEWLINE then
      if spare == 0 then i else LineStart(s, i - 1, spare - 1)
    else LineStart(s, i - 1, spare)
  }

  lemma {:induction false} NewlinesSplit(a: seq<Byte>, b: seq<Byte>)
    ensures Newlines(a + b) == Newlines(a) + Newlines(b)
    decreases |a|
  {
    if a == [] {
      assert a + b == b;
    } else {
      assert (a + b)[1..] == a[1..] + b;
      NewlinesSplit(a[1..], b);
    }
  }

  lemma NewlinesLast(s: seq<Byte>, j: nat, i: nat)
    requires j < i <= |s|
    ensures Newlines(s[j..i]) == Newlines(s[j..i - 1]) + (if s[i - 1] == NEWLINE then 1 else 0)
  {
    assert s[j..i] == s[j..i - 1] + [s[i - 1]];
    NewlinesSplit(s[j..i - 1], [s[i - 1]]);
    assert [s[i - 1]][1..] == [];
  }

  lemma NewlinesMonotone(s: seq<Byte>, j: nat, k: nat, i: nat)
    requires j <= k <= i <= |s|
    ensures Newlines(s[k..i]) <= Newlines(s[j..i])
  {
    assert s[j..i] == s[j..k] + s[k..i];
    NewlinesSplit(s[j..k], s[k..i]);
  }

  /** A cut at `p` keeps at most `spare` newlines before `i`, and one step to its
      left there is one too many. */
  ghost predicate ExactCut(s: seq<Byte>, p: nat, i: nat, spare: nat)
    requires p <= i <= |s|
  {
    Newlines(s[p..i]) <= spare && (p > 0 ==> Newlines(s[p - 1..i]) == spare + 1)
  }

  lemma ExactCutGrows(s: seq<Byte>, p: nat, i: nat, spare: nat)
    requires p < i <= |s| && ExactCut(s, p, i - 1, spare)
    ensures ExactCut(s, p, i, if s[i - 1] == NEWLINE then spare + 1 else spare)
  {
    NewlinesLast(s, p, i);
    if p > 0 {
      NewlinesLast(s, p - 1, i);
    }
  }

  lemma ExactCutHere(s: seq<Byte>, i: nat)
    requires 0 < i <= |s| && s[i - 1] == NEWLINE
    ensures ExactCut(s, i, i, 0)
  {
    NewlinesLast(s, i - 1, i);
    assert s[i..i] == [] && s[i - 1..i - 1] == [];
  }

  lemma {:induction false} LineStartExact(s: seq<Byte>, i: nat, spare: nat)
    requires i <= |s|
    ensures ExactCut(s, LineStart(s, i, spare), i, spare)
    decreases i
  {
    if i == 0 {
      assert s[0..0] == [];
    } else if s[i - 1] == NEWLINE && spare == 0 {
      ExactCutHere(s, i);
    } else {
      var spare' := if s[i - 1] == NEWLINE then spare - 1 else spare;
      LineStartExact(s, i - 1, spare');
      ExactCutGrows(s, LineStart(s, i - 1, spare'), i, spare');
    }
  }

  // ------------------------------------------------------------- byte limit

  /** The first position from `start` on where a character starts. */
  function Boundary(s: seq<Byte>, start: nat): (k: nat)
    requires start <= |s|
    ensures start <= k <= |s|
    ensures k < |s| ==> RuneStart(s[k])
    ensures forall j | start <= j < k :: !RuneStart(s[j])
    decreases |s| - start
  {
    if start < |s| && !RuneStart(s[start]) then Boundary(s, start + 1) else start
  }

  function MarkerFor(maxBytes: int): seq<Byte> {
    if |MARKER| >= maxBytes then [] else MARKER
  }

  /** Where the kept text starts in the repaired text `r`, marker to be shown. */
  function KeptFrom(r: seq<Byte>, lineStart: nat, budget: nat): (k: nat)
    requires lineStart <= |r|
    ensures lineStart <= k <= |r| && |r| - k <= budget
  {
    if |r| - lineStart > budget then Boundary(r, |r| - budget) else lineStart
  }

  function LineCut(r: seq<Byte>, maxLines: int): (p: nat)
    ensures p <= TextEnd(r)
  {
    if maxLines > 0 then LineStart(r, TextEnd(r), maxLines - 1) else 0
  }

  /** Room for text beside the marker. */
  function Budget(maxBytes: int): nat
    requires maxBytes > 0
  {
    maxBytes - |MarkerFor(maxBytes)|
  }

  /** Where the text shown beside the marker starts. */
  function CutAt(r: seq<Byte>, maxBytes: int, maxLines: int): (k: nat)
    requires maxBytes > 0
    ensures LineCut(r, maxLines) <= k <= |r| && |r| - k <= Budget(maxBytes)
  {
    KeptFrom(r, LineCut(r, maxLines), Budget(maxBytes))
  }

  /** The unexported tail, after repair. */
  function TailOfValid(r: seq<Byte>, maxBytes: int, maxLines: int, truncated: bool): seq<Byte>
    requires maxBytes > 0
  {
    var p := LineCut(r, maxLines);
    if !truncated && p == 0 && |r| <= maxBytes then r
    else MarkerFor(maxBytes) + r[CutAt(r, maxBytes, maxLines)..]
  }

  function TailFrom(s: seq<Byte>, maxBytes: int, maxLines: int, truncated: bool): seq<Byte> {
    if maxBytes <= 0 then [] else TailOfValid(Repair(s, false), maxBytes, maxLines, truncated)
  }

  predicate HasMarker(s: seq<Byte>) {
    MARKER <= s
  }

  function Unmarked(s: seq<Byte>): seq<Byte> {
    if HasMarker(s) then s[|MARKER|..] else s
  }

  function Tail(s: seq<Byte>, maxBytes: int, maxLines: int): seq<Byte> {
    TailFrom(Unmarked(s), maxBytes, maxLines, HasMarker(s))
  }

  /** The loop that looks for the newline in front of the last `maxLines` lines. */
  method FindLineCut(r: seq<Byte>, maxLines: int) returns (p: nat)
    requires maxLines > 0
    ensures p == LineCut(r, maxLines)
  {
    var end := |r|;
    if end > 0 && r[end - 1] == NEWLINE {
      end := end - 1;
    }
    var i, lines := end - 1, 1;
    while i >= 0
      invariant -1 <= i < end && 1 <= lines <= maxLines
      invariant LineCut(r, maxLines) == LineStart(r, i + 1, maxLines - lines)
    {
      if r[i] == NEWLINE {
        if lines == maxLines {
          return i + 1;
        }
        lines := lines + 1;
      }
      i := i - 1;
    }
    p := 0;
  }

  /** The loop that moves a byte cut to the next character. */
  method FindBoundary(s: seq<Byte>, from: nat) returns (start: nat)
    requires from <= |s|
    ensures start == Boundary(s, from)
  {
    start := from;
    while start < |s| && !RuneStart(s[start])
      invariant from <= start <= |s|
      invariant Boundary(s, from) == Boundary(s, start)
    {
      start := start + 1;
    }
  }

  /** `tail` with its two index loops. */
  method ComputeTail(s: seq<Byte>, maxBytes: int, maxLines: int, wasTruncated: bool) returns (t: seq<Byte>)
    ensures t == TailFrom(s, maxBytes, maxLines, wasTruncated)
  {
    if maxBytes <= 0 {
      return [];
    }
    var truncated := wasTruncated;
    var r := Repair(s, false);
    var p := 0;
    if maxLines > 0 {
      p := FindLineCut(r, maxLines);
      truncated := truncated || p > 0;
    }
    truncated := truncated || |r| - p > maxBytes;
    if !truncated {
      return r;
    }
    var cut := FindCut(r, p, maxBytes);
    t := MarkerFor(maxBytes) + r[cut..];
  }

  /** Where the text beside the marker starts, given where its lines start. */
  method FindCut(r: seq<Byte>, lineStart: nat, maxBytes: int) returns (k: nat)
    requires maxBytes > 0 && lineStart <= |r|
    ensures k == KeptFrom(r, lineStart, Budget(maxBytes))
  {
    var budget := maxBytes - |MarkerFor(maxBytes)|;
    k := lineStart;
    if |r| - lineStart > budget {
      k := FindBoundary(r, |r| - budget);
    }
  }

  // -------------------------------------------------- what the tail contains

  /** The suffix of `r` from `k` is whole characters, within `budget` bytes and
      (for a positive limit) within `maxLines` lines. */
  ghost predicate Fits(r: seq<Byte>, k: nat, budget: int, maxLines: int) {
    && k <= |r| && |r| - k <= budget
    && (k < |r| ==> RuneStart(r[k]))
    && LinesFit(r, k, maxLines)
  }

  ghost predicate LinesFit(r: seq<Byte>, k: nat, maxLines: int)
    requires k <= |r|
  {
    maxLines > 0 ==> Lines(r[k..]) <= maxLines
  }

  lemma LinesOfSuffix(r: seq<Byte>, k: nat)
    requires k <= TextEnd(r)
    ensures Lines(r[k..]) == 1 + Newlines(r[k..TextEnd(r)])
  {
    assert r[k..][..TextEnd(r[k..])] == r[k..TextEnd(r)];
  }

  lemma LineCutExact(r: seq<Byte>, maxLines: int, k: nat)
    requires maxLines > 0 && k <= |r|
    ensures Lines(r[k..]) <= maxLines <==> k >= LineCut(r, maxLines)
  {
    var end, p := TextEnd(r), LineCut(r, maxLines);
    LineStartExact(r, end, maxLines - 1);
    if k <= end {
      LinesOfSuffix(r, k);
      if k >= p {
        NewlinesMonotone(r, p, k, end);
      } else {
        NewlinesMonotone(r, k, p - 1, end);
      }
    } else {
      assert r[k..] == [];
    }
  }

  lemma CutIsBoundary(r: seq<Byte>, maxLines: int)
    requires Valid(r)
    ensures var p := LineCut(r, maxLines); Valid(r[p..]) && (p < |r| ==> RuneStart(r[p]))
  {
    var p := LineCut(r, maxLines);
    if p > 0 {
      ValidAfterAscii(r, p - 1);
    } else {
      assert r[0..] == r;
    }
    if p < |r| {
      ValidStart(r[p..]);
    }
  }

  /** `k` starts the longest suffix of `r` that fits. */
  ghost predicate LongestFit(r: seq<Byte>, k: nat, budget: int, maxLines: int) {
    Fits(r, k, budget, maxLines) && forall j: nat :: j < k ==> !Fits(r, j, budget, maxLines)
  }

  lemma CutIsLongestFit(r: seq<Byte>, maxBytes: int, maxLines: int)
    requires maxBytes > 0 && Valid(r)
    ensures LongestFit(r, CutAt(r, maxBytes, maxLines), Budget(maxBytes), maxLines)
  {
    var p, k := LineCut(r, maxLines), CutAt(r, maxBytes, maxLines);
    CutIsBoundary(r, maxLines);
    KeptStarts(r, p, Budget(maxBytes));
    LinesFitIff(r, maxLines, k);
    forall j: nat | j < k ensures !Fits(r, j, Budget(maxBytes), maxLines) {
      LinesFitIff(r, maxLines, j);
      if j >= p {
        KeptIsFirst(r, p, Budget(maxBytes), j);
      }
    }
  }

  /** The line limit alone: a suffix respects it exactly from the line cut on. */
  lemma LinesFitIff(r: seq<Byte>, maxLines: int, k: nat)
    requires k <= |r|
    ensures LinesFit(r, k, maxLines) <==> k >= LineCut(r, maxLines)
  {
    if maxLines > 0 {
      LineCutExact(r, maxLines, k);
    }
  }

  // The byte limit alone.

  lemma KeptStarts(r: seq<Byte>, p: nat, budget: nat)
    requires p <= |r| && (p < |r| ==> RuneStart(r[p]))
    ensures var k := KeptFrom(r, p, budget); k < |r| ==> RuneStart(r[k])
  {
  }

  lemma KeptIsFirst(r: seq<Byte>, p: nat, budget: nat, j: nat)
    requires p <= |r| && p <= j < KeptFrom(r, p, budget)
    ensures |r| - j > budget || !RuneStart(r[j])
  {
  }

  lemma WholeFits(r: seq<Byte>, maxBytes: int, maxLines: int)
    requires Valid(r)
    ensures Fits(r, 0, maxBytes, maxLines) <==> LineCut(r, maxLines) == 0 && |r| <= maxBytes
  {
    if r != [] {
      ValidStart(r);
    }
    LinesFitIff(r, maxLines, 0);
  }

  /**
   The tail is the longest suffix of the repaired text that is made of whole
   characters and respects both limits: all of it, without a marker, when it fits
   and nothing was cut before; otherwise as much as fits beside the marker's 18 bytes,
   or without a marker when there is no room for it and any text.
   */
  lemma TailFromIsLongestFit(s: seq<Byte>, maxBytes: int, maxLines: int, truncated: bool) returns (k: nat)
    ensures var r, t := Repair(s, false), TailFrom(s, maxBytes, maxLines, truncated);
            if maxBytes <= 0 then t == []
            else if !truncated && Fits(r, 0, maxBytes, maxLines) then t == r
            else if maxBytes <= 18 then LongestFit(r, k, maxBytes, maxLines) && t == r[k..]
            else LongestFit(r, k, maxBytes - 18, maxLines) && t == MARKER + r[k..]
  {
    k := 0;
    if maxBytes > 0 {
      var r := Repair(s, false);
      RepairedIsValid(s, false);
      MarkerIsValid();
      k := CutAt(r, maxBytes, maxLines);
      TailOfValidIs(r, maxBytes, maxLines, truncated, k);
    }
  }

  lemma TailOfValidIs(r: seq<Byte>, maxBytes: int, maxLines: int, truncated: bool, k: nat)
    requires maxBytes > 0 && Valid(r) && |MARKER| == 18 && k == CutAt(r, maxBytes, maxLines)
    ensures var t := TailOfValid(r, maxBytes, maxLines, truncated);
            if !truncated && Fits(r, 0, maxBytes, maxLines) then t == r
            else if maxBytes <= 18 then LongestFit(r, k, maxBytes, maxLines) && t == r[k..]
            else LongestFit(r, k, maxBytes - 18, maxLines) && t == MARKER + r[k..]
  {
    WholeFits(r, maxBytes, maxLines);
    CutIsLongestFit(r, maxBytes, maxLines);
    MarkerRoom(maxBytes);
    assert [] + r[k..] == r[k..];
  }

  lemma MarkerRoom(maxBytes: int)
    requires maxBytes > 0 && |MARKER| == 18
    ensures MarkerFor(maxBytes) == (if maxBytes <= 18 then [] else MARKER)
    ensures Budget(maxBytes) == if maxBytes <= 18 then maxBytes else maxBytes - 18
  {
  }

  /** So Tail does that to the text behind a marker, which counts as cut before. */
  lemma TailIsLongestFit(s: seq<Byte>, maxBytes: int, maxLines: int) returns (k: nat)
    ensures var r, t := Repair(if MARKER <= s then s[18..] else s, false), Tail(s, maxBytes, maxLines);
            if maxBytes <= 0 then t == []
            else if !(MARKER <= s) && Fits(r, 0, maxBytes, maxLines) then t == r
            else if maxBytes <= 18 then LongestFit(r, k, maxBytes, maxLines) && t == r[k..]
            else LongestFit(r, k, maxBytes - 18, maxLines) && t == MARKER + r[k..]
  {
    MarkerIsValid();
    k := TailFromIsLongestFit(Unmarked(s), maxBytes, maxLines, HasMarker(s));
  }

  ghost function NewlinesAt(s: seq<Byte>, end: int): set<int>
    requires end <= |s|
  {
    set i | 0 <= i < end && s[i] == 0x0A
  }

  /** A text has one line more than newlines before its last byte. */
  lemma LinesAre(s: seq<Byte>)
    ensures Lines(s) == 1 + |NewlinesAt(s, |s| - 1)|
  {
    NewlinesAre(s, TextEnd(s));
    assert NewlinesAt(s, TextEnd(s)) == NewlinesAt(s, |s| - 1);
    assert s[0..TextEnd(s)] == s[..TextEnd(s)];
  }

  lemma {:induction false} NewlinesAre(s: seq<Byte>, end: nat)
    requires end <= |s|
    ensures Newlines(s[0..end]) == |NewlinesAt(s, end)|
    decreases end
  {
    if end == 0 {
      assert NewlinesAt(s, end) == {};
    } else {
      NewlinesAre(s, end - 1);
      NewlinesLast(s, 0, end);
      assert NewlinesAt(s, end) == NewlinesAt(s, end - 1) + if s[end - 1] == 0x0A then {end - 1} else {};
    }
  }

  lemma KeptIsValid(r: seq<Byte>, maxBytes: int, maxLines: int)
    requires maxBytes > 0 && Valid(r)
    ensures Valid(r[CutAt(r, maxBytes, maxLines)..])
  {
    CutIsBoundary(r, maxLines);
    ValidFrom(r, CutAt(r, maxBytes, maxLines));
  }

  /** The stored text is well-formed UTF-8 within the byte limit. */
  lemma TailIsBoundedUtf8(s: seq<Byte>, maxBytes: int, maxLines: int, truncated: bool)
    ensures Valid(TailFrom(s, maxBytes, maxLines, truncated))
    ensures maxBytes >= 0 ==> |TailFrom(s, maxBytes, maxLines, truncated)| <= maxBytes
  {
    if maxBytes > 0 {
      RepairedIsValid(s, false);
      TailOfValidIsBounded(Repair(s, false), maxBytes, maxLines, truncated);
    }
  }

  lemma TailOfValidIsBounded(r: seq<Byte>, maxBytes: int, maxLines: int, truncated: bool)
    requires maxBytes > 0 && Valid(r)
    ensures Valid(TailOfValid(r, maxBytes, maxLines, truncated))
    ensures |TailOfValid(r, maxBytes, maxLines, truncated)| <= maxBytes
  {
    var k := CutAt(r, maxBytes, maxLines);
    KeptIsValid(r, maxBytes, maxLines);
    MarkedIsValid(r, maxBytes, k);
  }

  lemma MarkedIsValid(r: seq<Byte>, maxBytes: int, k: nat)
    requires maxBytes > 0 && k <= |r| && Valid(r[k..]) && |r| - k <= Budget(maxBytes)
    ensures Valid(MarkerFor(maxBytes) + r[k..]) && |MarkerFor(maxBytes) + r[k..]| <= maxBytes
  {
    MarkerIsValid();
    ValidConcat(MarkerFor(maxBytes), r[k..]);
  }

  lemma MarkerTextIsPlain()
    ensures |MARKER_TEXT| == 18
    ensures forall i | 0 <= i < 18 :: MARKER_TEXT[i] < '\U{0080}' && MARKER_TEXT[i] != '?'
    ensures forall i | 0 <= i < 17 :: MARKER_TEXT[i] != '\n'
  {
  }

  lemma MarkerIsValid()
    ensures Valid(MARKER) && |MARKER| == 18
    ensures forall i | 0 <= i < 18 :: MARKER[i] as int == "...[truncated]...\n"[i] as int
    ensures forall i | 0 <= i < |MARKER| :: MARKER[i] < 0x80 && MARKER[i] != QUESTION_MARK
    ensures forall i | 0 <= i < 17 :: MARKER[i] != NEWLINE
  {
    MarkerTextIsPlain();
    forall i | 0 <= i < 18 ensures MARKER[i] as int == MARKER_TEXT[i] as int && MARKER[i] < 0x80 && MARKER[i] != QUESTION_MARK {
      assert MARKER_TEXT[i] as int != '?' as int;
    }
    forall i | 0 <= i < 17 ensures MARKER[i] != NEWLINE {
      assert MARKER_TEXT[i] as int != '\n' as int;
    }
    AsciiIsValid(MARKER);
  }

  lemma {:induction false} AsciiIsValid(s: seq<Byte>)
    requires forall i | 0 <= i < |s| :: s[i] < 0x80
    ensures Valid(s)
    decreases |s|
  {
    if s != [] {
      AsciiIsValid(s[1..]);
    }
  }

  // ------------------------------------------------------------- idempotence

  lemma SuffixHasNoCut(r: seq<Byte>, maxLines: int, k: nat)
    requires LineCut(r, maxLines) <= k <= |r|
    ensures LineCut(r[k..], maxLines) == 0
  {
    if maxLines > 0 {
      LineCutExact(r, maxLines, k);
      LineCutExact(r[k..], maxLines, 0);
      assert r[k..][0..] == r[k..];
    }
  }

  /** Text that already respects the limits comes back unchanged. */
  lemma TailKeepsFitting(t: seq<Byte>, maxBytes: int, maxLines: int)
    requires maxBytes > 0 && Valid(t) && LineCut(t, maxLines) == 0
    ensures |t| <= maxBytes ==> TailFrom(t, maxBytes, maxLines, false) == t
    ensures |t| <= maxBytes - |MarkerFor(maxBytes)| ==> TailFrom(t, maxBytes, maxLines, true) == MarkerFor(maxBytes) + t
  {
    RepairKeepsValid(t);
    assert t[0..] == t;
  }

  lemma Remarked(t: seq<Byte>)
    ensures HasMarker(MARKER + t) && Unmarked(MARKER + t) == t
  {
  }

  lemma RepairAddsNoMarker(s: seq<Byte>)
    requires HasMarker(Repair(s, false))
    ensures HasMarker(s)
  {
    MarkerIsValid();
    RepairedPrefix(MARKER, s);
  }

  /** The cut branch: what was kept is kept again, beside the same marker. */
  lemma KeptTwice(kept: seq<Byte>, maxBytes: int, maxLines: int)
    requires maxBytes > 0 && maxBytes != |MARKER| && Valid(kept)
    requires LineCut(kept, maxLines) == 0 && |kept| <= Budget(maxBytes)
    ensures Tail(MarkerFor(maxBytes) + kept, maxBytes, maxLines) == MarkerFor(maxBytes) + kept
  {
    TailKeepsFitting(kept, maxBytes, maxLines);
    if |MARKER| >= maxBytes {
      assert [] + kept == kept;
    } else {
      Remarked(kept);
    }
  }

  /** Applying Tail twice with the same limits changes nothing, except where the
      byte limit is exactly the marker's length. */
  lemma TailTwice(s: seq<Byte>, maxBytes: int, maxLines: int)
    requires maxBytes != |MARKER|
    ensures Tail(Tail(s, maxBytes, maxLines), maxBytes, maxLines) == Tail(s, maxBytes, maxLines)
  {
    if maxBytes <= 0 {
      return;
    }
    var r := Repair(Unmarked(s), false);
    RepairedIsValid(Unmarked(s), false);
    if !HasMarker(s) && LineCut(r, maxLines) == 0 && |r| <= maxBytes {
      if HasMarker(r) {
        RepairAddsNoMarker(s);
      }
      TailKeepsFitting(r, maxBytes, maxLines);
    } else {
      var k := CutAt(r, maxBytes, maxLines);
      KeptIsValid(r, maxBytes, maxLines);
      SuffixHasNoCut(r, maxLines, k);
      KeptTwice(r[k..], maxBytes, maxLines);
    }
  }

  lemma OneLine(s: seq<Byte>, maxLines: int)
    requires forall i | 0 <= i < |s| - 1 :: s[i] != NEWLINE
    ensures LineCut(s, maxLines) == 0
  {
    if maxLines > 0 {
      NoNewlines(s[..TextEnd(s)]);
      LineCutExact(s, maxLines, 0);
      assert s[0..] == s;
    }
  }

  /** At the marker's own length the marker's text is taken for a marker and lost. */
  lemma TailTwiceLosesMarkerText(maxLines: int)
    ensures Tail([QUESTION_MARK] + MARKER, |MARKER|, maxLines) == MARKER
    ensures Tail(MARKER, |MARKER|, maxLines) == []
  {
    MarkerIsValid();
    LastBytesOnly(MARKER, maxLines);
    assert !HasMarker([QUESTION_MARK] + MARKER) by {
      assert ([QUESTION_MARK] + MARKER)[0] != MARKER[0];
    }
    Remarked([]);
    assert MARKER + [] == MARKER;
  }

  lemma LastBytesOnly(m: seq<Byte>, maxLines: int)
    requires |m| == |MARKER| == 18 && (forall i | 0 <= i < 18 :: m[i] < 0x80) && forall i | 0 <= i < 17 :: m[i] != NEWLINE
    ensures TailFrom([QUESTION_MARK] + m, 18, maxLines, false) == m
    ensures TailFrom([], 18, maxLines, true) == []
  {
    var s := [QUESTION_MARK] + m;
    AsciiIsValid(s);
    RepairKeepsValid(s);
    OneLine(s, maxLines);
    assert s[1..] == m && Boundary(s, 1) == 1;
    assert TailOfValid(s, 18, maxLines, false) == [] + s[1..];
    NothingLeft(maxLines);
  }

  lemma NothingLeft(maxLines: int)
    requires |MARKER| == 18
    ensures TailFrom([], 18, maxLines, true) == []
  {
    OneLine([], maxLines);
    assert TailOfValid([], 18, maxLines, true) == [] + [];
  }

  lemma {:induction false} NoNewlines(s: seq<Byte>)
    requires forall i | 0 <= i < |s| :: s[i] != NEWLINE
    ensures Newlines(s) == 0
    decreases |s|
  {
    if s != [] {
      NoNewlines(s[1..]);
    }
  }

  /** The exact condition on the limits under which Tail is idempotent on every text. */
  lemma TailIdempotentIff(maxBytes: int, maxLines: int)
    ensures (forall s :: Tail(Tail(s, maxBytes, maxLines), maxBytes, maxLines) == Tail(s, maxBytes, maxLines))
            <==> maxBytes != 18
  {
    MarkerIsValid();
    if maxBytes == 18 {
      TailTwiceLosesMarkerText(maxLines);
      var s := [QUESTION_MARK] + MARKER;
      assert Tail(Tail(s, maxBytes, maxLines), maxBytes, maxLines) != Tail(s, maxBytes, maxLines);
    } else {
      forall s {
        TailTwice(s, maxBytes, maxLines);
      }
    }
  }

  // ------------------------------------------------------------- the buffer

  /** Appending to a retained tail retains the tail of the appended stream. */
  lemma LastAppend(s: seq<Byte>, p: seq<Byte>, n: nat)
    ensures Last(s + p, n) == if |p| >= n then p[|p| - n..] else Last(s, n - |p|) + p
    ensures |p| < n ==> Last(s, n - |p|) == Last(Last(s, n), n - |p|)
  {
  }

  /** The writer that stands for the whole stream by its last `maxBytes` bytes. */
  class Buffer {
    const data: array<Byte>
    var len: nat
    var truncated: bool
    ghost var written: seq<Byte>

    ghost predicate IsValid()
      reads this, data
    {
      && 1 <= data.Length && len <= data.Length
      && data[..len] == Last(written, data.Length)
      && (truncated <==> |written| > data.Length)
    }

    constructor (maxBytes: int)
      ensures IsValid() && fresh(data) && written == []
      ensures data.Length == if maxBytes <= 0 then 1 else maxBytes
    {
      data := new Byte[if maxBytes <= 0 then 1 else maxBytes];
      len, truncated, written := 0, false, [];
    }

    /** After any sequence of writes the buffer holds exactly the last bytes of
        everything written, and knows whether anything was dropped. */
    method Write(p: seq<Byte>) returns (n: nat)
      requires IsValid()
      modifies this, data
      ensures IsValid() && written == old(written) + p && n == |p|
    {
      n := |p|;
      if n == 0 {
        assert written + p == written;
        return;
      }
      if n >= data.Length {
        Replace(p);
      } else {
        Append(p);
      }
    }

    /** A write of at least the whole capacity. */
    method Replace(p: seq<Byte>)
      requires IsValid() && |p| >= data.Length
      modifies this, data
      ensures IsValid() && written == old(written) + p
    {
      truncated := truncated || len > 0 || |p| > data.Length;
      CopyIn(p[|p| - data.Length..], 0);
      len := data.Length;
      written := written + p;
      LastAppend(old(written), p, data.Length);
      assert data[..len] == data[0..len];
    }

    /** A smaller write: drop what no longer fits from the front, then append. */
    method Append(p: seq<Byte>)
      requires IsValid() && 0 < |p| < data.Length
      modifies this, data
      ensures IsValid() && written == old(written) + p
    {
      LastAppend(written, p, data.Length);
      MakeRoom(|p|);
      CopyIn(p, len);
      Joined(len, len + |p|);
      len := len + |p|;
      written := written + p;
    }

    lemma Joined(at: nat, end: nat)
      requires at <= end <= data.Length
      ensures data[..end] == data[..at] + data[at..end]
    {
    }

    /** Drops just enough from the front for `n` more bytes. */
    method MakeRoom(n: nat)
      requires IsValid() && 0 < n < data.Length
      modifies this, data
      ensures written == old(written)
      ensures len + n <= data.Length && data[..len] == Last(written, data.Length - n)
      ensures truncated <==> |written| + n > data.Length
    {
      if len + n > data.Length {
        var overflow := len + n - data.Length;
        ShiftLeft(overflow);
        len := len - overflow;
        truncated := true;
      }
    }

    method CopyIn(p: seq<Byte>, at: nat)
      requires at + |p| <= data.Length
      modifies data
      ensures data[..at] == old(data[..at])
      ensures data[at..at + |p|] == p
    {
      var i := 0;
      while i < |p|
        invariant 0 <= i <= |p|
        invariant data[..at] == old(data[..at])
        invariant data[at..at + i] == p[..i]
      {
        data[at + i] := p[i];
        i := i + 1;
      }
    }

    method ShiftLeft(overflow: nat)
      requires overflow <= len <= data.Length
      modifies data
      ensures data[..len - overflow] == old(data[overflow..len])
    {
      var i := 0;
      while i < len - overflow
        invariant 0 <= i <= len - overflow
        invariant data[..i] == old(data[overflow..overflow + i])
        invariant data[i + overflow..len] == old(data[i + overflow..len])
      {
        assert data[i + overflow..len][0] == old(data[i + overflow..len])[0];
        data[i] := data[i + overflow];
        i := i + 1;
      }
    }

    /** A snapshot: the tail of the whole stream so far, marked once bytes are lost. */
    method String() returns (t: seq<Byte>)
      requires IsValid()
      ensures t == TailFrom(Last(written, data.Length), data.Length, 0, |written| > data.Length)
      ensures Utf8.Valid(t) && |t| <= data.Length
    {
      t := ComputeTail(data[..len], data.Length, 0, truncated);
      TailIsBoundedUtf8(data[..len], data.Length, 0, truncated);
    }
  }
}
