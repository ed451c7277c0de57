/**
 What the statement scanner reads, by an independent account: a statement is a sequence
 of pieces (ordinary characters, quoted literals, comments to the end of the line and
 block comments), each judged by the text behind it. The scanner succeeds exactly on
 texts that fall into pieces, and what it returns is what the pieces keep.
 */
module SqlPieces {
  import opened Common
  import opened SqlGuard

  datatype Piece =
    | Plain(c: char)
    | Quoted(q: char, body: string)
    | ToLineEnd(text: string)
    | Block(text: string)

  function TextOf(p: Piece): string {
    match p
    case Plain(c) => [c]
    case Quoted(q, body) => [q] + body + [q]
    case ToLineEnd(text) => text
    case Block(text) => "/*" + text + "*/"
  }

  /** What is executed: comments to the end of the line go, a block comment leaves one blank. */
  function CodeOf(p: Piece): string {
    match p
    case Plain(c) => [c]
    case Quoted(q, body) => [q] + body + [q]
    case ToLineEnd(_) => []
    case Block(_) => " "
  }

  function MaskOf(p: Piece): string {
    match p
    case Plain(c) => [c]
    case Quoted(q, body) => [q] + seq(|body|, _ => ' ') + [q]
    case ToLineEnd(_) => []
    case Block(_) => " "
  }

  ghost predicate White(c: char) {
    c == ' ' || c == '\t' || c == '\n' || c == '\r' || c == '\U{000C}' || c == '\U{000B}'
  }

  /** The inside of a literal: quotes are doubled or escaped, and only "`" takes a
      backslash as an ordinary character. */
  ghost predicate IsBody(body: string, q: char) {
    || body == []
    || (body[0] == '\\' && q != '`' && |body| >= 2 && IsBody(body[2..], q))
    || (body[0] == q && |body| >= 2 && body[1] == q && IsBody(body[2..], q))
    || (body[0] != q && !(body[0] == '\\' && q != '`') && IsBody(body[1..], q))
  }

  /** "*" and "/" side by side. */
  ghost predicate EndsBlockAt(s: string, k: nat) {
    k + 1 < |s| && s[k] == '*' && s[k + 1] == '/'
  }

  /** The piece is one, given the text behind it. */
  ghost predicate Stands(p: Piece, rest: string) {
    match p
    case Plain(c) =>
      && c !in {'\'', '"', '`', '#'}
      && !(c == '-' && rest != [] && rest[0] == '-' && (|rest| == 1 || White(rest[1])))
      && !(c == '/' && rest != [] && rest[0] == '*')
    case Quoted(q, body) => q in {'\'', '"', '`'} && IsBody(body, q) && (rest == [] || rest[0] != q)
    case ToLineEnd(text) =>
      && text != [] && '\n' !in text && (rest == [] || rest[0] == '\n')
      && (text[0] == '#' || (|text| >= 2 && text[0] == '-' && text[1] == '-' && (|text| > 2 ==> White(text[2]))))
    case Block(text) => (text != [] ==> text[0] != '!') && forall k: nat | k < |text| :: !EndsBlockAt(text + "*/", k)
  }

  function Text(ps: seq<Piece>): string {
    if ps == [] then [] else TextOf(ps[0]) + Text(ps[1..])
  }

  function Code(ps: seq<Piece>): string {
    if ps == [] then [] else CodeOf(ps[0]) + Code(ps[1..])
  }

  function Mask(ps: seq<Piece>): string {
    if ps == [] then [] else MaskOf(ps[0]) + Mask(ps[1..])
  }

  /** Every piece is one, `rest` being the text behind the last. */
  ghost predicate Stand(ps: seq<Piece>, rest: string)
    decreases |ps|
  {
    ps == [] || (Stands(ps[0], Text(ps[1..]) + rest) && Stand(ps[1..], rest))
  }

  // --------------------------------------------------------- pieces are read

  lemma {:induction false} BodyIsRead(body: string, q: char, rest: string)
    requires q in {'\'', '"', '`'} && IsBody(body, q) && (rest == [] || rest[0] != q)
    ensures BodyLen(body + ([q] + rest), q) == Some(|body| + 1)
    decreases |body|
  {
    var s := body + ([q] + rest);
    if body == [] {
      assert s == [q] + rest;
    } else {
      var k := if (body[0] == '\\' && q != '`') || body[0] == q then 2 else 1;
      assert s[0] == body[0] && (k == 2 ==> s[1] == body[1]);
      assert BodyToken(s, 0, q) == k;
      ConcatDrops(body, [q] + rest, k);
      BodyIsRead(body[k..], q, rest);
      BodyStep(s, 0, q);
      assert s[0..] == s;
    }
  }

  lemma {:induction false} LineLenIs(s: string, n: nat)
    requires n <= |s| && (forall i | 0 <= i < n :: s[i] != '\n') && (n < |s| ==> s[n] == '\n')
    ensures LineLen(s) == n
    decreases n
  {
    if n > 0 {
      LineLenIs(s[1..], n - 1);
    }
  }

  lemma {:induction false} BlockLenIs(s: string, n: nat)
    requires EndsBlockAt(s, n) && forall k: nat | k < n :: !EndsBlockAt(s, k)
    ensures BlockLen(s) == Some(n)
    decreases n
  {
    if n > 0 {
      assert !EndsBlockAt(s, 0);
      forall k: nat | k < n - 1 ensures !EndsBlockAt(s[1..], k) {
        assert !EndsBlockAt(s, k + 1);
      }
      BlockLenIs(s[1..], n - 1);
    }
  }

  lemma QuotedScans(q: char, body: string, rest: string)
    requires Stands(Quoted(q, body), rest)
    ensures Scan([q] + body + [q] + rest) == Prepend(CodeOf(Quoted(q, body)), MaskOf(Quoted(q, body)), Scan(rest))
  {
    var inner := body + ([q] + rest);
    var s := [q] + inner;
    BodyIsRead(body, q, rest);
    ConcatSplits([q], inner);
    ScanClosedLiteral(s, |body| + 1);
    ConcatAssociates([q] + body, [q], rest);
    ConcatAssociates([q], body, [q] + rest);
    ConcatSplits([q] + body + [q], rest);
    assert MaskLiteral(q, |body| + 1) == MaskOf(Quoted(q, body));
  }

  lemma LineCommentScans(text: string, rest: string)
    requires Stands(ToLineEnd(text), rest)
    ensures Scan(text + rest) == Scan(rest)
  {
    var s := text + rest;
    assert s[0] == text[0] && (|text| > 1 ==> s[1] == text[1]) && (|text| > 2 ==> s[2] == text[2]);
    assert |text| == 2 && rest != [] ==> s[2] == rest[0];
    assert forall i | 0 <= i < |text| :: s[i] == text[i];
    assert StartsLineComment(s);
    LineLenIs(s, |text|);
    ConcatSplits(text, rest);
  }

  lemma BlockIsRead(text: string, rest: string)
    requires Stands(Block(text), rest)
    ensures BlockLen(text + "*/" + rest) == Some(|text|)
  {
    var inner := text + "*/" + rest;
    forall k: nat | k < |text| ensures !EndsBlockAt(inner, k) {
      assert !EndsBlockAt(text + "*/", k);
      assert inner[k] == (text + "*/")[k] && inner[k + 1] == (text + "*/")[k + 1];
    }
    assert EndsBlockAt(inner, |text|);
    BlockLenIs(inner, |text|);
  }

  lemma BlockTextSplits(text: string, rest: string)
    ensures var s := "/*" + text + "*/" + rest;
            s[0] == '/' && s[1] == '*' && s[2..] == text + "*/" + rest && s[|text| + 4..] == rest
  {
  }

  lemma BlockCommentScans(text: string, rest: string)
    requires Stands(Block(text), rest)
    ensures Scan("/*" + text + "*/" + rest) == Prepend(" ", " ", Scan(rest))
  {
    var s := "/*" + text + "*/" + rest;
    BlockTextSplits(text, rest);
    BlockIsRead(text, rest);
    assert s[2] == s[2..][0];
    assert StartsBlockComment(s) && !StartsLineComment(s) && s[2] != '!';
    ScanByToken(s);
  }

  lemma PlainScans(c: char, rest: string)
    requires Stands(Plain(c), rest)
    ensures Scan([c] + rest) == Prepend([c], [c], Scan(rest))
  {
    var s := [c] + rest;
    ConcatSplits([c], rest);
    assert !StartsLineComment(s) && !StartsBlockComment(s);
  }

  lemma PieceScans(p: Piece, rest: string)
    requires Stands(p, rest)
    ensures Scan(TextOf(p) + rest) == Prepend(CodeOf(p), MaskOf(p), Scan(rest))
  {
    match p
    case Plain(c) => PlainScans(c, rest);
    case Quoted(q, body) => QuotedScans(q, body, rest);
    case ToLineEnd(text) =>
      LineCommentScans(text, rest);
      PrependNothing(Scan(rest));
    case Block(text) => BlockCommentScans(text, rest);
  }

  /** Text that falls into pieces in front of `rest` is scanned as what the pieces keep,
      followed by the scan of `rest`: a comment leaves nothing, or one blank, and what is
      behind it is scanned as if it were not there. */
  lemma {:induction false} PiecesScan(ps: seq<Piece>, rest: string)
    requires Stand(ps, rest)
    ensures Scan(Text(ps) + rest) == Prepend(Code(ps), Mask(ps), Scan(rest))
    decreases |ps|
  {
    if ps == [] {
      assert [] + rest == rest;
      PrependNothing(Scan(rest));
    } else {
      var p, others := ps[0], ps[1..];
      PiecesScan(others, rest);
      PieceScans(p, Text(others) + rest);
      ConcatAssociates(TextOf(p), Text(others), rest);
      PrependPrepend(CodeOf(p), MaskOf(p), Code(others), Mask(others), Scan(rest));
    }
  }

  // ----------------------------------------------- what is read are pieces

  lemma {:induction false} BodyWasRead(s: string, q: char, n: nat)
    requires q in {'\'', '"', '`'} && BodyLen(s, q) == Some(n)
    ensures IsBody(s[..n - 1], q) && s[n - 1] == q && (n < |s| ==> s[n] != q)
    decreases |s|
  {
    if !(s[0] == q && !(|s| > 1 && s[1] == q)) {
      var k := if (s[0] == '\\' && q != '`' && |s| > 1) || s[0] == q then 2 else 1;
      BodyWasRead(s[k..], q, n - k);
      assert s[..n - 1][k..] == s[k..][..n - k - 1];
      assert s[k..][n - k - 1] == s[n - 1];
    }
  }

  lemma {:induction false} LineWasRead(s: string)
    ensures forall i | 0 <= i < LineLen(s) :: s[i] != '\n'
    decreases |s|
  {
    if s != [] && s[0] != '\n' {
      LineWasRead(s[1..]);
    }
  }

  lemma {:induction false} BlockWasRead(s: string, n: nat)
    requires BlockLen(s) == Some(n)
    ensures EndsBlockAt(s, n) && forall k: nat | k < n :: !EndsBlockAt(s, k)
    decreases |s|
  {
    if n > 0 {
      BlockWasRead(s[1..], n - 1);
      forall k: nat | k < n ensures !EndsBlockAt(s, k) {
        if k > 0 {
          assert !EndsBlockAt(s[1..], k - 1);
        }
      }
    }
  }

  /** The token a text starts with is a piece in front of the rest. */
  lemma TokenIsPiece(s: string) returns (p: Piece)
    requires s != [] && Token(s).0.Ok?
    ensures var n := Token(s).1; TextOf(p) == s[..n] && Stands(p, s[n..])
  {
    var n := Token(s).1;
    if IsQuote(s[0]) {
      p := QuotedPiece(s, n);
    } else if StartsLineComment(s) {
      LineWasRead(s);
      p := ToLineEnd(s[..n]);
    } else if StartsBlockComment(s) {
      p := BlockPiece(s, n);
    } else {
      p := Plain(s[0]);
    }
  }

  lemma QuotedPiece(s: string, n: nat) returns (p: Piece)
    requires s != [] && IsQuote(s[0]) && n > 0 && BodyLen(s[1..], s[0]) == Some(n - 1)
    ensures TextOf(p) == s[..n] && Stands(p, s[n..])
  {
    var q, body := s[0], s[1..n - 1];
    BodyWasRead(s[1..], q, n - 1);
    assert s[1..][..n - 2] == body && s[1..][n - 2] == s[n - 1];
    assert n < |s| ==> s[1..][n - 1] == s[n];
    p := Quoted(q, body);
    assert s[..n] == [q] + body + [q];
  }

  lemma BlockPiece(s: string, n: nat) returns (p: Piece)
    requires StartsBlockComment(s) && !(|s| > 2 && s[2] == '!') && n >= 4 && BlockLen(s[2..]) == Some(n - 4)
    ensures TextOf(p) == s[..n] && Stands(p, s[n..])
  {
    var inner, text := s[2..], s[2..n - 2];
    BlockWasRead(inner, n - 4);
    assert inner[n - 4] == s[n - 2] && inner[n - 3] == s[n - 1];
    assert s[..n] == "/*" + text + "*/";
    forall k: nat | k < |text| ensures !EndsBlockAt(text + "*/", k) {
      assert !EndsBlockAt(inner, k);
      assert (text + "*/")[k] == inner[k] && (text + "*/")[k + 1] == inner[k + 1];
    }
    p := Block(text);
  }

  lemma {:induction false} FallsIntoPieces(s: string) returns (ps: seq<Piece>)
    requires Scan(s).Ok?
    ensures Text(ps) + [] == s && Stand(ps, [])
    decreases |s|
  {
    if s == [] {
      ps := [];
    } else {
      ScanByToken(s);
      var n := Token(s).1;
      var p := TokenIsPiece(s);
      var others := FallsIntoPieces(s[n..]);
      assert Text(others) + [] == s[n..];
      PieceInFront(p, others, [], s, n);
      ps := [p] + others;
    }
  }

  lemma PieceInFront(p: Piece, others: seq<Piece>, rest: string, s: string, n: nat)
    requires n <= |s| && TextOf(p) == s[..n] && Stands(p, s[n..]) && Text(others) + rest == s[n..] && Stand(others, rest)
    ensures Text([p] + others) + rest == s && Stand([p] + others, rest)
  {
    var ps := [p] + others;
    assert ps[1..] == others && s == s[..n] + s[n..];
    ConcatAssociates(TextOf(p), Text(others), rest);
  }

  /** Every scan that succeeds reads pieces: comments and literals of any text are the
      ones the pieces name. */
  lemma ScanReadsPieces(s: string) returns (ps: seq<Piece>)
    requires Scan(s).Ok?
    ensures Text(ps) == s && Stand(ps, []) && Scan(s) == Ok(Scanned(Code(ps), Mask(ps)))
  {
    ps := FallsIntoPieces(s);
    PiecesScan(ps, []);
    assert Text(ps) + [] == Text(ps) && Code(ps) + [] == Code(ps) && Mask(ps) + [] == Mask(ps);
  }

  /** The scanner succeeds exactly on texts that fall into pieces. */
  lemma ScansIff(s: string)
    ensures Scan(s).Ok? <==> exists ps :: Text(ps) == s && Stand(ps, [])
  {
    if Scan(s).Ok? {
      var ps := ScanReadsPieces(s);
    }
    if ps :| Text(ps) == s && Stand(ps, []) {
      PiecesScan(ps, []);
      assert Text(ps) + [] == s;
    }
  }

  // ------------------------------------------------------- what is rejected

  /** A literal that never closes: no body in front of a single quote of its kind. */
  ghost predicate NeverCloses(s: string) {
    && s != [] && s[0] in {'\'', '"', '`'}
    && forall k | 1 <= k < |s| :: !(IsBody(s[1..k], s[0]) && s[k] == s[0] && (k + 1 == |s| || s[k + 1] != s[0]))
  }

  /** What the rejected text starts with. */
  ghost predicate Rejects(s: string, e: Rejection) {
    match e
    case UnterminatedLiteral => NeverCloses(s)
    case ExecutableComment => |s| >= 3 && s[0] == '/' && s[1] == '*' && s[2] == '!'
    case UnterminatedComment => |s| >= 2 && s[0] == '/' && s[1] == '*' && forall k: nat | 2 <= k :: !EndsBlockAt(s, k)
    case _ => false
  }

  lemma {:induction false} NoBlockEnd(s: string)
    requires BlockLen(s).None?
    ensures forall k: nat :: !EndsBlockAt(s, k)
    decreases |s|
  {
    if |s| >= 2 {
      NoBlockEnd(s[1..]);
      forall k: nat ensures !EndsBlockAt(s, k) {
        if k > 0 {
          assert !EndsBlockAt(s[1..], k - 1);
        }
      }
    }
  }

  lemma ClosedIsRead(s: string, k: nat)
    requires 1 <= k < |s| && s[0] in {'\'', '"', '`'} && IsBody(s[1..k], s[0]) && s[k] == s[0] && (k + 1 == |s| || s[k + 1] != s[0])
    ensures BodyLen(s[1..], s[0]) == Some(k)
  {
    BodyIsRead(s[1..k], s[0], s[k + 1..]);
    assert s[1..] == s[1..k] + ([s[0]] + s[k + 1..]);
  }

  lemma NeverClosesIf(s: string)
    requires s != [] && IsQuote(s[0]) && BodyLen(s[1..], s[0]).None?
    ensures NeverCloses(s)
  {
    forall k | 1 <= k < |s| ensures !(IsBody(s[1..k], s[0]) && s[k] == s[0] && (k + 1 == |s| || s[k + 1] != s[0])) {
      if IsBody(s[1..k], s[0]) && s[k] == s[0] && (k + 1 == |s| || s[k + 1] != s[0]) {
        ClosedIsRead(s, k);
      }
    }
  }

  lemma TokenRejects(s: string)
    requires s != [] && Token(s).0.Err?
    ensures Rejects(s, Token(s).0.error)
  {
    if IsQuote(s[0]) {
      assert Token(s).0.error == UnterminatedLiteral;
      NeverClosesIf(s);
    } else if |s| > 2 && s[2] == '!' {
      assert Token(s).0.error == ExecutableComment;
    } else {
      assert Token(s).0.error == UnterminatedComment;
      NoBlockEnd(s[2..]);
      forall k: nat | 2 <= k ensures !EndsBlockAt(s, k) {
        assert !EndsBlockAt(s[2..], k - 2);
      }
    }
  }

  /** A scan that fails does so behind pieces, at a literal or a comment that never ends
      or at an executable comment. */
  lemma {:induction false} ScanFailsAt(s: string) returns (ps: seq<Piece>, rest: string)
    requires Scan(s).Err?
    ensures s == Text(ps) + rest && Stand(ps, rest) && Rejects(rest, Scan(s).error)
    decreases |s|
  {
    ScanByToken(s);
    if Token(s).0.Err? {
      TokenRejects(s);
      ps, rest := [], s;
    } else {
      var n := Token(s).1;
      var p := TokenIsPiece(s);
      var others;
      others, rest := ScanFailsAt(s[n..]);
      PieceInFront(p, others, rest, s, n);
      ps := [p] + others;
    }
  }

  // ---------------------------------------------------------------- the gate

  /** The mask between `start` and `end` is what is left when blanks are cut from its
      front, and blanks and semicolons from its end. */
  ghost predicate IsTrimmed(m: string, start: nat, end: nat) {
    && start <= end <= |m|
    && (forall k | 0 <= k < start :: White(m[k])) && (start < end ==> !White(m[start]))
    && (forall k | end <= k < |m| :: White(m[k]) || m[k] == ';') && (end > start ==> !White(m[end - 1]) && m[end - 1] != ';')
  }

  /** The first word lies between `i` and `j`, behind blanks and opening parentheses. */
  ghost predicate IsFirstWord(u: Unicode, m: string, i: nat, j: nat) {
    && i <= j <= |m|
    && (forall k | 0 <= k < i :: White(m[k]) || m[k] == '(') && (i < |m| ==> !White(m[i]) && m[i] != '(')
    && (forall k | i <= k < j :: u.isLetter(m[k]) || m[k] == '_') && (j < |m| ==> !u.isLetter(m[j]) && m[j] != '_')
  }

  function Upper(u: Unicode, s: string): string {
    seq(|s|, k requires 0 <= k < |s| => u.toUpper(s[k]))
  }

  ghost predicate WordChar(c: char) {
    'a' <= c <= 'z' || 'A' <= c <= 'Z' || '0' <= c <= '9' || c == '_'
  }

  ghost predicate Either(c: char, lo: char, up: char) {
    c == lo || c == up
  }

  ghost predicate SpellsInto(m: string, k: nat) {
    k + 4 <= |m| && Either(m[k], 'i', 'I') && Either(m[k + 1], 'n', 'N') && Either(m[k + 2], 't', 'T') && Either(m[k + 3], 'o', 'O')
  }

  ghost predicate SpellsFile(m: string, k: nat) {
    k + 4 <= |m| && Either(m[k], 'f', 'F') && Either(m[k + 1], 'i', 'I') && Either(m[k + 2], 'l', 'L') && Either(m[k + 3], 'e', 'E')
  }

  ghost predicate SpellsOutfile(m: string, k: nat) {
    k + 7 <= |m| && Either(m[k], 'o', 'O') && Either(m[k + 1], 'u', 'U') && Either(m[k + 2], 't', 'T') && SpellsFile(m, k + 3)
  }

  ghost predicate SpellsDumpfile(m: string, k: nat) {
    && k + 8 <= |m| && Either(m[k], 'd', 'D') && Either(m[k + 1], 'u', 'U') && Either(m[k + 2], 'm', 'M') && Either(m[k + 3], 'p', 'P')
    && SpellsFile(m, k + 4)
  }

  /** A word that begins and ends at word boundaries. */
  ghost predicate EndsWord(m: string, k: nat) {
    k == |m| || (k < |m| && !WordChar(m[k]))
  }

  /** What \s stands for in the pattern. */
  ghost predicate Spacing(c: char) {
    c == ' ' || c == '\t' || c == '\n' || c == '\r' || c == '\U{000C}'
  }

  /** "into" as the start of a word, in any case. */
  ghost predicate StartsInto(m: string, k: nat) {
    SpellsInto(m, k) && (k == 0 || !WordChar(m[k - 1]))
  }

  /** "outfile" or "dumpfile" as the end of a word, in any case. */
  ghost predicate NamesFile(m: string, k: nat) {
    (SpellsOutfile(m, k) && EndsWord(m, k + 7)) || (SpellsDumpfile(m, k) && EndsWord(m, k + 8))
  }

  /** "into" at `k`, `gap` spaces, and then "outfile" or "dumpfile". */
  ghost predicate IntoFile(m: string, k: nat, gap: nat) {
    StartsInto(m, k) && IsGap(m, k + 4, gap) && NamesFile(m, k + 4 + gap)
  }

  /** The verdict on a trimmed mask whose first word lies between `i` and `j`. */
  ghost predicate Judged(u: Unicode, m: string, i: nat, j: nat, code: string, r: Result<string, Rejection>)
    requires i <= j <= |m|
  {
    if m == [] then r == Err(EmptyStatement)
    else if ';' in m then r == Err(SecondStatement)
    else if i == j then r == Err(NoVerb)
    else if Upper(u, m[i..j]) !in {"SELECT", "WITH", "SHOW", "DESC", "DESCRIBE", "EXPLAIN"} then r == Err(NotReadOnly(Upper(u, m[i..j])))
    else if exists k: nat, gap: nat :: IntoFile(m, k, gap) then r == Err(WritesServerFile)
    else r == Ok(code)
  }

  lemma LowerIs(c: char, lo: char, up: char)
    requires 'a' <= lo <= 'z' && up as int == lo as int - 32
    ensures Lower(c) == lo <==> Either(c, lo, up)
  {
    if 'A' <= c <= 'Z' {
      assert Lower(c) as int == c as int + 32;
    }
  }

  /** Four letters of a word at `k`. */
  lemma FourLetters(m: string, k: nat, w: string, u: string)
    requires |w| == |u| == 4 && k + 4 <= |m| && forall i | 0 <= i < 4 :: 'a' <= w[i] <= 'z' && u[i] as int == w[i] as int - 32
    ensures WordAt(m, k, w) <==>
              Either(m[k], w[0], u[0]) && Either(m[k + 1], w[1], u[1]) && Either(m[k + 2], w[2], u[2]) && Either(m[k + 3], w[3], u[3])
  {
    assert m[k + 0] == m[k];
    LowerIs(m[k], w[0], u[0]);
    LowerIs(m[k + 1], w[1], u[1]);
    LowerIs(m[k + 2], w[2], u[2]);
    LowerIs(m[k + 3], w[3], u[3]);
  }

  lemma WordInTwo(m: string, k: nat, a: string, b: string)
    ensures WordAt(m, k, a + b) <==> WordAt(m, k, a) && WordAt(m, k + |a|, b)
  {
    var w := a + b;
    if WordAt(m, k, w) {
      forall i | 0 <= i < |a| ensures Lower(m[k + i]) == a[i] {
        assert w[i] == a[i];
      }
      forall i | 0 <= i < |b| ensures Lower(m[k + |a| + i]) == b[i] {
        assert w[|a| + i] == b[i] && m[k + (|a| + i)] == m[k + |a| + i];
      }
    }
    if WordAt(m, k, a) && WordAt(m, k + |a|, b) {
      forall i | 0 <= i < |w| ensures Lower(m[k + i]) == w[i] {
        if i >= |a| {
          assert m[k + i] == m[k + |a| + (i - |a|)];
        }
      }
    }
  }

  lemma ThreeLetters(m: string, k: nat, w: string, u: string)
    requires |w| == |u| == 3 && k + 3 <= |m| && forall i | 0 <= i < 3 :: 'a' <= w[i] <= 'z' && u[i] as int == w[i] as int - 32
    ensures WordAt(m, k, w) <==> Either(m[k], w[0], u[0]) && Either(m[k + 1], w[1], u[1]) && Either(m[k + 2], w[2], u[2])
  {
    assert m[k + 0] == m[k];
    LowerIs(m[k], w[0], u[0]);
    LowerIs(m[k + 1], w[1], u[1]);
    LowerIs(m[k + 2], w[2], u[2]);
  }

  lemma IntoIs(m: string, k: nat)
    ensures IntoAt(m, k) <==> StartsInto(m, k)
  {
    if k + 4 <= |m| {
      FourLetters(m, k, "into", "INTO");
    }
  }

  lemma FilePartIs(m: string, k: nat)
    ensures WordAt(m, k, "file") <==> SpellsFile(m, k)
  {
    if k + 4 <= |m| {
      FourLetters(m, k, "file", "FILE");
    }
  }

  lemma OutfileIs(m: string, k: nat)
    ensures KeywordAt(m, k, "outfile") <==> SpellsOutfile(m, k) && EndsWord(m, k + 7)
  {
    assert "out" + "file" == "outfile";
    WordInTwo(m, k, "out", "file");
    FilePartIs(m, k + 3);
    if k + 3 <= |m| {
      ThreeLetters(m, k, "out", "OUT");
    }
  }

  lemma DumpfileIs(m: string, k: nat)
    ensures KeywordAt(m, k, "dumpfile") <==> SpellsDumpfile(m, k) && EndsWord(m, k + 8)
  {
    assert "dump" + "file" == "dumpfile";
    WordInTwo(m, k, "dump", "file");
    FilePartIs(m, k + 4);
    if k + 4 <= |m| {
      FourLetters(m, k, "dump", "DUMP");
    }
  }

  lemma FileIs(m: string, k: nat)
    ensures FileAt(m, k) <==> NamesFile(m, k)
  {
    OutfileIs(m, k);
    DumpfileIs(m, k);
  }

  lemma {:induction false} LeadingRunHolds(m: string, p: char -> bool)
    ensures var n := LeadingRun(m, p); (forall i | 0 <= i < n :: p(m[i])) && (n < |m| ==> !p(m[n]))
    decreases |m|
  {
    if m != [] && p(m[0]) {
      LeadingRunHolds(m[1..], p);
    }
  }

  lemma GapHolds(m: string, from: nat)
    requires from <= |m|
    ensures var gap := LeadingRun(m[from..], IsRegexpSpace);
            from + gap <= |m| && forall i | from <= i < from + gap :: Spacing(m[i])
  {
    var rest := m[from..];
    var gap := LeadingRun(rest, IsRegexpSpace);
    LeadingRunHolds(rest, IsRegexpSpace);
    forall i | from <= i < from + gap ensures Spacing(m[i]) {
      assert m[i] == rest[i - from] && IsRegexpSpace(rest[i - from]);
    }
  }

  /** The gap between the two words. */
  ghost predicate IsGap(m: string, from: nat, gap: nat) {
    gap > 0 && from + gap <= |m| && forall i | from <= i < from + gap :: Spacing(m[i])
  }

  lemma FoundParts(m: string, k: nat) returns (gap: nat)
    requires IntoFileAt(m, k)
    ensures IsGap(m, k + 4, gap) && IntoAt(m, k) && FileAt(m, k + 4 + gap)
  {
    gap := LeadingRun(m[k + 4..], IsRegexpSpace);
    GapHolds(m, k + 4);
  }

  lemma FoundIsIntoFile(m: string, k: nat) returns (gap: nat)
    requires IntoFileAt(m, k)
    ensures IntoFile(m, k, gap)
  {
    gap := FoundParts(m, k);
    IntoIs(m, k);
    FileIs(m, k + 4 + gap);
  }

  lemma IntoFileIsFound(m: string, k: nat, gap: nat)
    requires IntoFile(m, k, gap)
    ensures IntoFileAt(m, k)
  {
    IntoIs(m, k);
    FileIs(m, k + 4 + gap);
    GapIsRun(m, k, gap);
  }

  lemma WritesFileIff(m: string)
    ensures WritesFile(m) <==> exists k: nat, gap: nat :: IntoFile(m, k, gap)
  {
    if WritesFile(m) {
      var k: nat :| k < |m| && IntoFileAt(m, k);
      var gap := FoundIsIntoFile(m, k);
    }
    if k: nat, gap: nat :| IntoFile(m, k, gap) {
      IntoFileIsFound(m, k, gap);
    }
  }

  lemma GapIsRun(m: string, k: nat, gap: nat)
    requires IntoFile(m, k, gap)
    ensures LeadingRun(m[k + 4..], IsRegexpSpace) == gap
  {
    var f, rest := k + 4 + gap, m[k + 4..];
    assert rest[gap] == m[f] && (Either(m[f], 'o', 'O') || Either(m[f], 'd', 'D'));
    forall i | 0 <= i < gap ensures IsRegexpSpace(rest[i]) {
      assert rest[i] == m[k + 4 + i];
    }
    LeadingRunIs(rest, IsRegexpSpace, gap);
  }

  lemma VerbIs(u: Unicode, m: string) returns (i: nat, j: nat)
    ensures IsFirstWord(u, m, i, j) && LeadingVerb(u, m) == Upper(u, m[i..j])
  {
    i := LeadingRun(m, IsOpening);
    LeadingRunHolds(m, IsOpening);
    var body := m[i..];
    var n := LeadingRun(body, c => u.isLetter(c) || c == '_');
    LeadingRunHolds(body, c => u.isLetter(c) || c == '_');
    j := i + n;
    assert body[..n] == m[i..j];
    forall k | i <= k < j ensures u.isLetter(m[k]) || m[k] == '_' {
      assert m[k] == body[k - i];
    }
    assert j < |m| ==> m[j] == body[n];
  }

  lemma TrimIs(t: Scanned) returns (start: nat, end: nat)
    requires |t.code| == |t.mask|
    ensures IsTrimmed(t.mask, start, end) && Trim(t) == Scanned(t.code[start..end], t.mask[start..end])
  {
    end := KeptEnd(t.mask);
    start := KeptStart(t.mask[..end]);
  }

  lemma VerdictIs(u: Unicode, m: string, i: nat, j: nat, code: string)
    requires IsFirstWord(u, m, i, j) && LeadingVerb(u, m) == Upper(u, m[i..j])
    ensures Judged(u, m, i, j, code, match Verdict(u, m) case Some(e) => Err(e) case None => Ok(code))
  {
    WritesFileIff(m);
  }

  /**
   What the gate does with any statement that scans: it cuts blanks and trailing
   semicolons, refuses nothing, a second statement, a missing word and a first word that
   is not one of the six, and a file-writing form, each with its own rejection and in this
   order, and otherwise returns the scanned text.
   */
  lemma GuardJudges(u: Unicode, s: string, t: Scanned) returns (start: nat, end: nat, i: nat, j: nat)
    requires Scan(s) == Ok(t)
    ensures |t.code| == |t.mask| && IsTrimmed(t.mask, start, end)
    ensures IsFirstWord(u, t.mask[start..end], i, j)
    ensures Judged(u, t.mask[start..end], i, j, t.code[start..end], Guard(u, s))
  {
    ScanAligned(s);
    AlignedLength(t.code, t.mask);
    start, end := TrimIs(t);
    var m := t.mask[start..end];
    i, j := VerbIs(u, m);
    VerdictIs(u, m, i, j, t.code[start..end]);
  }

  /** A statement that does not scan is rejected for that. */
  lemma GuardRejectsUnscanned(u: Unicode, s: string)
    requires Scan(s).Err?
    ensures Guard(u, s) == Err(Scan(s).error)
  {
  }
}
